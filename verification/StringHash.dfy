/** The 32-bit string hash behind variant assignment. */
module StringHash {

  /** A UTF-16 code unit, as read from a string by index. */
  type CodeUnit = n: int | 0 <= n < 0x1_0000

  type Text = seq<CodeUnit>

  const TWO_32 := 0x1_0000_0000
  const TWO_31 := 0x8000_0000

  /** ToInt32 of section 7.1.6 of ECMA-262: the signed 32-bit residue. */
  function ToInt32(x: int): int {
    var m := x % TWO_32;
    if m >= TWO_31 then m - TWO_32 else m
  }

  /** Bitwise AND of two non-negative numbers. */
  function AndBits(x: nat, y: nat): nat {
    if x == 0 || y == 0 then 0
    else 2 * AndBits(x / 2, y / 2) + if x % 2 == 1 && y % 2 == 1 then 1 else 0
  }

  function ShiftLeft5(x: int): int {
    ToInt32(ToInt32(x) * 32)
  }

  function BitAnd(x: int, y: int): int {
    ToInt32(AndBits(x % TWO_32, y % TWO_32))
  }

  function Abs(x: int): int {
    if x < 0 then -x else x
  }

  /** 31 to the n. */
  function Pow31(n: nat): nat {
    if n == 0 then 1 else 31 * Pow31(n - 1)
  }

  /** The sum of c[i] * 31^(n-1-i) over the code units, without any wrap-around. */
  function Polynomial(s: Text): nat {
    if s == [] then 0 else s[0] * Pow31(|s| - 1) + Polynomial(s[1..])
  }

  lemma {:induction false} PolynomialSnoc(s: Text, c: CodeUnit)
    ensures Polynomial(s + [c]) == 31 * Polynomial(s) + c
  {
    if s == [] {
      assert (s + [c])[1..] == [];
      assert Polynomial([]) == 0;
    } else {
      PolynomialSnoc(s[1..], c);
      assert (s + [c])[1..] == s[1..] + [c];
      assert s[0] * Pow31(|s|) == 31 * (s[0] * Pow31(|s| - 1));
    }
  }

  lemma ResidueOfResidue(x: int)
    ensures ToInt32(ToInt32(x)) == ToInt32(x)
    ensures -TWO_31 <= ToInt32(x) < TWO_31
  {
  }

  /** The number of whole wraps between a number and its residue. */
  function Wraps(x: int): int {
    if x % TWO_32 >= TWO_31 then x / TWO_32 + 1 else x / TWO_32
  }

  lemma Unwrap(x: int)
    ensures x == ToInt32(x) + TWO_32 * Wraps(x)
  {
  }

  lemma Rewrap(x: int, k: int)
    ensures ToInt32(x + TWO_32 * k) == ToInt32(x)
  {
    assert (x + TWO_32 * k) % TWO_32 == x % TWO_32;
  }

  lemma {:induction false} AndBitsSelf(x: nat)
    ensures AndBits(x, x) == x
  {
    if x > 0 {
      AndBitsSelf(x / 2);
    }
  }

  /** AND of a number with itself is its signed 32-bit residue. */
  lemma AndWithItself(x: int)
    ensures BitAnd(x, x) == ToInt32(x)
  {
    AndBitsSelf(x % TWO_32);
    Idempotent(x);
    hide ToInt32, AndBits;
  }

  lemma Idempotent(x: int)
    ensures ToInt32(x % TWO_32) == ToInt32(x)
  {
  }

  /** One round of the loop is one Horner step on residues. */
  lemma Round(h: int, total: int, c: CodeUnit)
    requires h == ToInt32(total)
    ensures BitAnd(ShiftLeft5(h) - h + c, ShiftLeft5(h) - h + c) == ToInt32(31 * total + c)
  {
    ResidueOfResidue(total);
    var x := ShiftLeft5(h) - h + c;
    AndWithItself(x);
    Unwrap(h * 32);
    Unwrap(total);
    assert 31 * total + c == x + TWO_32 * (Wraps(h * 32) + 31 * Wraps(total));
    Rewrap(x, Wraps(h * 32) + 31 * Wraps(total));
  }

  /** What the hash is: the absolute value of the signed 32-bit residue of the polynomial. */
  function Hash(s: Text): int {
    Abs(ToInt32(Polynomial(s)))
  }

  lemma HashRange(s: Text)
    ensures 0 <= Hash(s) <= TWO_31
    ensures 0 <= Hash(s) % 100 < 100
  {
    ResidueOfResidue(Polynomial(s));
  }

  /** A text of one code unit is its own hash, so every residue of 100 occurs. */
  lemma HashOne(c: CodeUnit)
    ensures Hash([c]) == c
  {
    assert Polynomial([]) == 0 && [] + [c] == [c];
    PolynomialSnoc([], c);
  }

  /** The loop, with its shift, subtraction and AND. */
  method HashString(str: Text) returns (r: int)
    ensures r == Abs(ToInt32(Polynomial(str)))
    ensures 0 <= r <= TWO_31
  {
    var hash := 0;
    for i := 0 to |str|
      invariant hash == ToInt32(Polynomial(str[..i]))
    {
      var code := str[i];
      PolynomialSnoc(str[..i], code);
      assert str[..i + 1] == str[..i] + [code];
      Round(hash, Polynomial(str[..i]), code);
      hash := ShiftLeft5(hash) - hash + code;
      hash := BitAnd(hash, hash);
    }
    assert str[..|str|] == str;
    HashRange(str);
    return Abs(hash);
  }

  /** Both ends are reached: 0 by the empty text, 2^31 by a text of five code units, so the result need
      neither be positive nor fit a signed 32-bit integer. */
  lemma BothEndsAreReached()
    ensures Hash([]) == 0
    ensures Hash([2325, 9, 30, 12, 2]) == TWO_31
  {
    var s: Text := [2325];
    assert Polynomial([]) == 0 && [] + s == s;
    PolynomialSnoc([], 2325);
    PolynomialSnoc(s, 9);
    PolynomialSnoc(s + [9], 30);
    PolynomialSnoc(s + [9] + [30], 12);
    PolynomialSnoc(s + [9] + [30] + [12], 2);
    assert s + [9] + [30] + [12] + [2] == [2325, 9, 30, 12, 2];
    assert Polynomial([2325, 9, 30, 12, 2]) == 2147483648;
  }
}
