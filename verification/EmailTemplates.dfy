/** HTML escaping and variable injection for e-mail templates. */
module EmailTemplates {

  // ---- Escaping ----

  /** Every occurrence of one character replaced by a text. */
  function ReplaceAll(s: string, c: char, t: string): string {
    if s == "" then "" else (if s[0] == c then t else [s[0]]) + ReplaceAll(s[1..], c, t)
  }

  /** Four replacements, one after the other. */
  function EscapeHtml(s: string): string {
    ReplaceAll(ReplaceAll(ReplaceAll(ReplaceAll(s, '&', "&amp;"), '<', "&lt;"), '>', "&gt;"), '"', "&quot;")
  }

  function Entity(c: char): string {
    if c == '&' then "&amp;"
    else if c == '<' then "&lt;"
    else if c == '>' then "&gt;"
    else if c == '"' then "&quot;"
    else [c]
  }

  /** One simultaneous substitution, character by character. */
  function Substitute(s: string): string {
    if s == "" then "" else Entity(s[0]) + Substitute(s[1..])
  }

  lemma ConcatAssoc(a: string, b: string, c: string)
    ensures (a + b) + c == a + (b + c)
  {
  }

  lemma {:induction false} ReplaceConcat(a: string, b: string, c: char, t: string)
    ensures ReplaceAll(a + b, c, t) == ReplaceAll(a, c, t) + ReplaceAll(b, c, t)
  {
    if a == "" {
      assert a + b == b;
    } else {
      ReplaceConcat(a[1..], b, c, t);
      assert (a + b)[0] == a[0] && (a + b)[1..] == a[1..] + b;
      ConcatAssoc(if a[0] == c then t else [a[0]], ReplaceAll(a[1..], c, t), ReplaceAll(b, c, t));
    }
  }

  lemma {:induction false} ReplaceAbsent(s: string, c: char, t: string)
    requires c !in s
    ensures ReplaceAll(s, c, t) == s
  {
    if s != "" {
      ReplaceAbsent(s[1..], c, t);
    }
  }

  lemma EscapeConcat(a: string, b: string)
    ensures EscapeHtml(a + b) == EscapeHtml(a) + EscapeHtml(b)
  {
    ReplaceConcat(a, b, '&', "&amp;");
    var a1, b1 := ReplaceAll(a, '&', "&amp;"), ReplaceAll(b, '&', "&amp;");
    ReplaceConcat(a1, b1, '<', "&lt;");
    var a2, b2 := ReplaceAll(a1, '<', "&lt;"), ReplaceAll(b1, '<', "&lt;");
    ReplaceConcat(a2, b2, '>', "&gt;");
    ReplaceConcat(ReplaceAll(a2, '>', "&gt;"), ReplaceAll(b2, '>', "&gt;"), '"', "&quot;");
  }

  lemma ReplaceOne(x: char, c: char, t: string)
    ensures ReplaceAll([x], c, t) == if x == c then t else [x]
  {
    assert [x][1..] == "";
    assert ReplaceAll("", c, t) == "";
  }

  lemma EscapeOne(x: char)
    ensures EscapeHtml([x]) == Entity(x)
  {
    hide ReplaceAll;
    ReplaceOne(x, '&', "&amp;");
    if x == '&' {
      ReplaceAbsent("&amp;", '<', "&lt;");
      ReplaceAbsent("&amp;", '>', "&gt;");
      ReplaceAbsent("&amp;", '"', "&quot;");
    } else if x == '<' {
      ReplaceOne(x, '<', "&lt;");
      ReplaceAbsent("&lt;", '>', "&gt;");
      ReplaceAbsent("&lt;", '"', "&quot;");
    } else {
      ReplaceOne(x, '<', "&lt;");
      ReplaceOne(x, '>', "&gt;");
      if x == '>' {
        ReplaceAbsent("&gt;", '"', "&quot;");
      } else {
        ReplaceOne(x, '"', "&quot;");
      }
    }
  }

  /** The four sequential replacements are one simultaneous substitution: no replacement touches text
      that an earlier one inserted. */
  lemma {:induction false} EscapeIsSimultaneous(s: string)
    ensures EscapeHtml(s) == Substitute(s)
  {
    if s != "" {
      EscapeConcat([s[0]], s[1..]);
      assert s == [s[0]] + s[1..];
      EscapeOne(s[0]);
      EscapeIsSimultaneous(s[1..]);
    }
  }

  /** At each character: the four marked ones become entities, any other stays, and the text around it is escaped
      on its own. */
  lemma EscapeAt(pre: string, c: char, post: string)
    ensures EscapeHtml(pre + ([c] + post))
            == EscapeHtml(pre)
               + ((match c case '&' => "&amp;" case '<' => "&lt;" case '>' => "&gt;" case '"' => "&quot;" case _ => [c])
                  + EscapeHtml(post))
  {
    hide EscapeHtml;
    EscapeConcat(pre, [c] + post);
    EscapeConcat([c], post);
    EscapeOne(c);
  }

  predicate StartsWith(s: string, t: string) {
    |t| <= |s| && s[..|t|] == t
  }

  /** The first character a text stands for, and how much of the text it takes. */
  function Head(s: string): (h: (char, nat))
    requires s != ""
    ensures 1 <= h.1 <= |s|
  {
    if StartsWith(s, "&amp;") then ('&', 5)
    else if StartsWith(s, "&lt;") then ('<', 4)
    else if StartsWith(s, "&gt;") then ('>', 4)
    else if StartsWith(s, "&quot;") then ('"', 6)
    else (s[0], 1)
  }

  /** Decoding the four entities, left to right. */
  function Decode(s: string): string {
    if s == "" then "" else [Head(s).0] + Decode(s[Head(s).1..])
  }

  lemma Apart(s: string, t: string, i: nat)
    requires i < |s| && i < |t| && s[i] != t[i]
    ensures !StartsWith(s, t)
  {
    assert |t| <= |s| ==> s[..|t|][i] == s[i];
  }

  lemma HeadOfEntity(c: char, rest: string)
    ensures Head(Entity(c) + rest) == (c, |Entity(c)|)
  {
    var e := Entity(c);
    var s := e + rest;
    assert StartsWith(s, e) by { assert s[..|e|] == e; }
    assert forall i :: 0 <= i < |e| ==> s[i] == e[i];
    hide StartsWith;
    if c != '&' {
      if c == '<' || c == '>' || c == '"' {
        Apart(s, "&amp;", 1);
        if c != '<' { Apart(s, "&lt;", 1); }
        if c == '"' { Apart(s, "&gt;", 1); }
      } else {
        Apart(s, "&amp;", 0);
        Apart(s, "&lt;", 0);
        Apart(s, "&gt;", 0);
        Apart(s, "&quot;", 0);
      }
    }
  }

  lemma DecodeEntity(c: char, rest: string)
    ensures Decode(Entity(c) + rest) == [c] + Decode(rest)
  {
    HeadOfEntity(c, rest);
    hide Head;
    assert (Entity(c) + rest)[|Entity(c)|..] == rest;
  }

  /** Escaping loses nothing: decoding gives back every text. */
  lemma {:induction false} DecodeEscape(s: string)
    ensures Decode(EscapeHtml(s)) == s
  {
    EscapeIsSimultaneous(s);
    if s != "" {
      EscapeIsSimultaneous(s[1..]);
      DecodeEscape(s[1..]);
      DecodeEntity(s[0], Substitute(s[1..]));
    }
  }

  predicate EntityAt(s: string, i: nat)
    requires i <= |s|
  {
    StartsWith(s[i..], "&amp;") || StartsWith(s[i..], "&lt;") || StartsWith(s[i..], "&gt;")
    || StartsWith(s[i..], "&quot;")
  }

  lemma EntityShift(a: string, b: string, i: nat)
    requires i <= |b|
    ensures EntityAt(a + b, |a| + i) == EntityAt(b, i)
  {
    assert (a + b)[|a| + i..] == b[i..];
  }

  lemma EntityStarts(c: char, b: string)
    requires Entity(c) != [c]
    ensures EntityAt(Entity(c) + b, 0)
  {
    var s := Entity(c) + b;
    assert s[0..] == s && s[..|Entity(c)|] == Entity(c);
  }

  lemma EntityIsClean(c: char, i: nat)
    requires i < |Entity(c)|
    ensures Entity(c)[i] != '<' && Entity(c)[i] != '>' && Entity(c)[i] != '"'
    ensures Entity(c)[i] == '&' ==> i == 0 && Entity(c) != [c]
  {
  }

  /** Escaped text holds no raw angle bracket or double quote, and every ampersand in it starts one of
      the four entities. */
  lemma {:induction false} EscapedIsClean(s: string, i: nat)
    requires i < |EscapeHtml(s)|
    ensures EscapeHtml(s)[i] != '<' && EscapeHtml(s)[i] != '>' && EscapeHtml(s)[i] != '"'
    ensures EscapeHtml(s)[i] == '&' ==> EntityAt(EscapeHtml(s), i)
  {
    hide EscapeHtml, EntityAt, Entity;
    EscapeIsSimultaneous(s);
    EscapeIsSimultaneous(s[1..]);
    var e, rest := Entity(s[0]), Substitute(s[1..]);
    assert EscapeHtml(s) == e + rest;
    if i < |e| {
      EntityIsClean(s[0], i);
      if e != [s[0]] {
        EntityStarts(s[0], rest);
      }
    } else {
      EscapedIsClean(s[1..], i - |e|);
      EntityShift(e, rest, i - |e|);
    }
  }

  // ---- Injection ----

  predicate IsWord(c: char) {
    'a' <= c <= 'z' || 'A' <= c <= 'Z' || '0' <= c <= '9' || c == '_'
  }

  ghost predicate IsKey(key: string) {
    key != "" && forall i :: 0 <= i < |key| ==> IsWord(key[i])
  }

  /** The end of the longest run of word characters from `i`. */
  function WordEnd(s: string, i: nat): (e: nat)
    requires i <= |s|
    ensures i <= e <= |s|
    ensures forall j :: i <= j < e ==> IsWord(s[j])
    ensures e < |s| ==> !IsWord(s[e])
    decreases |s| - i
  {
    if i < |s| && IsWord(s[i]) then WordEnd(s, i + 1) else i
  }

  /** The end of the key of a placeholder at the start of `s`, 0 when there is none. */
  function KeyEnd(s: string): (e: nat)
    ensures e != 0 ==> 2 < e && e + 2 <= |s| && s[..2] == "{{" && s[e..e + 2] == "}}" && IsKey(s[2..e])
  {
    if !StartsWith(s, "{{") then 0
    else
      var e := WordEnd(s, 2);
      if e > 2 && e + 2 <= |s| && s[e..e + 2] == "}}" then e else 0
  }

  /** Own properties of the variables object, and the texts of those every object inherits. */
  datatype Vars = Vars(own: map<string, string>, inherited: map<string, string>)

  predicate Known(vars: Vars, key: string) {
    key in vars.own || key in vars.inherited
  }

  function Replacement(vars: Vars, key: string): string {
    if key in vars.own then vars.own[key]
    else if key in vars.inherited then vars.inherited[key]
    else Braced(key)
  }

  /** The text of a placeholder. */
  function Braced(key: string): string {
    "{{" + key + "}}"
  }

  /** One left-to-right pass over the template. */
  function InjectVars(html: string, vars: Vars): string
    decreases |html|
  {
    if html == "" then ""
    else
      var e := KeyEnd(html);
      if e != 0 then Replacement(vars, html[2..e]) + InjectVars(html[e + 2..], vars)
      else [html[0]] + InjectVars(html[1..], vars)
  }

  lemma WordEndIs(s: string, i: nat, e: nat)
    requires i <= e <= |s| && (e < |s| ==> !IsWord(s[e]))
    requires forall j :: i <= j < e ==> IsWord(s[j])
    ensures WordEnd(s, i) == e
  {
    var w := WordEnd(s, i);
  }

  /** A placeholder at the start of the text is found, with its whole key. */
  lemma KeyIsFound(key: string, post: string)
    requires IsKey(key)
    ensures KeyEnd(Braced(key) + post) == |key| + 2
    ensures var s := Braced(key) + post; |s| > 2 && s[0] == '{' && s[1] == '{'
  {
    var s, e := Braced(key) + post, |key| + 2;
    assert s[..2] == "{{" && s[e..e + 2] == "}}" && s[e] == '}';
    assert forall j :: 2 <= j < e ==> s[j] == key[j - 2];
    WordEndIs(s, 2, e);
  }

  /** What comes after an opening pair of braces does not change what is found before it. */
  lemma EarlierKeysAreLocal(pre: string, rest: string)
    requires pre != "" && |rest| > 2 && rest[0] == '{' && rest[1] == '{'
    ensures KeyEnd(pre + rest) == KeyEnd(pre)
  {
    var s := pre + rest;
    if |pre| == 1 {
      assert s[2] == '{';
    } else {
      assert s[..2] == pre[..2];
      assert s[|pre|] == '{';
      if StartsWith(pre, "{{") {
        var e := WordEnd(pre, 2);
        assert forall j :: 2 <= j < e ==> s[j] == pre[j];
        assert e < |s| && !IsWord(s[e]);
        WordEndIs(s, 2, e);
        if e + 2 <= |pre| {
          assert s[e..e + 2] == pre[e..e + 2];
        } else if e + 2 <= |s| {
          assert s[e..e + 2][|pre| - e] == '{';
        }
      }
    }
  }

  lemma InjectKey(s: string, e: nat, key: string, tail: string, vars: Vars)
    requires KeyEnd(s) == e != 0 && s == Braced(key) + tail && e == |key| + 2
    ensures InjectVars(s, vars) == Replacement(vars, key) + InjectVars(tail, vars)
  {
    assert s[2..e] == key && s[e + 2..] == tail;
  }

  lemma InjectEmpty(vars: Vars)
    ensures InjectVars("", vars) == ""
  {
  }

  lemma InjectChar(s: string, vars: Vars)
    requires s != "" && KeyEnd(s) == 0
    ensures InjectVars(s, vars) == [s[0]] + InjectVars(s[1..], vars)
  {
  }

  lemma CutKey(s: string, e: nat) returns (key: string, tail: string)
    requires KeyEnd(s) == e != 0
    ensures key == s[2..e] && tail == s[e + 2..] && s == Braced(key) + tail && IsKey(key)
  {
    key, tail := s[2..e], s[e + 2..];
    assert s == s[..2] + s[2..e] + s[e..e + 2] + s[e + 2..];
  }

  /** The meaning of injection, at any placeholder of the template: the text before it and the text
      after it are processed on their own, and what it is replaced by is inserted as it is, never
      scanned again. */
  lemma {:induction false} PlaceholderSplits(pre: string, key: string, post: string, vars: Vars)
    requires IsKey(key)
    ensures InjectVars(pre + (Braced(key) + post), vars)
            == InjectVars(pre, vars) + (Replacement(vars, key) + InjectVars(post, vars))
    decreases |pre|
  {
    var rest := Braced(key) + post;
    var s := pre + rest;
    hide *;
    KeyIsFound(key, post);
    if pre == "" {
      InjectKey(rest, |key| + 2, key, post, vars);
      InjectEmpty(vars);
      assert s == rest && pre == "";
    } else {
      EarlierKeysAreLocal(pre, rest);
      var e := KeyEnd(pre);
      if e != 0 {
        var k, tail := CutKey(pre, e);
        InjectKey(pre, e, k, tail, vars);
        ConcatAssoc(Braced(k), tail, rest);
        InjectKey(s, e, k, tail + rest, vars);
        PlaceholderSplits(tail, key, post, vars);
        ConcatAssoc(Replacement(vars, k), InjectVars(tail, vars), Replacement(vars, key) + InjectVars(post, vars));
      } else {
        InjectChar(pre, vars);
        InjectChar(s, vars);
        assert s[1..] == pre[1..] + rest && s[0] == pre[0];
        PlaceholderSplits(pre[1..], key, post, vars);
        ConcatAssoc([pre[0]], InjectVars(pre[1..], vars), Replacement(vars, key) + InjectVars(post, vars));
      }
    }
  }

  /** The same on the variables themselves: a given variable's value goes in as it is, the text of a name that is
      only inherited likewise, and a placeholder of any other name stays. */
  lemma InsertedText(pre: string, key: string, post: string, vars: Vars)
    requires IsKey(key)
    ensures var injected := InjectVars(pre + ("{{" + key + "}}" + post), vars);
            var before, after := InjectVars(pre, vars), InjectVars(post, vars);
            && (key in vars.own ==> injected == before + (vars.own[key] + after))
            && (key !in vars.own && key in vars.inherited ==> injected == before + (vars.inherited[key] + after))
            && (key !in vars.own && key !in vars.inherited ==> injected == before + ("{{" + key + "}}" + after))
  {
    PlaceholderSplits(pre, key, post, vars);
    hide InjectVars, IsKey;
  }

  /** The characters of a name, by their codes: digits, letters and the underscore. */
  lemma NameCodes(key: string)
    ensures IsKey(key)
            <==> key != ""
                 && forall i :: 0 <= i < |key| ==>
                      var code := key[i] as int;
                      48 <= code <= 57 || 65 <= code <= 90 || code == 95 || 97 <= code <= 122
  {
    assert forall c: char :: IsWord(c) <==>
      48 <= c as int <= 57 || 65 <= c as int <= 90 || c as int == 95 || 97 <= c as int <= 122;
    hide IsWord;
  }

  /** `html` is `pre`, a placeholder for `key`, and `post`. */
  ghost predicate HasPlaceholder(html: string, pre: string, key: string, post: string) {
    IsKey(key) && html == pre + (Braced(key) + post)
  }

  /** Every placeholder of the template is replaced by its own text. */
  ghost predicate AllStay(html: string, vars: Vars) {
    forall pre, key, post :: HasPlaceholder(html, pre, key, post) ==> Replacement(vars, key) == Braced(key)
  }

  lemma AllStayInRest(head: string, rest: string, vars: Vars)
    requires AllStay(head + rest, vars)
    ensures AllStay(rest, vars)
  {
    forall pre, key, post | HasPlaceholder(rest, pre, key, post) ensures Replacement(vars, key) == Braced(key) {
      assert head + (pre + (Braced(key) + post)) == (head + pre) + (Braced(key) + post);
      assert HasPlaceholder(head + rest, head + pre, key, post);
    }
  }

  lemma {:induction false} IdentityFrom(html: string, vars: Vars)
    requires AllStay(html, vars)
    ensures InjectVars(html, vars) == html
    decreases |html|
  {
    if html != "" {
      hide KeyEnd, InjectVars, IsKey, Replacement;
      var e := KeyEnd(html);
      if e != 0 {
        var key, tail := CutKey(html, e);
        assert HasPlaceholder(html, "", key, tail) by { assert "" + html == html; }
        AllStayInRest(Braced(key), tail, vars);
        IdentityFrom(tail, vars);
        InjectKey(html, e, key, tail, vars);
      } else {
        assert html == [html[0]] + html[1..];
        AllStayInRest([html[0]], html[1..], vars);
        IdentityFrom(html[1..], vars);
        InjectChar(html, vars);
      }
    }
  }

  /** A template none of whose placeholders names a known variable is left as it is. */
  lemma UnknownPlaceholdersStay(html: string, vars: Vars)
    requires forall pre, key, post :: HasPlaceholder(html, pre, key, post) ==> !Known(vars, key)
    ensures InjectVars(html, vars) == html
  {
    IdentityFrom(html, vars);
  }

  /** One placeholder is left as it is iff its name is unknown, or known with its own text as value:
      a name that every object inherits counts as known even though no variable was given for it. */
  lemma SinglePlaceholderStaysIff(key: string, vars: Vars)
    requires IsKey(key)
    ensures InjectVars(Braced(key), vars) == Braced(key)
            <==> !Known(vars, key) || Replacement(vars, key) == Braced(key)
  {
    PlaceholderSplits("", key, "", vars);
    assert "" + (Braced(key) + "") == Braced(key);
    assert "" + (Replacement(vars, key) + "") == Replacement(vars, key);
  }

  ghost predicate LeavesEveryTemplate(vars: Vars) {
    forall html :: InjectVars(html, vars) == html
  }

  ghost predicate KnownNamesStandForThemselves(vars: Vars) {
    forall key :: IsKey(key) && Known(vars, key) ==> Replacement(vars, key) == Braced(key)
  }

  /** Injection leaves every template as it is iff every known name that can be written as a placeholder
      has that placeholder as its text. */
  lemma IdentityIff(vars: Vars)
    ensures LeavesEveryTemplate(vars) <==> KnownNamesStandForThemselves(vars)
  {
    if LeavesEveryTemplate(vars) {
      forall key | IsKey(key) && Known(vars, key) ensures Replacement(vars, key) == Braced(key) {
        SinglePlaceholderStaysIff(key, vars);
      }
    }
    if KnownNamesStandForThemselves(vars) {
      forall html ensures InjectVars(html, vars) == html {
        StayEverywhere(html, vars);
        IdentityFrom(html, vars);
      }
    }
  }

  lemma StayEverywhere(html: string, vars: Vars)
    requires KnownNamesStandForThemselves(vars)
    ensures AllStay(html, vars)
  {
  }

  /** So giving no variables is not the identity: a placeholder called "constructor" names a property that
      every object inherits. */
  lemma EmptyMapIsNotTheIdentity(text: string)
    requires text != Braced("constructor")
    ensures InjectVars(Braced("constructor"), Vars(map[], map["constructor" := text])) != Braced("constructor")
  {
    SinglePlaceholderStaysIff("constructor", Vars(map[], map["constructor" := text]));
  }
}
