/** Versioned reward configurations: engines that cache one each, over one table of stored ones. */
module RewardConfigs {
  import opened Sequences

  /** A version number and everything else the configuration says. */
  datatype Config = Config(version: int, terms: string)

  datatype ConfigRow = ConfigRow(config: Config, active: bool)

  /** `inFlight` holds the versions stored by loads that have not yet deactivated the lower ones. */
  datatype State = State(rows: seq<ConfigRow>, caches: map<nat, Config>, inFlight: set<int>)

  /** The two awaited steps of a load, and a read; any number of engines interleave them. */
  datatype Event = Begin(engine: nat, config: Config) | Finish(version: int) | Get(engine: nat)

  predicate Stored(rows: seq<ConfigRow>, version: int) {
    exists i :: 0 <= i < |rows| && rows[i].config.version == version
  }

  function Deactivate(rows: seq<ConfigRow>, version: int): (r: seq<ConfigRow>)
    ensures |r| == |rows|
    ensures forall i :: 0 <= i < |r| ==>
              r[i] == ConfigRow(rows[i].config, rows[i].active && !(rows[i].config.version < version))
  {
    if rows == [] then []
    else
      var last := rows[|rows| - 1];
      Deactivate(rows[..|rows| - 1], version)
      + [if last.config.version < version && last.active then last.(active := false) else last]
  }

  ghost predicate LowerVersionsOff(rows: seq<ConfigRow>, version: int) {
    forall i :: 0 <= i < |rows| && rows[i].config.version < version ==> !rows[i].active
  }

  lemma DeactivateTurnsOff(rows: seq<ConfigRow>, version: int)
    ensures LowerVersionsOff(Deactivate(rows, version), version)
  {
  }

  /** The first active row in descending order of version. */
  function NewestActive(rows: seq<ConfigRow>): Option<Config> {
    if rows == [] then None
    else
      var best, last := NewestActive(rows[..|rows| - 1]), rows[|rows| - 1];
      if last.active && (best.None? || last.config.version > best.value.version) then Some(last.config) else best
  }

  function Served(s: State, engine: nat): Option<Config> {
    if engine in s.caches then Some(s.caches[engine]) else NewestActive(s.rows)
  }

  /** Names are unique and spell the version, so a version can be stored once. The cache is set first. */
  function Step(s: State, e: Event): State {
    match e
    case Begin(engine, c) =>
      var cached := s.(caches := s.caches[engine := c]);
      if Stored(s.rows, c.version) then cached
      else cached.(rows := s.rows + [ConfigRow(c, true)], inFlight := s.inFlight + {c.version})
    case Finish(v) =>
      if v in s.inFlight then s.(rows := Deactivate(s.rows, v), inFlight := s.inFlight - {v}) else s
    case Get(engine) =>
      if Served(s, engine).Some? then s.(caches := s.caches[engine := Served(s, engine).value]) else s
  }

  function Run(es: seq<Event>): State {
    if es == [] then State([], map[], {}) else Step(Run(es[..|es| - 1]), es[|es| - 1])
  }

  /** The table and one engine's cache after a history. */
  ghost predicate RowsAfter(es: seq<Event>, rows: seq<ConfigRow>) {
    rows == Run(es).rows
  }

  ghost predicate CacheAfter(es: seq<Event>, engine: nat, cache: Option<Config>) {
    cache == if engine in Run(es).caches then Some(Run(es).caches[engine]) else None
  }

  // ---- Which configurations are stored ----

  /** The configuration with which a version was loaded first. */
  function FirstLoaded(es: seq<Event>, version: int): Option<Config> {
    if es == [] then None
    else
      var earlier, last := FirstLoaded(es[..|es| - 1], version), es[|es| - 1];
      if earlier.None? && last.Begin? && last.config.version == version then Some(last.config) else earlier
  }

  ghost predicate Holds(rows: seq<ConfigRow>, c: Config) {
    exists i :: 0 <= i < |rows| && rows[i].config == c
  }

  lemma HoldsSnoc(rows: seq<ConfigRow>, row: ConfigRow, c: Config)
    ensures Holds(rows + [row], c) <==> Holds(rows, c) || row.config == c
  {
    var more := rows + [row];
    if Holds(rows, c) {
      var i :| 0 <= i < |rows| && rows[i].config == c;
      assert more[i].config == c;
    }
    assert more[|rows|] == row;
  }

  lemma HoldsDeactivated(rows: seq<ConfigRow>, version: int, c: Config)
    ensures Holds(Deactivate(rows, version), c) <==> Holds(rows, c)
  {
    var off := Deactivate(rows, version);
    if Holds(rows, c) {
      var i :| 0 <= i < |rows| && rows[i].config == c;
      assert off[i].config == c;
    }
  }

  /** In every interleaving, a configuration is stored iff it is the first one loaded with its version:
      a later load of that version is refused, whatever it says. */
  lemma {:induction false} StoredIsFirstLoaded(es: seq<Event>, c: Config)
    ensures Holds(Run(es).rows, c) <==> FirstLoaded(es, c.version) == Some(c)
  {
    if es != [] {
      var init, e := es[..|es| - 1], es[|es| - 1];
      var rows := Run(init).rows;
      StoredIsFirstLoaded(init, c);
      match e
      case Begin(_, d) =>
        StoredIffLoaded(init, d.version);
        HoldsSnoc(rows, ConfigRow(d, true), c);
      case Finish(v) =>
        HoldsDeactivated(rows, v, c);
      case Get(_) =>
    }
  }

  lemma {:induction false} StoredIffLoaded(es: seq<Event>, version: int)
    ensures Stored(Run(es).rows, version) <==> FirstLoaded(es, version).Some?
    ensures FirstLoaded(es, version).Some? ==> FirstLoaded(es, version).value.version == version
  {
    if es != [] {
      var init, e := es[..|es| - 1], es[|es| - 1];
      var rows := Run(init).rows;
      StoredIffLoaded(init, version);
      match e
      case Begin(_, d) =>
        var more := rows + [ConfigRow(d, true)];
        assert more[|rows|].config == d;
        assert forall i :: 0 <= i < |rows| ==> more[i] == rows[i];
      case Finish(v) =>
        var off := Deactivate(rows, v);
        assert forall i :: 0 <= i < |rows| ==> off[i].config == rows[i].config;
      case Get(_) =>
    }
  }

  lemma RunSnoc(es: seq<Event>, e: Event)
    ensures Run(es + [e]) == Step(Run(es), e)
  {
    assert (es + [e])[..|es|] == es;
  }

  lemma {:induction false} CacheSticks(es: seq<Event>, engine: nat, c: Config, later: seq<Event>)
    requires forall i :: 0 <= i < |later| && later[i].Begin? ==> later[i].engine != engine
    requires engine in Run(es).caches && Run(es).caches[engine] == c
    ensures engine in Run(es + later).caches && Run(es + later).caches[engine] == c
  {
    hide Run, Deactivate, Stored, NewestActive;
    if later == [] {
      assert es + later == es;
    } else {
      var init, last := later[..|later| - 1], later[|later| - 1];
      CacheSticks(es, engine, c, init);
      assert es + later == (es + init) + [last];
      RunSnoc(es + init, last);
    }
  }

  /** A load is served by its own engine from then on, until that engine loads again; yet it is what the
      table holds only if its version had not been loaded before with something else. */
  lemma LoadIsServedStoredIffFirst(es: seq<Event>, engine: nat, c: Config, later: seq<Event>)
    requires forall i :: 0 <= i < |later| && later[i].Begin? ==> later[i].engine != engine
    ensures Served(Run(es + [Begin(engine, c)] + later), engine) == Some(c)
    ensures Holds(Run(es + [Begin(engine, c)] + later).rows, c)
            <==> FirstLoaded(es, c.version) == None || FirstLoaded(es, c.version) == Some(c)
  {
    hide Run, Holds;
    var loaded := es + [Begin(engine, c)];
    RunSnoc(es, Begin(engine, c));
    CacheSticks(loaded, engine, c, later);
    StoredIsFirstLoaded(loaded + later, c);
    assert loaded[..|es|] == es;
    FirstLoadedSticks(loaded, later, c.version);
  }

  lemma {:induction false} FirstLoadedSticks(es: seq<Event>, later: seq<Event>, version: int)
    requires FirstLoaded(es, version).Some?
    ensures FirstLoaded(es + later, version) == FirstLoaded(es, version)
  {
    if later == [] {
      assert es + later == es;
    } else {
      FirstLoadedSticks(es, later[..|later| - 1], version);
      assert (es + later)[..|es + later| - 1] == es + later[..|later| - 1];
    }
  }

  // ---- Which rows are active ----

  ghost predicate Unique(rows: seq<ConfigRow>) {
    forall i, j :: 0 <= i < j < |rows| ==> rows[i].config.version != rows[j].config.version
  }

  /** Row `j` has a greater version than row `i` and its load has finished. */
  ghost predicate Outranks(s: State, j: nat, i: nat)
    requires i < |s.rows| && j < |s.rows|
  {
    s.rows[j].config.version > s.rows[i].config.version && s.rows[j].config.version !in s.inFlight
  }

  /** A finished load has deactivated every row stored before it with a lower version. */
  ghost predicate LowerAreOff(s: State) {
    forall i, j :: 0 <= i < j < |s.rows| && Outranks(s, j, i) ==> !s.rows[i].active
  }

  ghost predicate Outranked(s: State, i: nat)
    requires i < |s.rows|
  {
    exists j :: 0 <= j < |s.rows| && Outranks(s, j, i)
  }

  /** Only a greater version loaded to the end deactivates a row. */
  ghost predicate OffAreOutranked(s: State) {
    forall i :: 0 <= i < |s.rows| && !s.rows[i].active ==> Outranked(s, i)
  }

  ghost predicate InFlightAreStored(s: State) {
    forall v :: v in s.inFlight ==> Stored(s.rows, v)
  }

  ghost predicate Sound(s: State) {
    Unique(s.rows) && InFlightAreStored(s) && LowerAreOff(s) && OffAreOutranked(s)
  }

  lemma SameRowsSound(s: State, t: State)
    requires Sound(s) && t.rows == s.rows && t.inFlight == s.inFlight
    ensures Sound(t)
  {
    forall i | 0 <= i < |t.rows| && !t.rows[i].active ensures Outranked(t, i) {
      assert Outranked(s, i);
      var j :| 0 <= j < |s.rows| && Outranks(s, j, i);
      assert Outranks(t, j, i);
    }
    assert forall i, j :: 0 <= i < j < |t.rows| && Outranks(t, j, i) ==> Outranks(s, j, i);
  }

  lemma BeginKeepsSound(s: State, engine: nat, c: Config)
    requires Sound(s)
    ensures Sound(Step(s, Begin(engine, c)))
  {
    if !Stored(s.rows, c.version) {
      StoreKeepsSound(s, Step(s, Begin(engine, c)), c);
    } else {
      SameRowsSound(s, Step(s, Begin(engine, c)));
    }
  }

  lemma StoreKeepsSound(s: State, t: State, c: Config)
    requires Sound(s) && !Stored(s.rows, c.version)
    requires t.rows == s.rows + [ConfigRow(c, true)] && t.inFlight == s.inFlight + {c.version}
    ensures Sound(t)
  {
    assert Unique(t.rows);
    assert InFlightAreStored(t) by {
      forall v | v in t.inFlight ensures Stored(t.rows, v) {
        if v == c.version {
          assert t.rows[|s.rows|].config.version == v;
        } else {
          assert Stored(s.rows, v);
          var i :| 0 <= i < |s.rows| && s.rows[i].config.version == v;
          assert t.rows[i].config.version == v;
        }
      }
    }
    assert LowerAreOff(t) by {
      forall i, j | 0 <= i < j < |t.rows| && Outranks(t, j, i) ensures !t.rows[i].active {
        assert j < |s.rows| && Outranks(s, j, i);
      }
    }
    assert OffAreOutranked(t) by {
      forall i | 0 <= i < |t.rows| && !t.rows[i].active ensures Outranked(t, i) {
        assert Outranked(s, i);
        var j :| 0 <= j < |s.rows| && Outranks(s, j, i);
        assert Outranks(t, j, i);
      }
    }
  }

  lemma FinishKeepsSound(s: State, v: int)
    requires Sound(s)
    ensures Sound(Step(s, Finish(v)))
  {
    if v in s.inFlight {
      DeactivateKeepsSound(s, Step(s, Finish(v)), v);
    }
  }

  lemma DeactivateKeepsSound(s: State, t: State, v: int)
    requires Sound(s) && v in s.inFlight
    requires t.rows == Deactivate(s.rows, v) && t.inFlight == s.inFlight - {v}
    ensures Sound(t)
  {
    assert Unique(t.rows);
    assert InFlightAreStored(t) by {
      forall w | w in t.inFlight ensures Stored(t.rows, w) {
        assert Stored(s.rows, w);
        var i :| 0 <= i < |s.rows| && s.rows[i].config.version == w;
        assert t.rows[i].config.version == w;
      }
    }
    assert LowerAreOff(t) by {
      forall i, j | 0 <= i < j < |t.rows| && Outranks(t, j, i) ensures !t.rows[i].active {
        assert s.rows[j].config.version == v || Outranks(s, j, i);
      }
    }
    assert OffAreOutranked(t) by {
      assert Stored(s.rows, v);
      var k :| 0 <= k < |s.rows| && s.rows[k].config.version == v;
      forall i | 0 <= i < |t.rows| && !t.rows[i].active ensures Outranked(t, i) {
        if s.rows[i].active {
          assert Outranks(t, k, i);
        } else {
          assert Outranked(s, i);
          var j :| 0 <= j < |s.rows| && Outranks(s, j, i);
          assert Outranks(t, j, i);
        }
      }
    }
  }

  /** However loads interleave. */
  lemma {:induction false} AlwaysSound(es: seq<Event>)
    ensures Sound(Run(es))
  {
    if es != [] {
      var s := Run(es[..|es| - 1]);
      AlwaysSound(es[..|es| - 1]);
      match es[|es| - 1]
      case Begin(engine, c) => BeginKeepsSound(s, engine, c);
      case Finish(v) => FinishKeepsSound(s, v);
      case Get(_) =>
        SameRowsSound(s, Run(es));
    }
  }

  lemma AlwaysUnique(es: seq<Event>)
    ensures Unique(Run(es).rows)
  {
    hide Run, Unique;
    AlwaysSound(es);
  }

  lemma {:induction false} NewestActiveIs(rows: seq<ConfigRow>, k: nat)
    requires Unique(rows) && k < |rows| && rows[k].active
    requires forall i :: 0 <= i < |rows| ==> rows[i].config.version <= rows[k].config.version
    ensures NewestActive(rows) == Some(rows[k].config)
  {
    var init, last := rows[..|rows| - 1], rows[|rows| - 1];
    if k < |init| {
      NewestActiveIs(init, k);
    } else {
      NewestActiveStored(init);
    }
  }

  lemma {:induction false} NewestActiveStored(rows: seq<ConfigRow>)
    ensures NewestActive(rows).Some? ==> exists i :: 0 <= i < |rows| && rows[i].config == NewestActive(rows).value
  {
    if rows != [] {
      var init, last := rows[..|rows| - 1], rows[|rows| - 1];
      NewestActiveStored(init);
      if NewestActive(rows) == NewestActive(init) && NewestActive(init).Some? {
        var i :| 0 <= i < |init| && init[i].config == NewestActive(init).value;
        assert rows[i].config == NewestActive(rows).value;
      }
    }
  }

  /** However loads interleave, an engine that has cached nothing serves the greatest version ever loaded,
      as it was first loaded; it has nothing to serve iff nothing was ever loaded. */
  lemma FreshEngineServesGreatest(es: seq<Event>, engine: nat)
    requires engine !in Run(es).caches
    ensures Served(Run(es), engine).None? <==> forall v :: FirstLoaded(es, v).None?
    ensures Served(Run(es), engine).Some? ==>
              var c := Served(Run(es), engine).value;
              FirstLoaded(es, c.version) == Some(c)
              && forall v :: FirstLoaded(es, v).Some? ==> v <= c.version
  {
    var s := Run(es);
    AlwaysSound(es);
    forall v ensures Stored(s.rows, v) <==> FirstLoaded(es, v).Some? {
      StoredIffLoaded(es, v);
    }
    if s.rows != [] {
      var k := Greatest(s.rows);
      assert !Outranked(s, k);
      NewestActiveIs(s.rows, k);
      assert Holds(s.rows, s.rows[k].config);
      StoredIsFirstLoaded(es, s.rows[k].config);
    }
  }

  lemma {:induction false} Greatest(rows: seq<ConfigRow>) returns (k: nat)
    requires rows != []
    ensures k < |rows| && forall i :: 0 <= i < |rows| ==> rows[i].config.version <= rows[k].config.version
  {
    if |rows| == 1 {
      k := 0;
    } else {
      k := Greatest(rows[..|rows| - 1]);
      if rows[|rows| - 1].config.version > rows[k].config.version {
        k := |rows| - 1;
      }
    }
  }

  // ---- Exactly which rows are active, however loads interleave ----

  /** Event `k` is the end of a load of a greater version, with version `v` already stored. */
  ghost predicate FinishesAbove(es: seq<Event>, k: nat, v: int) {
    && k < |es| && es[k].Finish? && es[k].version > v
    && es[k].version in Run(es[..k]).inFlight && Stored(Run(es[..k]).rows, v)
  }

  ghost predicate Superseded(es: seq<Event>, v: int) {
    exists k: nat :: FinishesAbove(es, k, v)
  }

  lemma SupersededSnoc(es: seq<Event>, e: Event, v: int)
    ensures Superseded(es + [e], v)
            <==> Superseded(es, v)
                 || (e.Finish? && e.version > v && e.version in Run(es).inFlight && Stored(Run(es).rows, v))
  {
    hide Run, Stored;
    var more := es + [e];
    assert more[..|es|] == es;
    forall k: nat | k < |es| ensures FinishesAbove(more, k, v) <==> FinishesAbove(es, k, v) {
      assert more[..k] == es[..k];
    }
    if e.Finish? && e.version > v && e.version in Run(es).inFlight && Stored(Run(es).rows, v) {
      assert FinishesAbove(more, |es|, v);
    }
  }

  lemma NotSupersededUnstored(es: seq<Event>, v: int)
    requires !Stored(Run(es).rows, v)
    ensures !Superseded(es, v)
  {
    hide Run, Stored;
    StoredIffLoaded(es, v);
    forall k: nat | k < |es| ensures !FinishesAbove(es, k, v) {
      StoredIffLoaded(es[..k], v);
      assert es == es[..k] + es[k..];
      if FirstLoaded(es[..k], v).Some? {
        FirstLoadedSticks(es[..k], es[k..], v);
      }
    }
  }

  lemma RowIsStored(rows: seq<ConfigRow>, i: nat)
    requires i < |rows|
    ensures Stored(rows, rows[i].config.version)
  {
  }

  /** The invariant behind it, for one event. */
  lemma SupersededStep(es: seq<Event>, e: Event, i: nat)
    requires i < |Run(es).rows|
    requires Run(es).rows[i].active <==> !Superseded(es, Run(es).rows[i].config.version)
    ensures i < |Step(Run(es), e).rows|
    ensures var row := Step(Run(es), e).rows[i];
            row.config == Run(es).rows[i].config && (row.active <==> !Superseded(es + [e], row.config.version))
  {
    var s, v := Run(es), Run(es).rows[i].config.version;
    SupersededSnoc(es, e, v);
    RowIsStored(s.rows, i);
    hide Run, Stored, Superseded, NewestActive;
  }

  /** In every interleaving a stored row is active iff no load of a greater version has finished since the
      row was stored. */
  lemma {:induction false} ActiveIffNotSuperseded(es: seq<Event>, i: nat)
    requires i < |Run(es).rows|
    ensures Run(es).rows[i].active <==> !Superseded(es, Run(es).rows[i].config.version)
  {
    if es != [] {
      var init, e := es[..|es| - 1], es[|es| - 1];
      assert es == init + [e];
      RunSnoc(init, e);
      hide Run, Stored, Superseded, Deactivate;
      if i < |Run(init).rows| {
        ActiveIffNotSuperseded(init, i);
        SupersededStep(init, e, i);
      } else {
        assert e.Begin? && !Stored(Run(init).rows, e.config.version);
        NotSupersededUnstored(init, e.config.version);
        SupersededSnoc(init, e, e.config.version);
      }
    }
  }

  /** The versions whose loads were in flight when version `v` was stored. */
  function InFlightWhenStored(es: seq<Event>, v: int): set<int> {
    if es == [] then {}
    else
      var init, e := es[..|es| - 1], es[|es| - 1];
      if e.Begin? && e.config.version == v && !Stored(Run(init).rows, v) then Run(init).inFlight
      else InFlightWhenStored(init, v)
  }

  lemma InFlightWhenStoredSnoc(es: seq<Event>, e: Event, v: int)
    ensures InFlightWhenStored(es + [e], v)
            == if e.Begin? && e.config.version == v && !Stored(Run(es).rows, v) then Run(es).inFlight
               else InFlightWhenStored(es, v)
  {
    assert (es + [e])[..|es|] == es;
  }

  /** No row stored later, and no load in flight when the row was stored, has a greater version and has
      finished since. */
  ghost predicate NoneAbove(s: State, held: set<int>, i: nat)
    requires i < |s.rows|
  {
    && (forall j :: i < j < |s.rows| ==> !Outranks(s, j, i))
    && (forall w :: w in held && w > s.rows[i].config.version ==> w in s.inFlight)
  }

  /** What is known of one row, its version's earlier loads being `held`. */
  ghost predicate Tracked(s: State, held: set<int>, i: nat)
    requires i < |s.rows|
  {
    && (forall j :: 0 <= j < i && s.rows[j].config.version in s.inFlight ==> s.rows[j].config.version in held)
    && (forall w :: w in held ==> Stored(s.rows, w))
    && (s.rows[i].active <==> NoneAbove(s, held, i))
  }

  lemma StoredSnoc(rows: seq<ConfigRow>, row: ConfigRow, v: int)
    ensures Stored(rows + [row], v) <==> Stored(rows, v) || row.config.version == v
  {
    var more := rows + [row];
    assert more[|rows|] == row;
    assert forall i :: 0 <= i < |rows| ==> more[i] == rows[i];
  }

  lemma StoreTracks(s: State, t: State, c: Config, held: set<int>, i: nat)
    requires i < |s.rows| && Tracked(s, held, i) && !Stored(s.rows, c.version)
    requires t.rows == s.rows + [ConfigRow(c, true)] && t.inFlight == s.inFlight + {c.version}
    ensures Tracked(t, held, i)
  {
    assert forall j :: 0 <= j < |s.rows| ==> t.rows[j] == s.rows[j] && s.rows[j].config.version != c.version;
    forall w | w in held ensures Stored(t.rows, w) && w != c.version {
      StoredSnoc(s.rows, ConfigRow(c, true), w);
    }
    assert forall j :: i < j < |s.rows| ==> Outranks(t, j, i) == Outranks(s, j, i);
    assert forall j :: i < j < |t.rows| && Outranks(t, j, i) ==> j < |s.rows|;
  }

  lemma NewRowTracks(s: State, t: State, c: Config)
    requires InFlightAreStored(s) && !Stored(s.rows, c.version)
    requires t.rows == s.rows + [ConfigRow(c, true)] && t.inFlight == s.inFlight + {c.version}
    ensures Tracked(t, s.inFlight, |s.rows|)
  {
    forall w | w in s.inFlight ensures Stored(t.rows, w) {
      StoredSnoc(s.rows, ConfigRow(c, true), w);
    }
    assert forall j :: 0 <= j < |s.rows| ==> t.rows[j] == s.rows[j] && s.rows[j].config.version != c.version;
  }

  lemma FinishTracks(s: State, t: State, v: int, held: set<int>, i: nat)
    requires i < |s.rows| && Tracked(s, held, i) && v in s.inFlight && Stored(s.rows, v)
    requires t.rows == Deactivate(s.rows, v) && t.inFlight == s.inFlight - {v}
    ensures Tracked(t, held, i)
  {
    assert forall j :: 0 <= j < |s.rows| ==> t.rows[j].config == s.rows[j].config;
    forall w | w in held ensures Stored(t.rows, w) {
      var j :| 0 <= j < |s.rows| && s.rows[j].config.version == w;
      assert t.rows[j].config.version == w;
    }
    var mine := s.rows[i].config.version;
    if mine < v {
      var k :| 0 <= k < |s.rows| && s.rows[k].config.version == v;
      if k > i {
        assert Outranks(t, k, i);
      } else {
        assert v in held;
      }
      assert !NoneAbove(t, held, i);
    } else {
      assert forall j :: i < j < |s.rows| ==> Outranks(t, j, i) == Outranks(s, j, i);
    }
  }

  lemma SameRowsTrack(s: State, t: State, held: set<int>, i: nat)
    requires i < |s.rows| && Tracked(s, held, i) && t.rows == s.rows && t.inFlight == s.inFlight
    ensures Tracked(t, held, i)
  {
    assert forall j :: i < j < |s.rows| ==> Outranks(t, j, i) == Outranks(s, j, i);
  }

  lemma {:induction false} AlwaysTracked(es: seq<Event>, i: nat)
    requires i < |Run(es).rows|
    ensures Tracked(Run(es), InFlightWhenStored(es, Run(es).rows[i].config.version), i)
  {
    if es != [] {
      var init, e := es[..|es| - 1], es[|es| - 1];
      assert es == init + [e];
      RunSnoc(init, e);
      AlwaysSound(init);
      hide Run, Tracked, Deactivate, NewestActive, InFlightWhenStored, Unique, LowerAreOff, OffAreOutranked;
      var s, t := Run(init), Run(es);
      if i < |s.rows| {
        var v := s.rows[i].config.version;
        AlwaysTracked(init, i);
        RowIsStored(s.rows, i);
        InFlightWhenStoredSnoc(init, e, v);
        TrackStep(s, e, InFlightWhenStored(init, v), i);
      } else {
        InFlightWhenStoredSnoc(init, e, e.config.version);
        NewRowTracks(s, t, e.config);
      }
    }
  }

  lemma TrackStep(s: State, e: Event, held: set<int>, i: nat)
    requires i < |s.rows| && Tracked(s, held, i) && InFlightAreStored(s)
    ensures i < |Step(s, e).rows| && Step(s, e).rows[i].config == s.rows[i].config
    ensures Tracked(Step(s, e), held, i)
  {
    var t := Step(s, e);
    if e.Begin? && !Stored(s.rows, e.config.version) {
      StoreTracks(s, t, e.config, held, i);
    } else if e.Finish? && e.version in s.inFlight {
      FinishTracks(s, t, e.version, held, i);
    } else {
      SameRowsTrack(s, t, held, i);
    }
  }

  ghost predicate NoLaterGreater(rows: seq<ConfigRow>, i: nat)
    requires i < |rows|
  {
    forall j :: i < j < |rows| ==> rows[j].config.version < rows[i].config.version
  }

  /** Version `v` was stored while the load of a greater one was in flight. */
  ghost predicate StoredUnderGreater(es: seq<Event>, v: int) {
    exists w :: w in InFlightWhenStored(es, v) && w > v
  }

  /** Once nothing is in flight: a row is active iff no row stored after it has a greater version and it was
      not stored while the load of a greater version was in flight. */
  lemma LandedActiveExactly(es: seq<Event>, i: nat)
    requires Run(es).inFlight == {} && i < |Run(es).rows|
    ensures Run(es).rows[i].active
            <==> NoLaterGreater(Run(es).rows, i) && !StoredUnderGreater(es, Run(es).rows[i].config.version)
  {
    AlwaysTracked(es, i);
    AlwaysUnique(es);
    hide Run, InFlightWhenStored;
    LandedNoneAbove(Run(es), InFlightWhenStored(es, Run(es).rows[i].config.version), i);
  }

  lemma LandedNoneAbove(s: State, held: set<int>, i: nat)
    requires s.inFlight == {} && i < |s.rows| && Unique(s.rows)
    ensures NoneAbove(s, held, i)
            <==> NoLaterGreater(s.rows, i) && !exists w :: w in held && w > s.rows[i].config.version
  {
    assert forall j :: i < j < |s.rows| ==> Outranks(s, j, i) == (s.rows[j].config.version > s.rows[i].config.version);
  }

  ghost predicate ActiveIffNoLaterGreater(rows: seq<ConfigRow>) {
    forall i :: 0 <= i < |rows| ==> (rows[i].active <==> NoLaterGreater(rows, i))
  }

  /** The exact condition, once nothing is in flight, for active rows to be those with no greater version
      stored after them: whatever was stored while a greater version's load was in flight has one. */
  lemma ActiveIffNoLaterGreaterExactly(es: seq<Event>)
    requires Run(es).inFlight == {}
    ensures ActiveIffNoLaterGreater(Run(es).rows)
            <==> forall i :: 0 <= i < |Run(es).rows| && StoredUnderGreater(es, Run(es).rows[i].config.version)
                   ==> !NoLaterGreater(Run(es).rows, i)
  {
    var rows := Run(es).rows;
    hide Run, StoredUnderGreater, NoLaterGreater;
    forall i | 0 <= i < |rows|
      ensures rows[i].active <==> NoLaterGreater(rows, i) && !StoredUnderGreater(es, rows[i].config.version)
    {
      LandedActiveExactly(es, i);
    }
  }

  // ---- Loads one at a time ----

  datatype Call = Load(engine: nat, config: Config) | Read(engine: nat)

  /** Each load runs to its end before the next call; a refused one ends at once. */
  function InTurn(calls: seq<Call>): seq<Event> {
    if calls == [] then []
    else
      InTurn(calls[..|calls| - 1])
      + match calls[|calls| - 1]
        case Load(engine, c) => [Begin(engine, c), Finish(c.version)]
        case Read(engine) => [Get(engine)]
  }

  lemma LoadKeepsOrder(rows: seq<ConfigRow>, c: Config)
    requires ActiveIffNoLaterGreater(rows) && !Stored(rows, c.version)
    ensures ActiveIffNoLaterGreater(Deactivate(rows + [ConfigRow(c, true)], c.version))
  {
    var more := rows + [ConfigRow(c, true)];
    var off := Deactivate(more, c.version);
    assert off[|rows|].config == c;
    assert forall i :: 0 <= i < |rows| ==> off[i].config == rows[i].config && rows[i].config.version != c.version;
  }

  lemma RunTwo(es: seq<Event>, a: Event, b: Event)
    ensures Run(es + [a, b]) == Step(Step(Run(es), a), b)
    ensures Run(es + [a]) == Step(Run(es), a)
  {
    assert (es + [a, b])[..|es| + 1] == es + [a];
    assert (es + [a])[..|es|] == es;
  }

  lemma RefusedLoad(es: seq<Event>, rows: seq<ConfigRow>, engine: nat, c: Config)
    requires RowsAfter(es, rows) && Stored(rows, c.version)
    ensures FirstLoaded(es, c.version).Some?
    ensures RowsAfter(es + [Begin(engine, c)], rows) && CacheAfter(es + [Begin(engine, c)], engine, Some(c))
  {
    StoredIffLoaded(es, c.version);
    RunSnoc(es, Begin(engine, c));
  }

  lemma AcceptedSteps(es: seq<Event>, engine: nat, c: Config)
    requires !Stored(Run(es).rows, c.version)
    ensures var t := es + [Begin(engine, c)] + [Finish(c.version)];
            && RowsAfter(t, Deactivate(Run(es).rows + [ConfigRow(c, true)], c.version))
            && CacheAfter(t, engine, Some(c))
  {
    hide Run, Stored, Deactivate, NewestActive;
    RunSnoc(es, Begin(engine, c));
    RunSnoc(es + [Begin(engine, c)], Finish(c.version));
  }

  lemma StoredRow(rows: seq<ConfigRow>, c: Config)
    ensures var after := Deactivate(rows + [ConfigRow(c, true)], c.version);
            Holds(after, c) && LowerVersionsOff(after, c.version)
  {
    HoldsSnoc(rows, ConfigRow(c, true), c);
    HoldsDeactivated(rows + [ConfigRow(c, true)], c.version, c);
    DeactivateTurnsOff(rows + [ConfigRow(c, true)], c.version);
  }

  lemma AcceptedLoad(es: seq<Event>, rows: seq<ConfigRow>, engine: nat, c: Config)
    requires RowsAfter(es, rows) && !Stored(rows, c.version)
    ensures FirstLoaded(es, c.version).None?
    ensures var t := es + [Begin(engine, c)] + [Finish(c.version)];
            var after := Deactivate(rows + [ConfigRow(c, true)], c.version);
            && RowsAfter(t, after) && CacheAfter(t, engine, Some(c))
            && Holds(after, c) && LowerVersionsOff(after, c.version)
  {
    hide Run, Stored, Holds, LowerVersionsOff, Deactivate, CacheAfter, FirstLoaded;
    StoredIffLoaded(es, c.version);
    AcceptedSteps(es, engine, c);
    StoredRow(rows, c);
  }

  lemma CallKeepsOrder(s: State, engine: nat, c: Config)
    requires s.inFlight == {} && ActiveIffNoLaterGreater(s.rows)
    ensures var t := Step(Step(s, Begin(engine, c)), Finish(c.version));
            t.inFlight == {} && ActiveIffNoLaterGreater(t.rows)
  {
    hide ActiveIffNoLaterGreater, Deactivate;
    if !Stored(s.rows, c.version) {
      LoadKeepsOrder(s.rows, c);
    }
  }

  /** When loads do not overlap, a stored row is active iff no row stored after it has a greater version. */
  lemma {:induction false} InTurnActiveExactly(calls: seq<Call>)
    ensures Run(InTurn(calls)).inFlight == {}
    ensures ActiveIffNoLaterGreater(Run(InTurn(calls)).rows)
  {
    if calls == [] {
      assert Run(InTurn(calls)).rows == [];
    } else {
      hide ActiveIffNoLaterGreater, Run, Stored, Deactivate;
      var init := InTurn(calls[..|calls| - 1]);
      InTurnActiveExactly(calls[..|calls| - 1]);
      match calls[|calls| - 1]
      case Load(engine, c) =>
        RunTwo(init, Begin(engine, c), Finish(c.version));
        CallKeepsOrder(Run(init), engine, c);
      case Read(engine) =>
        RunSnoc(init, Get(engine));
    }
  }

  ghost predicate ActiveDescend(rows: seq<ConfigRow>) {
    forall i, j :: 0 <= i < j < |rows| && rows[i].active && rows[j].active ==>
      rows[i].config.version > rows[j].config.version
  }

  ghost predicate OnlyLastActive(rows: seq<ConfigRow>) {
    forall i :: 0 <= i < |rows| && rows[i].active ==> i == |rows| - 1
  }

  ghost predicate LastIsGreatest(rows: seq<ConfigRow>) {
    forall i :: 0 <= i < |rows| ==> rows[i].config.version <= rows[|rows| - 1].config.version
  }

  lemma OrderDecidesActive(rows: seq<ConfigRow>)
    requires ActiveIffNoLaterGreater(rows) && Unique(rows)
    ensures ActiveDescend(rows) && (OnlyLastActive(rows) <==> LastIsGreatest(rows))
  {
    assert ActiveDescend(rows);
    if LastIsGreatest(rows) {
      forall i | 0 <= i < |rows| && rows[i].active ensures i == |rows| - 1 {
        assert rows[|rows| - 1].config.version >= rows[i].config.version;
      }
    } else {
      hide ActiveDescend, Unique;
      var k := Greatest(rows);
      assert rows[k].config.version > rows[|rows| - 1].config.version;
      GreatestIsActive(rows, k);
    }
  }

  lemma GreatestIsActive(rows: seq<ConfigRow>, k: nat)
    requires ActiveIffNoLaterGreater(rows) && Unique(rows)
    requires k < |rows| && forall i :: 0 <= i < |rows| ==> rows[i].config.version <= rows[k].config.version
    ensures rows[k].active
  {
    assert forall j :: k < j < |rows| ==> rows[j].config.version != rows[k].config.version;
  }

  /** Then active versions descend in load order, and the row stored last is alone in being active iff it
      has the greatest version: a lower version loaded late leaves the greater one active beside it. */
  lemma InTurnActiveDescend(calls: seq<Call>)
    ensures ActiveDescend(Run(InTurn(calls)).rows)
    ensures OnlyLastActive(Run(InTurn(calls)).rows) <==> LastIsGreatest(Run(InTurn(calls)).rows)
  {
    hide *;
    InTurnActiveExactly(calls);
    AlwaysUnique(InTurn(calls));
    OrderDecidesActive(Run(InTurn(calls)).rows);
  }

  /** When loads overlap this can fail: a greater version stored first but finished last deactivates the
      lower version stored after it. */
  lemma OverlapDeactivatesTheLater(engine: nat, other: nat, low: Config, high: Config)
    requires low.version < high.version
    ensures var es := [Begin(engine, high), Begin(other, low), Finish(low.version), Finish(high.version)];
            && Run(es).inFlight == {}
            && !ActiveIffNoLaterGreater(Run(es).rows)
            && Run(es).rows == [ConfigRow(high, true), ConfigRow(low, false)]
  {
    var a, b, d, e := Begin(engine, high), Begin(other, low), Finish(low.version), Finish(high.version);
    RunTwo([], a, b);
    RunTwo([a, b], d, e);
    assert [] + [a, b] == [a, b] && [a, b] + [d, e] == [a, b, d, e];
    OverlapSteps(engine, other, low, high);
    var rows := Run([a, b, d, e]).rows;
    assert !rows[1].active;
  }

  lemma OverlapSteps(engine: nat, other: nat, low: Config, high: Config)
    requires low.version < high.version
    ensures var both := Step(Step(State([], map[], {}), Begin(engine, high)), Begin(other, low));
            var end := Step(Step(both, Finish(low.version)), Finish(high.version));
            end.rows == [ConfigRow(high, true), ConfigRow(low, false)] && end.inFlight == {}
  {
    hide Deactivate;
    var one := Step(State([], map[], {}), Begin(engine, high));
    assert one.rows == [ConfigRow(high, true)] && one.inFlight == {high.version};
    var both := Step(one, Begin(other, low));
    assert both.rows == [ConfigRow(high, true), ConfigRow(low, true)];
    assert both.inFlight == {low.version, high.version};
    var third := Step(both, Finish(low.version));
    assert third.rows == both.rows;
    assert third.inFlight == {high.version};
    var end := Step(third, Finish(high.version));
    assert end.rows == [ConfigRow(high, true), ConfigRow(low, false)];
  }
}
