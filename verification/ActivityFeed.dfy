/** The activity feed: a WHERE clause built from the filters present, with numbered placeholders, and
    paging over the rows it selects. */
module ActivityFeed {
  import opened Sequences

  datatype Row = Row(id: string, groupId: string, actorUserId: string, eventType: string, createdAt: int)

  /** Times are instants; an absent filter is None, and an empty text or list counts as absent. */
  datatype Query = Query(
    groupId: Option<string>, userId: Option<string>, eventTypes: Option<seq<string>>,
    before: Option<int>, after: Option<int>, limit: Option<int>, page: Option<int>)

  const DEFAULT_LIMIT := 20
  const MAX_LIMIT := 100

  // ---- What a query asks for ----

  predicate Matches(q: Query, r: Row) {
    && (q.groupId.Some? && q.groupId.value != "" ==> r.groupId == q.groupId.value)
    && (q.userId.Some? && q.userId.value != "" ==> r.actorUserId == q.userId.value)
    && (q.eventTypes.Some? && q.eventTypes.value != [] ==> r.eventType in q.eventTypes.value)
    && (q.before.Some? ==> r.createdAt < q.before.value)
    && (q.after.Some? ==> r.createdAt > q.after.value)
  }

  function Wanted(q: Query): Row -> bool {
    (r: Row) => Matches(q, r)
  }

  function Limit(q: Query): int {
    var limit := if q.limit.Some? then q.limit.value else DEFAULT_LIMIT;
    if limit <= MAX_LIMIT then limit else MAX_LIMIT
  }

  function Page(q: Query): int {
    Max(if q.page.Some? then q.page.value else 1, 1)
  }

  // ---- The SQL it is turned into ----

  datatype Column = GroupId | ActorUserId | EventType | CreatedAt

  datatype Operator = Equals | AnyOf | Before | After

  /** `column operator $placeholder`; placeholders count from 1. */
  datatype Condition = Condition(column: Column, operator: Operator, placeholder: int)

  datatype Value = Text(text: string) | Texts(texts: seq<string>) | Instant(time: int) | Number(number: int)

  function Field(r: Row, c: Column): Value {
    match c
    case GroupId => Text(r.groupId)
    case ActorUserId => Text(r.actorUserId)
    case EventType => Text(r.eventType)
    case CreatedAt => Instant(r.createdAt)
  }

  function Compare(field: Value, o: Operator, v: Value): bool {
    match o
    case Equals => field == v
    case AnyOf => field.Text? && v.Texts? && field.text in v.texts
    case Before => field.Instant? && v.Instant? && field.time < v.time
    case After => field.Instant? && v.Instant? && field.time > v.time
  }

  /** The value bound to `$n`, if any. */
  function Bound(params: seq<Value>, n: int): Option<Value> {
    if 1 <= n <= |params| then Some(params[n - 1]) else None
  }

  predicate Holds(c: Condition, params: seq<Value>, r: Row) {
    Bound(params, c.placeholder).Some? && Compare(Field(r, c.column), c.operator, Bound(params, c.placeholder).value)
  }

  predicate HoldsAll(cs: seq<Condition>, params: seq<Value>, r: Row) {
    forall i :: 0 <= i < |cs| ==> Holds(cs[i], params, r)
  }

  function Selected(cs: seq<Condition>, params: seq<Value>): Row -> bool {
    (r: Row) => HoldsAll(cs, params, r)
  }

  /** Each condition is numbered by its own position, and there is a parameter for each. */
  predicate Numbered(cs: seq<Condition>, params: seq<Value>) {
    |cs| == |params| && forall i :: 0 <= i < |cs| ==> cs[i].placeholder == i + 1
  }

  /** More parameters at the end, and one more condition on the first of them. */
  lemma Extend(cs: seq<Condition>, params: seq<Value>, c: Condition, v: Value, r: Row)
    requires Numbered(cs, params) && c.placeholder == |params| + 1
    ensures Numbered(cs + [c], params + [v])
    ensures HoldsAll(cs + [c], params + [v], r)
            <==> HoldsAll(cs, params, r) && Compare(Field(r, c.column), c.operator, v)
  {
    MoreParams(cs, params, [v], r);
    var ds, ps := cs + [c], params + [v];
    if HoldsAll(ds, ps, r) {
      forall i | 0 <= i < |cs| ensures Holds(cs[i], ps, r) {
        assert ds[i] == cs[i];
      }
      assert Holds(ds[|cs|], ps, r);
    }
  }

  /** Conditions numbered within their own parameters do not see parameters appended later. */
  lemma MoreParams(cs: seq<Condition>, params: seq<Value>, more: seq<Value>, r: Row)
    requires Numbered(cs, params)
    ensures HoldsAll(cs, params + more, r) <==> HoldsAll(cs, params, r)
  {
    forall i | 0 <= i < |cs| ensures Holds(cs[i], params + more, r) <==> Holds(cs[i], params, r) {
      assert Bound(params + more, cs[i].placeholder) == Bound(params, cs[i].placeholder);
    }
  }

  /** The part of the query that the first `n` filters express. */
  function Only(q: Query, n: nat): Query {
    q.(groupId := if n >= 1 then q.groupId else None,
       userId := if n >= 2 then q.userId else None,
       eventTypes := if n >= 3 then q.eventTypes else None,
       before := if n >= 4 then q.before else None,
       after := if n >= 5 then q.after else None)
  }

  /** The clause built so far says exactly what the filters handled so far ask for. */
  ghost predicate Expresses(cs: seq<Condition>, params: seq<Value>, q: Query) {
    Numbered(cs, params) && forall r :: HoldsAll(cs, params, r) <==> Matches(q, r)
  }

  /** `q'` asks for one comparison more than `q`. */
  ghost predicate Adds(q: Query, q': Query, column: Column, operator: Operator, v: Value) {
    forall r :: Matches(q', r) <==> Matches(q, r) && Compare(Field(r, column), operator, v)
  }

  ghost predicate Alike(q: Query, q': Query) {
    forall r :: Matches(q', r) <==> Matches(q, r)
  }

  lemma StillExpresses(cs: seq<Condition>, params: seq<Value>, q: Query, q': Query)
    requires Expresses(cs, params, q) && Alike(q, q')
    ensures Expresses(cs, params, q')
  {
    hide HoldsAll, Matches, Numbered;
  }

  lemma GroupFilter(q: Query)
    ensures if q.groupId.Some? && q.groupId.value != ""
            then Adds(Only(q, 0), Only(q, 1), GroupId, Equals, Text(q.groupId.value)) else Alike(Only(q, 0), Only(q, 1))
  {
  }

  lemma ActorFilter(q: Query)
    ensures if q.userId.Some? && q.userId.value != ""
            then Adds(Only(q, 1), Only(q, 2), ActorUserId, Equals, Text(q.userId.value))
            else Alike(Only(q, 1), Only(q, 2))
  {
  }

  lemma TypeFilter(q: Query)
    ensures if q.eventTypes.Some? && q.eventTypes.value != []
            then Adds(Only(q, 2), Only(q, 3), EventType, AnyOf, Texts(q.eventTypes.value))
            else Alike(Only(q, 2), Only(q, 3))
  {
  }

  lemma BeforeFilter(q: Query)
    ensures if q.before.Some? then Adds(Only(q, 3), Only(q, 4), CreatedAt, Before, Instant(q.before.value))
            else Alike(Only(q, 3), Only(q, 4))
  {
  }

  lemma AfterFilter(q: Query)
    ensures if q.after.Some? then Adds(Only(q, 4), Only(q, 5), CreatedAt, After, Instant(q.after.value))
            else Alike(Only(q, 4), Only(q, 5))
  {
  }

  lemma NoFilter(q: Query)
    ensures Expresses([], [], Only(q, 0))
    ensures Only(q, 5) == q
  {
  }

  method Append(cs: seq<Condition>, params: seq<Value>, p: int, column: Column, operator: Operator, v: Value,
                ghost q: Query, ghost q': Query)
      returns (cs': seq<Condition>, params': seq<Value>, p': int)
    requires Expresses(cs, params, q) && p == |params| + 1
    requires Adds(q, q', column, operator, v)
    ensures Expresses(cs', params', q') && p' == |params'| + 1
    ensures cs' == cs + [Condition(column, operator, p)] && params' == params + [v]
  {
    cs' := cs + [Condition(column, operator, p)];
    params' := params + [v];
    p' := p + 1;
    hide HoldsAll, Matches, Compare, Field, Numbered;
    forall r ensures HoldsAll(cs', params', r) <==> Matches(q', r) {
      Extend(cs, params, Condition(column, operator, p), v, r);
    }
    Extend(cs, params, Condition(column, operator, p), v, Row("", "", "", "", 0));
  }

  /** For every combination of filters the numbered clause, with its parameters bound by number, selects
      exactly the rows that match the query, and the next placeholder is the one after the last. */
  method BuildWhere(q: Query) returns (conditions: seq<Condition>, params: seq<Value>, p: int)
    ensures Expresses(conditions, params, q) && p == |params| + 1
  {
    hide Expresses, Adds, Alike, Only, Matches;
    conditions, params, p := [], [], 1;
    NoFilter(q);
    GroupFilter(q);
    if q.groupId.Some? && q.groupId.value != "" {
      conditions, params, p := Append(conditions, params, p, GroupId, Equals, Text(q.groupId.value),
                                       Only(q, 0), Only(q, 1));
    } else {
      StillExpresses(conditions, params, Only(q, 0), Only(q, 1));
    }
    ActorFilter(q);
    if q.userId.Some? && q.userId.value != "" {
      conditions, params, p := Append(conditions, params, p, ActorUserId, Equals, Text(q.userId.value),
                                       Only(q, 1), Only(q, 2));
    } else {
      StillExpresses(conditions, params, Only(q, 1), Only(q, 2));
    }
    TypeFilter(q);
    if q.eventTypes.Some? && |q.eventTypes.value| > 0 {
      conditions, params, p := Append(conditions, params, p, EventType, AnyOf, Texts(q.eventTypes.value),
                                       Only(q, 2), Only(q, 3));
    } else {
      StillExpresses(conditions, params, Only(q, 2), Only(q, 3));
    }
    BeforeFilter(q);
    if q.before.Some? {
      conditions, params, p := Append(conditions, params, p, CreatedAt, Before, Instant(q.before.value),
                                       Only(q, 3), Only(q, 4));
    } else {
      StillExpresses(conditions, params, Only(q, 3), Only(q, 4));
    }
    AfterFilter(q);
    if q.after.Some? {
      conditions, params, p := Append(conditions, params, p, CreatedAt, After, Instant(q.after.value),
                                       Only(q, 4), Only(q, 5));
    } else {
      StillExpresses(conditions, params, Only(q, 4), Only(q, 5));
    }
  }

  // ---- The two statements ----

  datatype Result<T> = Ok(value: T) | Err

  function Count(table: seq<Row>, cs: seq<Condition>, params: seq<Value>): nat {
    |Filter(table, Selected(cs, params))|
  }

  function Clip(n: int, size: nat): nat {
    if n <= size then Max(n, 0) else size
  }

  function Slice(rows: seq<Row>, limit: nat, offset: nat): seq<Row> {
    rows[Clip(offset, |rows|)..Clip(offset + limit, |rows|)]
  }

  /** Rows in the table's order, `LIMIT $l OFFSET $o`; a negative or missing number is an error. */
  function Select(table: seq<Row>, cs: seq<Condition>, params: seq<Value>, l: int, o: int): Result<seq<Row>> {
    var limit, offset := Bound(params, l), Bound(params, o);
    if limit.Some? && offset.Some? && limit.value.Number? && offset.value.Number?
       && limit.value.number >= 0 && offset.value.number >= 0
    then Ok(Slice(Filter(table, Selected(cs, params)), limit.value.number, offset.value.number))
    else Err
  }

  datatype Feed = Feed(activities: seq<Row>, total: nat, page: int, limit: int, hasMore: bool, nextCursor: Option<int>)

  function FeedOf(matching: seq<Row>, limit: nat, page: int): Feed
    requires page >= 1
  {
    var rows := Slice(matching, limit, (page - 1) * limit);
    var hasMore := (page - 1) * limit + |rows| < |matching|;
    Feed(rows, |matching|, page, limit, hasMore,
         if hasMore && rows != [] then Some(rows[|rows| - 1].createdAt) else None)
  }

  function Answer(table: seq<Row>, q: Query): Result<Feed> {
    if Limit(q) < 0 then Err else Ok(FeedOf(Filter(table, Wanted(q)), Limit(q), Page(q)))
  }

  ghost predicate HasLimit(q: Query, limit: int) {
    if q.limit.None? then limit == 20 else if q.limit.value > 100 then limit == 100 else limit == q.limit.value
  }

  ghost predicate HasPage(q: Query, page: int) {
    if q.page.Some? && q.page.value >= 1 then page == q.page.value else page == 1
  }

  function Least(a: int, b: int): int {
    if a <= b then a else b
  }

  /** The page the query asks for, of the limit it asks for, cut out of these rows. */
  ghost predicate IsPage(rows: seq<Row>, q: Query, f: Feed) {
    var n, from, to := |rows|, Least((f.page - 1) * f.limit, |rows|), Least(f.page * f.limit, |rows|);
    && HasLimit(q, f.limit) && HasPage(q, f.page) && f.total == n
    && 0 <= from <= to <= n && f.activities == rows[from..to]
    && (f.hasMore <==> to < n)
    && f.nextCursor == if from < to < n then Some(rows[to - 1].createdAt) else None
  }

  lemma FeedIsPage(rows: seq<Row>, q: Query)
    requires Limit(q) >= 0
    ensures IsPage(rows, q, FeedOf(rows, Limit(q), Page(q)))
  {
    var limit, page := Limit(q), Page(q);
    var offset := NextOffset(page, limit);
    assert HasLimit(q, limit) && HasPage(q, page);
    hide Limit, Page, HasLimit, HasPage;
    FeedBounds(rows, limit, page, offset);
  }

  lemma LimitIsNegative(q: Query)
    ensures Limit(q) < 0 <==> q.limit.Some? && q.limit.value < 0
    ensures Page(q) >= 1
  {
  }

  lemma AnswerIsPage(table: seq<Row>, q: Query)
    ensures Limit(q) < 0 <==> q.limit.Some? && q.limit.value < 0
    ensures Page(q) >= 1
    ensures Limit(q) >= 0 ==> IsPage(Filter(table, Wanted(q)), q, FeedOf(Filter(table, Wanted(q)), Limit(q), Page(q)))
  {
    LimitIsNegative(q);
    hide *;
    if Limit(q) >= 0 {
      FeedIsPage(Filter(table, Wanted(q)), q);
    }
  }

  lemma FeedBounds(rows: seq<Row>, limit: nat, page: int, offset: nat)
    requires page >= 1 && offset == (page - 1) * limit && page * limit == offset + limit
    ensures var f, n, from, to := FeedOf(rows, limit, page), |rows|, Least(offset, |rows|), Least(page * limit, |rows|);
            && f.limit == limit && f.page == page && f.total == n
            && 0 <= from <= to <= n && f.activities == rows[from..to] && (f.hasMore <==> to < n)
            && f.nextCursor == if from < to < n then Some(rows[to - 1].createdAt) else None
  {
  }

  /** Which rows are wanted, filter by filter. */
  lemma WantedRows(table: seq<Row>, q: Query, r: Row)
    ensures r in Filter(table, Wanted(q))
            <==> && r in table
                 && q.groupId in {None, Some(""), Some(r.groupId)}
                 && q.userId in {None, Some(""), Some(r.actorUserId)}
                 && (q.eventTypes in {None, Some([])} || r.eventType in q.eventTypes.value)
                 && (q.before.None? || r.createdAt < q.before.value)
                 && (q.after.None? || q.after.value < r.createdAt)
  {
    FilterMembers(table, Wanted(q));
    hide Filter;
  }

  lemma SelectedAreWanted(table: seq<Row>, cs: seq<Condition>, params: seq<Value>, q: Query)
    requires Expresses(cs, params, q)
    ensures Filter(table, Selected(cs, params)) == Filter(table, Wanted(q))
  {
    hide HoldsAll, Matches, Filter, Numbered;
    FilterAgree(table, Selected(cs, params), Wanted(q));
  }

  /** The two numbers of the page, bound after the filters, change nothing in the clause. */
  lemma PageParams(table: seq<Row>, cs: seq<Condition>, params: seq<Value>, q: Query, limit: Value, offset: Value)
    requires Expresses(cs, params, q)
    ensures var ps := params + [limit, offset];
            && Filter(table, Selected(cs, ps)) == Filter(table, Wanted(q))
            && Bound(ps, |params| + 1) == Some(limit) && Bound(ps, |params| + 2) == Some(offset)
  {
    hide HoldsAll, Matches, Filter, Numbered;
    var ps := params + [limit, offset];
    forall row ensures HoldsAll(cs, ps, row) <==> Matches(q, row) {
      MoreParams(cs, params, [limit, offset], row);
    }
    FilterAgree(table, Selected(cs, ps), Wanted(q));
  }

  /** The page is cut out of exactly the matching rows; a negative limit is refused by the database. */
  method GetFeed(table: seq<Row>, q: Query) returns (r: Result<Feed>)
    ensures r == Answer(table, q)
    ensures r == Err <==> q.limit.Some? && q.limit.value < 0
    ensures r.Ok? ==> IsPage(Filter(table, Wanted(q)), q, r.value)
  {
    hide IsPage, HasLimit, HasPage, Limit, Page, Expresses, Filter, Selected, Wanted, Bound, Slice;
    AnswerIsPage(table, q);
    var limit, page := Limit(q), Page(q);
    var offset := (page - 1) * limit;
    var conditions, params, p := BuildWhere(q);
    SelectedAreWanted(table, conditions, params, q);
    var total := Count(table, conditions, params);
    var dataParams := params + [Number(limit), Number(offset)];
    PageParams(table, conditions, params, q, Number(limit), Number(offset));
    OffsetSign(page, limit);
    var selected := Select(table, conditions, dataParams, p, p + 1);
    if selected.Err? {
      return Err;
    }
    var rows := selected.value;
    var hasMore := offset + |rows| < total;
    var nextCursor := if hasMore && |rows| > 0 then Some(rows[|rows| - 1].createdAt) else None;
    return Ok(Feed(rows, total, page, limit, hasMore, nextCursor));
  }

  lemma OffsetSign(page: int, limit: int)
    requires page >= 1
    ensures limit >= 0 ==> (page - 1) * limit >= 0
  {
  }

  // ---- Paging ----

  function FeedPages(matching: seq<Row>, limit: nat, pages: nat): seq<Row> {
    if pages == 0 then [] else FeedPages(matching, limit, pages - 1) + FeedOf(matching, limit, pages).activities
  }

  lemma NextPage(matching: seq<Row>, limit: nat, pages: nat)
    requires pages > 0
    ensures (pages - 1) * limit >= 0
    ensures FeedPages(matching, limit, pages)
            == FeedPages(matching, limit, pages - 1) + Slice(matching, limit, (pages - 1) * limit)
  {
    hide Slice;
    OffsetSign(pages, limit);
  }

  lemma NextOffset(pages: nat, limit: nat) returns (offset: nat)
    requires pages > 0
    ensures offset == (pages - 1) * limit && pages * limit == offset + limit
  {
    OffsetSign(pages, limit);
    offset := (pages - 1) * limit;
  }

  lemma PrefixAndSlice(matching: seq<Row>, limit: nat, offset: nat)
    ensures matching[..Clip(offset, |matching|)] + Slice(matching, limit, offset)
            == matching[..Clip(offset + limit, |matching|)]
  {
    var a, b := Clip(offset, |matching|), Clip(offset + limit, |matching|);
    assert matching[..a] + matching[a..b] == matching[..b];
  }

  lemma {:induction false} FeedPagesArePrefix(matching: seq<Row>, limit: nat, pages: nat)
    ensures pages * limit >= 0
    ensures FeedPages(matching, limit, pages) == matching[..Clip(pages * limit, |matching|)]
  {
    if pages > 0 {
      hide *;
      FeedPagesArePrefix(matching, limit, pages - 1);
      var offset := NextOffset(pages, limit);
      NextPage(matching, limit, pages);
      PrefixAndSlice(matching, limit, offset);
    }
  }

  function AtPage(q: Query, page: int): Query {
    q.(page := Some(page))
  }

  /** What the query's pages 1 to `pages` show, one after the other. */
  function Shown(table: seq<Row>, q: Query, pages: nat): seq<Row> {
    if pages == 0 then []
    else
      var answer := Answer(table, AtPage(q, pages));
      Shown(table, q, pages - 1) + if answer.Ok? then answer.value.activities else []
  }

  lemma AnswerAtPage(table: seq<Row>, q: Query, limit: nat, page: int)
    requires HasLimit(q, limit) && page >= 1
    ensures Answer(table, AtPage(q, page)) == Ok(FeedOf(Filter(table, Wanted(q)), limit, page))
  {
    hide FeedOf, Filter;
    FilterAgree(table, Wanted(AtPage(q, page)), Wanted(q));
  }

  lemma {:induction false} ShownAreFeedPages(table: seq<Row>, q: Query, limit: nat, pages: nat)
    requires HasLimit(q, limit)
    ensures Shown(table, q, pages) == FeedPages(Filter(table, Wanted(q)), limit, pages)
  {
    hide *;
    if pages == 0 {
      NothingShown(table, q, limit);
    } else {
      ShownAreFeedPages(table, q, limit, pages - 1);
      ShownStep(table, q, limit, pages);
    }
  }

  lemma NothingShown(table: seq<Row>, q: Query, limit: nat)
    ensures Shown(table, q, 0) == [] == FeedPages(Filter(table, Wanted(q)), limit, 0)
  {
    hide Filter;
  }

  lemma ShownStep(table: seq<Row>, q: Query, limit: nat, pages: nat)
    requires HasLimit(q, limit) && pages > 0
    ensures var next := FeedOf(Filter(table, Wanted(q)), limit, pages).activities;
            && Shown(table, q, pages) == Shown(table, q, pages - 1) + next
            && FeedPages(Filter(table, Wanted(q)), limit, pages)
               == FeedPages(Filter(table, Wanted(q)), limit, pages - 1) + next
  {
    hide Answer, FeedOf, Filter, HasLimit;
    AnswerAtPage(table, q, limit, pages);
  }

  /** The answers to the query's pages 1 to `pages`, put together, are a prefix of the matching rows. */
  lemma PagesArePrefix(table: seq<Row>, q: Query, limit: nat, pages: nat)
    requires HasLimit(q, limit)
    ensures var matching := Filter(table, Wanted(q));
            && 0 <= Least(pages * limit, |matching|)
            && Shown(table, q, pages) == matching[..Least(pages * limit, |matching|)]
  {
    ShownAreFeedPages(table, q, limit, pages);
    FeedPagesArePrefix(Filter(table, Wanted(q)), limit, pages);
    hide Shown, FeedPages, Filter;
  }

  /** They give the whole list, in order, once they are enough to hold it. */
  lemma PagesAreEverything(table: seq<Row>, q: Query, limit: nat, pages: nat)
    requires HasLimit(q, limit) && pages * limit >= |Filter(table, Wanted(q))|
    ensures Shown(table, q, pages) == Filter(table, Wanted(q))
  {
    PagesArePrefix(table, q, limit, pages);
    hide Shown, Filter;
  }

  /** `hasMore` says whether the next page shows anything. */
  ghost predicate AnnouncesNext(table: seq<Row>, q: Query, page: int) {
    var answer, next := Answer(table, AtPage(q, page)), Answer(table, AtPage(q, page + 1));
    answer.Ok? && next.Ok? && (answer.value.hasMore <==> next.value.activities != [])
  }

  ghost predicate FeedAnnouncesNext(matching: seq<Row>, limit: nat, page: int)
    requires page >= 1
  {
    FeedOf(matching, limit, page).hasMore <==> FeedOf(matching, limit, page + 1).activities != []
  }

  lemma AnnouncesIffFeedDoes(table: seq<Row>, q: Query, limit: nat, page: int)
    requires HasLimit(q, limit) && page >= 1
    ensures AnnouncesNext(table, q, page) <==> FeedAnnouncesNext(Filter(table, Wanted(q)), limit, page)
  {
    hide Answer, FeedOf, Filter, HasLimit, AtPage;
    AnswerAtPage(table, q, limit, page);
    AnswerAtPage(table, q, limit, page + 1);
  }

  lemma FeedAnnounces(matching: seq<Row>, limit: nat, page: int)
    requires page >= 1 && (limit >= 1 || matching == [])
    ensures FeedAnnouncesNext(matching, limit, page)
  {
    OffsetSign(page, limit);
    assert (page + 1 - 1) * limit == (page - 1) * limit + limit;
  }

  lemma LimitZeroAnnouncesNothing(matching: seq<Row>)
    requires matching != []
    ensures !FeedAnnouncesNext(matching, 0, 1)
  {
  }

  /** `hasMore` announces a non-empty next page exactly when the limit is at least 1 or nothing matches:
      with limit 0 it announces a page that never comes. */
  lemma HasMoreIffNextPage(table: seq<Row>, q: Query, limit: nat)
    requires HasLimit(q, limit)
    ensures (forall page :: page >= 1 ==> AnnouncesNext(table, q, page))
            <==> limit >= 1 || Filter(table, Wanted(q)) == []
  {
    hide *;
    var matching := Filter(table, Wanted(q));
    if limit >= 1 || matching == [] {
      forall page | page >= 1 ensures AnnouncesNext(table, q, page) {
        FeedAnnounces(matching, limit, page);
        AnnouncesIffFeedDoes(table, q, limit, page);
      }
    } else {
      LimitZeroAnnouncesNothing(matching);
      AnnouncesIffFeedDoes(table, q, limit, 1);
    }
  }

  // ---- Following the cursor ----

  ghost predicate NewestFirst(rows: seq<Row>) {
    forall i, j :: 0 <= i < j < |rows| ==> rows[i].createdAt >= rows[j].createdAt
  }

  function OlderThan(cursor: int): Row -> bool {
    (r: Row) => r.createdAt < cursor
  }

  /** The rows older than a row of a newest-first list are a suffix of it. */
  lemma OlderIsSuffix(rows: seq<Row>, cursor: int, k: nat)
    requires k <= |rows|
    requires forall i :: 0 <= i < k ==> rows[i].createdAt >= cursor
    requires forall i :: k <= i < |rows| ==> rows[i].createdAt < cursor
    ensures Filter(rows, OlderThan(cursor)) == rows[k..]
  {
    hide Filter;
    assert rows == rows[..k] + rows[k..];
    FilterConcat(rows[..k], rows[k..], OlderThan(cursor));
    NoneCounted(rows[..k], OlderThan(cursor));
    AllKept(rows[k..], OlderThan(cursor));
  }

  lemma {:induction false} FirstOlder(rows: seq<Row>, cursor: int) returns (k: nat)
    requires NewestFirst(rows)
    ensures k <= |rows|
    ensures forall i :: 0 <= i < k ==> rows[i].createdAt >= cursor
    ensures forall i :: k <= i < |rows| ==> rows[i].createdAt < cursor
  {
    k := |rows|;
    while k > 0 && rows[k - 1].createdAt < cursor
      invariant k <= |rows|
      invariant forall i :: k <= i < |rows| ==> rows[i].createdAt < cursor
    {
      k := k - 1;
    }
  }

  lemma {:induction false} FilterTwice(table: seq<Row>, q: Query, cursor: int)
    requires q.before.Some? ==> cursor <= q.before.value
    ensures Filter(table, Wanted(q.(before := Some(cursor)))) == Filter(Filter(table, Wanted(q)), OlderThan(cursor))
  {
    if table != [] {
      var init, last := table[..|table| - 1], table[|table| - 1];
      FilterTwice(init, q, cursor);
      FilterSnoc(Filter(init, Wanted(q)), last, OlderThan(cursor));
    }
  }

  /** In a newest-first list, what is older than its `end`-th row is what follows it, unless they tie. */
  lemma OlderContinuesIffNoTie(rows: seq<Row>, end: nat)
    requires NewestFirst(rows) && 0 < end < |rows|
    ensures Filter(rows, OlderThan(rows[end - 1].createdAt)) == rows[end..]
            <==> rows[end].createdAt != rows[end - 1].createdAt
  {
    hide Filter;
    var cursor := rows[end - 1].createdAt;
    var k := FirstOlder(rows, cursor);
    OlderIsSuffix(rows, cursor, k);
    if rows[end].createdAt != cursor {
      assert k == end;
    } else {
      assert |rows[k..]| < |rows[end..]|;
    }
  }

  lemma CursorIsLastShown(matching: seq<Row>, limit: nat, page: int)
    requires page >= 1 && FeedOf(matching, limit, page).nextCursor.Some?
    ensures var feed := FeedOf(matching, limit, page);
            var end := (page - 1) * limit + |feed.activities|;
            && 0 < end < |matching|
            && matching[end - 1].createdAt == feed.nextCursor.value
  {
    OffsetSign(page, limit);
  }

  lemma CursorFrom(table: seq<Row>, q: Query, limit: nat, page: int)
    requires page >= 1
    requires NewestFirst(Filter(table, Wanted(q)))
    requires FeedOf(Filter(table, Wanted(q)), limit, page).nextCursor.Some?
    ensures var matching := Filter(table, Wanted(q));
            var feed := FeedOf(matching, limit, page);
            var end := (page - 1) * limit + |feed.activities|;
            && 0 < end < |matching|
            && (Filter(table, Wanted(q.(before := feed.nextCursor))) == matching[end..]
                <==> matching[end].createdAt != feed.nextCursor.value)
  {
    hide FeedOf, Filter;
    var matching := Filter(table, Wanted(q));
    var feed := FeedOf(matching, limit, page);
    var end := (page - 1) * limit + |feed.activities|;
    CursorIsLastShown(matching, limit, page);
    FilterMembers(table, Wanted(q));
    assert matching[end - 1] in matching;
    FilterTwice(table, q, feed.nextCursor.value);
    OlderContinuesIffNoTie(matching, end);
  }

  lemma AnswerIs(table: seq<Row>, q: Query)
    requires Answer(table, q).Ok?
    ensures Limit(q) >= 0 && Page(q) >= 1
    ensures var feed := FeedOf(Filter(table, Wanted(q)), Limit(q), Page(q));
            Answer(table, q).value == feed && feed.page == Page(q) && feed.limit == Limit(q)
  {
    hide Filter;
  }

  /** Asking for what lies before the returned cursor continues exactly after the page iff the next row
      is not as old as the last one shown: rows that tie with the cursor are skipped. */
  lemma CursorContinuesIffNoTie(table: seq<Row>, q: Query)
    requires NewestFirst(Filter(table, Wanted(q)))
    requires Answer(table, q).Ok? && Answer(table, q).value.nextCursor.Some?
    ensures var matching, feed := Filter(table, Wanted(q)), Answer(table, q).value;
            var end := (feed.page - 1) * feed.limit + |feed.activities|;
            && 0 < end < |matching|
            && (Filter(table, Wanted(q.(before := feed.nextCursor))) == matching[end..]
                <==> matching[end].createdAt != feed.nextCursor.value)
  {
    hide *;
    AnswerIs(table, q);
    CursorFrom(table, q, Limit(q), Page(q));
  }
}
