/**
 Walking a table page by page from a durable position: each query takes the next rows past the position
 in (time, id) order, and the position moves to the last row taken.
 */
module Keyset {
  import opened Options

  datatype Key = Key(at: int, id: int)

  datatype Row<T> = Row(key: Key, value: T)

  type Table<T> = seq<Row<T>>

  predicate Less(a: Key, b: Key) { a.at < b.at || (a.at == b.at && a.id < b.id) }

  predicate Past(key: Key, cursor: Option<Key>) { cursor.None? || Less(cursor.value, key) }

  /** Rows in key order, no key twice. */
  ghost predicate Ordered<T>(t: Table<T>) {
    forall i, j :: 0 <= i < j < |t| ==> Less(t[i].key, t[j].key)
  }

  ghost function Keys<T>(t: Table<T>): set<Key> { set r | r in t :: r.key }

  /** WHERE cursor IS NULL OR (time, id) > cursor. */
  function RowsPast<T>(t: Table<T>, cursor: Option<Key>): (r: Table<T>)
    ensures |r| <= |t|
  {
    if t == [] then []
    else if Past(t[0].key, cursor) then [t[0]] + RowsPast(t[1..], cursor)
    else RowsPast(t[1..], cursor)
  }

  function Take<T>(t: Table<T>, limit: nat): Table<T> { if |t| <= limit then t else t[..limit] }

  function Page<T>(t: Table<T>, cursor: Option<Key>, limit: nat): Table<T> { Take(RowsPast(t, cursor), limit) }

  function LastKey<T>(page: Table<T>): Option<Key> { if page == [] then None else Some(page[|page| - 1].key) }

  // ---------- queries on an ordered table ----------

  /** `n` rows at the front are not past the cursor and all others are. */
  ghost predicate Splits<T>(t: Table<T>, cursor: Option<Key>, n: nat) {
    n <= |t| && forall i :: 0 <= i < |t| ==> (Past(t[i].key, cursor) <==> n <= i)
  }

  lemma {:induction false} SplitGivesRest<T>(t: Table<T>, cursor: Option<Key>, n: nat)
    requires Splits(t, cursor, n)
    ensures RowsPast(t, cursor) == t[n..]
  {
    if t != [] {
      var rest, m := t[1..], if n == 0 then 0 else n - 1;
      assert Splits(rest, cursor, m) by {
        forall i | 0 <= i < |rest| ensures Past(rest[i].key, cursor) <==> m <= i {
          assert rest[i] == t[i + 1];
        }
      }
      SplitGivesRest(rest, cursor, m);
      assert n == 0 ==> t == [t[0]] + rest;
    }
  }

  lemma {:induction false} OrderedSplits<T>(t: Table<T>, cursor: Option<Key>) returns (n: nat)
    requires Ordered(t)
    ensures Splits(t, cursor, n) && RowsPast(t, cursor) == t[n..]
  {
    n := 0;
    while n < |t| && !Past(t[n].key, cursor)
      invariant n <= |t| && forall i :: 0 <= i < n ==> !Past(t[i].key, cursor)
    {
      n := n + 1;
    }
    forall i | n <= i < |t| ensures Past(t[i].key, cursor) {
      assert n < i ==> Less(t[n].key, t[i].key);
    }
    SplitGivesRest(t, cursor, n);
  }

  /** Moving the position over the first `n` rows left takes exactly those away. */
  lemma RestAfterPage<T>(t: Table<T>, cursor: Option<Key>, n: nat)
    requires Ordered(t) && 0 < n <= |RowsPast(t, cursor)|
    ensures RowsPast(t, Some(RowsPast(t, cursor)[n - 1].key)) == RowsPast(t, cursor)[n..]
  {
    var m := OrderedSplits(t, cursor);
    var moved := Some(t[m + n - 1].key);
    forall i | 0 <= i < |t| ensures Past(t[i].key, moved) <==> m + n <= i {
      assert i < m + n - 1 ==> Less(t[i].key, t[m + n - 1].key);
      assert m + n - 1 < i ==> Less(t[m + n - 1].key, t[i].key);
    }
    SplitGivesRest(t, moved, m + n);
  }

  lemma PageFacts<T>(t: Table<T>, cursor: Option<Key>, limit: nat)
    requires Ordered(t)
    ensures var page := Page(t, cursor, limit);
      && Ordered(page)
      && (forall r :: r in page ==> r in t && Past(r.key, cursor))
      && (forall r :: r in t && Past(r.key, cursor) && r !in page ==> |page| == limit)
      && (forall r :: r in t && Past(r.key, cursor) && page != [] && r !in page ==> Past(r.key, LastKey(page)))
  {
    var n := OrderedSplits(t, cursor);
    var page := Page(t, cursor, limit);
    assert page == t[n..n + |page|];
    forall r | r in t && Past(r.key, cursor) && r !in page
      ensures |page| == limit && (page != [] ==> Past(r.key, LastKey(page)))
    {
      var i :| 0 <= i < |t| && t[i] == r;
      assert forall j :: n <= j < n + |page| ==> t[j] == page[j - n];
    }
  }

  // ---------- a pass over a growing table ----------

  /** What successive queries, one per table snapshot, visit until a short page ends the pass. */
  datatype Pass<T> = Pass(visited: seq<Row<T>>, completed: bool)

  function Walk<T>(tables: seq<Table<T>>, cursor: Option<Key>, limit: nat): Pass<T> {
    if tables == [] then Pass([], false)
    else
      var page := Page(tables[0], cursor, limit);
      if |page| < limit then Pass(page, true)
      else
        var rest := Walk(tables[1..], LastKey(page), limit);
        Pass(page + rest.visited, rest.completed)
  }

  /** The snapshots seen by the queries of exactly one pass. */
  ghost predicate OnePass<T>(tables: seq<Table<T>>, cursor: Option<Key>, limit: nat) {
    && tables != []
    && Walk(tables, cursor, limit).completed && !Walk(tables[..|tables| - 1], cursor, limit).completed
  }

  lemma OnePassStep<T>(tables: seq<Table<T>>, cursor: Option<Key>, limit: nat)
    requires OnePass(tables, cursor, limit)
    ensures var page := Page(tables[0], cursor, limit);
      if |page| < limit then |tables| == 1 else |tables| > 1 && OnePass(tables[1..], LastKey(page), limit)
  {
    var n := |tables|;
    if n == 1 {
      assert Walk(tables, cursor, limit).completed <==> |Page(tables[0], cursor, limit)| < limit by {
        assert tables[1..] == [];
      }
    } else {
      assert tables[..n - 1][0] == tables[0] && tables[..n - 1][1..] == tables[1..][..n - 2];
    }
  }

  /** Snapshots of a table that rows are only added to (a row's other columns may change). */
  ghost predicate Growing<T>(tables: seq<Table<T>>) {
    && (forall i :: 0 <= i < |tables| ==> Ordered(tables[i]))
    && (forall i :: 0 < i < |tables| ==> Keys(tables[i - 1]) <= Keys(tables[i]))
  }

  lemma GrowingTail<T>(tables: seq<Table<T>>)
    requires Growing(tables) && tables != []
    ensures Growing(tables[1..])
  {
    forall i | 0 < i < |tables[1..]| ensures Keys(tables[1..][i - 1]) <= Keys(tables[1..][i]) {
      assert Keys(tables[i]) <= Keys(tables[i + 1]);
    }
  }

  /** A completed pass visits rows in strictly increasing order, so none twice, and visits every row
      that was there when it began. */
  lemma {:induction false} PassVisitsEachRowOnce<T>(tables: seq<Table<T>>, cursor: Option<Key>, limit: nat)
    requires 0 < limit && Growing(tables) && Walk(tables, cursor, limit).completed
    ensures var visited := Walk(tables, cursor, limit).visited;
      && Ordered(visited)
      && (forall r :: r in visited ==> Past(r.key, cursor))
      && (forall key :: key in Keys(tables[0]) && Past(key, cursor) ==> key in Keys(visited))
  {
    var table, page := tables[0], Page(tables[0], cursor, limit);
    PageFacts(table, cursor, limit);
    if |page| == limit {
      var rest, moved := Walk(tables[1..], LastKey(page), limit).visited, LastKey(page);
      GrowingTail(tables);
      PassVisitsEachRowOnce(tables[1..], moved, limit);
      PagesInOrder(page, rest, cursor);
      forall key | key in Keys(table) && Past(key, cursor) ensures key in Keys(page + rest) {
        var r :| r in table && r.key == key;
        assert r in page ==> r in page + rest;
        if r !in page {
          assert key in Keys(tables[1]) && Past(key, moved);
          var s :| s in rest && s.key == key;
          assert s in page + rest;
        }
      }
    }
  }

  lemma PagesInOrder<T>(page: Table<T>, rest: Table<T>, cursor: Option<Key>)
    requires Ordered(page) && Ordered(rest) && page != []
    requires forall r :: r in page ==> Past(r.key, cursor)
    requires forall r :: r in rest ==> Past(r.key, LastKey(page))
    ensures Ordered(page + rest) && forall r :: r in page + rest ==> Past(r.key, cursor)
  {
    var all, n := page + rest, |page|;
    forall i, j | 0 <= i < j < |all| ensures Less(all[i].key, all[j].key) {
      if i < n <= j {
        assert rest[j - n] in rest;
        assert i < n - 1 ==> Less(page[i].key, page[n - 1].key);
      }
    }
    assert page[n - 1] in page;
  }

  function Repeat<T>(x: T, n: nat): seq<T> { seq(n, _ => x) }

  /** The most rows that many queries can take. */
  function Reach(queries: nat, limit: nat): nat {
    if queries == 0 then 0 else limit + Reach(queries - 1, limit)
  }

  lemma {:induction false} ReachIsProduct(queries: nat, limit: nat)
    ensures Reach(queries, limit) == queries * limit
  {
    if queries > 0 {
      ReachIsProduct(queries - 1, limit);
      assert queries * limit == (queries - 1) * limit + limit;
    }
  }

  lemma WalkUnfolds<T>(tables: seq<Table<T>>, cursor: Option<Key>, limit: nat, page: Table<T>)
    requires tables != [] && page == Page(tables[0], cursor, limit)
    ensures |page| < limit ==> Walk(tables, cursor, limit) == Pass(page, true)
    ensures |page| == limit ==>
      var rest := Walk(tables[1..], LastKey(page), limit);
      Walk(tables, cursor, limit) == Pass(page + rest.visited, rest.completed)
  {
  }

  lemma WalkStep<T>(t: Table<T>, cursor: Option<Key>, limit: nat, queries: nat)
    requires 0 < limit && 0 < queries && Ordered(t)
    ensures var left, pass := RowsPast(t, cursor), Walk(Repeat(t, queries), cursor, limit);
      if |left| < limit then pass == Pass(left, true)
      else
        var moved := Some(left[limit - 1].key);
        var rest := Walk(Repeat(t, queries - 1), moved, limit);
        && RowsPast(t, moved) == left[limit..]
        && pass == Pass(left[..limit] + rest.visited, rest.completed)
  {
    var page, tables := Page(t, cursor, limit), Repeat(t, queries);
    assert tables[1..] == Repeat(t, queries - 1);
    WalkUnfolds(tables, cursor, limit, page);
    if |page| == limit {
      RestAfterPage(t, cursor, limit);
      assert LastKey(page) == Some(RowsPast(t, cursor)[limit - 1].key);
    }
  }

  /** A pass that takes everything left, and does so exactly if its queries reach further than that. */
  ghost predicate TakesAll<T>(pass: Pass<T>, left: Table<T>, queries: nat, limit: nat) {
    (pass.completed <==> Reach(queries, limit) > |left|) && (pass.completed ==> pass.visited == left)
  }

  lemma OnePageMore<T>(left: Table<T>, limit: nat, queries: nat, rest: Pass<T>)
    requires 0 < limit <= |left| && 0 < queries && TakesAll(rest, left[limit..], queries - 1, limit)
    ensures TakesAll(Pass(left[..limit] + rest.visited, rest.completed), left, queries, limit)
  {
    assert left == left[..limit] + left[limit..];
  }

  lemma {:induction false} StaticWalk<T>(t: Table<T>, cursor: Option<Key>, limit: nat, queries: nat)
    requires 0 < limit && Ordered(t)
    ensures TakesAll(Walk(Repeat(t, queries), cursor, limit), RowsPast(t, cursor), queries, limit)
    decreases queries
  {
    if queries > 0 {
      var left := RowsPast(t, cursor);
      WalkStep(t, cursor, limit, queries);
      if |left| >= limit {
        var moved := Some(left[limit - 1].key);
        StaticWalk(t, moved, limit, queries - 1);
        OnePageMore(left, limit, queries, Walk(Repeat(t, queries - 1), moved, limit));
      }
    }
  }

  lemma MoreThanQuotient(n: nat, limit: nat, queries: nat)
    requires 0 < limit
    ensures queries * limit > n <==> queries >= n / limit + 1
  {
    var q := n / limit;
    assert n == q * limit + n % limit;
    if queries >= q + 1 {
      assert queries * limit == (queries - q - 1) * limit + q * limit + limit;
    } else {
      assert q * limit == (q - queries) * limit + queries * limit;
    }
  }

  /** Over a table that does not change, a pass takes exactly floor(rows / limit) + 1 queries and visits
      the table from one end to the other. */
  lemma StaticPass<T>(t: Table<T>, limit: nat, queries: nat)
    requires 0 < limit && Ordered(t)
    ensures OnePass(Repeat(t, queries), None, limit) <==> queries == |t| / limit + 1
    ensures OnePass(Repeat(t, queries), None, limit) ==> Walk(Repeat(t, queries), None, limit).visited == t
  {
    SplitGivesRest(t, None, 0);
    StaticWalk(t, None, limit, queries);
    ReachIsProduct(queries, limit);
    MoreThanQuotient(|t|, limit, queries);
    if queries > 0 {
      assert Repeat(t, queries)[..queries - 1] == Repeat(t, queries - 1);
      StaticWalk(t, None, limit, queries - 1);
      ReachIsProduct(queries - 1, limit);
      MoreThanQuotient(|t|, limit, queries - 1);
    }
  }

  // ---------- the rows a verifier selects ----------

  function Where<T>(t: Table<T>, keep: T -> bool): Table<T> {
    if t == [] then []
    else if keep(t[0].value) then [t[0]] + Where(t[1..], keep)
    else Where(t[1..], keep)
  }

  lemma {:induction false} InWhere<T>(t: Table<T>, keep: T -> bool, r: Row<T>)
    ensures r in Where(t, keep) <==> r in t && keep(r.value)
  {
    if t != [] {
      InWhere(t[1..], keep, r);
      assert t == [t[0]] + t[1..];
    }
  }

  lemma {:induction false} WhereOrdered<T>(t: Table<T>, keep: T -> bool)
    requires Ordered(t)
    ensures Ordered(Where(t, keep))
  {
    if t != [] {
      WhereOrdered(t[1..], keep);
      var rest := Where(t[1..], keep);
      forall i | 0 <= i < |rest| ensures Less(t[0].key, rest[i].key) {
        InWhere(t[1..], keep, rest[i]);
        var j :| 0 <= j < |t[1..]| && t[1..][j] == rest[i];
        assert t[j + 1] == rest[i];
      }
    }
  }

  /** What the verifier looks up for each row, put beside the row's key. */
  function Mapped<T, U>(t: Table<T>, f: T -> U): Table<U> {
    seq(|t|, i requires 0 <= i < |t| => Row(t[i].key, f(t[i].value)))
  }

  lemma {:induction false} RowsPastMapped<T, U>(t: Table<T>, f: T -> U, cursor: Option<Key>)
    ensures RowsPast(Mapped(t, f), cursor) == Mapped(RowsPast(t, cursor), f)
  {
    if t != [] {
      assert Mapped(t, f)[1..] == Mapped(t[1..], f);
      RowsPastMapped(t[1..], f, cursor);
    }
  }

  lemma PageMapped<T, U>(t: Table<T>, f: T -> U, cursor: Option<Key>, limit: nat)
    ensures Page(Mapped(t, f), cursor, limit) == Mapped(Page(t, cursor, limit), f)
  {
    RowsPastMapped(t, f, cursor);
  }
}
