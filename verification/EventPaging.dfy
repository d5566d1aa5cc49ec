/** GET /audit/events: newest first, page by page, each page handing on the key of its last row. */
module EventPaging {
  import opened Options
  import opened Sequences
  import opened Keyset

  datatype AuditEvent = AuditEvent(layer: string, body: string)

  datatype Filters = Filters(layer: Option<string>, since: Option<int>, until: Option<int>)

  datatype EventsPage = EventsPage(events: Table<AuditEvent>, nextCursor: Option<Key>)

  predicate Matches(f: Filters, r: Row<AuditEvent>) {
    && (f.layer.Some? ==> r.value.layer == f.layer.value)
    && (f.since.Some? ==> r.key.at >= f.since.value)
    && (f.until.Some? ==> r.key.at <= f.until.value)
  }

  predicate Before(key: Key, cursor: Option<Key>) { cursor.None? || Less(key, cursor.value) }

  /** The WHERE clause: every filter that is given, and the cursor if there is one. */
  function Selected(t: Table<AuditEvent>, f: Filters, cursor: Option<Key>): (r: Table<AuditEvent>)
    ensures |r| <= |t|
  {
    if t == [] then []
    else if Matches(f, t[0]) && Before(t[0].key, cursor) then [t[0]] + Selected(t[1..], f, cursor)
    else Selected(t[1..], f, cursor)
  }

  function Reversed<T>(s: seq<T>): (r: seq<T>)
    ensures |r| == |s|
  {
    seq(|s|, i requires 0 <= i < |s| => s[|s| - 1 - i])
  }

  /** ORDER BY created_at DESC, id DESC LIMIT n, over a table kept in ascending order. */
  function QueryEvents(t: Table<AuditEvent>, f: Filters, cursor: Option<Key>, limit: nat): Table<AuditEvent> {
    Take(Reversed(Selected(t, f, cursor)), limit)
  }

  /** One row more than asked for tells whether another page follows. */
  function ListPage(t: Table<AuditEvent>, f: Filters, cursor: Option<Key>, limit: nat): EventsPage {
    var rows := QueryEvents(t, f, cursor, limit + 1);
    var visible := Take(rows, limit);
    EventsPage(visible, if |rows| > limit then LastKey(visible) else None)
  }

  /** A client that follows next_cursor until there is none; the i-th request sees the i-th snapshot. */
  function Follow(tables: seq<Table<AuditEvent>>, f: Filters, cursor: Option<Key>, limit: nat): seq<Table<AuditEvent>> {
    if tables == [] then []
    else
      var page := ListPage(tables[0], f, cursor, limit);
      [page.events] + if page.nextCursor.None? then [] else Follow(tables[1..], f, page.nextCursor, limit)
  }

  // ---------- the rows a request sees ----------

  lemma {:induction false} InSelected(t: Table<AuditEvent>, f: Filters, cursor: Option<Key>, r: Row<AuditEvent>)
    ensures r in Selected(t, f, cursor) <==> r in t && Matches(f, r) && Before(r.key, cursor)
  {
    if t != [] {
      InSelected(t[1..], f, cursor, r);
      assert t == [t[0]] + t[1..];
    }
  }

  lemma {:induction false} SelectedOrdered(t: Table<AuditEvent>, f: Filters, cursor: Option<Key>)
    requires Ordered(t)
    ensures Ordered(Selected(t, f, cursor))
  {
    if t != [] {
      SelectedOrdered(t[1..], f, cursor);
      var rest := Selected(t[1..], f, cursor);
      forall i | 0 <= i < |rest| ensures Less(t[0].key, rest[i].key) {
        InSelected(t[1..], f, cursor, rest[i]);
        var j :| 0 <= j < |t[1..]| && t[1..][j] == rest[i];
        assert t[j + 1] == rest[i];
      }
    }
  }

  lemma {:induction false} SelectedAppend(t: Table<AuditEvent>, extra: Table<AuditEvent>, f: Filters,
                                          cursor: Option<Key>)
    ensures Selected(t + extra, f, cursor) == Selected(t, f, cursor) + Selected(extra, f, cursor)
  {
    if t == [] {
      assert t + extra == extra;
    } else {
      assert (t + extra)[1..] == t[1..] + extra;
      SelectedAppend(t[1..], extra, f, cursor);
    }
  }

  lemma {:induction false} NothingSelected(t: Table<AuditEvent>, f: Filters, cursor: Option<Key>)
    requires forall i :: 0 <= i < |t| ==> !Before(t[i].key, cursor)
    ensures Selected(t, f, cursor) == []
  {
    if t != [] {
      NothingSelected(t[1..], f, cursor);
    }
  }

  /** A cursor taken from a selected row leaves exactly the selected rows before it. */
  lemma {:induction false} SelectedBefore(t: Table<AuditEvent>, f: Filters, n: nat)
    requires Ordered(t) && n < |Selected(t, f, None)|
    ensures Selected(t, f, Some(Selected(t, f, None)[n].key)) == Selected(t, f, None)[..n]
  {
    var all := Selected(t, f, None);
    var cursor := Some(all[n].key);
    if Matches(f, t[0]) {
      if n == 0 {
        forall i | 0 <= i < |t| ensures !Before(t[i].key, cursor) {
          assert i > 0 ==> Less(t[0].key, t[i].key);
        }
        NothingSelected(t, f, cursor);
      } else {
        SelectedBefore(t[1..], f, n - 1);
        InSelected(t[1..], f, None, all[n]);
        var j :| 0 <= j < |t[1..]| && t[1..][j] == all[n];
        assert Less(t[0].key, t[j + 1].key);
        assert all[..n] == [t[0]] + Selected(t[1..], f, None)[..n - 1];
      }
    } else {
      SelectedBefore(t[1..], f, n);
    }
  }

  /** Later snapshots hold the first one's rows and newer ones after them. */
  ghost predicate OnlyNewerAdded(base: Table<AuditEvent>, tables: seq<Table<AuditEvent>>) {
    forall i :: 0 <= i < |tables| ==> Ordered(tables[i]) && base <= tables[i]
  }

  lemma NewerRowsUnseen(base: Table<AuditEvent>, t: Table<AuditEvent>, f: Filters, n: nat)
    requires Ordered(t) && base <= t && n < |Selected(base, f, None)|
    ensures Selected(t, f, Some(Selected(base, f, None)[n].key)) == Selected(base, f, None)[..n]
  {
    var row, extra := Selected(base, f, None)[n], t[|base|..];
    assert t == base + extra && Ordered(base);
    InSelected(base, f, None, row);
    var j :| 0 <= j < |base| && base[j] == row;
    forall i | 0 <= i < |extra| ensures !Before(extra[i].key, Some(row.key)) {
      assert Less(t[j].key, t[|base| + i].key);
    }
    NothingSelected(extra, f, Some(row.key));
    SelectedAppend(base, extra, f, Some(row.key));
    SelectedBefore(base, f, n);
  }

  // ---------- following the cursor ----------

  function PagesNeeded(n: nat, limit: nat): nat
    requires 0 < limit
  {
    if n <= limit then 1 else 1 + PagesNeeded(n - limit, limit)
  }

  /** max(1, ceil(n / limit)), without the division. */
  lemma {:induction false} PagesNeededIsCeiling(n: nat, limit: nat)
    requires 0 < limit
    ensures var p := PagesNeeded(n, limit); p >= 1 && p * limit >= n && (p == 1 || (p - 1) * limit < n)
  {
    if n > limit {
      PagesNeededIsCeiling(n - limit, limit);
      var p := PagesNeeded(n - limit, limit);
      assert (p + 1) * limit == p * limit + limit;
      assert p * limit == (p - 1) * limit + limit;
    }
  }

  lemma ReversedTake<T>(s: seq<T>, n: nat)
    requires n <= |s|
    ensures Reversed(s)[..n] == Reversed(s[|s| - n..])
  {
  }

  /** A request whose rows before the cursor are `left` shows the newest of them and, if some remain,
      passes on the key of the oldest row shown. */
  lemma PageShowsNewest(t: Table<AuditEvent>, f: Filters, cursor: Option<Key>, limit: nat, left: Table<AuditEvent>)
    requires 0 < limit && Selected(t, f, cursor) == left
    ensures var page, n := ListPage(t, f, cursor, limit), |left|;
      if n <= limit then page == EventsPage(Reversed(left), None)
      else page == EventsPage(Reversed(left[n - limit..]), Some(left[n - limit].key))
  {
    var n, newest := |left|, Reversed(left);
    if n > limit {
      ReversedTake(left, limit);
      assert newest[..limit + 1][..limit] == newest[..limit] && newest[limit - 1] == left[n - limit];
    }
  }

  lemma ReversedJoin<T>(a: seq<T>, b: seq<T>)
    ensures Reversed(a + b) == Reversed(b) + Reversed(a)
  {
  }

  lemma LastRequest(tables: seq<Table<AuditEvent>>, f: Filters, cursor: Option<Key>, limit: nat,
                    left: Table<AuditEvent>)
    requires 0 < limit && tables != [] && Selected(tables[0], f, cursor) == left && |left| <= limit
    ensures Shows(Follow(tables, f, cursor, limit), left, limit)
  {
    PageShowsNewest(tables[0], f, cursor, limit, left);
    assert Concat([Reversed(left)]) == Reversed(left) + Concat([]);
  }

  lemma EarlierRequest(tables: seq<Table<AuditEvent>>, f: Filters, cursor: Option<Key>, older: Table<AuditEvent>,
                       newest: Table<AuditEvent>)
    requires tables != [] && Selected(tables[0], f, cursor) == older + newest && older != [] && newest != []
    ensures var pages := Follow(tables, f, cursor, |newest|);
      var rest := Follow(tables[1..], f, Some(newest[0].key), |newest|);
      |pages| == 1 + |rest| && Concat(pages) == Reversed(newest) + Concat(rest)
  {
    var left, limit := older + newest, |newest|;
    PageShowsNewest(tables[0], f, cursor, limit, left);
    assert left[|left| - limit..] == newest && left[|left| - limit] == newest[0];
    var rest := Follow(tables[1..], f, Some(newest[0].key), limit);
    assert ([Reversed(newest)] + rest)[1..] == rest;
  }

  /** The pages show `left` from its newest row to its oldest, and there are just enough of them. */
  ghost predicate Shows(pages: seq<Table<AuditEvent>>, left: Table<AuditEvent>, limit: nat)
    requires 0 < limit
  {
    |pages| == PagesNeeded(|left|, limit) && Concat(pages) == Reversed(left)
  }

  lemma OnePageMore(pages: seq<Table<AuditEvent>>, rest: seq<Table<AuditEvent>>, older: Table<AuditEvent>,
                    newest: Table<AuditEvent>)
    requires newest != [] && older != [] && Shows(rest, older, |newest|)
    requires |pages| == 1 + |rest| && Concat(pages) == Reversed(newest) + Concat(rest)
    ensures Shows(pages, older + newest, |newest|)
  {
    ReversedJoin(older, newest);
  }

  lemma OneRequestMore(tables: seq<Table<AuditEvent>>, f: Filters, cursor: Option<Key>, limit: nat, key: Key,
                       older: Table<AuditEvent>, newest: Table<AuditEvent>)
    requires tables != [] && Selected(tables[0], f, cursor) == older + newest && older != []
    requires 0 < limit == |newest| && key == newest[0].key
    requires Shows(Follow(tables[1..], f, Some(key), limit), older, limit)
    ensures Shows(Follow(tables, f, cursor, limit), older + newest, limit)
  {
    EarlierRequest(tables, f, cursor, older, newest);
    OnePageMore(Follow(tables, f, cursor, limit), Follow(tables[1..], f, Some(key), limit), older, newest);
  }

  lemma NextRequestSees(base: Table<AuditEvent>, tables: seq<Table<AuditEvent>>, f: Filters, all: Table<AuditEvent>,
                        m: nat)
    requires OnlyNewerAdded(base, tables) && |tables| > 1
    requires all == Selected(base, f, None) && m < |all|
    ensures OnlyNewerAdded(base, tables[1..])
    ensures Selected(tables[1..][0], f, Some(all[m].key)) == all[..m]
  {
    NewerRowsUnseen(base, tables[1], f, m);
  }

  lemma EarlierPage(tables: seq<Table<AuditEvent>>, f: Filters, cursor: Option<Key>, limit: nat,
                    all: Table<AuditEvent>, n: nat)
    requires tables != [] && 0 < limit < n <= |all| && Selected(tables[0], f, cursor) == all[..n]
    requires Shows(Follow(tables[1..], f, Some(all[n - limit].key), limit), all[..n - limit], limit)
    ensures Shows(Follow(tables, f, cursor, limit), all[..n], limit)
  {
    var m := n - limit;
    NewestSplit(all, m, n);
    OneRequestMore(tables, f, cursor, limit, all[m].key, all[..m], all[m..n]);
  }

  lemma NewestSplit<T>(s: seq<T>, m: nat, n: nat)
    requires m < n <= |s|
    ensures |s[m..n]| == n - m && s[m..n][0] == s[m] && s[..n] == s[..m] + s[m..n]
  {
  }

  lemma {:induction false} FollowFrom(base: Table<AuditEvent>, tables: seq<Table<AuditEvent>>, f: Filters,
                                      cursor: Option<Key>, limit: nat, all: Table<AuditEvent>, n: nat)
    requires 0 < limit && OnlyNewerAdded(base, tables) && all == Selected(base, f, None)
    requires n <= |all| && |tables| >= PagesNeeded(n, limit) && Selected(tables[0], f, cursor) == all[..n]
    ensures Shows(Follow(tables, f, cursor, limit), all[..n], limit)
    decreases n
  {
    if n <= limit {
      LastRequest(tables, f, cursor, limit, all[..n]);
    } else {
      var m := n - limit;
      NextRequestSees(base, tables, f, all, m);
      FollowFrom(base, tables[1..], f, Some(all[m].key), limit, all, m);
      EarlierPage(tables, f, cursor, limit, all, n);
    }
  }

  /** Following next_cursor from the start yields the events that matched at the first request, newest
      first and each once, in max(1, ceil(n / limit)) pages, whatever newer events arrive meanwhile. */
  lemma FollowingYieldsEachEventOnce(base: Table<AuditEvent>, later: seq<Table<AuditEvent>>, f: Filters, limit: nat)
    requires 0 < limit && Ordered(base) && OnlyNewerAdded(base, later)
    requires |later| + 1 >= PagesNeeded(|Selected(base, f, None)|, limit)
    ensures var pages := Follow([base] + later, f, None, limit);
      && |pages| == PagesNeeded(|Selected(base, f, None)|, limit)
      && NewestFirst(Concat(pages))
      && forall r :: r in Concat(pages) <==>
           && r in base && (f.layer.Some? ==> r.value.layer == f.layer.value)
           && (f.since.Some? ==> f.since.value <= r.key.at) && (f.until.Some? ==> r.key.at <= f.until.value)
  {
    var all, tables := Selected(base, f, None), [base] + later;
    assert all[..|all|] == all;
    forall i | 0 <= i < |tables| ensures Ordered(tables[i]) && base <= tables[i] {
      assert i > 0 ==> tables[i] == later[i - 1];
    }
    FollowFrom(base, tables, f, None, limit, all, |all|);
    SelectedOrdered(base, f, None);
    forall r ensures r in Reversed(all) <==> r in base && Matches(f, r) {
      InSelected(base, f, None, r);
      InReversed(all, r);
    }
  }

  ghost predicate NewestFirst(t: Table<AuditEvent>) {
    forall i, j :: 0 <= i < j < |t| ==> Less(t[j].key, t[i].key)
  }

  lemma InReversed<T>(s: seq<T>, x: T)
    ensures x in Reversed(s) <==> x in s
  {
    if x in s {
      var i :| 0 <= i < |s| && s[i] == x;
      assert Reversed(s)[|s| - 1 - i] == x;
    }
  }

  // ---------- the cursor itself ----------

  datatype Json =
    | Null
    | Bool(b: bool)
    | Number(n: int)
    | String(s: string)
    | Array(items: seq<Json>)
    | Object(fields: map<string, Json>)

  datatype KeysetCursor = KeysetCursor(sort: string, id: string)

  datatype Decoded = Ok(cursor: KeysetCursor) | InvalidCursor

  function EncodeKeysetCursor(c: KeysetCursor): Json {
    Object(map["sort" := String(c.sort), "id" := String(c.id)])
  }

  predicate NonEmptyString(fields: map<string, Json>, name: string) {
    name in fields && fields[name].String? && fields[name].s != ""
  }

  /** `parsed` is what the text decodes to, or None if it is no JSON. */
  function DecodeKeysetCursor(parsed: Option<Json>): Decoded {
    if parsed.None? || !parsed.value.Object? then InvalidCursor
    else
      var fields := parsed.value.fields;
      if NonEmptyString(fields, "sort") && NonEmptyString(fields, "id")
      then Ok(KeysetCursor(fields["sort"].s, fields["id"].s)) else InvalidCursor
  }

  /** Only an object with two non-empty strings is read as a cursor, of just these strings. */
  lemma DecodesOnlyCursors(parsed: Option<Json>, c: KeysetCursor)
    ensures DecodeKeysetCursor(parsed) == Ok(c) <==>
      && parsed.Some? && parsed.value.Object? && c.sort != "" && c.id != ""
      && "sort" in parsed.value.fields && parsed.value.fields["sort"] == String(c.sort)
      && "id" in parsed.value.fields && parsed.value.fields["id"] == String(c.id)
  {
  }

  /** A cursor comes back as it was handed out exactly if neither part is empty. */
  lemma CursorRoundTrip(c: KeysetCursor)
    ensures DecodeKeysetCursor(Some(EncodeKeysetCursor(c))) == Ok(c) <==> c.sort != "" && c.id != ""
  {
    var fields := EncodeKeysetCursor(c).fields;
    assert fields["sort"] == String(c.sort) && fields["id"] == String(c.id);
  }
}
