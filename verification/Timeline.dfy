/** The family timeline and its keyset cursor: list_activities of app/family/repository.py. */
module Timeline {
  import opened Common

  datatype Activity = Activity(id: int, familyId: int, createdAt: int)

  /** The query parameter: absent or empty, unreadable (and then ignored), or the position of a row. */
  datatype Cursor = Absent | Malformed | At(createdAt: int, id: int)

  /** a is listed before b. */
  predicate Newer(a: Activity, b: Activity) {
    a.createdAt > b.createdAt || (a.createdAt == b.createdAt && a.id > b.id)
  }

  predicate Below(a: Activity, c: Cursor) {
    c.At? ==> a.createdAt < c.createdAt || (a.createdAt == c.createdAt && a.id < c.id)
  }

  ghost predicate Sorted(s: seq<Activity>) {
    forall i, j :: 0 <= i < j < |s| ==> Newer(s[i], s[j])
  }

  /** The primary key. */
  ghost predicate UniqueIds(t: seq<Activity>) {
    forall a, b :: a in t && b in t && a.id == b.id ==> a == b
  }

  // ---------------------------------------------------------------------------
  // The query
  // ---------------------------------------------------------------------------

  function Selected(t: seq<Activity>, familyId: int, c: Cursor): (r: seq<Activity>)
    ensures forall a :: a in r <==> a in t && a.familyId == familyId && Below(a, c)
  {
    if t == [] then []
    else
      var rest := Selected(t[1..], familyId, c);
      assert t == [t[0]] + t[1..];
      if t[0].familyId == familyId && Below(t[0], c) then [t[0]] + rest else rest
  }

  function Insert(a: Activity, s: seq<Activity>): (r: seq<Activity>)
    ensures forall x :: x in r <==> x == a || x in s
  {
    if s == [] then [a]
    else if s[0] == a then s
    else if Newer(a, s[0]) then [a] + s
    else
      assert s == [s[0]] + s[1..];
      [s[0]] + Insert(a, s[1..])
  }

  /** ORDER BY created_at DESC, id DESC */
  function Ordered(t: seq<Activity>): (r: seq<Activity>)
    ensures forall x :: x in r <==> x in t
  {
    if t == [] then []
    else
      assert t == [t[0]] + t[1..];
      Insert(t[0], Ordered(t[1..]))
  }

  function Listing(t: seq<Activity>, familyId: int, c: Cursor): seq<Activity> {
    Ordered(Selected(t, familyId, c))
  }

  function PageRows(t: seq<Activity>, familyId: int, limit: nat, c: Cursor): seq<Activity> {
    var all := Listing(t, familyId, c);
    if |all| > limit then all[..limit] else all
  }

  function NextCursor(t: seq<Activity>, familyId: int, limit: nat, c: Cursor): Cursor {
    var all := Listing(t, familyId, c);
    if |all| > limit > 0 then At(all[limit - 1].createdAt, all[limit - 1].id) else Absent
  }

  /** list_activities: fetch one row more than asked for to learn whether there is a next page. */
  method ListActivities(t: seq<Activity>, familyId: int, limit: nat, c: Cursor)
    returns (rows: seq<Activity>, next: Cursor)
    ensures rows == PageRows(t, familyId, limit, c)
    ensures next == NextCursor(t, familyId, limit, c)
  {
    var all := Listing(t, familyId, c);
    rows := if |all| > limit + 1 then all[..limit + 1] else all;
    var hasMore := |rows| > limit;
    if hasMore {
      rows := rows[..limit];
    }
    next := Absent;
    if hasMore && rows != [] {
      var last := rows[|rows| - 1];
      next := At(last.createdAt, last.id);
    }
  }

  // ---------------------------------------------------------------------------
  // Order
  // ---------------------------------------------------------------------------

  lemma {:induction false} InsertSorted(a: Activity, s: seq<Activity>)
    requires Sorted(s)
    requires forall x :: x in s && x.id == a.id ==> x == a
    ensures Sorted(Insert(a, s))
  {
    if s != [] && s[0] != a && !Newer(a, s[0]) {
      assert s == [s[0]] + s[1..];
      InsertSorted(a, s[1..]);
      var rest := Insert(a, s[1..]);
      assert s[0].id != a.id;
      forall k | 0 <= k < |rest| ensures Newer(s[0], rest[k]) {
        assert rest[k] in rest;
        if rest[k] != a {
          var i :| 0 <= i < |s[1..]| && s[1..][i] == rest[k];
          assert Newer(s[0], s[i + 1]);
        }
      }
    }
  }

  lemma {:induction false} OrderedSorted(t: seq<Activity>)
    requires UniqueIds(t)
    ensures Sorted(Ordered(t))
  {
    if t != [] {
      assert t == [t[0]] + t[1..];
      OrderedSorted(t[1..]);
      InsertSorted(t[0], Ordered(t[1..]));
    }
  }

  lemma ListingSorted(t: seq<Activity>, familyId: int, c: Cursor)
    requires UniqueIds(t)
    ensures Sorted(Listing(t, familyId, c))
    ensures forall a :: a in Listing(t, familyId, c) <==> a in t && a.familyId == familyId && Below(a, c)
  {
    OrderedSorted(Selected(t, familyId, c));
  }

  /** A strictly ordered list is determined by its elements. */
  lemma {:induction false} SameElements(a: seq<Activity>, b: seq<Activity>)
    requires Sorted(a) && Sorted(b)
    requires forall x :: x in a <==> x in b
    ensures a == b
  {
    assert a != [] ==> a[0] in a;
    assert b != [] ==> b[0] in b;
    if a != [] && b != [] {
      assert a[0] in b && b[0] in a;
      assert a[0] == b[0];
      var ta, tb := a[1..], b[1..];
      assert a == [a[0]] + ta && b == [b[0]] + tb;
      forall x ensures x in ta <==> x in tb {
        if x in ta { var i :| 0 <= i < |ta| && ta[i] == x; assert Newer(a[0], a[i + 1]); assert x in a; }
        if x in tb { var i :| 0 <= i < |tb| && tb[i] == x; assert Newer(b[0], b[i + 1]); assert x in b; }
      }
      SameElements(ta, tb);
    }
  }

  /** What lies below the last row of a page is exactly what the page has cut off. */
  lemma CutOff(s: seq<Activity>, m: nat, x: Activity)
    requires Sorted(s) && 0 < m <= |s|
    requires x in s
    ensures x in s[m..] <==> Below(x, At(s[m - 1].createdAt, s[m - 1].id))
    ensures x in s[..m] <==> x !in s[m..]
  {
    var i :| 0 <= i < |s| && s[i] == x;
    if i < m {
      assert s[..m][i] == x;
      assert i == m - 1 || Newer(s[i], s[m - 1]);
      forall k | 0 <= k < |s[m..]| ensures s[m..][k] != x {
        assert Newer(s[i], s[m + k]);
      }
    } else {
      assert s[m..][i - m] == x;
      assert Newer(s[m - 1], s[i]);
      forall k | 0 <= k < m ensures s[..m][k] != x {
        assert Newer(s[k], s[i]);
      }
    }
  }

  // ---------------------------------------------------------------------------
  // Following next_cursor
  // ---------------------------------------------------------------------------

  /** The rows collected by one request per table state, in order, until a page comes without a cursor. */
  function Walk(tables: seq<seq<Activity>>, familyId: int, limit: nat, c: Cursor): seq<Activity>
    decreases |tables|
  {
    if tables == [] then []
    else
      var rows, next := PageRows(tables[0], familyId, limit, c), NextCursor(tables[0], familyId, limit, c);
      if next == Absent then rows else rows + Walk(tables[1..], familyId, limit, next)
  }

  /** The last page has been reached. */
  predicate Ended(tables: seq<seq<Activity>>, familyId: int, limit: nat, c: Cursor)
    decreases |tables|
  {
    tables != [] &&
    (NextCursor(tables[0], familyId, limit, c) == Absent
     || Ended(tables[1..], familyId, limit, NextCursor(tables[0], familyId, limit, c)))
  }

  /** Rows are only added, and ids are never reused. */
  ghost predicate Growing(tables: seq<seq<Activity>>) {
    && (forall k :: 0 <= k < |tables| ==> UniqueIds(tables[k]))
    && (forall k :: 0 < k < |tables| ==> Includes(tables[k - 1], tables[k]))
  }

  ghost predicate Includes(t: seq<Activity>, u: seq<Activity>) {
    forall a :: a in t ==> a in u
  }

  lemma GrowingTail(tables: seq<seq<Activity>>)
    requires Growing(tables) && tables != []
    ensures Growing(tables[1..])
    ensures |tables| > 1 ==> Includes(tables[0], tables[1..][0])
  {
    var rest := tables[1..];
    forall k | 0 < k < |rest| ensures Includes(rest[k - 1], rest[k]) {
      assert Includes(tables[k + 1 - 1], tables[k + 1]);
    }
    assert |tables| > 1 ==> Includes(tables[1 - 1], tables[1]);
  }

  lemma SortedConcat(a: seq<Activity>, b: seq<Activity>)
    requires Sorted(a) && Sorted(b) && a != []
    requires forall x :: x in b ==> Newer(a[|a| - 1], x)
    ensures Sorted(a + b)
  {
    var s := a + b;
    forall i, j | 0 <= i < j < |s| ensures Newer(s[i], s[j]) {
      if i < |a| <= j {
        assert s[j] in b;
        assert i == |a| - 1 || Newer(a[i], a[|a| - 1]);
      }
    }
  }

  /** One page is sorted, newest first and of one moment the greater id first; it holds rows of the family beyond the
      cursor, and its own cursor is the position of its last row. */
  lemma PageIsSorted(t: seq<Activity>, familyId: int, limit: nat, c: Cursor)
    requires UniqueIds(t) && limit > 0
    ensures var rows, next := PageRows(t, familyId, limit, c), NextCursor(t, familyId, limit, c);
            && Sorted(rows)
            && (forall i, j :: 0 <= i < j < |rows| ==>
                  rows[i].createdAt > rows[j].createdAt
                  || (rows[i].createdAt == rows[j].createdAt && rows[i].id > rows[j].id))
            && (forall a :: a in rows ==> a in t && a.familyId == familyId && Below(a, c))
            && (next != Absent ==> rows != [] && next == At(rows[|rows| - 1].createdAt, rows[|rows| - 1].id))
  {
    ListingSorted(t, familyId, c);
    var all, rows := Listing(t, familyId, c), PageRows(t, familyId, limit, c);
    assert forall i :: 0 <= i < |rows| ==> rows[i] == all[i] && all[i] in all;
    forall i, j | 0 <= i < j < |rows|
      ensures rows[i].createdAt > rows[j].createdAt
              || (rows[i].createdAt == rows[j].createdAt && rows[i].id > rows[j].id)
    {
      assert Newer(all[i], all[j]);
    }
  }

  lemma {:induction false} WalkSorted(tables: seq<seq<Activity>>, familyId: int, limit: nat, c: Cursor)
    requires Growing(tables) && limit > 0
    ensures Sorted(Walk(tables, familyId, limit, c))
    ensures forall a :: a in Walk(tables, familyId, limit, c) ==> Below(a, c) && a.familyId == familyId
    decreases |tables|
  {
    if tables != [] {
      PageIsSorted(tables[0], familyId, limit, c);
      var rows, next := PageRows(tables[0], familyId, limit, c), NextCursor(tables[0], familyId, limit, c);
      if next != Absent {
        GrowingTail(tables);
        WalkSorted(tables[1..], familyId, limit, next);
        var later, last := Walk(tables[1..], familyId, limit, next), rows[|rows| - 1];
        assert last in rows;
        forall a | a in later ensures Newer(last, a) && Below(a, c) {
          BelowIsTransitive(a, next, c, last);
        }
        SortedConcat(rows, later);
      }
    }
  }

  /** Whatever is inserted between the requests, wherever it sorts: no row is yielded twice, the order holds, and every
      row of the family that was there at the start is yielded. */
  lemma {:induction false} WalkMissesNothing(tables: seq<seq<Activity>>, familyId: int, limit: nat, c: Cursor,
          a: Activity)
    requires Growing(tables) && limit > 0 && Ended(tables, familyId, limit, c)
    requires a in tables[0] && a.familyId == familyId && Below(a, c)
    ensures a in Walk(tables, familyId, limit, c)
    ensures Sorted(Walk(tables, familyId, limit, c))
    decreases |tables|
  {
    WalkSorted(tables, familyId, limit, c);
    var all := Listing(tables[0], familyId, c);
    ListingSorted(tables[0], familyId, c);
    GrowingTail(tables);
    var next := NextCursor(tables[0], familyId, limit, c);
    if next != Absent {
      CutOff(all, limit, a);
      if a !in all[..limit] {
        WalkMissesNothing(tables[1..], familyId, limit, next, a);
      }
    }
  }

  /** The rows added after the start are newer than every row there was. */
  ghost predicate OnlyNewer(start: seq<Activity>, t: seq<Activity>) {
    && (forall a :: a in start ==> a in t)
    && (forall a, b :: a in t && a !in start && b in start ==> Newer(a, b))
  }

  /** One page, and one more for every `limit` rows beyond it. */
  function PagesFor(rows: nat, limit: nat): (n: nat)
    requires limit > 0
    ensures n > 0 && (n - 1) * limit <= rows <= n * limit
  {
    if rows <= limit then 1
    else
      var m := PagesFor(rows - limit, limit);
      assert (m + 1) * limit == m * limit + limit && m * limit == (m - 1) * limit + limit;
      m + 1
  }

  /** The tables that successive requests read. */
  ghost predicate Reads(start: seq<Activity>, tables: seq<seq<Activity>>) {
    forall k :: 0 <= k < |tables| ==> UniqueIds(tables[k]) && OnlyNewer(start, tables[k])
  }

  ghost predicate PositionIn(start: seq<Activity>, c: Cursor) {
    c.At? && exists b :: b in start && b.createdAt == c.createdAt && b.id == c.id
  }

  lemma {:induction false} WalkFrom(start: seq<Activity>, tables: seq<seq<Activity>>, familyId: int, limit: nat,
          c: Cursor)
    requires UniqueIds(start) && limit > 0
    requires Reads(start, tables)
    requires PositionIn(start, c)
    requires |tables| >= PagesFor(|Listing(start, familyId, c)|, limit)
    ensures Ended(tables, familyId, limit, c)
    ensures Walk(tables, familyId, limit, c) == Listing(start, familyId, c)
    decreases |tables|
  {
    var all := Listing(start, familyId, c);
    ListingSorted(start, familyId, c);
    ListingSorted(tables[0], familyId, c);
    assert OnlyNewer(start, tables[0]);
    SameElements(Listing(tables[0], familyId, c), all);
    WalkStep(start, tables, familyId, limit, c);
  }

  /** The rows below the cursor of a page are the rows the page left out. */
  lemma RestOfListing(t: seq<Activity>, familyId: int, limit: nat, c: Cursor)
    requires UniqueIds(t) && |Listing(t, familyId, c)| > limit > 0
    ensures Listing(t, familyId, NextCursor(t, familyId, limit, c)) == Listing(t, familyId, c)[limit..]
  {
    var all, next := Listing(t, familyId, c), NextCursor(t, familyId, limit, c);
    ListingSorted(t, familyId, c);
    ListingSorted(t, familyId, next);
    var last, rest := all[limit - 1], all[limit..];
    assert last in all;
    forall x ensures x in Listing(t, familyId, next) <==> x in rest {
      if x in all {
        CutOff(all, limit, x);
      } else {
        assert forall i :: 0 <= i < |rest| ==> rest[i] in all;
        BelowIsTransitive(x, next, c, last);
      }
    }
    SameElements(Listing(t, familyId, next), rest);
  }

  /** One page, when the first table lists the same rows as the start. */
  lemma {:induction false} WalkStep(start: seq<Activity>, tables: seq<seq<Activity>>, familyId: int, limit: nat,
          c: Cursor)
    requires UniqueIds(start) && limit > 0
    requires Reads(start, tables)
    requires |tables| >= PagesFor(|Listing(start, familyId, c)|, limit)
    requires Listing(tables[0], familyId, c) == Listing(start, familyId, c)
    ensures Ended(tables, familyId, limit, c)
    ensures Walk(tables, familyId, limit, c) == Listing(start, familyId, c)
    decreases |tables|, 0
  {
    var all := Listing(start, familyId, c);
    if |all| > limit {
      var next, rest := NextCursor(start, familyId, limit, c), tables[1..];
      RestOfListing(start, familyId, limit, c);
      CursorIsARow(start, familyId, limit, c);
      ReadsTail(start, tables);
      WalkFrom(start, rest, familyId, limit, next);
      FirstPage(tables, familyId, limit, c);
      TakeDrop(all, limit);
    }
  }

  /** A walk whose first page does not end it. */
  lemma FirstPage(tables: seq<seq<Activity>>, familyId: int, limit: nat, c: Cursor)
    requires tables != [] && |Listing(tables[0], familyId, c)| > limit > 0
    ensures var all := Listing(tables[0], familyId, c);
            var next := At(all[limit - 1].createdAt, all[limit - 1].id);
            && NextCursor(tables[0], familyId, limit, c) == next
            && Walk(tables, familyId, limit, c) == all[..limit] + Walk(tables[1..], familyId, limit, next)
            && (Ended(tables, familyId, limit, c) <==> Ended(tables[1..], familyId, limit, next))
  {
  }

  lemma ReadsTail(start: seq<Activity>, tables: seq<seq<Activity>>)
    requires Reads(start, tables) && tables != []
    ensures Reads(start, tables[1..])
  {
    var rest := tables[1..];
    assert forall k :: 0 <= k < |rest| ==> rest[k] == tables[k + 1];
  }

  lemma TakeDrop(s: seq<Activity>, m: nat)
    requires m <= |s|
    ensures s == s[..m] + s[m..]
  {
  }

  lemma CursorIsARow(t: seq<Activity>, familyId: int, limit: nat, c: Cursor)
    requires |Listing(t, familyId, c)| > limit > 0
    ensures PositionIn(t, NextCursor(t, familyId, limit, c))
  {
    var last := Listing(t, familyId, c)[limit - 1];
    assert last in Listing(t, familyId, c);
    assert last in t;
  }

  lemma BelowIsTransitive(x: Activity, next: Cursor, c: Cursor, last: Activity)
    requires next == At(last.createdAt, last.id) && Below(last, c)
    ensures Below(x, next) ==> Below(x, c)
  {
  }

  /** From the first page on, with only newer rows arriving, the walk yields the whole timeline as it was at the start:
      in order, no gap, no duplicate, and within PagesFor(n) requests. */
  lemma WholeTimeline(tables: seq<seq<Activity>>, familyId: int, limit: nat)
    requires limit > 0 && tables != []
    requires Reads(tables[0], tables)
    requires |tables| >= PagesFor(|Listing(tables[0], familyId, Absent)|, limit)
    ensures Ended(tables, familyId, limit, Absent)
    ensures Walk(tables, familyId, limit, Absent) == Listing(tables[0], familyId, Absent)
  {
    WalkStep(tables[0], tables, familyId, limit, Absent);
  }

  /** A cursor that cannot be read answers with the first page again. */
  lemma MalformedCursorRestarts(t: seq<Activity>, familyId: int, limit: nat)
    ensures PageRows(t, familyId, limit, Malformed) == PageRows(t, familyId, limit, Absent)
    ensures NextCursor(t, familyId, limit, Malformed) == NextCursor(t, familyId, limit, Absent)
  {
    SelectedSame(t, familyId);
  }

  lemma {:induction false} SelectedSame(t: seq<Activity>, familyId: int)
    ensures Selected(t, familyId, Malformed) == Selected(t, familyId, Absent)
  {
    if t != [] {
      SelectedSame(t[1..], familyId);
    }
  }
}
