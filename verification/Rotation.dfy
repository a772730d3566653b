/** The daily window over a catalogue: app/api/adhkar.py and _rotating_daily_acts of app/api/sadaqah.py. */
module Rotation {
  import opened Common

  const DAILY_ACTS_FETCHED := 20
  const DAILY_ACTS_SHOWN := 5

  function Take<T>(s: seq<T>, n: nat): seq<T> {
    if n < |s| then s[..n] else s
  }

  /** OFFSET offset LIMIT limit, then the first rows again when the end was reached. */
  function Rows<T>(items: seq<T>, offset: nat, limit: nat): seq<T>
    requires offset < |items|
  {
    var rows := Take(items[offset..], limit);
    if |rows| < limit && offset != 0 then rows + Take(items, limit - |rows|) else rows
  }

  /** `turn` is the day's ordinal plus the user id. */
  function Window<T>(items: seq<T>, turn: nat, limit: nat): seq<T> {
    if |items| == 0 then [] else Rows(items, turn % |items|, limit)
  }

  method DailyRows<T>(items: seq<T>, turn: nat, limit: nat) returns (rows: seq<T>)
    ensures rows == Window(items, turn, limit)
  {
    var total := |items|;
    if total == 0 {
      return [];
    }
    var offset := turn % total;
    rows := Take(items[offset..], limit);
    if |rows| < limit && offset != 0 {
      rows := rows + Take(items, limit - |rows|);
    }
  }

  /** get_daily_acts: twenty are fetched, the first five are shown. */
  method DailyActs<T>(items: seq<T>, turn: nat) returns (rows: seq<T>)
    ensures rows == Take(Window(items, turn, 20), 5)
  {
    rows := DailyRows(items, turn, DAILY_ACTS_FETCHED);
    rows := Take(rows, DAILY_ACTS_SHOWN);
  }

  // ---------------------------------------------------------------------------
  // Positions
  // ---------------------------------------------------------------------------

  /** x mod total, for x below twice the total. */
  function Wrapped(x: nat, total: nat): (w: nat)
    requires x < 2 * total
    ensures w < total
    ensures w == x % total
  {
    if x < total then x
    else
      ModUnique(x, 1, x - total, total);
      x - total
  }

  lemma RowsAt<T>(items: seq<T>, offset: nat, limit: nat, i: nat)
    requires offset < |items| && i < |Rows(items, offset, limit)|
    ensures offset + i < 2 * |items| && Rows(items, offset, limit)[i] == items[Wrapped(offset + i, |items|)]
  {
  }

  /** Row i of the window is item (offset + i) mod total, also when the catalogue is shorter than the window; then the
      window is short as well, and may repeat items. */
  lemma WindowPositions<T>(items: seq<T>, turn: nat, limit: nat, i: nat)
    requires items != [] && i < |Window(items, turn, limit)|
    ensures Window(items, turn, limit)[i] == items[(turn % |items| + i) % |items|]
  {
    RowsAt(items, turn % |items|, limit, i);
  }

  lemma WindowLength<T>(items: seq<T>, turn: nat, limit: nat)
    requires items != []
    ensures var total, offset := |items|, turn % |items|;
            |Window(items, turn, limit)|
            == if limit <= total then limit
               else if offset == 0 then total
               else if 2 * total - offset < limit then 2 * total - offset
               else limit
  {
  }

  lemma RowsWrap<T>(items: seq<T>, offset: nat, limit: nat, i: nat)
    requires offset < |items| && i < limit <= |items|
    ensures |Rows(items, offset, limit)| == limit
    ensures Rows(items, offset, limit)[i] == items[if offset + i < |items| then offset + i else offset + i - |items|]
  {
    RowsAt(items, offset, limit, i);
  }

  lemma RowsDistinct<T>(items: seq<T>, offset: nat, limit: nat)
    requires Distinct(items) && offset < |items| && limit <= |items|
    ensures |Rows(items, offset, limit)| == limit && Distinct(Rows(items, offset, limit))
  {
    var w := Rows(items, offset, limit);
    assert |w| == limit;
    forall a, b | 0 <= a < b < limit ensures w[a] != w[b] {
      RowsWrap(items, offset, limit, a);
      RowsWrap(items, offset, limit, b);
    }
  }

  lemma RowsMembers<T>(items: seq<T>, offset: nat, limit: nat, j: nat)
    requires Distinct(items) && offset < |items| && j < |items| && limit <= |items|
    ensures items[j] in Rows(items, offset, limit) <==> Ahead(|items|, offset, j) < limit
  {
    var a, w := Ahead(|items|, offset, j), Rows(items, offset, limit);
    if a < limit {
      RowsWrap(items, offset, limit, a);
      assert w[a] == items[j];
    }
    if items[j] in w {
      var i :| 0 <= i < |w| && w[i] == items[j];
      assert |w| == limit;
      RowsWrap(items, offset, limit, i);
      assert i == a;
    }
  }

  /** With enough items, a day's list has `limit` distinct ones: item j is on it exactly when it lies less than `limit`
      places after the offset, going round. */
  lemma WindowMembers<T>(items: seq<T>, turn: nat, limit: nat, j: nat)
    requires Distinct(items) && j < |items| && limit <= |items|
    ensures items[j] in Window(items, turn, limit) <==> Ahead(|items|, turn % |items|, j) < limit
    ensures |Window(items, turn, limit)| == limit && Distinct(Window(items, turn, limit))
  {
    RowsMembers(items, turn % |items|, limit, j);
    RowsDistinct(items, turn % |items|, limit);
  }

  /** How many places after the offset item j comes. */
  function Ahead(total: nat, offset: nat, j: nat): (a: nat)
    requires offset < total && j < total
    ensures a < total
  {
    if j >= offset then j - offset else j - offset + total
  }

  // ---------------------------------------------------------------------------
  // Coverage
  // ---------------------------------------------------------------------------

  predicate Listed<T(==)>(items: seq<T>, turn: nat, k: nat, limit: nat, j: nat)
    requires j < |items|
  {
    items[j] in Window(items, turn + k, limit)
  }

  /** The distance k days later. */
  function Falls(total: nat, ahead: nat, k: nat): int {
    if k <= ahead then ahead - k else ahead - k + total
  }

  /** On how many of the first `days` days something is the case. */
  function CountDays(on: nat -> bool, days: nat): nat {
    if days == 0 then 0 else CountDays(on, days - 1) + if on(days - 1) then 1 else 0
  }

  lemma {:induction false} SameCount(a: nat -> bool, b: nat -> bool, days: nat)
    requires forall k: nat :: k < days ==> a(k) == b(k)
    ensures CountDays(a, days) == CountDays(b, days)
  {
    if days > 0 {
      SameCount(a, b, days - 1);
    }
  }

  /** The days on which x is in that day's list. */
  function OnList<T(==)>(lists: nat -> seq<T>, x: T): nat -> bool {
    (k: nat) => x in lists(k)
  }

  lemma SameLists<T>(a: nat -> seq<T>, b: nat -> seq<T>, x: T, days: nat)
    requires forall k: nat :: k < days ==> a(k) == b(k)
    ensures CountDays(OnList(a, x), days) == CountDays(OnList(b, x), days)
  {
    SameCount(OnList(a, x), OnList(b, x), days);
  }

  /** The window k days after the first. */
  function Windows<T>(items: seq<T>, turn: nat, limit: nat): nat -> seq<T> {
    (k: nat) => Window(items, turn + k, limit)
  }

  function ListedOn<T(==)>(items: seq<T>, turn: nat, limit: nat, j: nat): nat -> bool
    requires j < |items|
  {
    OnList(Windows(items, turn, limit), items[j])
  }

  /** On how many of `days` consecutive days item j is listed. */
  function Appearances<T(==)>(items: seq<T>, turn: nat, days: nat, limit: nat, j: nat): nat
    requires j < |items|
  {
    CountDays(ListedOn(items, turn, limit, j), days)
  }

  /** The same days by distance: it falls by one each day and wraps at zero. */
  function Near(total: nat, ahead: nat, limit: nat): nat -> bool {
    (k: nat) => Falls(total, ahead, k) < limit
  }

  lemma {:induction false} CountNear(total: nat, ahead: nat, days: nat, limit: nat)
    requires ahead < total && days <= total && limit <= total
    ensures CountDays(Near(total, ahead, limit), days)
            == if days <= ahead + 1 then Max(0, days - Max(0, ahead + 1 - limit))
               else (if ahead + 1 < limit then ahead + 1 else limit) + Max(0, days - 1 - (total + ahead - limit))
  {
    if days > 0 {
      CountNear(total, ahead, days - 1, limit);
    }
  }

  /** The distance falls as the offset moves on and wraps. */
  lemma AheadFalls(total: nat, offset: nat, next: nat, k: nat, j: nat)
    requires offset < total && k < total && j < total
    requires next == if offset + k < total then offset + k else offset + k - total
    ensures Ahead(total, next, j) == Falls(total, Ahead(total, offset, j), k)
  {
  }

  lemma ModAdd(x: nat, k: nat, n: nat)
    requires 0 < n && k < n
    ensures (x + k) % n == if x % n + k < n then x % n + k else x % n + k - n
  {
    var q, r := x / n, x % n;
    assert x == q * n + r;
    if r + k < n {
      ModUnique(x + k, q, r + k, n);
    } else {
      assert x + k == (q + 1) * n + (r + k - n);
      ModUnique(x + k, q + 1, r + k - n, n);
    }
  }

  lemma ModUnique(x: nat, q: nat, r: nat, n: nat)
    requires 0 < n && r < n && x == q * n + r
    ensures x % n == r
  {
    var q', r' := x / n, x % n;
    assert x == q' * n + r';
    var d := q' - q;
    assert d * n == r - r';
    assert d >= 1 ==> d * n >= n;
    assert d <= -1 ==> d * n + n <= 0;
  }

  lemma ListedOnDay<T>(items: seq<T>, turn: nat, k: nat, limit: nat, j: nat)
    requires Distinct(items) && j < |items| && limit <= |items| && k < |items|
    ensures Listed(items, turn, k, limit, j) <==> Falls(|items|, Ahead(|items|, turn % |items|, j), k) < limit
  {
    var total := |items|;
    var offset, next := turn % total, (turn + k) % total;
    ModAdd(turn, k, total);
    AheadFalls(total, offset, next, k, j);
    RowsMembers(items, next, limit, j);
  }

  /** Over any `total` consecutive days every item of the catalogue is listed on exactly `limit` of them. */
  lemma EveryItemEquallyOften<T>(items: seq<T>, turn: nat, limit: nat, j: nat)
    requires Distinct(items) && j < |items| && limit <= |items|
    ensures Appearances(items, turn, |items|, limit, j) == limit
  {
    var total, ahead := |items|, Ahead(|items|, turn % |items|, j);
    forall k: nat | k < total ensures ListedOn(items, turn, limit, j)(k) == Near(total, ahead, limit)(k) {
      ListedOnDay(items, turn, k, limit, j);
    }
    SameCount(ListedOn(items, turn, limit, j), Near(total, ahead, limit), total);
    CountNear(total, ahead, total, limit);
  }

  /** Fetching twenty and showing five is a window of five as soon as there are five acts, although the fetched rows
      may repeat; so the five shown rotate through the catalogue like any other window. */
  lemma FirstFiveAreAWindow<T>(items: seq<T>, turn: nat)
    requires |items| >= 5
    ensures Take(Window(items, turn, 20), 5) == Window(items, turn, 5)
  {
    var long, short := Window(items, turn, 20), Window(items, turn, 5);
    WindowLength(items, turn, 20);
    WindowLength(items, turn, 5);
    forall i | 0 <= i < 5 ensures long[i] == short[i] {
      WindowPositions(items, turn, 20, i);
      WindowPositions(items, turn, 5, i);
    }
  }

  /** The acts shown k days after the first. */
  function Shown<T>(items: seq<T>, turn: nat): nat -> seq<T> {
    (k: nat) => Take(Window(items, turn + k, 20), 5)
  }

  lemma ShownIsAWindow<T>(items: seq<T>, turn: nat, k: nat)
    requires |items| >= 5
    ensures Shown(items, turn)(k) == Windows(items, turn, 5)(k)
  {
    FirstFiveAreAWindow(items, turn + k);
  }

  /** So get_daily_acts shows every act on exactly five of any `total` consecutive days, if there are five acts. */
  lemma EveryActEquallyOften<T>(items: seq<T>, turn: nat, j: nat)
    requires Distinct(items) && j < |items| && |items| >= 5
    ensures CountDays(OnList(Shown(items, turn), items[j]), |items|) == 5
  {
    var shown, windows := Shown(items, turn), Windows(items, turn, 5);
    forall k: nat | k < |items| ensures shown(k) == windows(k) {
      ShownIsAWindow(items, turn, k);
    }
    SameLists(shown, windows, items[j], |items|);
    EveryItemEquallyOften(items, turn, 5, j);
  }

  /** A catalogue shorter than the window: from the second item on, the last rows repeat the first. */
  lemma ShortCatalogueRepeats<T>(items: seq<T>, turn: nat, limit: nat)
    requires 1 <= |items| < limit
    ensures Distinct(items) ==> (Distinct(Window(items, turn, limit)) <==> turn % |items| == 0)
  {
    var total, offset := |items|, turn % |items|;
    var w := Window(items, turn, limit);
    WindowLength(items, turn, limit);
    if offset == 0 {
      assert w == items;
    } else {
      RowsAt(items, offset, limit, 0);
      RowsAt(items, offset, limit, total);
    }
  }
}
