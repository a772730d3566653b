/** The repair migration alembic/versions/f7b8c9d0e1f2_repair_active_goal_index.py. */
module Migration {
  import opened Common

  /** A user_goals row as raw SQL sees it: the status is text, older rows hold lower-case names. */
  datatype Row = Row(id: int, userId: int, status: string, createdAt: int, updatedAt: int, deletedAt: Option<int>)

  const LOWER_NAMES := ["active", "completed", "archived", "replaced"]

  function UpperChar(c: char): char {
    if 'a' <= c <= 'z' then (c as int - 32) as char else c
  }

  /** UPPER(), on ASCII letters. */
  function Upper(s: string): string {
    seq(|s|, i requires 0 <= i < |s| => UpperChar(s[i]))
  }

  predicate LiveActive(r: Row) {
    r.status == "ACTIVE" && r.deletedAt.None?
  }

  /** r comes before s in (created_at, id) order. */
  predicate Older(r: Row, s: Row) {
    r.createdAt < s.createdAt || (r.createdAt == s.createdAt && r.id < s.id)
  }

  predicate Superseded(t: seq<Row>, r: Row) {
    LiveActive(r) && exists k :: 0 <= k < |t| && t[k].userId == r.userId && LiveActive(t[k]) && Older(r, t[k])
  }

  function Normalised(r: Row, now: int): Row {
    if r.status in LOWER_NAMES then r.(status := Upper(r.status), updatedAt := now) else r
  }

  function NormaliseAll(t: seq<Row>, now: int): seq<Row> {
    seq(|t|, i requires 0 <= i < |t| => Normalised(t[i], now))
  }

  function Kept(t: seq<Row>, r: Row, now: int): Row {
    if Superseded(t, r) then r.(status := "ARCHIVED", updatedAt := now) else r
  }

  function ArchiveOlder(t: seq<Row>, now: int): seq<Row> {
    seq(|t|, i requires 0 <= i < |t| => Kept(t, t[i], now))
  }

  /** Both statements see the table as it was when they start. */
  method Upgrade(table: array<Row>, now: int)
    modifies table
    ensures table[..] == ArchiveOlder(NormaliseAll(old(table[..]), now), now)
  {
    ghost var before := table[..];
    forall i | 0 <= i < table.Length && table[i].status in LOWER_NAMES {
      table[i] := table[i].(status := Upper(table[i].status), updatedAt := now);
    }
    assert table[..] == NormaliseAll(before, now);
    ghost var middle := table[..];
    var rows := table[..];
    forall i | 0 <= i < table.Length && Superseded(rows, table[i]) {
      table[i] := table[i].(status := "ARCHIVED", updatedAt := now);
    }
    assert table[..] == ArchiveOlder(middle, now);
  }

  function Upgraded(t: seq<Row>, now: int): seq<Row> {
    ArchiveOlder(NormaliseAll(t, now), now)
  }

  // ---------------------------------------------------------------------------
  // What the migration achieves
  // ---------------------------------------------------------------------------

  ghost predicate UniqueIds(t: seq<Row>) {
    forall i, j :: 0 <= i < j < |t| ==> t[i].id != t[j].id
  }

  /** The predicate of the partial unique index. */
  ghost predicate IndexBuilds(t: seq<Row>) {
    forall i, j :: 0 <= i < j < |t| && LiveActive(t[i]) && LiveActive(t[j]) ==> t[i].userId != t[j].userId
  }

  /** A live goal in either spelling the migration knows. */
  predicate WasActive(r: Row) {
    r.status in ["active", "ACTIVE"] && r.deletedAt.None?
  }

  /** Row i is the newest live active goal of its user. */
  ghost predicate Newest(t: seq<Row>, i: nat) {
    && i < |t| && WasActive(t[i])
    && forall k :: 0 <= k < |t| && t[k].userId == t[i].userId && WasActive(t[k]) && k != i ==>
         t[k].createdAt < t[i].createdAt || (t[k].createdAt == t[i].createdAt && t[k].id < t[i].id)
  }

  lemma UpperNames()
    ensures Upper("active") == "ACTIVE" && Upper("completed") == "COMPLETED"
    ensures Upper("archived") == "ARCHIVED" && Upper("replaced") == "REPLACED"
  {
    assert Upper("active") == "ACTIVE";
    assert Upper("completed") == "COMPLETED";
    assert Upper("archived") == "ARCHIVED";
    assert Upper("replaced") == "REPLACED";
  }

  lemma NormalisedActive(r: Row, now: int)
    ensures LiveActive(Normalised(r, now)) <==> WasActive(r)
  {
    UpperNames();
    assert "COMPLETED"[0] != "ACTIVE"[0] && "REPLACED"[0] != "ACTIVE"[0] && "ARCHIVED"[1] != "ACTIVE"[1];
    assert r.status in LOWER_NAMES ==>
      r.status == "active" || r.status == "completed" || r.status == "archived" || r.status == "replaced";
  }

  /** A row is live and active afterwards exactly when it was the newest live active row of its user. */
  lemma KeepsExactlyTheNewest(t: seq<Row>, now: int, i: nat)
    requires UniqueIds(t) && i < |t|
    ensures LiveActive(Upgraded(t, now)[i]) <==> Newest(t, i)
  {
    var m := NormaliseAll(t, now);
    NormalisedActive(t[i], now);
    assert !LiveActive(m[i].(status := "ARCHIVED", updatedAt := now)) by { assert "ARCHIVED"[1] != "ACTIVE"[1]; }
    forall k | 0 <= k < |t| ensures LiveActive(m[k]) <==> WasActive(t[k]) {
      NormalisedActive(t[k], now);
    }
    if WasActive(t[i]) && !Newest(t, i) {
      var k :| 0 <= k < |t| && t[k].userId == t[i].userId && WasActive(t[k]) && k != i
        && !(t[k].createdAt < t[i].createdAt || (t[k].createdAt == t[i].createdAt && t[k].id < t[i].id));
      assert t[i].id != t[k].id;
      assert m[k] == Normalised(t[k], now) && m[i] == Normalised(t[i], now) && Older(m[i], m[k]);
      assert Superseded(m, m[i]);
    }
  }

  /** The unique index can be built on whatever the table held. */
  lemma IndexBuildsAfterwards(t: seq<Row>, now: int)
    requires UniqueIds(t)
    ensures IndexBuilds(Upgraded(t, now))
  {
    var u := Upgraded(t, now);
    forall i, j | 0 <= i < j < |u| && LiveActive(u[i]) && LiveActive(u[j]) ensures u[i].userId != u[j].userId {
      KeepsExactlyTheNewest(t, now, i);
      KeepsExactlyTheNewest(t, now, j);
    }
  }

  /** Row k is the newest live active row of the user among the first n rows. */
  ghost predicate NewestOf(t: seq<Row>, userId: int, n: nat, k: nat) {
    && k < n <= |t| && t[k].userId == userId && WasActive(t[k])
    && forall j :: 0 <= j < n && t[j].userId == userId && WasActive(t[j]) ==> j == k || Older(t[j], t[k])
  }

  lemma OlderIsTransitive(a: Row, b: Row, c: Row)
    requires Older(a, b) && Older(b, c)
    ensures Older(a, c)
  {
  }

  lemma {:induction false} FindNewest(t: seq<Row>, userId: int, n: nat) returns (k: Option<nat>)
    requires UniqueIds(t) && n <= |t|
    ensures k.Some? ==> NewestOf(t, userId, n, k.value)
    ensures k.None? ==> forall j :: 0 <= j < n && t[j].userId == userId ==> !WasActive(t[j])
  {
    if n == 0 {
      return None;
    }
    var last := n - 1;
    k := FindNewest(t, userId, last);
    if t[last].userId == userId && WasActive(t[last]) {
      if k.None? {
        k := Some(last);
      } else {
        var h := k.value;
        assert t[h].id != t[last].id;
        if Older(t[h], t[last]) {
          forall j | 0 <= j < n && t[j].userId == userId && WasActive(t[j]) ensures j == last || Older(t[j], t[last]) {
            if j != last && j != h { OlderIsTransitive(t[j], t[h], t[last]); }
          }
          k := Some(last);
        }
      }
    }
  }

  /** Each user with a live active goal ends with one; by IndexBuildsAfterwards with exactly one. */
  lemma UserKeepsOne(t: seq<Row>, now: int, i: nat)
    requires UniqueIds(t) && i < |t| && WasActive(t[i])
    ensures exists k: nat :: k < |t| && t[k].userId == t[i].userId && LiveActive(Upgraded(t, now)[k])
  {
    var k := FindNewest(t, t[i].userId, |t|);
    assert k.Some?;
    assert Newest(t, k.value);
    KeepsExactlyTheNewest(t, now, k.value);
  }

  /** What becomes of each row: a live active one that is not its user's newest is archived, one of the four lower-case
      names is written in capitals, and any other row stays as it was. */
  lemma RowChange(t: seq<Row>, now: int, i: nat)
    requires UniqueIds(t) && i < |t|
    ensures Upgraded(t, now)[i] ==
            if WasActive(t[i]) && !Newest(t, i) then t[i].(status := "ARCHIVED", updatedAt := now)
            else if t[i].status == "active" then t[i].(status := "ACTIVE", updatedAt := now)
            else if t[i].status == "completed" then t[i].(status := "COMPLETED", updatedAt := now)
            else if t[i].status == "archived" then t[i].(status := "ARCHIVED", updatedAt := now)
            else if t[i].status == "replaced" then t[i].(status := "REPLACED", updatedAt := now)
            else t[i]
  {
    KeepsExactlyTheNewest(t, now, i);
    NormalisedActive(t[i], now);
    UpperNames();
  }

  /** Running it again changes nothing. */
  lemma UpgradeTwice(t: seq<Row>, now: int, later: int)
    requires UniqueIds(t)
    ensures Upgraded(Upgraded(t, now), later) == Upgraded(t, now)
  {
    var u := Upgraded(t, now);
    IndexBuildsAfterwards(t, now);
    forall i | 0 <= i < |u| ensures Upgraded(u, later)[i] == u[i] {
      NotLowerAfterwards(t, now, i);
    }
    assert forall k :: 0 <= k < |u| ==> NormaliseAll(u, later)[k] == u[k];
  }

  lemma NotLowerAfterwards(t: seq<Row>, now: int, i: nat)
    requires i < |t|
    ensures Upgraded(t, now)[i].status !in LOWER_NAMES
  {
    UpperNames();
    assert forall s :: s in LOWER_NAMES ==> 'a' <= s[0] <= 'z';
    assert "ACTIVE"[0] < 'a' && "COMPLETED"[0] < 'a' && "ARCHIVED"[0] < 'a' && "REPLACED"[0] < 'a';
  }

  /** Only the four lower-case names are normalised: a row with any other status than these and the one the index looks
      for comes out as it went in, and is counted as active by neither. */
  lemma OtherSpellingsAreLeftAlone(t: seq<Row>, now: int, i: nat)
    requires i < |t| && t[i].status !in LOWER_NAMES && t[i].status != "ACTIVE"
    ensures Upgraded(t, now)[i] == t[i] && !LiveActive(Upgraded(t, now)[i])
  {
  }
}
