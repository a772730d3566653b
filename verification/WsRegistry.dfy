/** One registry of app/core/ws_manager.py: a dictionary from a user or family id to its open sockets. */
module WsRegistry {
  import opened Common

  /** A socket belongs to the process that accepted it. */
  datatype Socket = Socket(host: nat, id: nat)

  type Table<!K(==)> = map<K, seq<Socket>>

  const MAX_CONNECTIONS_PER_KEY := 5

  /** registry.get(key, []) */
  function Get<K(==)>(t: Table<K>, key: K): seq<Socket> {
    if key in t then t[key] else []
  }

  /** Store a list under its key, or drop the key when the list is empty. */
  function Put<K(==)>(t: Table<K>, key: K, conns: seq<Socket>): Table<K> {
    if conns == [] then t - {key} else t[key := conns]
  }

  function Join<K(==)>(t: Table<K>, key: K, ws: Socket): Table<K> {
    t[key := Get(t, key) + [ws]]
  }

  /** list.remove: the first occurrence goes. */
  function Remove(conns: seq<Socket>, ws: Socket): seq<Socket> {
    if conns == [] then []
    else if conns[0] == ws then conns[1..]
    else [conns[0]] + Remove(conns[1..], ws)
  }

  function Leave<K(==)>(t: Table<K>, key: K, ws: Socket): Table<K> {
    Put(t, key, Remove(Get(t, key), ws))
  }

  /** The sockets of a list that are not in `dead`, in order. */
  function Without(conns: seq<Socket>, dead: seq<Socket>): seq<Socket> {
    if conns == [] then []
    else if conns[0] in dead then Without(conns[1..], dead)
    else [conns[0]] + Without(conns[1..], dead)
  }

  /** What the end of a fan-out does: nothing when every send worked. */
  function Prune<K(==)>(t: Table<K>, key: K, dead: seq<Socket>): Table<K> {
    if dead == [] then t else Put(t, key, Without(Get(t, key), dead))
  }

  function Failed(conns: seq<Socket>, works: set<Socket>): seq<Socket> {
    if conns == [] then []
    else if conns[0] in works then Failed(conns[1..], works)
    else [conns[0]] + Failed(conns[1..], works)
  }

  ghost predicate NoEmptyKey<K(!new)>(t: Table<K>) {
    forall key :: key in t ==> t[key] != []
  }

  // ---------------------------------------------------------------------------
  // Lists
  // ---------------------------------------------------------------------------

  lemma {:induction false} WithoutMembers(conns: seq<Socket>, dead: seq<Socket>)
    ensures forall x :: x in Without(conns, dead) <==> x in conns && x !in dead
    ensures Distinct(conns) ==> Distinct(Without(conns, dead))
  {
    if conns != [] {
      WithoutMembers(conns[1..], dead);
      assert conns == [conns[0]] + conns[1..];
      if Distinct(conns) {
        assert conns[0] !in conns[1..];
      }
    }
  }

  lemma {:induction false} WithoutNone(conns: seq<Socket>)
    ensures Without(conns, []) == conns
  {
    if conns != [] {
      WithoutNone(conns[1..]);
    }
  }

  lemma {:induction false} WithoutAbsent(conns: seq<Socket>, dead: seq<Socket>, ws: Socket)
    requires ws !in conns
    ensures Without(conns, dead + [ws]) == Without(conns, dead)
  {
    if conns != [] {
      assert conns == [conns[0]] + conns[1..];
      WithoutAbsent(conns[1..], dead, ws);
    }
  }

  /** In a list without repeats, removing one socket is filtering it out. */
  lemma {:induction false} RemoveIsWithout(conns: seq<Socket>, dead: seq<Socket>, ws: Socket)
    requires Distinct(conns)
    ensures Remove(Without(conns, dead), ws) == Without(conns, dead + [ws])
  {
    if conns != [] {
      assert conns == [conns[0]] + conns[1..];
      RemoveIsWithout(conns[1..], dead, ws);
      if conns[0] == ws {
        assert ws !in conns[1..];
        WithoutAbsent(conns[1..], dead, ws);
        WithoutMembers(conns[1..], dead);
        RemoveAbsent(Without(conns[1..], dead), ws);
      }
    }
  }

  lemma {:induction false} RemoveAbsent(conns: seq<Socket>, ws: Socket)
    requires ws !in conns
    ensures Remove(conns, ws) == conns
  {
    if conns != [] {
      assert conns == [conns[0]] + conns[1..];
      RemoveAbsent(conns[1..], ws);
    }
  }

  lemma RemoveMembers(conns: seq<Socket>, ws: Socket)
    requires Distinct(conns)
    ensures Distinct(Remove(conns, ws))
    ensures forall x :: x in Remove(conns, ws) <==> x in conns && x != ws
  {
    WithoutNone(conns);
    RemoveIsWithout(conns, [], ws);
    WithoutMembers(conns, [] + [ws]);
  }

  /** One more failed socket taken out of the live list, if it is still there. */
  lemma PruneStep(conns: seq<Socket>, dead: seq<Socket>, i: nat)
    requires Distinct(conns) && i < |dead|
    ensures var live := Without(conns, dead[..i]);
            Without(conns, dead[..i + 1]) == if dead[i] in live then Remove(live, dead[i]) else live
  {
    var live := Without(conns, dead[..i]);
    assert dead[..i + 1] == dead[..i] + [dead[i]];
    RemoveIsWithout(conns, dead[..i], dead[i]);
    if dead[i] !in live {
      RemoveAbsent(live, dead[i]);
    }
  }

  /** One more send, and what the list of failures will be. */
  lemma FailedStep(conns: seq<Socket>, i: nat, works: set<Socket>, dead: seq<Socket>)
    requires i < |conns|
    ensures conns[..i] + [conns[i]] == conns[..i + 1]
    ensures dead + Failed(conns[i..], works)
            == (if conns[i] in works then dead else dead + [conns[i]]) + Failed(conns[i + 1..], works)
  {
    assert conns[i..][1..] == conns[i + 1..];
  }

  /** No key holds more sockets than the cap. */
  ghost predicate WithinCap<K(!new)>(t: Table<K>) {
    forall key :: key in t ==> |t[key]| <= MAX_CONNECTIONS_PER_KEY
  }

  lemma {:induction false} WithoutShortens(conns: seq<Socket>, dead: seq<Socket>)
    ensures |Without(conns, dead)| <= |conns|
  {
    if conns != [] {
      WithoutShortens(conns[1..], dead);
    }
  }

  lemma {:induction false} RemoveShortens(conns: seq<Socket>, ws: Socket)
    ensures |Remove(conns, ws)| <= |conns|
  {
    if conns != [] {
      RemoveShortens(conns[1..], ws);
    }
  }

  // ---------------------------------------------------------------------------
  // What each change does to the table
  // ---------------------------------------------------------------------------

  ghost predicate SameElsewhere<K(!new)>(t: Table<K>, t': Table<K>, key: K) {
    forall other :: other != key ==>
      (other in t' <==> other in t) && (other in t ==> t'[other] == t[other])
  }

  /** A socket of a list comes before another one. */
  ghost predicate Before(conns: seq<Socket>, x: Socket, y: Socket) {
    conns != [] && ((conns[0] == x && y in conns[1..]) || Before(conns[1..], x, y))
  }

  lemma {:induction false} RemoveAt(conns: seq<Socket>, i: nat)
    requires i < |conns| && conns[i] !in conns[..i]
    ensures Remove(conns, conns[i]) == conns[..i] + conns[i + 1..]
  {
    if i > 0 {
      assert conns[..i] == [conns[0]] + conns[1..][..i - 1];
      RemoveAt(conns[1..], i - 1);
    }
  }

  /** A socket that leaves is gone from its list, the others stay in their order, an empty list goes with its key, and
      no other key changes. */
  lemma LeaveTakesOut<K(!new)>(t: Table<K>, key: K, ws: Socket)
    requires NoEmptyKey(t)
    ensures var t' := Leave(t, key, ws);
            && SameElsewhere(t, t', key)
            && (key !in t || ws !in t[key] ==> t' == t)
            && (key in t && ws in t[key] && Distinct(t[key]) ==>
                  && (key !in t' <==> t[key] == [ws])
                  && (key in t' ==> ws !in t'[key])
                  && (forall i :: 0 <= i < |t[key]| && t[key][i] == ws && key in t' ==>
                        t'[key] == t[key][..i] + t[key][i + 1..]))
  {
    if key !in t || ws !in t[key] {
      RemoveAbsent(Get(t, key), ws);
    } else if Distinct(t[key]) {
      RemoveMembers(t[key], ws);
      forall i | 0 <= i < |t[key]| && t[key][i] == ws
        ensures Remove(t[key], ws) == t[key][..i] + t[key][i + 1..]
      {
        RemoveAt(t[key], i);
      }
    }
  }

  lemma {:induction false} WithoutOrder(conns: seq<Socket>, dead: seq<Socket>, x: Socket, y: Socket)
    requires Distinct(conns) && x !in dead && y !in dead
    ensures Before(Without(conns, dead), x, y) <==> Before(conns, x, y)
  {
    if conns != [] {
      var rest, kept := conns[1..], Without(conns[1..], dead);
      assert conns == [conns[0]] + rest;
      WithoutMembers(rest, dead);
      WithoutOrder(rest, dead, x, y);
      assert conns[0] !in dead ==> Without(conns, dead)[1..] == kept;
    }
  }

  /** What a prune leaves: the sockets not in `dead`, in their order; an empty list goes with its key, and no other key
      changes. */
  lemma PruneTakesOut<K(!new)>(t: Table<K>, key: K, dead: seq<Socket>)
    requires NoEmptyKey(t) && (key in t ==> Distinct(t[key]))
    ensures var t' := Prune(t, key, dead);
            && SameElsewhere(t, t', key)
            && (key in t' <==> key in t && exists x :: x in t[key] && x !in dead)
            && (key in t' ==>
                  && Distinct(t'[key])
                  && (forall x :: x in t'[key] <==> x in t[key] && x !in dead)
                  && (forall x, y :: x in t'[key] && y in t'[key] ==>
                        (Before(t'[key], x, y) <==> Before(t[key], x, y))))
  {
    if key in t {
      WithoutNone(t[key]);
      WithoutMembers(t[key], dead);
      forall x, y | x !in dead && y !in dead ensures Before(Without(t[key], dead), x, y) <==> Before(t[key], x, y) {
        WithoutOrder(t[key], dead, x, y);
      }
      if dead == [] {
        assert t[key][0] in t[key];
      } else if Without(t[key], dead) != [] {
        assert Without(t[key], dead)[0] in Without(t[key], dead);
      }
    }
  }

  lemma {:induction false} FailedMembers(conns: seq<Socket>, works: set<Socket>)
    ensures forall x :: x in Failed(conns, works) <==> x in conns && x !in works
  {
    if conns != [] {
      FailedMembers(conns[1..], works);
    }
  }

  // ---------------------------------------------------------------------------
  // The dictionary, changed in place
  // ---------------------------------------------------------------------------

  class Registry {
    var table: Table<int>

    constructor ()
      ensures table == map[]
    {
      table := map[];
    }

    /** connect and connect_family when no other connect runs while the socket is being accepted: then the check in
        front keeps every key within the cap. */
    method Connect(key: int, ws: Socket) returns (accepted: bool)
      modifies this
      ensures accepted <==> |Get(old(table), key)| < MAX_CONNECTIONS_PER_KEY
      ensures accepted <==> key in old(table) ==> |old(table)[key]| < 5
      ensures table == if accepted then Join(old(table), key, ws) else old(table)
      ensures accepted ==> table == old(table)[key := (if key in old(table) then old(table)[key] else []) + [ws]]
      ensures WithinCap(old(table)) ==> WithinCap(table)
    {
      var conns := Get(table, key);
      if |conns| >= MAX_CONNECTIONS_PER_KEY {
        return false;
      }
      if key !in table {
        table := table[key := []];
      }
      table := table[key := table[key] + [ws]];
      accepted := true;
    }

    method Disconnect(key: int, ws: Socket)
      requires NoEmptyKey(table)
      modifies this
      ensures table == Leave(old(table), key, ws)
      ensures SameElsewhere(old(table), table, key)
      ensures key !in old(table) || ws !in old(table)[key] ==> table == old(table)
      ensures key in old(table) && ws in old(table)[key] && Distinct(old(table)[key]) ==>
                && (key !in table <==> old(table)[key] == [ws])
                && (key in table ==> ws !in table[key])
                && (forall i :: 0 <= i < |old(table)[key]| && old(table)[key][i] == ws && key in table ==>
                      table[key] == old(table)[key][..i] + old(table)[key][i + 1..])
      ensures WithinCap(old(table)) ==> WithinCap(table)
    {
      LeaveTakesOut(table, key, ws);
      RemoveShortens(Get(table, key), ws);
      var conns := Get(table, key);
      if ws in conns {
        conns := Remove(conns, ws);
        table := table[key := conns];
      } else {
        RemoveAbsent(conns, ws);
      }
      if conns == [] {
        table := table - {key};
      }
    }

    /** The last part of _broadcast: take the failed sockets that are still registered out of the live list. */
    method PruneDead(key: int, dead: seq<Socket>)
      requires Distinct(Get(table, key)) && NoEmptyKey(table)
      modifies this
      ensures table == Prune(old(table), key, dead)
      ensures WithinCap(old(table)) ==> WithinCap(table)
    {
      if dead == [] {
        return;
      }
      var live := Get(table, key);
      WithoutNone(live);
      ghost var before := live;
      var i := 0;
      while i < |dead|
        invariant 0 <= i <= |dead|
        invariant table == old(table)
        invariant live == Without(before, dead[..i])
      {
        PruneStep(before, dead, i);
        if dead[i] in live {
          live := Remove(live, dead[i]);
        }
        i := i + 1;
      }
      assert dead[..i] == dead && live == Without(before, dead);
      WithoutShortens(before, dead);
      if live == [] {
        table := table - {key};
      } else {
        table := table[key := live];
      }
    }

    /** _broadcast when nothing runs between its awaits. `works` are the sockets whose send succeeds. */
    method Broadcast(key: int, works: set<Socket>) returns (attempted: seq<Socket>)
      requires Distinct(Get(table, key)) && NoEmptyKey(table)
      modifies this
      ensures attempted == Get(old(table), key)
      ensures table == Prune(old(table), key, Failed(Get(old(table), key), works))
      ensures SameElsewhere(old(table), table, key)
      ensures key in old(table) ==>
                && attempted == old(table)[key]
                && (key in table <==> exists x :: x in old(table)[key] && x in works)
                && (key in table ==> forall x :: x in table[key] <==> x in old(table)[key] && x in works)
    {
      var conns := Get(table, key);
      attempted := [];
      var dead: seq<Socket> := [];
      var i := 0;
      assert conns[0..] == conns;
      while i < |conns|
        invariant 0 <= i <= |conns|
        invariant table == old(table)
        invariant attempted == conns[..i]
        invariant dead + Failed(conns[i..], works) == Failed(conns, works)
      {
        attempted := attempted + [conns[i]];
        FailedStep(conns, i, works, dead);
        if conns[i] !in works {
          dead := dead + [conns[i]];
        }
        i := i + 1;
      }
      assert conns[i..] == [] && dead == Failed(conns, works);
      FailedMembers(conns, works);
      PruneTakesOut(table, key, dead);
      PruneDead(key, dead);
    }
  }
}
