/**
 * stk::mesh::BulkData, the local bookkeeping of one process: the dense
 * per-entity arrays indexed by local offset, the two-stage free list of
 * offsets, the modification-cycle state machine, entity declaration and
 * destruction, the "modified" flood, the relation engine and the comm list.
 */
module Mesh {
  import opened MeshTypes
  import opened Repository
  import opened CommList
  import opened Connectivity

  /**
   * Where an entity lives: not in any bucket yet, or in the bucket of its part
   * signature (buckets and partitions are not part of this model; a bucket is
   * identified with the set of parts it stands for).
   */
  datatype MeshIndex = Unplaced | Placed(parts: set<nat>)

  /** is_valid: a slot in range that is not destroyed. */
  predicate LiveIn(states: seq<EntityState>, e: Entity) {
    e < |states| && states[e] != Deleted
  }

  /** The parts of e: those of its bucket, none while it has no bucket. */
  function PartsIn(idx: seq<MeshIndex>, e: Entity): set<nat> {
    if e < |idx| && idx[e].Placed? then idx[e].parts else {}
  }

  /** The owner of e as recorded by its bucket, process 0 when none is recorded. */
  function OwnerIn(owners: map<Entity, int>, e: Entity): int {
    if e in owners then owners[e] else 0
  }

  /** The comm-map entry of a key: its owner and its sorted comm info. */
  datatype CommEntry = CommEntry(owner: int, infos: seq<EntityCommInfo>)

  /** The state with every listed entity reset to Unchanged. */
  ghost function ResetStates(states: seq<EntityState>, reset: set<Entity>): (r: seq<EntityState>)
    ensures |r| == |states|
  {
    seq(|states|, x requires 0 <= x < |states| => if x in reset then Unchanged else states[x])
  }

  /** s in reverse order. */
  function Reverse(s: seq<Entity>): (r: seq<Entity>)
    ensures |r| == |s|
  {
    if s == [] then [] else Reverse(s[1..]) + [s[0]]
  }

  /** Reversing keeps every element with its multiplicity. */
  lemma {:induction false} ReverseKeepsElements(s: seq<Entity>)
    ensures multiset(Reverse(s)) == multiset(s)
  {
    if s != [] {
      ReverseKeepsElements(s[1..]);
      assert s == [s[0]] + s[1..];
    }
  }

  /** A free list: distinct offsets of destroyed, non-reserved slots. */
  ghost predicate FreeValid(free: seq<Entity>, states: seq<EntityState>) {
    (forall x :: x in free ==> 0 < x < |states| && states[x] == Deleted) &&
    (forall i, j :: 0 <= i < j < |free| ==> free[i] != free[j])
  }

  /**
   * Handing out offset — the front of the free list, or a new slot past the
   * end — leaves a valid free list without it, whatever the new slot's state.
   */
  lemma FreeReuse(free: seq<Entity>, states: seq<EntityState>, states2: seq<EntityState>,
                  rest: seq<Entity>, offset: Entity)
    requires FreeValid(free, states)
    requires (free != [] && offset == free[0] && rest == free[1..]) || (offset >= |states| && rest == free)
    requires |states2| >= |states|
    requires forall x :: 0 <= x < |states| && x != offset ==> states2[x] == states[x]
    ensures offset !in rest && FreeValid(rest, states2)
  {
    if rest != free {
      forall i | 0 <= i < |rest| ensures rest[i] != offset {
        assert rest[i] == free[i + 1];
      }
      forall x | x in rest ensures x in free {
        var i :| 0 <= i < |rest| && rest[i] == x;
        assert free[i + 1] == x;
      }
      forall i, j | 0 <= i < j < |rest| ensures rest[i] != rest[j] {
        assert rest[i] == free[i + 1] && rest[j] == free[j + 1];
      }
    }
  }

  /** entity_comm: the comm info of a key, empty when it has none. */
  function CommIn(m: map<EntityKey, CommEntry>, key: EntityKey): seq<EntityCommInfo> {
    if key in m then m[key].infos else []
  }

  /**
   * The relation c of `to` keeps part x on `to` (of rank rt): c is not the
   * relation from `from` with identifier id being destroyed, and the
   * entity c leads to induces x through it.
   */
  predicate KeptThrough(c: Connection, from: Entity, id: nat, idx: seq<MeshIndex>, rt: nat,
                        induces: (set<nat>, nat, nat) -> set<nat>, x: nat) {
    !(c.target == from && c.ordinal == id) && x in induces(PartsIn(idx, c.target), rt, c.ordinal)
  }

  /** The parts kept through the relations of one list, accumulated front to back. */
  function KeepOfList(list: seq<Connection>, from: Entity, id: nat, idx: seq<MeshIndex>, rt: nat,
                      induces: (set<nat>, nat, nat) -> set<nat>): set<nat>
  {
    if list == [] then {}
    else
      var c := list[|list| - 1];
      KeepOfList(list[..|list| - 1], from, id, idx, rt, induces) +
        (if c.target == from && c.ordinal == id then {} else induces(PartsIn(idx, c.target), rt, c.ordinal))
  }

  /**
   * The parts kept on `to` through its lists of the ranks below n that are
   * higher than its own rank rt.
   */
  function KeepRanks(conn: ConnTable, idx: seq<MeshIndex>, to: Entity, from: Entity, id: nat, rt: nat, n: nat,
                     induces: (set<nat>, nat, nat) -> set<nat>): set<nat>
  {
    if n == 0 then {}
    else
      KeepRanks(conn, idx, to, from, id, rt, n - 1, induces) +
        (if rt < n - 1 then KeepOfList(ConnOf(conn, to, n - 1), from, id, idx, rt, induces) else {})
  }

  lemma {:induction false} KeepOfListMembers(list: seq<Connection>, from: Entity, id: nat, idx: seq<MeshIndex>,
                                             rt: nat, induces: (set<nat>, nat, nat) -> set<nat>, x: nat)
    ensures x in KeepOfList(list, from, id, idx, rt, induces) <==>
      exists k :: 0 <= k < |list| && KeptThrough(list[k], from, id, idx, rt, induces, x)
  {
    if list != [] {
      var init := list[..|list| - 1];
      KeepOfListMembers(init, from, id, idx, rt, induces, x);
      if x in KeepOfList(list, from, id, idx, rt, induces) {
        if x in KeepOfList(init, from, id, idx, rt, induces) {
          var k :| 0 <= k < |init| && KeptThrough(init[k], from, id, idx, rt, induces, x);
          assert list[k] == init[k];
        } else {
          assert KeptThrough(list[|list| - 1], from, id, idx, rt, induces, x);
        }
      }
      if exists k :: 0 <= k < |list| && KeptThrough(list[k], from, id, idx, rt, induces, x) {
        var k :| 0 <= k < |list| && KeptThrough(list[k], from, id, idx, rt, induces, x);
        if k < |init| {
          assert init[k] == list[k];
        }
      }
    }
  }

  /**
   * The parts kept on `to` are exactly those induced through a relation of
   * `to` to an entity of higher rank (below n) other than the one destroyed.
   */
  lemma {:induction false} KeepRanksMembers(conn: ConnTable, idx: seq<MeshIndex>, to: Entity, from: Entity, id: nat,
                                            rt: nat, n: nat, induces: (set<nat>, nat, nat) -> set<nat>, x: nat)
    ensures x in KeepRanks(conn, idx, to, from, id, rt, n, induces) <==>
      exists r: nat, k: int :: rt < r < n && 0 <= k < |ConnOf(conn, to, r)| &&
        KeptThrough(ConnOf(conn, to, r)[k], from, id, idx, rt, induces, x)
  {
    if n > 0 {
      KeepRanksMembers(conn, idx, to, from, id, rt, n - 1, induces, x);
      KeepOfListMembers(ConnOf(conn, to, n - 1), from, id, idx, rt, induces, x);
      if exists r: nat, k: int :: rt < r < n && 0 <= k < |ConnOf(conn, to, r)| &&
           KeptThrough(ConnOf(conn, to, r)[k], from, id, idx, rt, induces, x) {
        var r: nat, k: int :| rt < r < n && 0 <= k < |ConnOf(conn, to, r)| &&
          KeptThrough(ConnOf(conn, to, r)[k], from, id, idx, rt, induces, x);
        if r == n - 1 {
          assert x in KeepOfList(ConnOf(conn, to, n - 1), from, id, idx, rt, induces);
        }
      }
    }
  }

  /** Some list of `from` of a rank below n stores the relation to `to` with identifier id. */
  predicate RelBelow(conn: ConnTable, from: Entity, to: Entity, id: nat, n: nat) {
    n > 0 && (RelBelow(conn, from, to, id, n - 1) || HasRel(ConnOf(conn, from, n - 1), to, id))
  }

  lemma {:induction false} RelBelowIff(conn: ConnTable, from: Entity, to: Entity, id: nat, n: nat)
    ensures RelBelow(conn, from, to, id, n) <==> exists r :: 0 <= r < n && HasRel(ConnOf(conn, from, r), to, id)
  {
    if n > 0 {
      RelBelowIff(conn, from, to, id, n - 1);
    }
  }

  /**
   * The parts destroy_relation removes from `to` (of rank rt) in a serial
   * mesh or when `to` is not shared: those `from` induces through the
   * relation, unless some kept relation induces them too; none when `from`
   * has no such relation in a list of a rank below n.
   */
  function RemovedParts(conn: ConnTable, idx: seq<MeshIndex>, from: Entity, to: Entity, id: nat, rt: nat, n: nat,
                        induces: (set<nat>, nat, nat) -> set<nat>): set<nat>
  {
    if RelBelow(conn, from, to, id, n) then
      induces(PartsIn(idx, from), rt, id) - KeepRanks(conn, idx, to, from, id, rt, n, induces)
    else {}
  }

  /**
   * From position j on, every relation of e in its list of rank r that
   * leads to a live entity leads to one whose rank is not r: destroy_entity
   * has destroyed the others.
   */
  predicate ClearedFrom(conn: ConnTable, keys: seq<EntityKey>, states: seq<EntityState>, e: Entity, r: nat, j: nat) {
    forall k :: j <= k < |ConnOf(conn, e, r)| && LiveIn(states, ConnOf(conn, e, r)[k].target) ==>
      RankIn(keys, ConnOf(conn, e, r)[k].target) != r
  }

  /** Marking entities modified leaves every entity live or destroyed as it was. */
  lemma MarksKeepCleared(conn: ConnTable, keys: seq<EntityKey>, s1: seq<EntityState>, s2: seq<EntityState>,
                         e: Entity, r: nat, j: nat)
    requires MarksOnly(s1, s2) && ClearedFrom(conn, keys, s1, e, r, j)
    ensures ClearedFrom(conn, keys, s2, e, r, j)
  {
    forall k | j <= k < |ConnOf(conn, e, r)| && LiveIn(s2, ConnOf(conn, e, r)[k].target)
      ensures RankIn(keys, ConnOf(conn, e, r)[k].target) != r
    {
      assert LiveIn(s1, ConnOf(conn, e, r)[k].target);
    }
  }

  /** A relation to a destroyed entity at position j leaves nothing to clear there. */
  lemma ClearedPastDead(conn: ConnTable, keys: seq<EntityKey>, states: seq<EntityState>, e: Entity, r: nat, j: nat)
    requires j < |ConnOf(conn, e, r)| && ClearedFrom(conn, keys, states, e, r, j + 1)
    requires !LiveIn(states, ConnOf(conn, e, r)[j].target)
    ensures ClearedFrom(conn, keys, states, e, r, j)
  {
  }

  /**
   * Destroying a relation pair of e keeps every cleared list of e cleared:
   * each list of e afterwards is a sub-list of the one before.
   */
  lemma DestroyKeepsCleared(conn: ConnTable, keys: seq<EntityKey>, states: seq<EntityState>, e: Entity,
                            target: Entity, ordinal: nat)
    requires AllNoDup(conn) && target != e
    ensures var conn2 := DestroyPair(conn, e, RankIn(keys, e), target, RankIn(keys, target), ordinal);
      forall q :: ClearedFrom(conn, keys, states, e, q, 0) ==> ClearedFrom(conn2, keys, states, e, q, 0)
  {
    var re, rt := RankIn(keys, e), RankIn(keys, target);
    var conn2 := DestroyPair(conn, e, re, target, rt, ordinal);
    assert HasRel(ConnOf(conn, e, rt), target, ordinal) ==> conn2 == RemoveRel(RemoveRel(conn, e, rt, target, ordinal), target, re, e, ordinal);
    forall q | ClearedFrom(conn, keys, states, e, q, 0)
      ensures ClearedFrom(conn2, keys, states, e, q, 0)
    {
      forall k | 0 <= k < |ConnOf(conn2, e, q)| && LiveIn(states, ConnOf(conn2, e, q)[k].target)
        ensures RankIn(keys, ConnOf(conn2, e, q)[k].target) != q
      {
        var x := ConnOf(conn2, e, q)[k];
        if HasRel(ConnOf(conn, e, rt), target, ordinal) {
          var c1 := RemoveRel(conn, e, rt, target, ordinal);
          assert ConnOf(conn2, e, q) == ConnOf(c1, e, q);
          assert x in ConnOf(c1, e, q);
          assert x in ConnOf(conn, e, q);
        }
        var i :| 0 <= i < |ConnOf(conn, e, q)| && ConnOf(conn, e, q)[i] == x;
      }
    }
  }

  /**
   * One step of the relation loop of destroy_entity, at position j of e's
   * list of rank r: destroying the relation found there (a relation to an
   * entity other than e) extends the cleared suffix of that list to j and
   * leaves the list at least j long.
   */
  lemma ClearedAfterDestroy(conn: ConnTable, keys: seq<EntityKey>, states: seq<EntityState>, e: Entity, r: nat, j: nat)
    requires AllNoDup(conn) && j < |ConnOf(conn, e, r)| && ClearedFrom(conn, keys, states, e, r, j + 1)
    requires ConnOf(conn, e, r)[j].target != e
    ensures var c := ConnOf(conn, e, r)[j];
      var conn2 := DestroyPair(conn, e, RankIn(keys, e), c.target, RankIn(keys, c.target), c.ordinal);
      ClearedFrom(conn2, keys, states, e, r, j) && j <= |ConnOf(conn2, e, r)|
  {
    var c := ConnOf(conn, e, r)[j];
    var rt := RankIn(keys, c.target);
    if rt == r {
      ClearedAtOwnRank(conn, keys, states, e, r, j);
    } else {
      var conn2 := DestroyPair(conn, e, RankIn(keys, e), c.target, rt, c.ordinal);
      assert ConnOf(conn2, e, r) == ConnOf(conn, e, r) by {
        DestroyPairFacts(conn, e, RankIn(keys, e), c.target, rt, c.ordinal, e, r, c.target, c.ordinal);
        if HasRel(ConnOf(conn, e, rt), c.target, c.ordinal) {
          var c1 := RemoveRel(conn, e, rt, c.target, c.ordinal);
          assert ConnOf(conn2, e, r) == ConnOf(c1, e, r);
        }
      }
    }
  }

  /**
   * The whole clearing step of destroy_entity's loop at position j of e's
   * list of rank r: destroying the relation found there and marking
   * entities modified extends the cleared suffix of that list to j and keeps
   * the lists of higher rank cleared.
   */
  lemma RelationCleared(c0: ConnTable, c1: ConnTable, keys: seq<EntityKey>, s0: seq<EntityState>, s1: seq<EntityState>,
                    e: Entity, r: nat, j: nat, rankCount: nat)
    requires AllNoDup(c0) && j < |ConnOf(c0, e, r)| && ConnOf(c0, e, r)[j].target != e
    requires ClearedFrom(c0, keys, s0, e, r, j + 1)
    requires forall q: nat :: r < q < rankCount ==> ClearedFrom(c0, keys, s0, e, q, 0)
    requires c1 == DestroyPair(c0, e, RankIn(keys, e), ConnOf(c0, e, r)[j].target,
      RankIn(keys, ConnOf(c0, e, r)[j].target), ConnOf(c0, e, r)[j].ordinal)
    requires MarksOnly(s0, s1)
    ensures j <= |ConnOf(c1, e, r)| && ClearedFrom(c1, keys, s1, e, r, j)
    ensures forall q: nat :: r < q < rankCount ==> ClearedFrom(c1, keys, s1, e, q, 0)
  {
    var c := ConnOf(c0, e, r)[j];
    ClearedAfterDestroy(c0, keys, s0, e, r, j);
    DestroyKeepsCleared(c0, keys, s0, e, c.target, c.ordinal);
    MarksKeepCleared(c1, keys, s0, s1, e, r, j);
    forall q: nat | r < q < rankCount ensures ClearedFrom(c1, keys, s1, e, q, 0) {
      MarksKeepCleared(c1, keys, s0, s1, e, q, 0);
    }
  }

  /** Removing a relation from a list of a live entity keeps the table well formed. */
  lemma RemoveRelKeepsWellFormed(conn: ConnTable, states: seq<EntityState>, e: Entity, r: nat, target: Entity, ordinal: nat)
    requires AllNoDup(conn) && TargetsBelow(conn, |states|) && LiveIn(states, e)
    requires forall key :: key in conn ==> key.0 < |states| && states[key.0] != Deleted
    ensures var c1 := RemoveRel(conn, e, r, target, ordinal);
      AllNoDup(c1) && TargetsBelow(c1, |states|) && forall key :: key in c1 ==> key.0 < |states| && states[key.0] != Deleted
  {
    RemoveRelKeepsTargets(conn, |states|, e, r, target, ordinal);
    RemoveRelFacts(conn, e, r, target, ordinal, e, r, target, ordinal, Connection(target, ordinal, 0));
  }

  /** The step of ClearedAfterDestroy when the relation found is in the list of its target's rank. */
  lemma ClearedAtOwnRank(conn: ConnTable, keys: seq<EntityKey>, states: seq<EntityState>, e: Entity, r: nat, j: nat)
    requires AllNoDup(conn) && j < |ConnOf(conn, e, r)| && ClearedFrom(conn, keys, states, e, r, j + 1)
    requires ConnOf(conn, e, r)[j].target != e && RankIn(keys, ConnOf(conn, e, r)[j].target) == r
    ensures var c := ConnOf(conn, e, r)[j];
      var conn2 := DestroyPair(conn, e, RankIn(keys, e), c.target, r, c.ordinal);
      ClearedFrom(conn2, keys, states, e, r, j) && j <= |ConnOf(conn2, e, r)|
  {
    var list := ConnOf(conn, e, r);
    var c := list[j];
    var conn2 := DestroyPair(conn, e, RankIn(keys, e), c.target, r, c.ordinal);
    assert HasRel(list, c.target, c.ordinal);
    DestroyAtPosition(list, j);
    var c1 := RemoveRel(conn, e, r, c.target, c.ordinal);
    assert ConnOf(conn2, e, r) == ConnOf(c1, e, r) == list[..j] + list[j + 1..];
    forall k | j <= k < |ConnOf(conn2, e, r)| && LiveIn(states, ConnOf(conn2, e, r)[k].target)
      ensures RankIn(keys, ConnOf(conn2, e, r)[k].target) != r
    {
      assert ConnOf(conn2, e, r)[k] == list[k + 1];
    }
  }

  /**
   * The entities out were generated for the first |out| keys: the keys were
   * not active in repo0, each entity is live under its key in the
   * repository, in the locally owned part only and owned by process here,
   * and the entities are distinct.
   */
  ghost predicate GeneratedIn(keys: seq<EntityKey>, out: seq<Entity>, repo0: map<EntityKey, Entity>,
                              repo: map<EntityKey, Entity>, idx: seq<MeshIndex>, ekeys: seq<EntityKey>,
                              states: seq<EntityState>, owners: map<Entity, int>, ownedPart: nat, here: int)
  {
    |out| <= |keys| &&
    (forall i :: 0 <= i < |out| ==>
      keys[i] !in repo0 && keys[i] in repo && repo[keys[i]] == out[i] &&
      LiveIn(states, out[i]) && out[i] < |ekeys| && ekeys[out[i]] == keys[i] &&
      PartsIn(idx, out[i]) == {ownedPart} && OwnerIn(owners, out[i]) == here) &&
    (forall i, j :: 0 <= i < j < |out| ==> out[i] != out[j])
  }

  /**
   * Creating the entity e for the next key, a key active neither now nor in
   * repo0, while no other existing slot changes, extends the generated
   * entities by e.
   */
  lemma GeneratedStep(keys: seq<EntityKey>, out: seq<Entity>, repo0: map<EntityKey, Entity>,
                      repo1: map<EntityKey, Entity>, idx1: seq<MeshIndex>, keys1: seq<EntityKey>,
                      st1: seq<EntityState>, own1: map<Entity, int>,
                      repo2: map<EntityKey, Entity>, idx2: seq<MeshIndex>, keys2: seq<EntityKey>,
                      st2: seq<EntityState>, own2: map<Entity, int>, ownedPart: nat, here: int, e: Entity)
    requires GeneratedIn(keys, out, repo0, repo1, idx1, keys1, st1, own1, ownedPart, here)
    requires |out| < |keys| && keys[|out|] !in repo1 && repo2 == repo1[keys[|out|] := e] && e !in repo1.Values
    requires forall k :: k in repo0 ==> k in repo1
    requires |idx1| == |st1| == |keys1| <= |keys2| == |idx2| == |st2|
    requires forall x :: 0 <= x < |keys1| && x != e ==> idx2[x] == idx1[x] && keys2[x] == keys1[x] && st2[x] == st1[x]
    requires own2 == own1[e := here] && e < |keys2| && keys2[e] == keys[|out|] && LiveIn(st2, e) &&
      PartsIn(idx2, e) == {ownedPart}
    ensures GeneratedIn(keys, out + [e], repo0, repo2, idx2, keys2, st2, own2, ownedPart, here)
  {
    var out2 := out + [e];
    forall i | 0 <= i < |out|
      ensures out2[i] == out[i] && out[i] != e && keys[i] != keys[|out|]
      ensures keys[i] in repo2 && repo2[keys[i]] == out[i]
      ensures LiveIn(st2, out[i]) && out[i] < |keys2| && keys2[out[i]] == keys[i]
      ensures PartsIn(idx2, out[i]) == {ownedPart} && OwnerIn(own2, out[i]) == here
    {
      assert repo1[keys[i]] == out[i] && out[i] in repo1.Values;
      assert idx2[out[i]] == idx1[out[i]];
    }
  }

  //----------------------------------------------------------------------
  // One declare_relation, as a relation between values

  /** The tables declare_relation changes. */
  datatype Tables = Tables(conn: ConnTable, counts: seq<nat>, states: seq<EntityState>, idx: seq<MeshIndex>)

  /** What declare_relation reads besides those tables. */
  datatype Setting = Setting(keys: seq<EntityKey>, rankCount: nat, mapSize: nat, allows: (nat, nat) -> bool,
                             induces: (set<nat>, nat, nat) -> set<nat>, syncCount: nat)

  /**
   * t1 is t0 after a successful declare_relation of (from, to, id):
   *  - the table holds the forward relation, and the inverse one when the
   *    connectivity map tracks the reverse rank pair;
   *  - the to-entity gains the parts the from-entity induces on it;
   *  - when the forward relation is new, so is the tracked inverse, the
   *    from-entity's sync count, and the to-entity's when the inverse was
   *    stored, become the current sync count, and the marking from the to-entity and then the from-entity
   *    marks exactly the entities reachable from either upward through
   *    Unchanged entities in the new table;
   *  - when it was already stored, sync counts and states stay as they were.
   */
  ghost predicate RelationDeclared(g: Setting, t0: Tables, t1: Tables, from: Entity, to: Entity, id: nat, perm: nat) {
    var rf, rt := RankIn(g.keys, from), RankIn(g.keys, to);
    var tracked := TracksInverse(g.mapSize, g.allows, rt, rf);
    t1.conn == DeclarePair(t0.conn, from, rf, to, rt, id, perm, tracked) &&
    to < |t0.idx| &&
    t1.idx == t0.idx[to := Placed(PartsIn(t0.idx, to) + g.induces(PartsIn(t0.idx, from), rt, id))] &&
    if HasRel(ConnOf(t0.conn, from, rt), to, id) then
      t1.counts == t0.counts && t1.states == t0.states
    else
      from < |t0.counts| && to < |t0.counts| &&
      (tracked ==> !HasRel(ConnOf(AddRel(t0.conn, from, rt, to, id, perm), to, rf), from, id)) &&
      t1.counts == (if tracked then t0.counts[from := g.syncCount][to := g.syncCount] else t0.counts[from := g.syncCount]) &&
      MarkedFrom(t1.conn, g.keys, g.rankCount, t0.states, t1.states, to, from)
  }

  /**
   * The two halves of declare_relation, the relation pair (t0 to t) and
   * then the marking and the induced parts (t to t1), make up one
   * declaration.
   */
  lemma RelationDeclaredInSteps(g: Setting, t0: Tables, t: Tables, t1: Tables, from: Entity, to: Entity, id: nat, perm: nat,
                                fwd: bool)
    requires from < |t0.counts| && to < |t0.counts| && to < |t0.idx|
    requires fwd <==> !HasRel(ConnOf(t0.conn, from, RankIn(g.keys, to)), to, id)
    requires t.conn == DeclarePair(t0.conn, from, RankIn(g.keys, from), to, RankIn(g.keys, to), id, perm,
      TracksInverse(g.mapSize, g.allows, RankIn(g.keys, to), RankIn(g.keys, from)))
    requires fwd && TracksInverse(g.mapSize, g.allows, RankIn(g.keys, to), RankIn(g.keys, from)) ==>
      !HasRel(ConnOf(AddRel(t0.conn, from, RankIn(g.keys, to), to, id, perm), to, RankIn(g.keys, from)), from, id)
    requires t.counts ==
      if !fwd then t0.counts
      else if TracksInverse(g.mapSize, g.allows, RankIn(g.keys, to), RankIn(g.keys, from))
      then t0.counts[from := g.syncCount][to := g.syncCount]
      else t0.counts[from := g.syncCount]
    requires t.states == t0.states && t.idx == t0.idx && t1.conn == t.conn && t1.counts == t.counts
    requires t1.idx == t.idx[to := Placed(PartsIn(t.idx, to) + g.induces(PartsIn(t.idx, from), RankIn(g.keys, to), id))]
    requires fwd ==> MarkedFrom(t1.conn, g.keys, g.rankCount, t.states, t1.states, to, from)
    requires !fwd ==> t1.states == t.states
    ensures RelationDeclared(g, t0, t1, from, to, id, perm)
  {
  }

  /** A declaration only adds parts, and only to the to-entity. */
  lemma RelationDeclaredParts(g: Setting, t0: Tables, t1: Tables, from: Entity, to: Entity, id: nat, perm: nat)
    requires RelationDeclared(g, t0, t1, from, to, id, perm)
    ensures PartsIn(t1.idx, to) == PartsIn(t0.idx, to) + g.induces(PartsIn(t0.idx, from), RankIn(g.keys, to), id)
    ensures forall x :: x != to ==> PartsIn(t1.idx, x) == PartsIn(t0.idx, x)
  {
  }

  /**
   * A declaration only moves states from Unchanged to Modified; when the
   * relation was new both endpoints end up marked, and otherwise no state
   * changes.
   */
  lemma RelationDeclaredMarks(g: Setting, t0: Tables, t1: Tables, from: Entity, to: Entity, id: nat, perm: nat)
    requires RelationDeclared(g, t0, t1, from, to, id, perm)
    requires from < |t0.states| && to < |t0.states|
    ensures MarksOnly(t0.states, t1.states)
    ensures !HasRel(ConnOf(t0.conn, from, RankIn(g.keys, to)), to, id) ==>
      forall x :: (x == from || x == to) && t0.states[x] == Unchanged ==> t1.states[x] == Modified
  {
    if !HasRel(ConnOf(t0.conn, from, RankIn(g.keys, to)), to, id) {
      forall x | (x == from || x == to) && t0.states[x] == Unchanged ensures t1.states[x] == Modified {
        assert UnchangedPath(t1.conn, g.keys, g.rankCount, t0.states, [x]);
        assert Reachable(t1.conn, g.keys, g.rankCount, t0.states, x, x);
      }
    }
  }

  /**
   * A declaration only adds relations, and the entities whose sync count
   * moved to the current one are exactly those whose lists gained one.
   */
  lemma RelationDeclaredRestamps(g: Setting, t0: Tables, t1: Tables, from: Entity, to: Entity, id: nat, perm: nat)
    requires RelationDeclared(g, t0, t1, from, to, id, perm) && from != to
    ensures SubTable(t0.conn, t1.conn) && Restamped(t0.conn, t1.conn, t0.counts, t1.counts, g.syncCount)
  {
    var rf, rt := RankIn(g.keys, from), RankIn(g.keys, to);
    if HasRel(ConnOf(t0.conn, from, rt), to, id) {
      assert forall x :: !Gained(t0.conn, t1.conn, x);
    } else {
      var c1 := AddRel(t0.conn, from, rt, to, id, perm);
      AddRelGrows(t0.conn, from, rt, to, id, perm);
      var n1 := t0.counts[from := g.syncCount];
      assert Restamped(t0.conn, c1, t0.counts, n1, g.syncCount);
      if TracksInverse(g.mapSize, g.allows, rt, rf) {
        AddRelGrows(c1, to, rf, from, id, perm);
        RestampedCompose(t0.conn, c1, t1.conn, t0.counts, n1, t1.counts, g.syncCount);
        SubTableTransitive(t0.conn, c1, t1.conn);
      }
    }
  }

  //----------------------------------------------------------------------
  // The declare_relation overload for a list of relations

  /**
   * A sync count moved only for the entities whose lists gained a relation
   * from c0 to c1, and each of those now carries sc.
   */
  ghost predicate Restamped(c0: ConnTable, c1: ConnTable, n0: seq<nat>, n1: seq<nat>, sc: nat) {
    |n1| == |n0| && forall x :: 0 <= x < |n0| ==> n1[x] == if Gained(c0, c1, x) then sc else n0[x]
  }

  lemma RestampedCompose(c0: ConnTable, c1: ConnTable, c2: ConnTable, n0: seq<nat>, n1: seq<nat>, n2: seq<nat>, sc: nat)
    requires SubTable(c0, c1) && SubTable(c1, c2)
    requires Restamped(c0, c1, n0, n1, sc) && Restamped(c1, c2, n1, n2, sc)
    ensures Restamped(c0, c2, n0, n2, sc)
  {
    forall x | 0 <= x < |n0| ensures n2[x] == if Gained(c0, c2, x) then sc else n0[x] {
      GainedSplit(c0, c1, c2, x);
    }
  }

  /** A relation gained over two steps was gained in one of them, and one gained in either step is gained overall. */
  lemma GainedSplit(c0: ConnTable, c1: ConnTable, c2: ConnTable, x: Entity)
    requires SubTable(c0, c1) && SubTable(c1, c2)
    ensures Gained(c0, c2, x) <==> Gained(c0, c1, x) || Gained(c1, c2, x)
  {
    if Gained(c0, c2, x) {
      var q: nat, c :| c in ConnOf(c2, x, q) && c !in ConnOf(c0, x, q);
      if c in ConnOf(c1, x, q) {
        assert Gained(c0, c1, x);
      } else {
        assert Gained(c1, c2, x);
      }
    }
    if Gained(c0, c1, x) {
      var q: nat, c :| c in ConnOf(c1, x, q) && c !in ConnOf(c0, x, q);
      assert c in ConnOf(c2, x, q);
    }
    if Gained(c1, c2, x) {
      var q: nat, c :| c in ConnOf(c2, x, q) && c !in ConnOf(c1, x, q);
      assert c !in ConnOf(c0, x, q);
    }
  }

  /** The higher and the lower ranked of entity and the target of c, in that order. */
  function Oriented(keys: seq<EntityKey>, entity: Entity, c: Connection): (Entity, Entity) {
    if RankIn(keys, c.target) < RankIn(keys, entity) then (entity, c.target) else (c.target, entity)
  }

  /**
   * What the list overload checks for one relation, in its order: entities
   * of the same rank, then the validity of the oriented relation.
   */
  function ListRelationCheck(keys: seq<EntityKey>, states: seq<EntityState>, entity: Entity, c: Connection): Outcome {
    if RankIn(keys, c.target) == RankIn(keys, entity) then Fail(SameRank)
    else
      var o := Oriented(keys, entity, c);
      CheckValidRelation(RankIn(keys, o.0), RankIn(keys, o.1), LiveIn(states, o.0), LiveIn(states, o.1))
  }

  /** The failure of the first relation from position i on that fails its check; Pass when none does. */
  function ListFailure(keys: seq<EntityKey>, states: seq<EntityState>, entity: Entity, rels: seq<Connection>, i: nat): Outcome
    decreases |rels| - i
  {
    if i >= |rels| then Pass
    else if ListRelationCheck(keys, states, entity, rels[i]).Fail? then ListRelationCheck(keys, states, entity, rels[i])
    else ListFailure(keys, states, entity, rels, i + 1)
  }

  /** The table after declaring the first n relations of rels, each from the higher to the lower ranked entity. */
  function DeclaredTable(conn: ConnTable, keys: seq<EntityKey>, entity: Entity, rels: seq<Connection>, n: nat,
                         mapSize: nat, allows: (nat, nat) -> bool): ConnTable
    requires n <= |rels|
  {
    if n == 0 then conn
    else
      var prev := DeclaredTable(conn, keys, entity, rels, n - 1, mapSize, allows);
      var c := rels[n - 1];
      var o := Oriented(keys, entity, c);
      if RankIn(keys, c.target) == RankIn(keys, entity) then prev
      else DeclarePair(prev, o.0, RankIn(keys, o.0), o.1, RankIn(keys, o.1), c.ordinal, c.permutation,
        TracksInverse(mapSize, allows, RankIn(keys, o.1), RankIn(keys, o.0)))
  }

  /**
   * A downward relation from a to b that the fold stores but conn did not
   * comes from one of the first n relations of rels, oriented as (a, b) and
   * with the same ordinal.
   */
  lemma {:induction false} DeclaredOrigin(conn: ConnTable, keys: seq<EntityKey>, entity: Entity, rels: seq<Connection>,
                                          n: nat, mapSize: nat, allows: (nat, nat) -> bool, a: Entity, b: Entity, id: nat)
    requires n <= |rels| && RankIn(keys, b) < RankIn(keys, a)
    requires HasRel(ConnOf(DeclaredTable(conn, keys, entity, rels, n, mapSize, allows), a, RankIn(keys, b)), b, id)
    requires !HasRel(ConnOf(conn, a, RankIn(keys, b)), b, id)
    ensures exists k :: 0 <= k < n && Oriented(keys, entity, rels[k]) == (a, b) && rels[k].ordinal == id
  {
    if n > 0 {
      if HasRel(ConnOf(DeclaredTable(conn, keys, entity, rels, n - 1, mapSize, allows), a, RankIn(keys, b)), b, id) {
        DeclaredOrigin(conn, keys, entity, rels, n - 1, mapSize, allows, a, b, id);
        var k :| 0 <= k < n - 1 && Oriented(keys, entity, rels[k]) == (a, b) && rels[k].ordinal == id;
        assert k < n;
      } else {
        DeclaredOriginStep(DeclaredTable(conn, keys, entity, rels, n - 1, mapSize, allows), keys, entity, rels[n - 1],
          mapSize, allows, a, b, id);
      }
    }
  }

  /** The one step of DeclaredOrigin that adds the relation. */
  lemma DeclaredOriginStep(prev: ConnTable, keys: seq<EntityKey>, entity: Entity, c: Connection,
                           mapSize: nat, allows: (nat, nat) -> bool, a: Entity, b: Entity, id: nat)
    requires RankIn(keys, b) < RankIn(keys, a) && !HasRel(ConnOf(prev, a, RankIn(keys, b)), b, id)
    requires var o := Oriented(keys, entity, c);
      RankIn(keys, c.target) != RankIn(keys, entity) &&
      HasRel(ConnOf(DeclarePair(prev, o.0, RankIn(keys, o.0), o.1, RankIn(keys, o.1), c.ordinal, c.permutation,
        TracksInverse(mapSize, allows, RankIn(keys, o.1), RankIn(keys, o.0))), a, RankIn(keys, b)), b, id)
    ensures Oriented(keys, entity, c) == (a, b) && c.ordinal == id
  {
    var o := Oriented(keys, entity, c);
    DeclarePairFacts(prev, o.0, RankIn(keys, o.0), o.1, RankIn(keys, o.1), c.ordinal, c.permutation,
      TracksInverse(mapSize, allows, RankIn(keys, o.1), RankIn(keys, o.0)), a, RankIn(keys, b), b, id);
  }

  /**
   * The bucket indexes after declaring the first n relations of rels: each
   * time the lower ranked entity gains the parts the higher ranked one
   * induces on it at that moment.
   */
  function DeclaredParts(idx: seq<MeshIndex>, keys: seq<EntityKey>, entity: Entity, rels: seq<Connection>, n: nat,
                         induces: (set<nat>, nat, nat) -> set<nat>): seq<MeshIndex>
    requires n <= |rels|
  {
    if n == 0 then idx
    else
      var prev := DeclaredParts(idx, keys, entity, rels, n - 1, induces);
      var c := rels[n - 1];
      var o := Oriented(keys, entity, c);
      if RankIn(keys, c.target) == RankIn(keys, entity) || o.1 >= |prev| then prev
      else prev[o.1 := Placed(PartsIn(prev, o.1) + induces(PartsIn(prev, o.0), RankIn(keys, o.1), c.ordinal))]
  }

  /**
   * Declaring a list of relations never removes a part, and only the lower
   * ranked entity of some relation of the list can change its bucket.
   */
  lemma {:induction false} DeclaredPartsGrow(idx: seq<MeshIndex>, keys: seq<EntityKey>, entity: Entity,
                                             rels: seq<Connection>, n: nat, induces: (set<nat>, nat, nat) -> set<nat>,
                                             x: Entity)
    requires n <= |rels|
    ensures |DeclaredParts(idx, keys, entity, rels, n, induces)| == |idx|
    ensures PartsIn(idx, x) <= PartsIn(DeclaredParts(idx, keys, entity, rels, n, induces), x)
    ensures x < |idx| && (forall k :: 0 <= k < n ==> Oriented(keys, entity, rels[k]).1 != x) ==>
      DeclaredParts(idx, keys, entity, rels, n, induces)[x] == idx[x]
  {
    if n > 0 {
      DeclaredPartsGrow(idx, keys, entity, rels, n - 1, induces, x);
    }
  }

  /**
   * The marking so far of the list overload: states only move from
   * Unchanged to Modified, the marking is closed upward in conn, and every
   * newly marked entity is reachable in conn, through entities Unchanged
   * before, from entity or from the target of one of the relations.
   */
  ghost predicate MarkedFromList(conn: ConnTable, keys: seq<EntityKey>, rankCount: nat,
                                 before: seq<EntityState>, after: seq<EntityState>, entity: Entity, rels: seq<Connection>) {
    MarksOnly(before, after) && ClosedUpward(conn, keys, rankCount, before, after) &&
    forall x :: NewlyMarked(before, after, x) ==>
      Reachable(conn, keys, rankCount, before, entity, x) ||
      exists k :: 0 <= k < |rels| && Reachable(conn, keys, rankCount, before, rels[k].target, x)
  }

  /** Relation c of entity, oriented from the higher to the lower rank, is not stored in conn. */
  ghost predicate NewIn(conn: ConnTable, keys: seq<EntityKey>, entity: Entity, c: Connection) {
    var o := Oriented(keys, entity, c);
    RankIn(keys, c.target) != RankIn(keys, entity) && !HasRel(ConnOf(conn, o.0, RankIn(keys, o.1)), o.1, c.ordinal)
  }

  /**
   * For every relation among the first n of rels that conn did not store,
   * entity and the relation's target are no longer Unchanged in states.
   */
  ghost predicate EndsMarked(conn: ConnTable, keys: seq<EntityKey>, states: seq<EntityState>, entity: Entity,
                             rels: seq<Connection>, n: nat) {
    forall k :: 0 <= k < n && k < |rels| && NewIn(conn, keys, entity, rels[k]) ==>
      entity < |states| && states[entity] != Unchanged && rels[k].target < |states| && states[rels[k].target] != Unchanged
  }

  /**
   * t is t0 after the list overload declared the first n relations of rels
   * for entity: those relations are stored, the table and the bucket
   * indexes are the folds above, exactly the entities whose lists gained a
   * relation carry the current sync count, the endpoints of every relation
   * not stored in t0 are marked, and every newly marked entity is reachable
   * from entity or a target, the marking closed upward.
   */
  ghost predicate ListDeclared(g: Setting, t0: Tables, t: Tables, entity: Entity, rels: seq<Connection>, n: nat) {
    n <= |rels| &&
    StoredPrefix(t.conn, g.keys, entity, rels, n) &&
    t.conn == DeclaredTable(t0.conn, g.keys, entity, rels, n, g.mapSize, g.allows) &&
    t.idx == DeclaredParts(t0.idx, g.keys, entity, rels, n, g.induces) &&
    SubTable(t0.conn, t.conn) && Restamped(t0.conn, t.conn, t0.counts, t.counts, g.syncCount) &&
    MarkedFromList(t.conn, g.keys, g.rankCount, t0.states, t.states, entity, rels) &&
    EndsMarked(t0.conn, g.keys, t.states, entity, rels, n)
  }

  /** Before the first relation nothing is declared. */
  lemma ListDeclaredStart(g: Setting, t: Tables, entity: Entity, rels: seq<Connection>)
    ensures ListDeclared(g, t, t, entity, rels, 0)
  {
    assert forall x :: !Gained(t.conn, t.conn, x);
  }

  /**
   * One step of the list overload: declaring relation i of rels from the
   * higher to the lower ranked of entity and its target extends what the
   * first i relations declared to the first i + 1.
   */
  lemma ListDeclareStep(g: Setting, t0: Tables, t: Tables, t1: Tables, entity: Entity, rels: seq<Connection>, i: nat,
                        from: Entity, to: Entity)
    requires ListDeclared(g, t0, t, entity, rels, i)
    requires i < |rels| && RankIn(g.keys, rels[i].target) != RankIn(g.keys, entity)
    requires entity < |g.keys| && rels[i].target < |g.keys| && |t0.states| == |g.keys|
    requires (from, to) == Oriented(g.keys, entity, rels[i])
    requires RelationDeclared(g, t, t1, from, to, rels[i].ordinal, rels[i].permutation)
    ensures ListDeclared(g, t0, t1, entity, rels, i + 1)
  {
    var o := Oriented(g.keys, entity, rels[i]);
    var rf, rt := RankIn(g.keys, o.0), RankIn(g.keys, o.1);
    var tracked := TracksInverse(g.mapSize, g.allows, rt, rf);
    RelationDeclaredRestamps(g, t, t1, o.0, o.1, rels[i].ordinal, rels[i].permutation);
    DeclarePairExtendsPrefix(t.conn, g.keys, entity, rels, i, rels[i].permutation, tracked);
    RestampedCompose(t0.conn, t.conn, t1.conn, t0.counts, t.counts, t1.counts, g.syncCount);
    SubTableTransitive(t0.conn, t.conn, t1.conn);
    MarkedFromListStep(t.conn, t1.conn, g.keys, g.rankCount, t0.states, t.states, t1.states, entity, rels, i, o.0, o.1,
      rels[i].ordinal, rels[i].permutation, tracked);
    EndsMarkedStep(g, t0, t, t1, entity, rels, i);
  }

  /**
   * The endpoints of relation i are marked when it was not stored before
   * the loop: either it is new now and declare_relation marks both, or an
   * earlier relation of the list stored it and marked the same two.
   */
  lemma EndsMarkedStep(g: Setting, t0: Tables, t: Tables, t1: Tables, entity: Entity, rels: seq<Connection>, i: nat)
    requires ListDeclared(g, t0, t, entity, rels, i)
    requires i < |rels| && RankIn(g.keys, rels[i].target) != RankIn(g.keys, entity)
    requires entity < |g.keys| && rels[i].target < |g.keys| && |t0.states| == |g.keys|
    requires RelationDeclared(g, t, t1, Oriented(g.keys, entity, rels[i]).0, Oriented(g.keys, entity, rels[i]).1,
      rels[i].ordinal, rels[i].permutation)
    ensures EndsMarked(t0.conn, g.keys, t1.states, entity, rels, i + 1)
  {
    var o := Oriented(g.keys, entity, rels[i]);
    RelationDeclaredMarks(g, t, t1, o.0, o.1, rels[i].ordinal, rels[i].permutation);
    forall k | 0 <= k < i + 1 && k < |rels| && NewIn(t0.conn, g.keys, entity, rels[k])
      ensures entity < |t1.states| && t1.states[entity] != Unchanged
      ensures rels[k].target < |t1.states| && t1.states[rels[k].target] != Unchanged
    {
      if k == i && HasRel(ConnOf(t.conn, o.0, RankIn(g.keys, o.1)), o.1, rels[i].ordinal) {
        DeclaredOrigin(t0.conn, g.keys, entity, rels, i, g.mapSize, g.allows, o.0, o.1, rels[i].ordinal);
        var j :| 0 <= j < i && Oriented(g.keys, entity, rels[j]) == o && rels[j].ordinal == rels[i].ordinal;
        assert NewIn(t0.conn, g.keys, entity, rels[j]) && rels[j].target == rels[i].target;
      }
    }
  }

  /**
   * One declaration of the list overload, from hi to lo (entity and the
   * target of relation i): when the relation was new and its endpoints were
   * marked exactly, the marking so far stays reachable and closed in the
   * grown table; when it was already stored nothing changed.
   */
  lemma MarkedFromListStep(c1: ConnTable, c2: ConnTable, keys: seq<EntityKey>, rankCount: nat,
                           s0: seq<EntityState>, s1: seq<EntityState>, s2: seq<EntityState>,
                           entity: Entity, rels: seq<Connection>, i: nat, hi: Entity, lo: Entity,
                           id: nat, perm: nat, tracked: bool)
    requires MarkedFromList(c1, keys, rankCount, s0, s1, entity, rels)
    requires i < |rels| && ((hi, lo) == (entity, rels[i].target) || (hi, lo) == (rels[i].target, entity))
    requires hi < |keys| && lo < |keys| && keys[hi].Rank() > keys[lo].Rank() && |s0| == |keys|
    requires c2 == DeclarePair(c1, hi, keys[hi].Rank(), lo, keys[lo].Rank(), id, perm, tracked)
    requires HasRel(ConnOf(c1, hi, keys[lo].Rank()), lo, id) ==> s2 == s1
    requires !HasRel(ConnOf(c1, hi, keys[lo].Rank()), lo, id) ==> MarkedFrom(c2, keys, rankCount, s1, s2, lo, hi)
    ensures MarkedFromList(c2, keys, rankCount, s0, s2, entity, rels)
  {
    MarksOnlyTransitive(s0, s1, s2);
    MarkedFromListReach(c1, c2, keys, rankCount, s0, s1, s2, entity, rels, i, hi, lo, id, perm, tracked);
    MarkedFromListClosed(c1, c2, keys, rankCount, s0, s1, s2, entity, rels, i, hi, lo, id, perm, tracked);
  }

  lemma MarkedFromListReach(c1: ConnTable, c2: ConnTable, keys: seq<EntityKey>, rankCount: nat,
                           s0: seq<EntityState>, s1: seq<EntityState>, s2: seq<EntityState>,
                           entity: Entity, rels: seq<Connection>, i: nat, hi: Entity, lo: Entity,
                           id: nat, perm: nat, tracked: bool)
    requires MarkedFromList(c1, keys, rankCount, s0, s1, entity, rels)
    requires i < |rels| && ((hi, lo) == (entity, rels[i].target) || (hi, lo) == (rels[i].target, entity))
    requires hi < |keys| && lo < |keys| && keys[hi].Rank() > keys[lo].Rank() && |s0| == |keys|
    requires c2 == DeclarePair(c1, hi, keys[hi].Rank(), lo, keys[lo].Rank(), id, perm, tracked)
    requires HasRel(ConnOf(c1, hi, keys[lo].Rank()), lo, id) ==> s2 == s1
    requires !HasRel(ConnOf(c1, hi, keys[lo].Rank()), lo, id) ==> MarkedFrom(c2, keys, rankCount, s1, s2, lo, hi)
    ensures forall x :: NewlyMarked(s0, s2, x) ==>
      Reachable(c2, keys, rankCount, s0, entity, x) ||
      exists k :: 0 <= k < |rels| && Reachable(c2, keys, rankCount, s0, rels[k].target, x)
  {
    DeclarePairGrows(c1, hi, keys[hi].Rank(), lo, keys[lo].Rank(), id, perm, tracked);
    forall x | NewlyMarked(s0, s2, x)
      ensures Reachable(c2, keys, rankCount, s0, entity, x) ||
        exists k :: 0 <= k < |rels| && Reachable(c2, keys, rankCount, s0, rels[k].target, x)
    {
      if NewlyMarked(s0, s1, x) {
        if Reachable(c1, keys, rankCount, s0, entity, x) {
          ReachableInSuper(c1, c2, keys, rankCount, s0, entity, x);
        } else {
          var k :| 0 <= k < |rels| && Reachable(c1, keys, rankCount, s0, rels[k].target, x);
          ReachableInSuper(c1, c2, keys, rankCount, s0, rels[k].target, x);
        }
      } else {
        var start := if Reachable(c2, keys, rankCount, s1, lo, x) then lo else hi;
        var p :| UnchangedPath(c2, keys, rankCount, s1, p) && p[0] == start && p[|p| - 1] == x;
        PathInEarlierState(c2, keys, rankCount, s0, s1, p);
        assert Reachable(c2, keys, rankCount, s0, start, x);
        assert start == entity || start == rels[i].target;
      }
    }
  }

  lemma MarkedFromListClosed(c1: ConnTable, c2: ConnTable, keys: seq<EntityKey>, rankCount: nat,
                           s0: seq<EntityState>, s1: seq<EntityState>, s2: seq<EntityState>,
                           entity: Entity, rels: seq<Connection>, i: nat, hi: Entity, lo: Entity,
                           id: nat, perm: nat, tracked: bool)
    requires MarkedFromList(c1, keys, rankCount, s0, s1, entity, rels)
    requires i < |rels| && ((hi, lo) == (entity, rels[i].target) || (hi, lo) == (rels[i].target, entity))
    requires hi < |keys| && lo < |keys| && keys[hi].Rank() > keys[lo].Rank() && |s0| == |keys|
    requires c2 == DeclarePair(c1, hi, keys[hi].Rank(), lo, keys[lo].Rank(), id, perm, tracked)
    requires HasRel(ConnOf(c1, hi, keys[lo].Rank()), lo, id) ==> s2 == s1
    requires !HasRel(ConnOf(c1, hi, keys[lo].Rank()), lo, id) ==> MarkedFrom(c2, keys, rankCount, s1, s2, lo, hi)
    ensures ClosedUpward(c2, keys, rankCount, s0, s2)
  {
    var isNew := !HasRel(ConnOf(c1, hi, keys[lo].Rank()), lo, id);
    forall x: Entity, y: Entity | NewlyMarked(s0, s2, x) && UpEdge(c2, keys, rankCount, x, y)
      ensures y < |s2| && s2[y] != Unchanged
    {
      if !NewlyMarked(s1, s2, x) {
        DeclarePairUpEdge(c1, keys, rankCount, hi, lo, id, perm, tracked, x, y);
        if !UpEdge(c1, keys, rankCount, x, y) {
          assert isNew && y == hi;
          if s1[hi] == Unchanged {
            assert UnchangedPath(c2, keys, rankCount, s1, [hi]);
            assert Reachable(c2, keys, rankCount, s1, hi, hi);
          }
        }
      }
    }
  }

  //----------------------------------------------------------------------
  // destroy_relation and destroy_entity, as relations between values

  /**
   * t1 is t0 after a destroy_relation of (from, to, id) that passed its
   * checks and found the inverse it looked for: fwd says whether the forward
   * relation was stored; the table lost it and its inverse; only the
   * to-entity's bucket may change, and only by losing parts; when fwd the
   * marking from the to-entity and then the from-entity marks exactly the
   * entities reachable from either upward through Unchanged entities in the
   * new table, and otherwise no state changes.
   */
  ghost predicate RelationDestroyed(g: Setting, t0: Tables, t1: Tables, from: Entity, to: Entity, id: nat, fwd: bool) {
    t1.conn == DestroyPair(t0.conn, from, RankIn(g.keys, from), to, RankIn(g.keys, to), id) &&
    (fwd <==> HasRel(ConnOf(t0.conn, from, RankIn(g.keys, to)), to, id)) &&
    |t1.idx| == |t0.idx| && (forall x :: 0 <= x < |t0.idx| && x != to ==> t1.idx[x] == t0.idx[x]) &&
    PartsIn(t1.idx, to) <= PartsIn(t0.idx, to) &&
    if fwd then MarkedFrom(t1.conn, g.keys, g.rankCount, t0.states, t1.states, to, from)
    else t1.states == t0.states
  }

  /**
   * A destruction only moves states from Unchanged to Modified, marks both
   * endpoints when the forward relation was stored, and leaves the parts of
   * every entity but the to-entity alone.
   */
  lemma RelationDestroyedMarks(g: Setting, t0: Tables, t1: Tables, from: Entity, to: Entity, id: nat, fwd: bool)
    requires RelationDestroyed(g, t0, t1, from, to, id, fwd)
    requires from < |t0.states| && to < |t0.states|
    ensures MarksOnly(t0.states, t1.states)
    ensures fwd ==> forall x :: (x == from || x == to) && t0.states[x] == Unchanged ==> t1.states[x] == Modified
    ensures forall x :: x != to ==> PartsIn(t1.idx, x) == PartsIn(t0.idx, x)
  {
    if fwd {
      forall x | (x == from || x == to) && t0.states[x] == Unchanged ensures t1.states[x] == Modified {
        assert UnchangedPath(t1.conn, g.keys, g.rankCount, t0.states, [x]);
        assert Reachable(t1.conn, g.keys, g.rankCount, t0.states, x, x);
      }
    }
  }

  /**
   * Every relation e stores to a live entity leads to a lower rank whose
   * lists track the inverse, so that destroy_relation accepts it.
   */
  ghost predicate Destroyable(conn: ConnTable, keys: seq<EntityKey>, states: seq<EntityState>,
                              mapSize: nat, allows: (nat, nat) -> bool, e: Entity) {
    forall q: nat, c :: c in ConnOf(conn, e, q) && LiveIn(states, c.target) ==>
      RankIn(keys, c.target) < RankIn(keys, e) && TracksInverse(mapSize, allows, RankIn(keys, c.target), RankIn(keys, e))
  }

  /** x is reached upward through entities Unchanged in states from e or from an entity e relates to. */
  ghost predicate ReachedFromEntity(conn: ConnTable, keys: seq<EntityKey>, rankCount: nat,
                                    states: seq<EntityState>, e: Entity, x: Entity) {
    Reachable(conn, keys, rankCount, states, e, x) ||
    exists t :: RelatedTo(conn, e, t) && Reachable(conn, keys, rankCount, states, t, x)
  }

  /**
   * Every relation that e's list of the target's rank held in c0 and no
   * longer holds in c has both ends marked in states.
   */
  ghost predicate RemovedMarked(keys: seq<EntityKey>, c0: ConnTable, c: ConnTable, states: seq<EntityState>, e: Entity) {
    forall x: Entity, o: nat :: HasRel(ConnOf(c0, e, RankIn(keys, x)), x, o) && !HasRel(ConnOf(c, e, RankIn(keys, x)), x, o) ==>
      x < |states| && states[x] != Unchanged && e < |states| && states[e] != Unchanged
  }

  /**
   * t is t0 after the loop of destroy_entity destroyed some relations of e:
   * the table lost only relations of e and their inverses; states only moved
   * from Unchanged to Modified, closed upward in the current table, and
   * every newly marked entity is reached in t0 from e or from an entity e
   * relates to; both ends of every relation of e destroyed so far are
   * marked; only the entities e relates to changed their buckets, by losing
   * parts.
   */
  ghost predicate Unhooked(g: Setting, t0: Tables, t: Tables, e: Entity) {
    DestroyFrame(t0.conn, t.conn, e) &&
    MarksOnly(t0.states, t.states) && ClosedUpward(t.conn, g.keys, g.rankCount, t0.states, t.states) &&
    (forall x :: NewlyMarked(t0.states, t.states, x) ==>
      ReachedFromEntity(t0.conn, g.keys, g.rankCount, t0.states, e, x)) &&
    RemovedMarked(g.keys, t0.conn, t.conn, t.states, e) &&
    |t.idx| == |t0.idx| &&
    (forall x :: 0 <= x < |t0.idx| && !RelatedTo(t0.conn, e, x) ==> t.idx[x] == t0.idx[x]) &&
    (forall x :: PartsIn(t.idx, x) <= PartsIn(t0.idx, x))
  }

  /** Before the first destruction nothing has changed. */
  lemma UnhookedStart(g: Setting, t: Tables, e: Entity)
    ensures Unhooked(g, t, t, e)
  {
    assert forall x :: !NewlyMarked(t.states, t.states, x);
  }

  /**
   * One destroy_relation of destroy_entity's loop, from e to an entity it
   * relates to, keeps what the loop has done so far within Unhooked.
   */
  lemma UnhookStep(g: Setting, t0: Tables, t: Tables, t1: Tables, e: Entity, target: Entity, id: nat, fwd: bool)
    requires Unhooked(g, t0, t, e) && RelatedTo(t.conn, e, target) && e < |t.states| && target < |t.states|
    requires RelationDestroyed(g, t, t1, e, target, id, fwd)
    ensures Unhooked(g, t0, t1, e)
  {
    RelationDestroyedMarks(g, t, t1, e, target, id, fwd);
    forall x: Entity, o: nat | HasRel(ConnOf(t0.conn, e, RankIn(g.keys, x)), x, o) && !HasRel(ConnOf(t1.conn, e, RankIn(g.keys, x)), x, o)
      ensures x < |t1.states| && t1.states[x] != Unchanged && t1.states[e] != Unchanged
    {
      if HasRel(ConnOf(t.conn, e, RankIn(g.keys, x)), x, o) {
        DestroyPairDrops(t.conn, e, RankIn(g.keys, e), target, RankIn(g.keys, target), id, e, RankIn(g.keys, x), x, o);
      }
    }
    DestroyPairFrame(t.conn, e, RankIn(g.keys, e), target, RankIn(g.keys, target), id);
    DestroyFrameTransitive(t0.conn, t.conn, t1.conn, e);
    var q: nat, c :| c in ConnOf(t.conn, e, q) && c.target == target;
    assert RelatedTo(t0.conn, e, target);
    if fwd {
      UnhookMarks(g, t0, t, t1, e, target);
    }
    forall x | 0 <= x < |t0.idx| && !RelatedTo(t0.conn, e, x) ensures t1.idx[x] == t0.idx[x] {
      assert x != target;
    }
    forall x ensures PartsIn(t1.idx, x) <= PartsIn(t0.idx, x) {
      if x != target {
        assert PartsIn(t1.idx, x) == PartsIn(t.idx, x);
      }
    }
  }

  /** The marking of one destroy_relation, added to the markings before it. */
  lemma UnhookMarks(g: Setting, t0: Tables, t: Tables, t1: Tables, e: Entity, target: Entity)
    requires Unhooked(g, t0, t, e) && DestroyFrame(t0.conn, t1.conn, e) && SubTable(t1.conn, t.conn)
    requires RelatedTo(t0.conn, e, target)
    requires MarkedFrom(t1.conn, g.keys, g.rankCount, t.states, t1.states, target, e)
    ensures MarksOnly(t0.states, t1.states) && ClosedUpward(t1.conn, g.keys, g.rankCount, t0.states, t1.states)
    ensures forall x :: NewlyMarked(t0.states, t1.states, x) ==>
      ReachedFromEntity(t0.conn, g.keys, g.rankCount, t0.states, e, x)
  {
    MarksOnlyTransitive(t0.states, t.states, t1.states);
    ClosedInSub(t1.conn, t.conn, g.keys, g.rankCount, t0.states, t.states);
    ClosedCompose(t1.conn, g.keys, g.rankCount, t0.states, t.states, t1.states);
    forall x | NewlyMarked(t0.states, t1.states, x)
      ensures ReachedFromEntity(t0.conn, g.keys, g.rankCount, t0.states, e, x)
    {
      if !NewlyMarked(t0.states, t.states, x) {
        assert NewlyMarked(t.states, t1.states, x);
        var start := if Reachable(t1.conn, g.keys, g.rankCount, t.states, target, x) then target else e;
        var p :| UnchangedPath(t1.conn, g.keys, g.rankCount, t.states, p) && p[0] == start && p[|p| - 1] == x;
        PathInEarlierState(t1.conn, g.keys, g.rankCount, t0.states, t.states, p);
        assert Reachable(t1.conn, g.keys, g.rankCount, t0.states, start, x);
        ReachableInSuper(t1.conn, t0.conn, g.keys, g.rankCount, t0.states, start, x);
      }
    }
  }

  /**
   * t1 is t0 after a successful destroy_entity of e: the table lost e's
   * lists and only relations leading to e from other entities; e is
   * Deleted and unplaced; every other state stayed or moved from Unchanged
   * to Modified, closed upward, reached in t0 from e or from an entity e
   * related to; every live entity of a valid rank that e's list of its rank
   * held is no longer Unchanged; only the entities e related to changed
   * their buckets, by losing parts.
   */
  ghost predicate EntityDestroyed(g: Setting, t0: Tables, t1: Tables, e: Entity) {
    DestroyFrame(t0.conn, t1.conn, e) && (forall k :: k in t1.conn ==> k.0 != e) &&
    e < |t0.states| && |t1.states| == |t0.states| && t1.states[e] == Deleted &&
    (forall x :: 0 <= x < |t0.states| && x != e ==> t1.states[x] == t0.states[x] || NewlyMarked(t0.states, t1.states, x)) &&
    (forall x :: NewlyMarked(t0.states, t1.states, x) ==>
      ReachedFromEntity(t0.conn, g.keys, g.rankCount, t0.states, e, x)) &&
    ClosedUpward(t1.conn, g.keys, g.rankCount, t0.states, t1.states) &&
    (forall x: Entity, o: nat :: HasRel(ConnOf(t0.conn, e, RankIn(g.keys, x)), x, o) && LiveIn(t0.states, x) && RankIn(g.keys, x) < g.rankCount
      ==> t1.states[x] != Unchanged) &&
    e < |t0.idx| && |t1.idx| == |t0.idx| && t1.idx[e] == Unplaced &&
    (forall x :: 0 <= x < |t0.idx| && x != e && !RelatedTo(t0.conn, e, x) ==> t1.idx[x] == t0.idx[x]) &&
    (forall x :: PartsIn(t1.idx, x) <= PartsIn(t0.idx, x))
  }

  /** Removing e after its relations were destroyed completes destroy_entity. */
  lemma UnhookedRemoved(g: Setting, t0: Tables, t: Tables, t1: Tables, e: Entity)
    requires Unhooked(g, t0, t, e) && e < |t.states| && e < |t.idx|
    requires forall r: nat :: r < g.rankCount ==> ClearedFrom(t.conn, g.keys, t.states, e, r, 0)
    requires t1.conn == map k | k in t.conn && k.0 != e :: t.conn[k]
    requires t1.states == t.states[e := Deleted] && t1.idx == t.idx[e := Unplaced]
    ensures EntityDestroyed(g, t0, t1, e)
  {
    DropListsFrame(t0.conn, t.conn, e);
    DropListsFrame(t.conn, t.conn, e);
    ClosedInSub(t1.conn, t.conn, g.keys, g.rankCount, t0.states, t.states);
    forall x: Entity, y: Entity | NewlyMarked(t0.states, t1.states, x) && UpEdge(t1.conn, g.keys, g.rankCount, x, y)
      ensures y < |t1.states| && t1.states[y] != Unchanged
    {
      assert NewlyMarked(t0.states, t.states, x);
    }
    forall x | NewlyMarked(t0.states, t1.states, x)
      ensures ReachedFromEntity(t0.conn, g.keys, g.rankCount, t0.states, e, x)
    {
      assert NewlyMarked(t0.states, t.states, x);
    }
    forall x: Entity, o: nat | HasRel(ConnOf(t0.conn, e, RankIn(g.keys, x)), x, o) && LiveIn(t0.states, x) && RankIn(g.keys, x) < g.rankCount
      ensures t1.states[x] != Unchanged
    {
      if HasRel(ConnOf(t.conn, e, RankIn(g.keys, x)), x, o) {
        assert ClearedFrom(t.conn, g.keys, t.states, e, RankIn(g.keys, x), 0);
        assert LiveIn(t.states, x);
        assert false;
      }
    }
    forall x ensures PartsIn(t1.idx, x) <= PartsIn(t0.idx, x) {
      if x != e {
        assert PartsIn(t1.idx, x) == PartsIn(t.idx, x);
      }
    }
  }

  class BulkData {
    // The per-entity arrays, all indexed by local offset.
    var meshIndexes: seq<MeshIndex>
    var entityKeys: seq<EntityKey>
    var entityStates: seq<EntityState>
    var entitySyncCounts: seq<nat>
    /** Owner process of each entity (held by its bucket in the library). */
    var owners: map<Entity, int>

    /** m_deleted_entities: offsets that may be reused; the front is index 0. */
    var deletedEntities: seq<Entity>
    /** m_deleted_entities_current_modification_cycle; the front is index 0. */
    var deletedCurrentCycle: seq<Entity>

    var syncState: SyncState
    var syncCount: nat
    var metaDataVerified: bool
    var meshFinalized: bool

    const repo: EntityRepository

    var conn: ConnTable

    /** m_entity_comm_list, sorted by key. */
    var commList: seq<EntityCommListInfo>
    /** m_entity_comm_map: the comm info of every shared or ghosted key. */
    var entityCommMap: map<EntityKey, CommEntry>

    // Configuration taken from the mesh meta data and the parallel machine.
    const rankCount: nat
    const spatialDimension: nat
    const parallelRank: int
    const parallelSize: nat
    const ownedPart: nat
    /** The connectivity map: its size and which (to rank, from rank) pairs it stores. */
    const connMapSize: nat
    const connMapAllows: (nat, nat) -> bool
    /**
     * induced_part_membership: the parts that an entity with the given parts
     * induces on a related entity of the given rank through the given relation
     * identifier (its code is not part of this model). declare_relation calls
     * it with supersets looked at, its default ...
     */
    const induces: (set<nat>, nat, nat) -> set<nat>
    /** ... and destroy_relation with supersets not looked at. */
    const inducesExact: (set<nat>, nat, nat) -> set<nat>

    //--------------------------------------------------------------------
    // Invariant

    /*
     * The invariant is stated for a given array of entity states, so that a
     * change of states that keeps the destroyed slots destroyed and the live
     * ones live is seen to keep it (StatesKeepValid).
     */

    ghost predicate ArraysValid(states: seq<EntityState>)
      reads this`meshIndexes, this`entityKeys, this`entitySyncCounts
    {
      |meshIndexes| == |entityKeys| && |states| == |entityKeys| &&
      |entitySyncCounts| == |entityKeys| && |entityKeys| >= 1 &&
      entityKeys[0] == InvalidKey && states[0] == Deleted
    }

    /** Every repository entry is a live slot recording that key. */
    ghost predicate RepoValid(states: seq<EntityState>)
      reads this`entityKeys, repo`entities
    {
      forall k :: k in repo.entities ==>
        0 < repo.entities[k] < |entityKeys| && repo.entities[k] < |states| &&
        entityKeys[repo.entities[k]] == k && states[repo.entities[k]] != Deleted
    }

    /** Both free lists hold distinct, destroyed, non-reserved offsets. */
    ghost predicate FreeListsValid(states: seq<EntityState>)
      reads this`deletedEntities, this`deletedCurrentCycle
    {
      FreeValid(deletedEntities + deletedCurrentCycle, states)
    }

    /** Only live entities own relation lists; every relation names a slot. */
    ghost predicate ConnValid(states: seq<EntityState>)
      reads this`conn
    {
      AllNoDup(conn) && TargetsBelow(conn, |states|) &&
      forall key :: key in conn ==> key.0 < |states| && states[key.0] != Deleted
    }

    ghost predicate CommValid()
      reads this`commList, this`entityCommMap
    {
      SortedByKey(commList) &&
      forall key :: key in entityCommMap ==> SortedInfos(entityCommMap[key].infos)
    }

    ghost predicate ValidWith(states: seq<EntityState>)
      reads this`meshIndexes, this`entityKeys, this`entitySyncCounts, repo`entities,
        this`deletedEntities, this`deletedCurrentCycle, this`conn, this`commList, this`entityCommMap
    {
      ArraysValid(states) && RepoValid(states) && FreeListsValid(states) && ConnValid(states) && CommValid()
    }

    ghost predicate Valid()
      reads this`meshIndexes, this`entityKeys, this`entityStates, this`entitySyncCounts, repo`entities,
        this`deletedEntities, this`deletedCurrentCycle, this`conn, this`commList, this`entityCommMap
    {
      ValidWith(entityStates)
    }

    /**
     * The invariant only depends on which slots are destroyed: states that
     * agree with valid ones on that keep it.
     */
    lemma StatesKeepValid(s1: seq<EntityState>, s2: seq<EntityState>)
      requires ValidWith(s1) && |s2| == |s1|
      requires forall x :: 0 <= x < |s1| ==> (s1[x] == Deleted <==> s2[x] == Deleted)
      ensures ValidWith(s2)
    {
    }

    /** The tables declare_relation changes, as values. */
    ghost function Snapshot(): Tables
      reads this`conn, this`entitySyncCounts, this`entityStates, this`meshIndexes
    {
      Tables(conn, entitySyncCounts, entityStates, meshIndexes)
    }

    /** What declare_relation reads besides those tables. */
    ghost function Env(): Setting
      reads this`entityKeys, this`syncCount
    {
      Setting(entityKeys, rankCount, connMapSize, connMapAllows, induces, syncCount)
    }

    /** Forward and tracked inverse relations mirror each other. */
    ghost predicate RelationsSymmetric()
      reads this`conn, this`entityKeys
    {
      Symmetric(conn, entityKeys, connMapSize, connMapAllows)
    }

    //--------------------------------------------------------------------
    // Construction, the slot allocator and the free lists

    /**
     * The constructor: initialize_arrays reserves slot 0 with the invalid key
     * and state Deleted; the mesh starts SYNCHRONIZED with sync count 0 and no
     * entities.
     */
    constructor (rankCount: nat, spatialDimension: nat, parallelRank: int, parallelSize: nat,
                 ownedPart: nat, connMapSize: nat, connMapAllows: (nat, nat) -> bool,
                 induces: (set<nat>, nat, nat) -> set<nat>, inducesExact: (set<nat>, nat, nat) -> set<nat>)
      ensures Valid() && RelationsSymmetric()
      ensures meshIndexes == [Unplaced] && entityKeys == [InvalidKey]
      ensures entityStates == [Deleted] && entitySyncCounts == [0]
      ensures deletedEntities == [] && deletedCurrentCycle == []
      ensures syncState == Synchronized && syncCount == 0
      ensures !metaDataVerified && !meshFinalized
      ensures fresh(repo) && repo.entities == map[] && conn == map[]
      ensures this.rankCount == rankCount && this.spatialDimension == spatialDimension
      ensures this.parallelRank == parallelRank && this.parallelSize == parallelSize
      ensures this.ownedPart == ownedPart && this.connMapSize == connMapSize
      ensures this.connMapAllows == connMapAllows
      ensures this.induces == induces && this.inducesExact == inducesExact
    {
      this.rankCount := rankCount;
      this.spatialDimension := spatialDimension;
      this.parallelRank := parallelRank;
      this.parallelSize := parallelSize;
      this.ownedPart := ownedPart;
      this.connMapSize := connMapSize;
      this.connMapAllows := connMapAllows;
      this.induces := induces;
      this.inducesExact := inducesExact;
      repo := new EntityRepository();
      owners := map[];
      deletedEntities := [];
      deletedCurrentCycle := [];
      conn := map[];
      commList := [];
      entityCommMap := map[];
      syncCount := 0;
      metaDataVerified := false;
      meshFinalized := false;
      // initialize_arrays
      meshIndexes := [Unplaced];
      entityKeys := [InvalidKey];
      entityStates := [Deleted];
      entitySyncCounts := [0];
      syncState := Synchronized;
    }

    /**
     * update_deleted_entities_container: every offset freed in this cycle is
     * moved, one at a time from the front, to the front of the reusable list
     * (so the moved run ends up reversed).
     */
    method UpdateDeletedEntitiesContainer()
      requires Valid()
      modifies this`deletedEntities, this`deletedCurrentCycle
      ensures Valid()
      ensures deletedCurrentCycle == []
      ensures deletedEntities == Reverse(old(deletedCurrentCycle)) + old(deletedEntities)
    {
      ghost var moved: seq<Entity> := [];
      while deletedCurrentCycle != []
        invariant old(deletedCurrentCycle) == moved + deletedCurrentCycle
        invariant deletedEntities == Reverse(moved) + old(deletedEntities)
        invariant FreeValid(deletedEntities + deletedCurrentCycle, entityStates)
        decreases |deletedCurrentCycle|
      {
        MoveStep(deletedEntities, deletedCurrentCycle, moved, old(deletedEntities), entityStates);
        moved := moved + [deletedCurrentCycle[0]];
        deletedEntities := [deletedCurrentCycle[0]] + deletedEntities;
        deletedCurrentCycle := deletedCurrentCycle[1..];
      }
      assert moved == old(deletedCurrentCycle);
    }

    /**
     * One step of update_deleted_entities_container on the values of the two
     * lists: the moved run stays reversed in front of the old reusable list,
     * and the free list keeps its elements, its multiplicities and its
     * validity.
     */
    static lemma MoveStep(de: seq<Entity>, dc: seq<Entity>, moved: seq<Entity>, de0: seq<Entity>,
                          states: seq<EntityState>)
      requires dc != [] && de == Reverse(moved) + de0
      requires FreeValid(de + dc, states)
      ensures [dc[0]] + de == Reverse(moved + [dc[0]]) + de0
      ensures (moved + [dc[0]]) + dc[1..] == moved + dc
      ensures FreeValid(([dc[0]] + de) + dc[1..], states)
    {
      ReverseSnoc(moved, dc[0]);
      assert dc == [dc[0]] + dc[1..];
      var before := de + dc;
      var after := ([dc[0]] + de) + dc[1..];
      FreeListRotate(before, after, |de|);
    }

    /** Reversing a sequence with one more element at its end puts it in front. */
    static lemma {:induction false} ReverseSnoc(s: seq<Entity>, x: Entity)
      ensures Reverse(s + [x]) == [x] + Reverse(s)
    {
      if s != [] {
        ReverseSnoc(s[1..], x);
        assert (s + [x])[1..] == s[1..] + [x];
      }
    }

    /**
     * Moving the first element of the second part of a free list to the front
     * keeps its elements and their distinctness.
     */
    static lemma FreeListRotate(before: seq<Entity>, after: seq<Entity>, split: nat)
      requires split < |before| && |after| == |before|
      requires after[0] == before[split]
      requires forall i :: 0 <= i < split ==> after[i + 1] == before[i]
      requires forall i :: split < i < |before| ==> after[i] == before[i]
      ensures forall x :: x in after <==> x in before
      ensures (forall i, j :: 0 <= i < j < |before| ==> before[i] != before[j]) ==>
        forall i, j :: 0 <= i < j < |after| ==> after[i] != after[j]
    {
      forall x | x in before ensures x in after {
        var i :| 0 <= i < |before| && before[i] == x;
        var a := if i == split then 0 else if i < split then i + 1 else i;
        assert after[a] == x;
      }
      forall x | x in after ensures x in before {
        var i :| 0 <= i < |after| && after[i] == x;
        var b := if i == 0 then split else if i <= split then i - 1 else i;
        assert before[b] == x;
      }
      if forall i, j :: 0 <= i < j < |before| ==> before[i] != before[j] {
        forall i, j | 0 <= i < j < |after|
          ensures after[i] != after[j]
        {
          var bi := if i == 0 then split else if i <= split then i - 1 else i;
          var bj := if j == 0 then split else if j <= split then j - 1 else j;
          assert after[i] == before[bi] && after[j] == before[bj];
          assert bi != bj;
        }
      }
    }

    /**
     * Pushing a live, non-reserved offset on the front of the current-cycle
     * list while its slot becomes Deleted keeps the free list valid.
     */
    static lemma FreePushFront(de: seq<Entity>, dc: seq<Entity>, states: seq<EntityState>, e: Entity)
      requires FreeValid(de + dc, states) && 0 < e < |states| && states[e] != Deleted
      ensures FreeValid(de + ([e] + dc), states[e := Deleted])
    {
      var free, all, n := de + dc, de + ([e] + dc), |de|;
      assert e !in free;
      forall x | x in all
        ensures 0 < x < |states| && states[e := Deleted][x] == Deleted
      {
        if x != e {
          assert x in de || x in dc;
          assert x in free;
        }
      }
      forall i, j | 0 <= i < j < |all|
        ensures all[i] != all[j]
      {
        var fi := if i < n then i else i - 1;
        var fj := if j < n then j else j - 1;
        assert i != n ==> all[i] == free[fi];
        assert j != n ==> all[j] == free[fj];
        if i == n {
          assert all[j] in free;
        } else if j == n {
          assert all[i] in free;
        }
      }
    }

    /** A live entity is on neither free list. */
    lemma FreeListsAreDeleted(e: Entity)
      requires FreeListsValid(entityStates) && e < |entityStates| && entityStates[e] != Deleted
      ensures e !in deletedEntities && e !in deletedCurrentCycle
    {
      assert e !in deletedEntities + deletedCurrentCycle;
    }

    /**
     * generate_next_local_offset: the front of the reusable list is popped and
     * reused, or, when that list is empty, every per-entity array grows by one
     * slot. The slot returned has no bucket, the invalid key, state Created and
     * sync count 0; every other slot is unchanged. Offsets freed in the current
     * cycle are never handed out.
     */
    method GenerateNextLocalOffset() returns (offset: Entity)
      requires Valid()
      modifies this`meshIndexes, this`entityKeys, this`entityStates, this`entitySyncCounts, this`deletedEntities
      ensures Valid()
      ensures old(deletedEntities) != [] ==>
        offset == old(deletedEntities)[0] && deletedEntities == old(deletedEntities)[1..] &&
        |entityKeys| == old(|entityKeys|)
      ensures old(deletedEntities) == [] ==>
        offset == old(|entityKeys|) && deletedEntities == [] && |entityKeys| == old(|entityKeys|) + 1
      ensures 0 < offset < |entityKeys|
      ensures offset < old(|entityStates|) ==> old(entityStates)[offset] == Deleted
      ensures meshIndexes[offset] == Unplaced && entityKeys[offset] == InvalidKey
      ensures entityStates[offset] == Created && entitySyncCounts[offset] == 0
      ensures forall x :: 0 <= x < old(|entityKeys|) && x != offset ==>
        meshIndexes[x] == old(meshIndexes[x]) && entityKeys[x] == old(entityKeys[x]) &&
        entityStates[x] == old(entityStates[x]) && entitySyncCounts[x] == old(entitySyncCounts[x])
      ensures offset !in old(deletedCurrentCycle)
    {
      offset := |meshIndexes|;
      ghost var free := deletedEntities + deletedCurrentCycle;
      assert forall i :: 0 <= i < |deletedCurrentCycle| ==>
        deletedCurrentCycle[i] == free[|deletedEntities| + i];
      if deletedEntities != [] {
        assert free[0] == deletedEntities[0];
        offset := deletedEntities[0];
        assert offset in free;
        deletedEntities := deletedEntities[1..];
        assert deletedEntities + deletedCurrentCycle == free[1..];
      }
      FreeReuse(free, entityStates, entityStates, deletedEntities + deletedCurrentCycle, offset);
      InitSlot(offset);
    }

    /**
     * The slot initialisation of generate_next_local_offset: a destroyed slot
     * on neither free list, or a new slot just past the end, gets no bucket,
     * the invalid key, state Created and sync count 0.
     */
    method InitSlot(offset: Entity)
      requires Valid() && 0 < offset <= |entityKeys|
      requires offset < |entityKeys| ==> entityStates[offset] == Deleted
      requires offset !in deletedEntities + deletedCurrentCycle
      modifies this`meshIndexes, this`entityKeys, this`entityStates, this`entitySyncCounts
      ensures Valid()
      ensures |entityKeys| == if offset == old(|entityKeys|) then offset + 1 else old(|entityKeys|)
      ensures meshIndexes[offset] == Unplaced && entityKeys[offset] == InvalidKey
      ensures entityStates[offset] == Created && entitySyncCounts[offset] == 0
      ensures forall x :: 0 <= x < old(|entityKeys|) && x != offset ==>
        meshIndexes[x] == old(meshIndexes[x]) && entityKeys[x] == old(entityKeys[x]) &&
        entityStates[x] == old(entityStates[x]) && entitySyncCounts[x] == old(entitySyncCounts[x])
    {
      if offset == |meshIndexes| {
        meshIndexes := meshIndexes + [Unplaced];
        entityKeys := entityKeys + [InvalidKey];
        entityStates := entityStates + [Created];
        entitySyncCounts := entitySyncCounts + [0];
      } else {
        // Re-claiming the slot of a previously deleted entity.
        meshIndexes := meshIndexes[offset := Unplaced];
        entityKeys := entityKeys[offset := InvalidKey];
        entityStates := entityStates[offset := Created];
        entitySyncCounts := entitySyncCounts[offset := 0];
      }
    }

    //--------------------------------------------------------------------
    // The modification cycle

    /** require_ok_to_modify */
    function RequireOkToModify(): Outcome
      reads this`syncState
    {
      if syncState == Synchronized then Fail(NotModifiable) else Pass
    }

    /**
     * modification_begin: an error once the mesh is finalized; false with no
     * change while already MODIFIABLE; otherwise the first call only records
     * that the meta data was verified, and every later call increments the
     * sync count by one and resets every entity of the repository to
     * Unchanged. A successful call leaves the mesh MODIFIABLE and returns true.
     */
    method ModificationBegin() returns (r: Result<bool>)
      requires Valid()
      modifies this`metaDataVerified, this`syncCount, this`entityStates, this`syncState
      ensures Valid()
      ensures old(meshFinalized) ==> r == Err(MeshFinalized)
      ensures !old(meshFinalized) && old(syncState) == Modifiable ==> r == Ok(false)
      ensures r != Ok(true) ==>
        syncState == old(syncState) && syncCount == old(syncCount) &&
        entityStates == old(entityStates) && metaDataVerified == old(metaDataVerified)
      ensures !old(meshFinalized) && old(syncState) == Synchronized ==>
        r == Ok(true) && syncState == Modifiable && metaDataVerified
      ensures r == Ok(true) && !old(metaDataVerified) ==>
        syncCount == old(syncCount) && entityStates == old(entityStates)
      ensures r == Ok(true) && old(metaDataVerified) ==>
        syncCount == old(syncCount) + 1 &&
        entityStates == ResetStates(old(entityStates), repo.entities.Values)
    {
      if meshFinalized {
        return Err(MeshFinalized);
      }
      if syncState == Modifiable && !meshFinalized {
        return Ok(false);
      }
      if !metaDataVerified {
        metaDataVerified := true;
      } else {
        syncCount := syncCount + 1;
        ResetKeepsValid(entityStates);
        ResetEntityStates();
      }
      syncState := Modifiable;
      return Ok(true);
    }

    /**
     * The reset in modification_begin: every entity of the repository,
     * visited in key order, becomes Unchanged; no other slot changes.
     */
    method ResetEntityStates()
      requires RepoValid(entityStates)
      modifies this`entityStates
      ensures entityStates == ResetStates(old(entityStates), repo.entities.Values)
    {
      var ks := repo.OrderedKeys();
      ghost var done: set<Entity> := {};
      var i := 0;
      while i < |ks|
        invariant 0 <= i <= |ks|
        invariant |entityStates| == |old(entityStates)|
        invariant forall x :: 0 <= x < |entityStates| ==>
          entityStates[x] == if x in done then Unchanged else old(entityStates)[x]
        invariant forall m :: 0 <= m < i ==> repo.entities[ks[m]] in done
        invariant done <= repo.entities.Values
      {
        var e := repo.entities[ks[i]];
        entityStates := entityStates[e := Unchanged];
        done := done + {e};
        i := i + 1;
      }
      assert done == repo.entities.Values by {
        forall x | x in repo.entities.Values ensures x in done {
          var k :| k in repo.entities && repo.entities[k] == x;
          var m :| 0 <= m < |ks| && ks[m] == k;
        }
      }
    }

    /** Resetting the entities of the repository keeps the invariant: they are all live. */
    lemma ResetKeepsValid(s0: seq<EntityState>)
      requires ValidWith(s0)
      ensures ValidWith(ResetStates(s0, repo.entities.Values))
    {
      var s1 := ResetStates(s0, repo.entities.Values);
      forall x | 0 <= x < |s0| ensures s0[x] == Deleted <==> s1[x] == Deleted {
        if x in repo.entities.Values {
          var k :| k in repo.entities && repo.entities[k] == x;
        }
      }
      StatesKeepValid(s0, s1);
    }

    //--------------------------------------------------------------------
    // The "modified" flood

    /**
     * modified: nothing happens unless the entity is Unchanged. Otherwise it
     * becomes Modified, and so does every entity reachable from it through
     * relations to strictly higher ranks whose entities are all Unchanged;
     * no other state changes (Created and Deleted entities stay as they are).
     * The rank strictly increases along each step, which bounds the
     * recursion.
     */
    method MarkModified(e: Entity)
      requires e < |entityStates| == |entityKeys| && TargetsBelow(conn, |entityStates|)
      modifies this`entityStates
      decreases if RankIn(entityKeys, e) < rankCount then rankCount - RankIn(entityKeys, e) else 0, 1
      ensures MarksOnly(old(entityStates), entityStates)
      ensures old(entityStates)[e] != Unchanged ==> entityStates == old(entityStates)
      ensures old(entityStates)[e] == Unchanged ==> entityStates[e] == Modified
      ensures forall x :: NewlyMarked(old(entityStates), entityStates, x) ==>
        Reachable(conn, entityKeys, rankCount, old(entityStates), e, x)
      ensures ClosedUpward(conn, entityKeys, rankCount, old(entityStates), entityStates)
    {
      if entityStates[e] != Unchanged {
        return;
      }
      ghost var s0 := entityStates;
      entityStates := entityStates[e := Modified];
      assert UnchangedPath(conn, entityKeys, rankCount, s0, [e]);
      var rank := RankIn(entityKeys, e);
      var irank: int := rankCount - 1;
      while irank > rank
        invariant irank < rankCount
        invariant MarksOnly(s0, entityStates) && entityStates[e] == Modified
        invariant forall x :: NewlyMarked(s0, entityStates, x) ==>
          Reachable(conn, entityKeys, rankCount, s0, e, x)
        invariant ClosedExcept(conn, entityKeys, rankCount, s0, entityStates, e)
        invariant forall r: nat, k: int ::
          (irank < r < rankCount && 0 <= k < |ConnOf(conn, e, r)| &&
           RankIn(entityKeys, ConnOf(conn, e, r)[k].target) > rank) ==>
            entityStates[ConnOf(conn, e, r)[k].target] != Unchanged
      {
        MarkTable(e, irank, s0);
        irank := irank - 1;
      }
      forall y: Entity | UpEdge(conn, entityKeys, rankCount, e, y)
        ensures y < |entityStates| && entityStates[y] != Unchanged
      {
        var r :| RankIn(entityKeys, e) < r < rankCount && HasTarget(ConnOf(conn, e, r), y);
        var k :| 0 <= k < |ConnOf(conn, e, r)| && ConnOf(conn, e, r)[k].target == y;
      }
    }

    /**
     * The inner loop of modified over e's relations of one higher rank:
     * every target of higher rank than e that is still Unchanged is marked,
     * recursively.
     */
    method MarkTable(e: Entity, irank: nat, ghost s0: seq<EntityState>)
      requires e < |entityStates| == |entityKeys| && TargetsBelow(conn, |entityStates|)
      requires RankIn(entityKeys, e) < irank < rankCount
      requires MarksOnly(s0, entityStates) && s0[e] == Unchanged && entityStates[e] == Modified
      requires forall x :: NewlyMarked(s0, entityStates, x) ==> Reachable(conn, entityKeys, rankCount, s0, e, x)
      requires ClosedExcept(conn, entityKeys, rankCount, s0, entityStates, e)
      modifies this`entityStates
      decreases rankCount - RankIn(entityKeys, e), 0
      ensures MarksOnly(old(entityStates), entityStates)
      ensures MarksOnly(s0, entityStates) && entityStates[e] == Modified
      ensures forall x :: NewlyMarked(s0, entityStates, x) ==> Reachable(conn, entityKeys, rankCount, s0, e, x)
      ensures ClosedExcept(conn, entityKeys, rankCount, s0, entityStates, e)
      ensures forall k :: 0 <= k < |ConnOf(conn, e, irank)| && RankIn(entityKeys, ConnOf(conn, e, irank)[k].target) > RankIn(entityKeys, e) ==>
        entityStates[ConnOf(conn, e, irank)[k].target] != Unchanged
    {
      var rels := ConnOf(conn, e, irank);
      var j := 0;
      while j < |rels|
        invariant 0 <= j <= |rels|
        invariant MarksOnly(old(entityStates), entityStates)
        invariant MarksOnly(s0, entityStates) && entityStates[e] == Modified
        invariant forall x :: NewlyMarked(s0, entityStates, x) ==>
          Reachable(conn, entityKeys, rankCount, s0, e, x)
        invariant ClosedExcept(conn, entityKeys, rankCount, s0, entityStates, e)
        invariant forall k :: 0 <= k < j && RankIn(entityKeys, rels[k].target) > RankIn(entityKeys, e) ==>
          entityStates[rels[k].target] != Unchanged
      {
        var other := rels[j].target;
        assert (e, irank) in conn;
        if entityStates[other] == Unchanged && RankIn(entityKeys, other) > RankIn(entityKeys, e) {
          assert UpEdge(conn, entityKeys, rankCount, e, other) by {
            assert HasTarget(ConnOf(conn, e, irank), other) by {
              assert ConnOf(conn, e, irank)[j].target == other;
            }
          }
          ghost var s1 := entityStates;
          MarkModified(other);
          FloodStep(conn, entityKeys, rankCount, s0, s1, entityStates, e, other);
        }
        j := j + 1;
      }
    }

    //--------------------------------------------------------------------
    // Declaring, renaming and destroying entities

    /**
     * require_good_rank_and_id: the rank must be below the rank count and not
     * the face rank of a two-dimensional mesh (checked first), and the
     * identifier must lie in 1 .. MaxId.
     */
    function RequireGoodRankAndId(rank: nat, id: nat): (o: Outcome)
      ensures o == Pass <==>
        rank < rankCount && !(rank == FaceRank && spatialDimension == 2) && 1 <= id <= MaxId
      ensures !(rank < rankCount && !(rank == FaceRank && spatialDimension == 2)) ==> o == Fail(BadRank)
      ensures o.Fail? ==> o.error == BadRank || o.error == BadId
    {
      var okRank := rank < rankCount && !(rank == FaceRank && spatialDimension == 2);
      var okId := 1 <= id <= MaxId;
      if !okRank then Fail(BadRank)
      else if !okId then Fail(BadId)
      else Pass
    }

    /**
     * EntityRepository::internal_create_entity together with the slot
     * allocation it asks of the mesh: an active key yields its entity; a new
     * key gets the next local offset, is recorded in the repository and
     * becomes the key of that slot.
     */
    method InternalCreateEntity(key: EntityKey) returns (e: Entity, created: bool)
      requires Valid()
      modifies this`meshIndexes, this`entityKeys, this`entityStates, this`entitySyncCounts,
        this`deletedEntities, repo`entities
      ensures Valid()
      ensures 0 < e < |entityKeys| && e in repo.entities.Values && LiveIn(entityStates, e) && entityKeys[e] == key
      ensures created <==> key !in old(repo.entities)
      ensures !created ==> (e == old(repo.entities)[key] &&
        unchanged(this`meshIndexes, this`entityKeys, this`entityStates, this`entitySyncCounts,
          this`deletedEntities, repo`entities))
      ensures created ==>
        repo.entities == old(repo.entities)[key := e] && e !in old(repo.entities).Values &&
        entityKeys[e] == key && entityStates[e] == Created && meshIndexes[e] == Unplaced &&
        entitySyncCounts[e] == 0
      ensures |entityKeys| >= old(|entityKeys|)
      ensures forall x :: 0 <= x < old(|entityKeys|) && x != e ==>
        meshIndexes[x] == old(meshIndexes[x]) && entityKeys[x] == old(entityKeys[x]) &&
        entityStates[x] == old(entityStates[x]) && entitySyncCounts[x] == old(entitySyncCounts[x])
    {
      if key in repo.entities {
        e, created := repo.entities[key], false;
        assert repo.entities[key] in repo.entities.Values;
        return;
      }
      var next := GenerateNextLocalOffset();
      e, created := repo.InternalCreateEntity(key, next);
      entityKeys := entityKeys[e := key];
      assert repo.entities[key] == e;
    }

    /**
     * declare_entity: the mesh must be modifiable and the rank and identifier
     * good. An existing entity must be owned here when it sits in a bucket of
     * a parallel mesh. The entity then gains the requested parts and the
     * locally owned part; a new one is owned here and gets the current sync
     * count. Every error leaves the mesh unchanged.
     */
    method DeclareEntity(rank: nat, id: nat, parts: set<nat>) returns (r: Result<Entity>)
      requires Valid()
      modifies this`meshIndexes, this`entityKeys, this`entityStates, this`entitySyncCounts,
        this`deletedEntities, repo`entities, this`owners
      ensures Valid()
      ensures old(syncState) == Synchronized ==> r == Err(NotModifiable)
      ensures old(syncState) == Modifiable ==>
        (r == Err(BadRank) <==> !(rank < rankCount && !(rank == FaceRank && spatialDimension == 2)))
      ensures old(syncState) == Modifiable ==>
        (r == Err(BadId) <==> rank < rankCount && !(rank == FaceRank && spatialDimension == 2) && !(1 <= id <= MaxId))
      ensures r.Ok? <==>
        old(syncState) == Modifiable && RequireGoodRankAndId(rank, id) == Pass &&
        !(Key(rank, id) in old(repo.entities) && parallelSize > 1 &&
          old(meshIndexes)[old(repo.entities)[Key(rank, id)]].Placed? &&
          OwnerIn(old(owners), old(repo.entities)[Key(rank, id)]) != parallelRank)
      ensures r.Err? && r.error != OwnerMismatch ==>
        unchanged(this`meshIndexes, this`entityKeys, this`entityStates, this`entitySyncCounts,
          this`deletedEntities, repo`entities, this`owners)
      ensures r == Err(OwnerMismatch) <==>
        old(syncState) == Modifiable && RequireGoodRankAndId(rank, id) == Pass &&
        Key(rank, id) in old(repo.entities) && parallelSize > 1 &&
        old(meshIndexes)[old(repo.entities)[Key(rank, id)]].Placed? &&
        OwnerIn(old(owners), old(repo.entities)[Key(rank, id)]) != parallelRank
      ensures r == Err(OwnerMismatch) ==> unchanged(this`meshIndexes, this`entityKeys, this`entityStates,
        this`entitySyncCounts, this`deletedEntities, repo`entities, this`owners)
      ensures r.Ok? ==>
        old(syncState) == Modifiable && RequireGoodRankAndId(rank, id) == Pass &&
        Key(rank, id) in repo.entities && repo.entities[Key(rank, id)] == r.value &&
        LiveIn(entityStates, r.value) && entityKeys[r.value] == Key(rank, id)
      ensures r.Ok? && Key(rank, id) in old(repo.entities) ==>
        r.value == old(repo.entities)[Key(rank, id)] &&
        PartsIn(meshIndexes, r.value) == PartsIn(old(meshIndexes), r.value) + parts + {ownedPart} &&
        entityStates == old(entityStates) && entitySyncCounts == old(entitySyncCounts) && owners == old(owners)
      ensures r.Ok? && Key(rank, id) !in old(repo.entities) ==>
        PartsIn(meshIndexes, r.value) == parts + {ownedPart} && entityStates[r.value] == Created &&
        OwnerIn(owners, r.value) == parallelRank && entitySyncCounts[r.value] == syncCount &&
        repo.entities == old(repo.entities)[Key(rank, id) := r.value]
    {
      var key := Key(rank, id);
      :- RequireOkToModify();
      :- RequireGoodRankAndId(rank, id);
      var e, created := InternalCreateEntity(key);
      if !created && parallelSize > 1 && meshIndexes[e].Placed? && OwnerIn(owners, e) != parallelRank {
        return Err(OwnerMismatch);
      }
      PlaceDeclared(e, created, parts);
      return Ok(e);
    }

    /**
     * The end of declare_entity: the entity gains the requested parts and the
     * locally owned part; a new entity is owned here and gets the current
     * sync count.
     */
    method PlaceDeclared(e: Entity, created: bool, parts: set<nat>)
      requires Valid() && e < |entityKeys|
      modifies this`meshIndexes, this`owners, this`entitySyncCounts
      ensures Valid()
      ensures meshIndexes == old(meshIndexes)[e := Placed(PartsIn(old(meshIndexes), e) + parts + {ownedPart})]
      ensures created ==>
        owners == old(owners)[e := parallelRank] && entitySyncCounts == old(entitySyncCounts)[e := syncCount]
      ensures !created ==> owners == old(owners) && entitySyncCounts == old(entitySyncCounts)
    {
      meshIndexes := meshIndexes[e := Placed(PartsIn(meshIndexes, e) + parts + {ownedPart})];
      if created {
        owners := owners[e := parallelRank];
        entitySyncCounts := entitySyncCounts[e := syncCount];
      }
    }

    /**
     * change_entity_id (serial only): after the usual checks on the entity's
     * rank and the new identifier, internal_change_entity_key re-indexes the
     * repository under the new key and records it as the entity's key.
     */
    method ChangeEntityId(id: nat, e: Entity) returns (o: Outcome)
      requires Valid() && parallelSize == 1
      requires LiveIn(entityStates, e) && entityKeys[e] in repo.entities && repo.entities[entityKeys[e]] == e
      modifies this`entityKeys, repo`entities
      ensures Valid()
      ensures o == Pass <==> old(syncState) == Modifiable && RequireGoodRankAndId(RankIn(entityKeys, e), id) == Pass
      ensures old(syncState) == Synchronized ==> o == Fail(NotModifiable)
      ensures o.Fail? ==> unchanged(this`entityKeys, repo`entities)
      ensures o == Pass ==>
        var newKey := Key(RankIn(old(entityKeys), e), id);
        entityKeys == old(entityKeys)[e := newKey] &&
        newKey in repo.entities && repo.entities[newKey] == e &&
        (old(entityKeys[e]) != newKey ==> old(entityKeys[e]) !in repo.entities)
    {
      var rank := RankIn(entityKeys, e);
      var ok := RequireOkToModify();
      if ok.Fail? {
        return ok;
      }
      ok := RequireGoodRankAndId(rank, id);
      if ok.Fail? {
        return ok;
      }
      InternalChangeEntityKey(entityKeys[e], Key(rank, id), e);
      return Pass;
    }

    /** internal_change_entity_key */
    method InternalChangeEntityKey(oldKey: EntityKey, newKey: EntityKey, e: Entity)
      requires Valid() && LiveIn(entityStates, e) && entityKeys[e] == oldKey
      requires oldKey in repo.entities && repo.entities[oldKey] == e
      modifies this`entityKeys, repo`entities
      ensures Valid()
      ensures entityKeys == old(entityKeys)[e := newKey]
      ensures newKey in repo.entities && repo.entities[newKey] == e
      ensures oldKey != newKey ==> oldKey !in repo.entities
      ensures forall k :: k != newKey && k != oldKey ==>
        (k in repo.entities <==> k in old(repo.entities)) &&
        (k in repo.entities ==> repo.entities[k] == old(repo.entities)[k])
    {
      repo.UpdateEntityKey(newKey, oldKey, e);
      entityKeys := entityKeys[e := newKey];
    }

    //--------------------------------------------------------------------
    // Relations

    /**
     * internal_declare_relation: the relation is stored in the from-entity's
     * list for the rank of the to-entity; the from-entity's sync count is
     * updated only when that changed something.
     */
    method InternalDeclareRelation(from: Entity, to: Entity, id: nat, sc: nat, perm: nat) returns (changed: bool)
      requires Valid() && LiveIn(entityStates, from) && to < |entityStates|
      modifies this`conn, this`entitySyncCounts
      ensures Valid()
      ensures changed <==> !HasRel(old(ConnOf(conn, from, RankIn(entityKeys, to))), to, id)
      ensures changed ==> conn == AddRel(old(conn), from, RankIn(entityKeys, to), to, id, perm)
      ensures !changed ==> conn == old(conn)
      ensures entitySyncCounts == if changed then old(entitySyncCounts)[from := sc] else old(entitySyncCounts)
    {
      var rank := RankIn(entityKeys, to);
      var list := ConnOf(conn, from, rank);
      var res := DeclareInList(list, to, id, perm);
      changed := res.1;
      if changed {
        conn := conn[(from, rank) := res.0];
        entitySyncCounts := entitySyncCounts[from := sc];
        forall c | c in res.0 ensures c.target < |entityStates| {
        }
      }
    }

    /**
     * declare_relation: the mesh must be modifiable and the relation valid.
     * The forward relation is stored; when that changed something and the
     * connectivity map tracks the reverse rank pair, the inverse is stored
     * too, and an inverse that was already there is an internal error. Only
     * after the relations are in place, and only when the forward one is new,
     * are the to-entity and then the from-entity marked modified. Finally the
     * to-entity gains the parts the from-entity induces through the relation;
     * no part is ever removed.
     */
    method DeclareRelation(from: Entity, to: Entity, id: nat, perm: nat) returns (o: Outcome)
      requires Valid()
      modifies this`conn, this`entitySyncCounts, this`entityStates, this`meshIndexes
      ensures Valid()
      ensures o.Fail? && o.error != InverseNotDeclared ==>
        unchanged(this`conn, this`entitySyncCounts, this`entityStates, this`meshIndexes)
      ensures old(syncState) == Synchronized ==> o == Fail(NotModifiable)
      ensures o.Fail? ==> o.error in {NotModifiable, DestroyedEntity, WrongRankOrder, InverseNotDeclared}
      ensures old(syncState) == Modifiable ==>
        (o.Fail? && o.error != InverseNotDeclared <==>
          CheckValidRelation(RankIn(entityKeys, from), RankIn(entityKeys, to), LiveIn(old(entityStates), from), LiveIn(old(entityStates), to)).Fail?)
      ensures old(syncState) == Modifiable && o.Fail? && o.error != InverseNotDeclared ==>
        o == CheckValidRelation(RankIn(entityKeys, from), RankIn(entityKeys, to), LiveIn(old(entityStates), from), LiveIn(old(entityStates), to))
      ensures o == Pass ==> RelationDeclared(Env(), old(Snapshot()), Snapshot(), from, to, id, perm)
      ensures old(RelationsSymmetric()) ==> o != Fail(InverseNotDeclared) && RelationsSymmetric()
    {
      var ok := RequireOkToModify();
      if ok.Fail? {
        return ok;
      }
      ok := CheckValidRelation(RankIn(entityKeys, from), RankIn(entityKeys, to), LiveIn(entityStates, from), LiveIn(entityStates, to));
      if ok.Fail? {
        return ok;
      }
      o := DeclareCheckedRelation(from, to, id, perm);
    }

    /** declare_relation once the mesh is modifiable and the relation is valid. */
    method DeclareCheckedRelation(from: Entity, to: Entity, id: nat, perm: nat) returns (o: Outcome)
      requires Valid() && syncState == Modifiable
      requires CheckValidRelation(RankIn(entityKeys, from), RankIn(entityKeys, to), LiveIn(entityStates, from), LiveIn(entityStates, to)) == Pass
      modifies this`conn, this`entitySyncCounts, this`entityStates, this`meshIndexes
      ensures Valid()
      ensures o == Pass || o == Fail(InverseNotDeclared)
      ensures o == Pass ==> RelationDeclared(Env(), old(Snapshot()), Snapshot(), from, to, id, perm)
      ensures old(RelationsSymmetric()) ==> o == Pass && RelationsSymmetric()
    {
      ghost var t0 := Snapshot();
      var fwd;
      fwd, o := DeclareRelationPair(from, to, id, perm);
      if o.Fail? {
        return;
      }
      ghost var t := Snapshot();
      MarkAndInduce(from, to, id, fwd);
      RelationDeclaredInSteps(Env(), t0, t, Snapshot(), from, to, id, perm, fwd);
    }

    /**
     * The end of declare_relation: when the forward relation is new, the
     * to-entity and then the from-entity are marked modified; the to-entity
     * then gains the parts the from-entity induces on it.
     */
    method MarkAndInduce(from: Entity, to: Entity, id: nat, fwd: bool)
      requires Valid() && from < |entityStates| && to < |entityStates|
      modifies this`entityStates, this`meshIndexes
      ensures Valid()
      ensures meshIndexes == old(meshIndexes)[to := Placed(PartsIn(old(meshIndexes), to) +
        induces(PartsIn(old(meshIndexes), from), RankIn(entityKeys, to), id))]
      ensures fwd ==> MarkedFrom(conn, entityKeys, rankCount, old(entityStates), entityStates, to, from)
      ensures !fwd ==> entityStates == old(entityStates)
    {
      if fwd {
        MarkEndpoints(to, from);
      }
      ghost var idx := meshIndexes;
      var add := induces(PartsIn(meshIndexes, from), RankIn(entityKeys, to), id);
      ChangeParts(to, add, {});
      assert PartsIn(idx, to) + add - {} == PartsIn(idx, to) + add;
    }

    /**
     * internal_change_entity_parts on the part sets: the entity's parts gain
     * add and lose remove; no other entity changes. Buckets and partitions
     * are not part of this model, so the entity is simply placed with the new
     * part set.
     */
    method ChangeParts(e: Entity, add: set<nat>, remove: set<nat>)
      requires Valid() && e < |meshIndexes|
      modifies this`meshIndexes
      ensures Valid()
      ensures meshIndexes == old(meshIndexes)[e := Placed(PartsIn(old(meshIndexes), e) + add - remove)]
      ensures PartsIn(meshIndexes, e) == PartsIn(old(meshIndexes), e) + add - remove
      ensures forall x :: x != e ==> PartsIn(meshIndexes, x) == PartsIn(old(meshIndexes), x)
    {
      meshIndexes := meshIndexes[e := Placed(PartsIn(meshIndexes, e) + add - remove)];
    }

    /**
     * The relation part of declare_relation: the forward insert and, when it
     * changed something and the reverse rank pair is tracked, the inverse
     * insert, which must change something too.
     */
    method DeclareRelationPair(from: Entity, to: Entity, id: nat, perm: nat) returns (fwd: bool, o: Outcome)
      requires Valid() && LiveIn(entityStates, from) && LiveIn(entityStates, to) && RankIn(entityKeys, from) > RankIn(entityKeys, to)
      modifies this`conn, this`entitySyncCounts
      ensures Valid()
      ensures fwd <==> !HasRel(old(ConnOf(conn, from, RankIn(entityKeys, to))), to, id)
      ensures o == Pass || o == Fail(InverseNotDeclared)
      ensures o == Pass ==>
        conn == DeclarePair(old(conn), from, RankIn(entityKeys, from), to, RankIn(entityKeys, to), id, perm,
          TracksInverse(connMapSize, connMapAllows, RankIn(entityKeys, to), RankIn(entityKeys, from)))
      ensures o == Pass && fwd && TracksInverse(connMapSize, connMapAllows, RankIn(entityKeys, to), RankIn(entityKeys, from)) ==>
        !HasRel(ConnOf(AddRel(old(conn), from, RankIn(entityKeys, to), to, id, perm), to, RankIn(entityKeys, from)), from, id)
      ensures o == Pass ==>
        entitySyncCounts ==
          if !fwd then old(entitySyncCounts)
          else if TracksInverse(connMapSize, connMapAllows, RankIn(entityKeys, to), RankIn(entityKeys, from))
          then old(entitySyncCounts)[from := syncCount][to := syncCount]
          else old(entitySyncCounts)[from := syncCount]
      ensures old(RelationsSymmetric()) ==> o == Pass && RelationsSymmetric()
    {
      ghost var sym := RelationsSymmetric();
      if sym && !HasRel(ConnOf(conn, from, RankIn(entityKeys, to)), to, id) {
        DeclarePairKeepsSymmetric(conn, entityKeys, connMapSize, connMapAllows, from, to, id, perm);
      }
      ghost var c0 := conn;
      var rf, rt := RankIn(entityKeys, from), RankIn(entityKeys, to);
      fwd := InternalDeclareRelation(from, to, id, syncCount, perm);
      if fwd && TracksInverse(connMapSize, connMapAllows, rt, rf) {
        ghost var c1 := conn;
        var inv := InternalDeclareRelation(to, from, id, syncCount, perm);
        if !inv {
          return fwd, Fail(InverseNotDeclared);
        }
        assert c1 == AddRel(c0, from, rt, to, id, perm) && !HasRel(ConnOf(c1, to, rf), from, id);
        assert conn == AddRel(c1, to, rf, from, id, perm);
      }
      o := Pass;
    }

    /**
     * modified on the to-entity, then on the from-entity: both end Modified
     * when they were Unchanged, and states only move from Unchanged to Modified.
     */
    method MarkEndpoints(to: Entity, from: Entity)
      requires Valid() && to < |entityStates| && from < |entityStates|
      modifies this`entityStates
      ensures Valid()
      ensures MarksOnly(old(entityStates), entityStates)
      ensures forall x :: (x == from || x == to) && old(entityStates)[x] == Unchanged ==>
        entityStates[x] == Modified
      ensures MarkedFrom(conn, entityKeys, rankCount, old(entityStates), entityStates, to, from)
    {
      ghost var s0 := entityStates;
      MarkModified(to);
      ghost var s1 := entityStates;
      MarkModified(from);
      MarksOnlyTransitive(s0, s1, entityStates);
      TwoFloods(conn, entityKeys, rankCount, s0, s1, entityStates, to, from);
      StatesKeepValid(s0, entityStates);
    }

    /**
     * The state of the list overload before relation i, with o the outcome
     * so far and t0 the tables before the loop: while all went well, the
     * first i relations are declared and none of them failed its check; a
     * failure is the first failing check of the list or a missing inverse,
     * which cannot happen while the relations stay symmetric.
     */
    ghost predicate Declaring(t0: Tables, entity: Entity, rels: seq<Connection>, i: nat, o: Outcome, sym: bool)
      reads this`meshIndexes, this`entityKeys, this`entityStates, this`entitySyncCounts, repo`entities,
        this`deletedEntities, this`deletedCurrentCycle, this`conn, this`commList, this`entityCommMap, this`syncCount
    {
      i <= |rels| && Valid() && |t0.states| == |entityKeys| &&
      (o == Pass ==>
         ListDeclared(Env(), t0, Snapshot(), entity, rels, i) &&
         ListFailure(entityKeys, t0.states, entity, rels, 0) == ListFailure(entityKeys, t0.states, entity, rels, i)) &&
      (o.Fail? ==> o == ListFailure(entityKeys, t0.states, entity, rels, 0) || o == Fail(InverseNotDeclared)) &&
      (o == Fail(SameRank) ==> i < |rels| && RankIn(entityKeys, rels[i].target) == RankIn(entityKeys, entity)) &&
      (sym ==> RelationsSymmetric() && o != Fail(InverseNotDeclared))
    }

    /**
     * One step of the declare_relation overload for a list: relation i is
     * declared from the higher to the lower ranked of entity and its target;
     * equal ranks are an error.
     */
    method DeclareOriented(entity: Entity, rels: seq<Connection>, i: nat, ghost t0: Tables, ghost sym: bool)
        returns (o: Outcome, next: nat)
      requires syncState == Modifiable && i < |rels| && Declaring(t0, entity, rels, i, Pass, sym)
      modifies this`conn, this`entitySyncCounts, this`entityStates, this`meshIndexes
      ensures next == if o == Pass then i + 1 else i
      ensures Declaring(t0, entity, rels, next, o, sym)
      ensures o == Fail(SameRank) <==> RankIn(entityKeys, rels[i].target) == RankIn(entityKeys, entity)
      ensures o == ListRelationCheck(entityKeys, t0.states, entity, rels[i]) || o == Fail(InverseNotDeclared)
    {
      var c := rels[i];
      var er, tr := RankIn(entityKeys, entity), RankIn(entityKeys, c.target);
      var from, to := entity, c.target;
      if tr < er {
      } else if er < tr {
        from, to := c.target, entity;
      } else {
        return Fail(SameRank), i;
      }
      ghost var t, g := Snapshot(), Env();
      assert (from, to) == Oriented(g.keys, entity, rels[i]);
      assert LiveIn(t0.states, from) == LiveIn(entityStates, from) && LiveIn(t0.states, to) == LiveIn(entityStates, to);
      o := DeclareRelation(from, to, c.ordinal, c.permutation);
      next := i;
      if o.Pass? {
        ListDeclareStep(g, t0, t, Snapshot(), entity, rels, i, from, to);
        next := i + 1;
      }
    }

    /**
     * The declare_relation overload for a list of relations of one entity:
     * each is declared from the higher to the lower ranked entity, in list
     * order; two entities of the same rank are an error, as is any error of
     * the single declarations, which ends the loop.
     */
    method DeclareRelations(entity: Entity, rels: seq<Connection>) returns (o: Outcome)
      requires Valid()
      modifies this`conn, this`entitySyncCounts, this`entityStates, this`meshIndexes
      ensures Valid()
      ensures old(syncState) == Synchronized ==> (o == Fail(NotModifiable) &&
        unchanged(this`conn, this`entitySyncCounts, this`entityStates, this`meshIndexes))
      ensures old(syncState) == Modifiable ==>
        o == ListFailure(entityKeys, old(entityStates), entity, rels, 0) || o == Fail(InverseNotDeclared)
      ensures o == Fail(SameRank) ==>
        exists i :: 0 <= i < |rels| && RankIn(entityKeys, rels[i].target) == RankIn(entityKeys, entity)
      ensures old(RelationsSymmetric()) ==> RelationsSymmetric() && o != Fail(InverseNotDeclared)
      ensures o == Pass ==> ListDeclared(Env(), old(Snapshot()), Snapshot(), entity, rels, |rels|)
    {
      o := RequireOkToModify();
      if o.Fail? {
        return;
      }
      ghost var t0 := Snapshot();
      ghost var sym := RelationsSymmetric();
      ListDeclaredStart(Env(), t0, entity, rels);
      var n;
      o, n := DeclareEach(entity, rels, t0, sym);
    }

    /**
     * The loop of the list overload: relations are declared in list order
     * until one fails; on success all of them are declared.
     */
    method DeclareEach(entity: Entity, rels: seq<Connection>, ghost t0: Tables, ghost sym: bool)
        returns (o: Outcome, n: nat)
      requires syncState == Modifiable && Declaring(t0, entity, rels, 0, Pass, sym)
      modifies this`conn, this`entitySyncCounts, this`entityStates, this`meshIndexes
      ensures Declaring(t0, entity, rels, n, o, sym)
      ensures o == Pass ==> n == |rels|
    {
      o, n := Pass, 0;
      while n < |rels| && o == Pass
        invariant Declaring(t0, entity, rels, n, o, sym)
        decreases |rels| - n, if o == Pass then 1 else 0
      {
        o, n := DeclareOriented(entity, rels, n, t0, sym);
      }
    }

    /**
     * The first loop of destroy_relation: over the lists of `to` for every
     * rank, the parts induced through each relation to an entity of higher
     * rank, except the relation from `from` with identifier id.
     */
    method ComputeKeepParts(to: Entity, from: Entity, id: nat) returns (keep: set<nat>)
      ensures keep == KeepRanks(conn, meshIndexes, to, from, id, RankIn(entityKeys, to), rankCount, inducesExact)
    {
      var rt := RankIn(entityKeys, to);
      keep := {};
      var irank := 0;
      while irank < rankCount
        invariant irank <= rankCount
        invariant keep == KeepRanks(conn, meshIndexes, to, from, id, rt, irank, inducesExact)
      {
        var rels := ConnOf(conn, to, irank);
        var j := 0;
        while j < |rels|
          invariant j <= |rels|
          invariant keep == KeepRanks(conn, meshIndexes, to, from, id, rt, irank, inducesExact) +
            (if rt < irank then KeepOfList(rels[..j], from, id, meshIndexes, rt, inducesExact) else {})
        {
          if rt < irank {
            if !(rels[j].target == from && rels[j].ordinal == id) {
              keep := keep + inducesExact(PartsIn(meshIndexes, rels[j].target), rt, rels[j].ordinal);
            }
            assert rels[..j + 1][..j] == rels[..j];
          }
          j := j + 1;
        }
        assert rels[..j] == rels;
        irank := irank + 1;
      }
    }

    /**
     * The second loop of destroy_relation: the first list of `from` that
     * stores the relation to `to` with identifier id contributes the parts
     * `from` induces through it, supersets not looked at, that are not kept;
     * the search in a list stops at its match.
     */
    method ComputeDelParts(from: Entity, to: Entity, id: nat, keep: set<nat>) returns (del: set<nat>)
      ensures del == if RelBelow(conn, from, to, id, rankCount) then
        inducesExact(PartsIn(meshIndexes, from), RankIn(entityKeys, to), id) - keep else {}
    {
      var rt := RankIn(entityKeys, to);
      del := {};
      var irank := 0;
      while irank < rankCount
        invariant irank <= rankCount
        invariant del == if RelBelow(conn, from, to, id, irank) then
          inducesExact(PartsIn(meshIndexes, from), rt, id) - keep else {}
      {
        var rels := ConnOf(conn, from, irank);
        var j := 0;
        while j < |rels|
          invariant j <= |rels|
          invariant forall k :: 0 <= k < j ==> !(rels[k].target == to && rels[k].ordinal == id)
        {
          if rels[j].target == to && rels[j].ordinal == id {
            del := del + (inducesExact(PartsIn(meshIndexes, from), rt, rels[j].ordinal) - keep);
            break;
          }
          j := j + 1;
        }
        irank := irank + 1;
      }
    }

    /**
     * The part-membership step of destroy_relation: in a serial mesh, or when
     * `to` is not shared, `to` loses the parts the relation induces on it
     * that no other relation of `to` to a higher rank induces, supersets not
     * looked at either way; nothing changes when there is no such part.
     */
    method RemoveInducedParts(from: Entity, to: Entity, id: nat)
      requires Valid() && to < |meshIndexes|
      modifies this`meshIndexes
      ensures Valid()
      ensures PartsIn(meshIndexes, to) == PartsIn(old(meshIndexes), to) -
        (if parallelSize < 2 || Sharing(CommIn(entityCommMap, entityKeys[to])) == []
         then RemovedParts(conn, old(meshIndexes), from, to, id, RankIn(entityKeys, to), rankCount, inducesExact)
         else {})
      ensures |meshIndexes| == |old(meshIndexes)|
      ensures forall x :: 0 <= x < |meshIndexes| && x != to ==> meshIndexes[x] == old(meshIndexes)[x]
    {
      if parallelSize < 2 || Sharing(CommIn(entityCommMap, entityKeys[to])) == [] {
        var keep := ComputeKeepParts(to, from, id);
        var del := ComputeDelParts(from, to, id, keep);
        if del != {} {
          ChangeParts(to, {}, del);
        }
      }
    }

    /**
     * The relation part of destroy_relation: the forward removal and, when it
     * changed something, the removal of the inverse, which must change
     * something too.
     */
    method DestroyRelationPair(from: Entity, to: Entity, id: nat) returns (fwd: bool, o: Outcome)
      requires Valid() && LiveIn(entityStates, from) && LiveIn(entityStates, to) && RankIn(entityKeys, from) > RankIn(entityKeys, to)
      modifies this`conn
      ensures Valid()
      ensures fwd <==> HasRel(old(ConnOf(conn, from, RankIn(entityKeys, to))), to, id)
      ensures o == Pass || o == Fail(InverseNotDestroyed)
      ensures o == Pass ==>
        conn == DestroyPair(old(conn), from, RankIn(entityKeys, from), to, RankIn(entityKeys, to), id)
      ensures old(RelationsSymmetric()) ==> RelationsSymmetric()
      ensures (old(RelationsSymmetric()) &&
               TracksInverse(connMapSize, connMapAllows, RankIn(entityKeys, to), RankIn(entityKeys, from))) ==>
        o == Pass
    {
      var rf, rt := RankIn(entityKeys, from), RankIn(entityKeys, to);
      ghost var sym, c0 := RelationsSymmetric(), conn;
      fwd := HasRel(ConnOf(conn, from, rt), to, id);
      if !fwd {
        return fwd, Pass;
      }
      if sym {
        DestroyPairKeepsSymmetric(conn, entityKeys, connMapSize, connMapAllows, from, to, id);
      }
      RemoveRelKeepsWellFormed(conn, entityStates, from, rt, to, id);
      conn := RemoveRel(conn, from, rt, to, id);
      var inv := HasRel(ConnOf(conn, to, rf), from, id);
      if !inv {
        return fwd, Fail(InverseNotDestroyed);
      }
      RemoveRelKeepsWellFormed(conn, entityStates, to, rf, from, id);
      conn := RemoveRel(conn, to, rf, from, id);
      assert conn == DestroyPair(c0, from, rf, to, rt, id);
      o := Pass;
    }

    /**
     * destroy_relation: the mesh must be modifiable and the relation valid.
     * In a serial mesh, or when `to` is not shared, `to` first loses the
     * parts the destroyed relation induced on it that no remaining relation
     * to a higher rank induces. Then the forward relation is removed; when it
     * was stored the inverse is removed too, an absent inverse being an
     * internal error, and `to` and then `from` are marked modified. The
     * result says whether the forward relation was stored.
     */
    method DestroyRelation(from: Entity, to: Entity, id: nat) returns (r: Result<bool>)
      requires Valid()
      modifies this`conn, this`entityStates, this`meshIndexes
      ensures Valid()
      ensures old(syncState) == Synchronized ==> r == Err(NotModifiable)
      ensures r.Err? ==> r.error in {NotModifiable, DestroyedEntity, WrongRankOrder, InverseNotDestroyed}
      ensures old(syncState) == Modifiable ==>
        (r.Err? && r.error != InverseNotDestroyed <==>
          CheckValidRelation(RankIn(entityKeys, from), RankIn(entityKeys, to), LiveIn(old(entityStates), from), LiveIn(old(entityStates), to)).Fail?)
      ensures old(syncState) == Modifiable && r.Err? && r.error != InverseNotDestroyed ==>
        r.error == CheckValidRelation(RankIn(entityKeys, from), RankIn(entityKeys, to), LiveIn(old(entityStates), from), LiveIn(old(entityStates), to)).error
      ensures r.Err? && r.error != InverseNotDestroyed ==> unchanged(this`conn, this`entityStates, this`meshIndexes)
      ensures r.Ok? ==> RelationDestroyed(Env(), old(Snapshot()), Snapshot(), from, to, id, r.value)
      ensures r.Ok? ==>
        PartsIn(meshIndexes, to) == PartsIn(old(meshIndexes), to) -
          (if parallelSize < 2 || Sharing(CommIn(entityCommMap, entityKeys[to])) == []
           then RemovedParts(old(conn), old(meshIndexes), from, to, id, RankIn(entityKeys, to), rankCount, inducesExact)
           else {})
      ensures old(RelationsSymmetric()) ==> RelationsSymmetric()
      ensures (old(RelationsSymmetric()) &&
               TracksInverse(connMapSize, connMapAllows, RankIn(entityKeys, to), RankIn(entityKeys, from))) ==>
        r != Err(InverseNotDestroyed)
    {
      var fromRank, toRank := RankIn(entityKeys, from), RankIn(entityKeys, to);
      :- RequireOkToModify();
      :- CheckValidRelation(fromRank, toRank, LiveIn(entityStates, from), LiveIn(entityStates, to));
      RemoveInducedParts(from, to, id);
      var fwd, o := DestroyValidRelation(from, to, id);
      if o.Fail? {
        return Err(o.error);
      }
      return Ok(fwd);
    }

    /**
     * The end of destroy_relation: the relations are removed, then `to` and
     * `from` are marked modified when the forward relation was stored.
     */
    method DestroyValidRelation(from: Entity, to: Entity, id: nat) returns (fwd: bool, o: Outcome)
      requires Valid() && LiveIn(entityStates, from) && LiveIn(entityStates, to) && RankIn(entityKeys, from) > RankIn(entityKeys, to)
      modifies this`conn, this`entityStates
      ensures Valid()
      ensures o == Pass || o == Fail(InverseNotDestroyed)
      ensures fwd <==> HasRel(old(ConnOf(conn, from, RankIn(entityKeys, to))), to, id)
      ensures o == Pass ==>
        conn == DestroyPair(old(conn), from, RankIn(entityKeys, from), to, RankIn(entityKeys, to), id)
      ensures o == Pass && fwd ==> MarkedFrom(conn, entityKeys, rankCount, old(entityStates), entityStates, to, from)
      ensures o == Pass && !fwd ==> entityStates == old(entityStates)
      ensures old(RelationsSymmetric()) ==> RelationsSymmetric()
      ensures (old(RelationsSymmetric()) &&
               TracksInverse(connMapSize, connMapAllows, RankIn(entityKeys, to), RankIn(entityKeys, from))) ==>
        o == Pass
    {
      fwd, o := DestroyRelationPair(from, to, id);
      if o.Pass? && fwd {
        MarkEndpoints(to, from);
      }
    }

    /**
     * The first loop of destroy_entity: whether the entity has a relation to
     * an entity of higher rank, i.e. a non-empty list of a rank above its own.
     */
    method HasUpwardRelations(e: Entity) returns (b: bool)
      ensures b <==> exists r :: RankIn(entityKeys, e) < r < rankCount && |ConnOf(conn, e, r)| > 0
    {
      var irank := RankIn(entityKeys, e) + 1;
      while irank < rankCount
        invariant RankIn(entityKeys, e) < irank
        invariant forall r :: RankIn(entityKeys, e) < r < irank && r < rankCount ==> |ConnOf(conn, e, r)| == 0
      {
        if |ConnOf(conn, e, irank)| > 0 {
          return true;
        }
        irank := irank + 1;
      }
      return false;
    }

    /**
     * What destroy_entity's loop keeps while it destroys the relations of e,
     * t0 being the tables before it: e stays live, the tables are t0 Unhooked
     * from e so far, and while ok (the relations were symmetric and e
     * Destroyable in t0) they stay symmetric.
     */
    ghost predicate Unhooking(t0: Tables, e: Entity, ok: bool)
      reads this`meshIndexes, this`entityKeys, this`entityStates, this`entitySyncCounts, repo`entities,
        this`deletedEntities, this`deletedCurrentCycle, this`conn, this`commList, this`entityCommMap, this`syncCount
    {
      Valid() && LiveIn(entityStates, e) && Unhooked(Env(), t0, Snapshot(), e) &&
      (ok ==> RelationsSymmetric() && Destroyable(t0.conn, entityKeys, t0.states, connMapSize, connMapAllows, e))
    }

    /**
     * Within the pass over e's list of rank r: the loop state, and every
     * relation to a live entity from position j of that list on and in the
     * lists of higher rank is destroyed.
     */
    ghost predicate ClearingRank(t0: Tables, e: Entity, ok: bool, r: nat, j: nat)
      reads this`meshIndexes, this`entityKeys, this`entityStates, this`entitySyncCounts, repo`entities,
        this`deletedEntities, this`deletedCurrentCycle, this`conn, this`commList, this`entityCommMap, this`syncCount
    {
      Unhooking(t0, e, ok) && j <= |ConnOf(conn, e, r)| && ClearedFrom(conn, entityKeys, entityStates, e, r, j) &&
      forall q: nat :: r < q < rankCount ==> ClearedFrom(conn, entityKeys, entityStates, e, q, 0)
    }

    /**
     * Between two passes: the loop state, and every relation to a live
     * entity in e's lists of rank r and above is destroyed.
     */
    ghost predicate ClearedAbove(t0: Tables, e: Entity, ok: bool, r: nat)
      reads this`meshIndexes, this`entityKeys, this`entityStates, this`entitySyncCounts, repo`entities,
        this`deletedEntities, this`deletedCurrentCycle, this`conn, this`commList, this`entityCommMap, this`syncCount
    {
      Unhooking(t0, e, ok) && r <= rankCount &&
      forall q: nat :: r <= q < rankCount ==> ClearedFrom(conn, entityKeys, entityStates, e, q, 0)
    }

    /**
     * The body of the second loop of destroy_entity at position j of the
     * entity's list of rank r: the relation found there is destroyed when
     * its target is live; an error of destroy_relation is passed on, and
     * there is none while ok.
     */
    method DestroyEntityRelationAt(e: Entity, r: nat, j: nat, ghost t0: Tables, ghost ok: bool) returns (o: Outcome)
      requires syncState == Modifiable && j < |ConnOf(conn, e, r)| && ClearingRank(t0, e, ok, r, j + 1)
      modifies this`conn, this`entityStates, this`meshIndexes
      ensures Valid()
      ensures o.Fail? ==> o.error in {WrongRankOrder, InverseNotDestroyed}
      ensures ok ==> o == Pass
      ensures o == Pass ==> ClearingRank(t0, e, ok, r, j)
    {
      var c := ConnOf(conn, e, r)[j];
      if !LiveIn(entityStates, c.target) {
        ClearedPastDead(conn, entityKeys, entityStates, e, r, j);
        return Pass;
      }
      o := DestroyLiveRelationAt(e, r, j, t0, ok);
    }

    /** DestroyEntityRelationAt when the relation found leads to a live entity. */
    method DestroyLiveRelationAt(e: Entity, r: nat, j: nat, ghost t0: Tables, ghost ok: bool) returns (o: Outcome)
      requires syncState == Modifiable && j < |ConnOf(conn, e, r)| && ClearingRank(t0, e, ok, r, j + 1)
      requires LiveIn(entityStates, ConnOf(conn, e, r)[j].target)
      modifies this`conn, this`entityStates, this`meshIndexes
      ensures Valid()
      ensures o.Fail? ==> o.error in {WrongRankOrder, InverseNotDestroyed}
      ensures ok ==> o == Pass
      ensures o == Pass ==> ClearingRank(t0, e, ok, r, j)
    {
      var c := ConnOf(conn, e, r)[j];
      ghost var t := Snapshot();
      if ok {
        assert c in ConnOf(t0.conn, e, r) && LiveIn(t0.states, c.target) && LiveIn(t0.states, e);
        assert RankIn(entityKeys, c.target) < RankIn(entityKeys, e);
      }
      var res := DestroyRelation(e, c.target, c.ordinal);
      if res.Err? {
        return Fail(res.error);
      }
      UnhookStep(Env(), t0, t, Snapshot(), e, c.target, c.ordinal, res.value);
      RelationDestroyedMarks(Env(), t, Snapshot(), e, c.target, c.ordinal, res.value);
      RelationCleared(t.conn, conn, entityKeys, t.states, entityStates, e, r, j, rankCount);
      o := Pass;
    }

    /**
     * The second loop of destroy_entity: the entity's lists from the highest
     * rank down to rank 0, each from its last relation to its first; every
     * relation to a live entity is destroyed, and the first error ends the
     * loop, which cannot happen when the relations are symmetric and the
     * entity Destroyable. Afterwards no list of the entity holds a relation
     * to a live entity of that list's rank.
     */
    method DestroyEntityRelations(e: Entity) returns (o: Outcome)
      requires Valid() && syncState == Modifiable && LiveIn(entityStates, e)
      modifies this`conn, this`entityStates, this`meshIndexes
      ensures Valid()
      ensures o.Fail? ==> o.error in {WrongRankOrder, InverseNotDestroyed}
      ensures old(RelationsSymmetric()) && Destroyable(old(conn), entityKeys, old(entityStates), connMapSize, connMapAllows, e) ==>
        o == Pass && RelationsSymmetric()
      ensures o == Pass ==> LiveIn(entityStates, e) && Unhooked(Env(), old(Snapshot()), Snapshot(), e)
      ensures o == Pass ==> forall r: nat :: r < rankCount ==> ClearedFrom(conn, entityKeys, entityStates, e, r, 0)
    {
      ghost var t0 := Snapshot();
      ghost var ok := RelationsSymmetric() && Destroyable(conn, entityKeys, entityStates, connMapSize, connMapAllows, e);
      UnhookedStart(Env(), t0, e);
      var irank := rankCount;
      while irank > 0
        invariant ClearedAbove(t0, e, ok, irank)
      {
        irank := irank - 1;
        o := DestroyRankRelations(e, irank, t0, ok);
        if o.Fail? {
          return;
        }
      }
      o := Pass;
    }

    /**
     * One pass of the second loop of destroy_entity: the entity's list of
     * rank irank from its last relation to its first.
     */
    method DestroyRankRelations(e: Entity, irank: nat, ghost t0: Tables, ghost ok: bool) returns (o: Outcome)
      requires syncState == Modifiable && irank < rankCount && ClearedAbove(t0, e, ok, irank + 1)
      modifies this`conn, this`entityStates, this`meshIndexes
      ensures Valid()
      ensures o.Fail? ==> o.error in {WrongRankOrder, InverseNotDestroyed}
      ensures ok ==> o == Pass
      ensures o == Pass ==> ClearedAbove(t0, e, ok, irank)
    {
      var j: nat := |ConnOf(conn, e, irank)|;
      o := Pass;
      while j > 0
        invariant o == Pass && ClearingRank(t0, e, ok, irank, j)
      {
        j := j - 1;
        o := DestroyEntityRelationAt(e, irank, j, t0, ok);
        if o.Fail? {
          return;
        }
      }
    }

    /**
     * The end of destroy_entity: the handle in the entity's comm-list entry is
     * invalidated, the entity leaves its bucket (and with it its relation
     * lists) and the repository, becomes Deleted and is pushed on the front
     * of the offsets freed in this cycle.
     */
    method RemoveEntity(e: Entity)
      requires Valid() && LiveIn(entityStates, e)
      modifies this`commList, this`meshIndexes, this`conn, repo`entities, this`entityStates, this`deletedCurrentCycle
      ensures Valid()
      ensures commList == ClearEntityOf(old(commList), entityKeys[e])
      ensures meshIndexes == old(meshIndexes)[e := Unplaced]
      ensures conn == map k | k in old(conn) && k.0 != e :: old(conn)[k]
      ensures entityKeys[e] !in repo.entities
      ensures forall k :: k != entityKeys[e] ==>
        (k in repo.entities <==> k in old(repo.entities)) && (k in repo.entities ==> repo.entities[k] == old(repo.entities)[k])
      ensures entityStates == old(entityStates)[e := Deleted]
      ensures deletedCurrentCycle == [e] + old(deletedCurrentCycle)
    {
      DetachEntity(e);
      RetireSlot(e);
    }

    /**
     * The first half of RemoveEntity: the comm-list handle, the bucket and
     * the relation lists of the entity go.
     */
    method DetachEntity(e: Entity)
      requires Valid() && LiveIn(entityStates, e)
      modifies this`commList, this`meshIndexes, this`conn
      ensures Valid()
      ensures commList == ClearEntityOf(old(commList), entityKeys[e])
      ensures meshIndexes == old(meshIndexes)[e := Unplaced]
      ensures conn == map k | k in old(conn) && k.0 != e :: old(conn)[k]
    {
      commList := ClearEntityOf(commList, entityKeys[e]);
      meshIndexes := meshIndexes[e := Unplaced];
      conn := map k | k in conn && k.0 != e :: conn[k];
    }

    /**
     * The second half of RemoveEntity: the key leaves the repository, the
     * slot becomes Deleted and its offset is freed in this cycle.
     */
    method RetireSlot(e: Entity)
      requires Valid() && LiveIn(entityStates, e) && forall k :: k in conn ==> k.0 != e
      modifies repo`entities, this`entityStates, this`deletedCurrentCycle
      ensures Valid()
      ensures entityKeys[e] !in repo.entities
      ensures forall k :: k != entityKeys[e] ==>
        (k in repo.entities <==> k in old(repo.entities)) && (k in repo.entities ==> repo.entities[k] == old(repo.entities)[k])
      ensures entityStates == old(entityStates)[e := Deleted]
      ensures deletedCurrentCycle == [e] + old(deletedCurrentCycle)
    {
      FreeListsAreDeleted(e);
      repo.DestroyEntity(entityKeys[e], e);
      FreePushFront(deletedEntities, deletedCurrentCycle, entityStates, e);
      entityStates := entityStates[e := Deleted];
      deletedCurrentCycle := [e] + deletedCurrentCycle;
    }

    /**
     * destroy_entity: the mesh must be modifiable. An entity that is not
     * live, or that still has a relation to an entity of higher rank, is left
     * alone and the result is false. Otherwise its relations are destroyed
     * from the highest rank down and the entity is removed: it becomes
     * Deleted, leaves its bucket, its relation lists and the repository, its
     * comm-list entry loses its handle and its offset is recorded as freed
     * in this cycle; the result is true. That succeeds whenever the
     * relations are symmetric and the entity is Destroyable.
     */
    method DestroyEntity(e: Entity) returns (r: Result<bool>)
      requires Valid()
      modifies this`commList, this`meshIndexes, this`conn, repo`entities, this`entityStates, this`deletedCurrentCycle
      ensures Valid()
      ensures old(syncState) == Synchronized ==> r == Err(NotModifiable)
      ensures r.Err? ==> r.error in {NotModifiable, WrongRankOrder, InverseNotDestroyed}
      ensures r == Ok(false) <==>
        (old(syncState) == Modifiable &&
         (!LiveIn(old(entityStates), e) ||
          exists q :: RankIn(entityKeys, e) < q < rankCount && |ConnOf(old(conn), e, q)| > 0))
      ensures (old(syncState) == Modifiable && LiveIn(old(entityStates), e) &&
               (forall q :: RankIn(entityKeys, e) < q < rankCount ==> |ConnOf(old(conn), e, q)| == 0) &&
               old(RelationsSymmetric()) &&
               Destroyable(old(conn), entityKeys, old(entityStates), connMapSize, connMapAllows, e)) ==>
        r == Ok(true)
      ensures r == Ok(false) || r == Err(NotModifiable) ==>
        unchanged(this`commList, this`meshIndexes, this`conn, repo`entities, this`entityStates, this`deletedCurrentCycle)
      ensures r == Ok(true) ==> old(LiveIn(entityStates, e)) && EntityDestroyed(Env(), old(Snapshot()), Snapshot(), e)
      ensures r == Ok(true) ==>
        deletedCurrentCycle == [e] + old(deletedCurrentCycle) &&
        commList == ClearEntityOf(old(commList), entityKeys[e])
      ensures r == Ok(true) ==>
        entityKeys[e] !in repo.entities &&
        forall k :: k != entityKeys[e] ==>
          (k in repo.entities <==> k in old(repo.entities)) && (k in repo.entities ==> repo.entities[k] == old(repo.entities)[k])
    {
      var live := LiveIn(entityStates, e);
      :- RequireOkToModify();
      if !live {
        return Ok(false);
      }
      var up := HasUpwardRelations(e);
      if up {
        return Ok(false);
      }
      r := DestroyLiveEntity(e);
    }

    /** destroy_entity once the entity is known to be live and to have no upward relation. */
    method DestroyLiveEntity(e: Entity) returns (r: Result<bool>)
      requires Valid() && syncState == Modifiable && LiveIn(entityStates, e)
      modifies this`commList, this`meshIndexes, this`conn, repo`entities, this`entityStates, this`deletedCurrentCycle
      ensures Valid()
      ensures r == Ok(true) || (r.Err? && r.error in {WrongRankOrder, InverseNotDestroyed})
      ensures old(RelationsSymmetric()) && Destroyable(old(conn), entityKeys, old(entityStates), connMapSize, connMapAllows, e) ==>
        r == Ok(true)
      ensures r == Ok(true) ==> EntityDestroyed(Env(), old(Snapshot()), Snapshot(), e)
      ensures r == Ok(true) ==>
        deletedCurrentCycle == [e] + old(deletedCurrentCycle) &&
        commList == ClearEntityOf(old(commList), entityKeys[e])
      ensures r == Ok(true) ==>
        entityKeys[e] !in repo.entities &&
        forall k :: k != entityKeys[e] ==>
          (k in repo.entities <==> k in old(repo.entities)) && (k in repo.entities ==> repo.entities[k] == old(repo.entities)[k])
    {
      ghost var t0 := Snapshot();
      var o := DestroyEntityRelations(e);
      if o.Fail? {
        return Err(o.error);
      }
      ghost var t := Snapshot();
      RemoveEntity(e);
      UnhookedRemoved(Env(), t0, t, Snapshot(), e);
      return Ok(true);
    }

    /**
     * One generated key of generate_new_entities: after the rank and
     * identifier checks the key must be new; the new entity is placed in the
     * locally owned part, owned here and given the current sync count.
     */
    method GenerateEntity(key: EntityKey) returns (r: Result<Entity>)
      requires Valid()
      modifies this`meshIndexes, this`entityKeys, this`entityStates, this`entitySyncCounts,
        this`deletedEntities, repo`entities, this`owners
      ensures Valid()
      ensures r.Err? ==> r.error in {BadRank, BadId, GeneratedKeyInUse}
      ensures r == Err(BadRank) <==> !(key.Rank() < rankCount && !(key.Rank() == FaceRank && spatialDimension == 2))
      ensures r == Err(BadId) <==>
        key.Rank() < rankCount && !(key.Rank() == FaceRank && spatialDimension == 2) && !(1 <= key.Id() <= MaxId)
      ensures r == Err(GeneratedKeyInUse) <==> RequireGoodRankAndId(key.Rank(), key.Id()) == Pass && key in old(repo.entities)
      ensures r.Ok? <==> RequireGoodRankAndId(key.Rank(), key.Id()) == Pass && key !in old(repo.entities)
      ensures r.Err? ==> unchanged(this`meshIndexes, this`entityKeys, this`entityStates, this`entitySyncCounts,
        this`deletedEntities, repo`entities, this`owners)
      ensures r.Ok? ==>
        key !in old(repo.entities) && repo.entities == old(repo.entities)[key := r.value] &&
        r.value !in old(repo.entities).Values && LiveIn(entityStates, r.value) &&
        entityKeys[r.value] == key && entityStates[r.value] == Created &&
        PartsIn(meshIndexes, r.value) == {ownedPart} && owners == old(owners)[r.value := parallelRank] &&
        entitySyncCounts[r.value] == syncCount
      ensures r.Ok? ==> |entityKeys| >= old(|entityKeys|) && forall x :: 0 <= x < old(|entityKeys|) && x != r.value ==>
        meshIndexes[x] == old(meshIndexes[x]) && entityKeys[x] == old(entityKeys[x]) &&
        entityStates[x] == old(entityStates[x]) && entitySyncCounts[x] == old(entitySyncCounts[x])
    {
      var rank, id := key.Rank(), key.Id();
      :- RequireGoodRankAndId(rank, id);
      var e, created := InternalCreateEntity(key);
      if !created {
        return Err(GeneratedKeyInUse);
      }
      PlaceDeclared(e, true, {});
      return Ok(e);
    }

    /**
     * generate_new_entities, with the keys the distributed index generates
     * given as input: each key yields a new entity, in order, or the first
     * bad or already active key ends it with an error. On success the
     * entities are distinct, none of the keys was active before, and each
     * entity is live under its key, in the locally owned part only and
     * owned here.
     */
    method GenerateNewEntities(keys: seq<EntityKey>) returns (r: Result<seq<Entity>>)
      requires Valid()
      modifies this`meshIndexes, this`entityKeys, this`entityStates, this`entitySyncCounts,
        this`deletedEntities, repo`entities, this`owners
      ensures Valid()
      ensures r.Err? ==> r.error in {BadRank, BadId, GeneratedKeyInUse}
      ensures r.Ok? <==> Generable(keys, old(repo.entities))
      ensures r.Ok? ==> |r.value| == |keys| && Generated(keys, r.value, old(repo.entities))
      ensures r.Ok? ==> forall k :: k in old(repo.entities) ==> k in repo.entities && repo.entities[k] == old(repo.entities)[k]
      ensures r.Ok? ==> forall k :: k in repo.entities ==> k in old(repo.entities) || k in keys
    {
      var out: seq<Entity> := [];
      while |out| < |keys|
        invariant |out| <= |keys|
        invariant Valid()
        invariant forall k :: k in old(repo.entities) ==> k in repo.entities && repo.entities[k] == old(repo.entities)[k]
        invariant forall k :: k in repo.entities ==> k in old(repo.entities) || k in keys[..|out|]
        invariant Generated(keys, out, old(repo.entities))
        invariant forall i :: 0 <= i < |out| ==> RequireGoodRankAndId(keys[i].Rank(), keys[i].Id()) == Pass
      {
        ghost var repo1 := repo.entities;
        var next := GenerateNext(keys, out, old(repo.entities));
        if next.Err? {
          assert !Generable(keys, old(repo.entities)) by {
            if keys[|out|] in repo1 && keys[|out|] !in old(repo.entities) {
              var i :| 0 <= i < |out| && keys[..|out|][i] == keys[|out|];
            }
          }
          return Err(next.error);
        }
        out := next.value;
        assert keys[..|out|] == keys[..|out| - 1] + [keys[|out| - 1]];
      }
      GeneratedDistinctKeys(keys, out, old(repo.entities));
      return Ok(out);
    }

    /**
     * The keys of generate_new_entities can all be generated: each has a good
     * rank and identifier, none is active in repo0, and no key repeats.
     */
    ghost predicate Generable(keys: seq<EntityKey>, repo0: map<EntityKey, Entity>) {
      (forall i :: 0 <= i < |keys| ==> RequireGoodRankAndId(keys[i].Rank(), keys[i].Id()) == Pass && keys[i] !in repo0) &&
      (forall i, j :: 0 <= i < j < |keys| ==> keys[i] != keys[j])
    }

    /** Distinct generated entities stand for distinct keys. */
    lemma GeneratedDistinctKeys(keys: seq<EntityKey>, out: seq<Entity>, repo0: map<EntityKey, Entity>)
      requires |out| == |keys| && Generated(keys, out, repo0)
      ensures forall i, j :: 0 <= i < j < |keys| ==> keys[i] != keys[j]
    {
    }

    /** GeneratedIn on the current state of the mesh. */
    ghost predicate Generated(keys: seq<EntityKey>, out: seq<Entity>, repo0: map<EntityKey, Entity>)
      reads this`meshIndexes, this`entityKeys, this`entityStates, this`owners, repo`entities
    {
      GeneratedIn(keys, out, repo0, repo.entities, meshIndexes, entityKeys, entityStates, owners, ownedPart, parallelRank)
    }

    /** One iteration of generate_new_entities: the entity of the next key is appended. */
    method GenerateNext(keys: seq<EntityKey>, out: seq<Entity>, ghost repo0: map<EntityKey, Entity>)
        returns (r: Result<seq<Entity>>)
      requires Valid() && |out| < |keys| && Generated(keys, out, repo0)
      requires forall k :: k in repo0 ==> k in repo.entities && repo.entities[k] == repo0[k]
      modifies this`meshIndexes, this`entityKeys, this`entityStates, this`entitySyncCounts,
        this`deletedEntities, repo`entities, this`owners
      ensures Valid()
      ensures r.Err? ==> r.error in {BadRank, BadId, GeneratedKeyInUse} && repo.entities == old(repo.entities)
      ensures r.Ok? <==>
        RequireGoodRankAndId(keys[|out|].Rank(), keys[|out|].Id()) == Pass && keys[|out|] !in old(repo.entities)
      ensures r.Ok? ==> |r.value| == |out| + 1 && r.value[..|out|] == out && Generated(keys, r.value, repo0)
      ensures r.Ok? ==> repo.entities == old(repo.entities)[keys[|out|] := r.value[|out|]]
      ensures r.Ok? ==> forall k :: k in repo0 ==> k in repo.entities && repo.entities[k] == repo0[k]
    {
      ghost var repo1, idx1, keys1, st1, own1 := repo.entities, meshIndexes, entityKeys, entityStates, owners;
      var e :- GenerateEntity(keys[|out|]);
      GeneratedStep(keys, out, repo0, repo1, idx1, keys1, st1, own1,
        repo.entities, meshIndexes, entityKeys, entityStates, owners, ownedPart, parallelRank, e);
      return Ok(out + [e]);
    }

    /**
     * internal_change_owner_in_comm_data: when the comm map reports that it
     * changed the owner of the key, the comm-list entry of that key (and no
     * other) gets the new owner.
     */
    method InternalChangeOwnerInCommData(key: EntityKey, newOwner: int)
      requires Valid()
      modifies this`entityCommMap, this`commList
      ensures Valid()
      ensures var changed := key in old(entityCommMap) && old(entityCommMap)[key].owner != newOwner;
        entityCommMap == (if changed then old(entityCommMap)[key := CommEntry(newOwner, old(entityCommMap)[key].infos)]
                          else old(entityCommMap)) &&
        commList == (if changed then ChangeOwnerOf(old(commList), key, newOwner) else old(commList))
    {
      var changed := ChangeOwnerRank(key, newOwner);
      if changed {
        commList := ChangeOwnerOf(commList, key, newOwner);
      }
    }

    /**
     * EntityCommMap::change_owner_rank (its code is not part of this model):
     * a key with comm info whose owner differs gets the new owner and the
     * change is reported; otherwise nothing changes.
     */
    method ChangeOwnerRank(key: EntityKey, newOwner: int) returns (changed: bool)
      requires CommValid()
      modifies this`entityCommMap
      ensures CommValid()
      ensures changed <==> key in old(entityCommMap) && old(entityCommMap)[key].owner != newOwner
      ensures entityCommMap == if changed then old(entityCommMap)[key := CommEntry(newOwner, old(entityCommMap)[key].infos)]
        else old(entityCommMap)
    {
      changed := key in entityCommMap && entityCommMap[key].owner != newOwner;
      if changed {
        entityCommMap := entityCommMap[key := CommEntry(newOwner, entityCommMap[key].infos)];
      }
    }
  }
}
