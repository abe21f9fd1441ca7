/**
 * Connectivity of the mesh as values: the per-(entity, rank) relation lists,
 * the stand-ins for the bucket's relation insert and removal, the relation
 * validity checks, the symmetry of forward and inverse relations, and the
 * upward paths along which the "modified" mark spreads.
 */
module Connectivity {
  import opened MeshTypes

  /** One stored relation: target entity, relation ordinal and permutation. */
  datatype Connection = Connection(target: Entity, ordinal: nat, permutation: nat)

  /**
   * The connectivity of every entity: (entity, rank of the targets) to the
   * relations of that entity towards entities of that rank.
   */
  type ConnTable = map<(Entity, nat), seq<Connection>>

  function ConnOf(conn: ConnTable, e: Entity, rank: nat): seq<Connection> {
    if (e, rank) in conn then conn[(e, rank)] else []
  }

  /** The list holds a relation to target with the given ordinal. */
  predicate HasRel(list: seq<Connection>, target: Entity, ordinal: nat) {
    exists k :: 0 <= k < |list| && list[k].target == target && list[k].ordinal == ordinal
  }

  /** No (target, ordinal) pair is stored twice. */
  predicate NoDupRels(list: seq<Connection>) {
    forall i, j :: 0 <= i < j < |list| ==>
      !(list[i].target == list[j].target && list[i].ordinal == list[j].ordinal)
  }

  predicate AllNoDup(conn: ConnTable) {
    forall key :: key in conn ==> NoDupRels(conn[key])
  }

  /**
   * Bucket::declare_relation (its code is not part of this model): a relation
   * already present is a no-op reported as "no change"; otherwise the relation
   * is stored and the change reported.
   */
  function DeclareInList(list: seq<Connection>, target: Entity, ordinal: nat, perm: nat): (r: (seq<Connection>, bool))
    ensures r.1 <==> !HasRel(list, target, ordinal)
    ensures forall t, o :: HasRel(r.0, t, o) <==> HasRel(list, t, o) || (t == target && o == ordinal)
    ensures multiset(r.0) == multiset(list) + (if r.1 then multiset{Connection(target, ordinal, perm)} else multiset{})
    ensures forall c :: c in r.0 <==> c in list || (r.1 && c == Connection(target, ordinal, perm))
    ensures NoDupRels(list) ==> NoDupRels(r.0)
  {
    if HasRel(list, target, ordinal) then (list, false)
    else
      var r := list + [Connection(target, ordinal, perm)];
      assert r[|list|].target == target && r[|list|].ordinal == ordinal;
      assert forall t, o :: HasRel(list, t, o) ==> HasRel(r, t, o) by {
        forall t, o | HasRel(list, t, o) ensures HasRel(r, t, o) {
          var k :| 0 <= k < |list| && list[k].target == t && list[k].ordinal == o;
          assert r[k] == list[k];
        }
      }
      (r, true)
  }

  /** The position of the first relation to target with ordinal. */
  function FirstRel(list: seq<Connection>, target: Entity, ordinal: nat): (i: nat)
    requires HasRel(list, target, ordinal)
    ensures i < |list| && list[i].target == target && list[i].ordinal == ordinal
    ensures forall k :: 0 <= k < i ==> !(list[k].target == target && list[k].ordinal == ordinal)
  {
    if list[0].target == target && list[0].ordinal == ordinal then 0
    else
      assert HasRel(list[1..], target, ordinal) by {
        var k :| 0 <= k < |list| && list[k].target == target && list[k].ordinal == ordinal;
        assert list[1..][k - 1] == list[k];
      }
      1 + FirstRel(list[1..], target, ordinal)
  }

  /**
   * Bucket::destroy_relation (its code is not part of this model): the first
   * stored relation to target with the ordinal is removed and the change
   * reported; without one nothing changes.
   */
  function DestroyInList(list: seq<Connection>, target: Entity, ordinal: nat): (r: (seq<Connection>, bool))
    ensures r.1 <==> HasRel(list, target, ordinal)
    ensures !r.1 ==> r.0 == list
    ensures r.1 ==> |r.0| == |list| - 1
    ensures forall c :: c in r.0 ==> c in list
    ensures forall c :: c in list && !(c.target == target && c.ordinal == ordinal) ==> c in r.0
    ensures NoDupRels(list) ==> NoDupRels(r.0) && !HasRel(r.0, target, ordinal)
    ensures NoDupRels(list) ==> forall t, o :: !(t == target && o == ordinal) ==>
      (HasRel(r.0, t, o) <==> HasRel(list, t, o))
  {
    if !HasRel(list, target, ordinal) then (list, false)
    else
      var i := FirstRel(list, target, ordinal);
      var r := list[..i] + list[i + 1..];
      assert forall k :: 0 <= k < |r| ==> r[k] == list[if k < i then k else k + 1];
      assert forall c :: c in list && !(c.target == target && c.ordinal == ordinal) ==> c in r by {
        forall c | c in list && !(c.target == target && c.ordinal == ordinal) ensures c in r {
          var k :| 0 <= k < |list| && list[k] == c;
          assert r[if k < i then k else k - 1] == c;
        }
      }
      assert NoDupRels(list) ==> (NoDupRels(r) && !HasRel(r, target, ordinal) &&
        forall t, o :: !(t == target && o == ordinal) ==> (HasRel(r, t, o) <==> HasRel(list, t, o))) by {
        if NoDupRels(list) {
          forall t, o | !(t == target && o == ordinal) && HasRel(list, t, o)
            ensures HasRel(r, t, o)
          {
            var k :| 0 <= k < |list| && list[k].target == t && list[k].ordinal == o;
            assert k != i;
            assert r[if k < i then k else k - 1] == list[k];
          }
          forall k | 0 <= k < |r|
            ensures !(r[k].target == target && r[k].ordinal == ordinal)
          {
            assert r[k] == list[if k < i then k else k + 1];
          }
        }
      }
      (r, true)
  }

  /** When the matching relation sits at position j, removal cuts out exactly that position. */
  lemma DestroyAtPosition(list: seq<Connection>, j: nat)
    requires NoDupRels(list) && j < |list|
    ensures DestroyInList(list, list[j].target, list[j].ordinal).0 == list[..j] + list[j + 1..]
  {
    var i := FirstRel(list, list[j].target, list[j].ordinal);
    assert i == j;
  }

  //----------------------------------------------------------------------
  // Relation checks

  /**
   * require_valid_relation: destroyed endpoints are reported before a wrong
   * rank order; a relation must go from a higher to a lower ranking entity.
   */
  function CheckValidRelation(fromRank: nat, toRank: nat, fromValid: bool, toValid: bool): (o: Outcome)
    ensures o == Pass <==> fromValid && toValid && fromRank > toRank
    ensures (!fromValid || !toValid) ==> o == Fail(DestroyedEntity)
    ensures fromValid && toValid && fromRank <= toRank ==> o == Fail(WrongRankOrder)
  {
    if !fromValid || !toValid then Fail(DestroyedEntity)
    else if fromRank <= toRank then Fail(WrongRankOrder)
    else Pass
  }

  /**
   * The raw relation id packs the rank of the target with the relation
   * identifier, so it is modelled as the pair.
   */
  datatype Relation = Relation(entity: Entity, targetRank: nat, id: nat) {
    function RawRelationId(): (nat, nat) { (targetRank, id) }
  }

  /** is_degenerate_relation */
  predicate IsDegenerateRelation(r1: Relation, r2: Relation) {
    r1.RawRelationId() == r2.RawRelationId() && r1.entity != r2.entity
  }

  /**
   * Degeneracy is symmetric and irreflexive, and holds exactly when two
   * relations of the same rank and identifier reach different entities.
   */
  lemma DegenerateRelationFacts(r1: Relation, r2: Relation)
    ensures IsDegenerateRelation(r1, r2) <==> IsDegenerateRelation(r2, r1)
    ensures !IsDegenerateRelation(r1, r1)
    ensures IsDegenerateRelation(r1, r2) <==>
      r1.targetRank == r2.targetRank && r1.id == r2.id && r1.entity != r2.entity
  {
  }

  /**
   * Whether the to-entity stores relations back to the rank of the
   * from-entity: the connectivity map allows it, or one of the ranks lies
   * outside the map.
   */
  predicate TracksInverse(mapSize: nat, allows: (nat, nat) -> bool, toRank: nat, fromRank: nat) {
    toRank >= mapSize || fromRank >= mapSize || allows(toRank, fromRank)
  }

  //----------------------------------------------------------------------
  // Symmetry of forward and inverse relations

  /**
   * A relation stored by an entity of ownerRank in the table of tableRank
   * has an inverse: every upward relation, and every downward one whose
   * reverse rank pair the connectivity map tracks.
   */
  predicate NeedsInverse(mapSize: nat, allows: (nat, nat) -> bool, ownerRank: nat, tableRank: nat) {
    tableRank > ownerRank ||
    (tableRank < ownerRank && TracksInverse(mapSize, allows, tableRank, ownerRank))
  }

  /**
   * The relation c stored by e in its table of rank r sits in the table of
   * its target's rank, and the target stores the inverse relation (same
   * ordinal) in its table of e's rank.
   */
  ghost predicate HasInverse(conn: ConnTable, keys: seq<EntityKey>, e: Entity, r: nat, c: Connection)
    requires e < |keys|
  {
    c.target < |keys| && keys[c.target].Rank() == r &&
    HasRel(ConnOf(conn, c.target, keys[e].Rank()), e, c.ordinal)
  }

  /** If c is stored by e in its table of rank r and needs an inverse, it has one. */
  ghost predicate InverseKept(conn: ConnTable, keys: seq<EntityKey>, mapSize: nat, allows: (nat, nat) -> bool,
                              e: Entity, r: nat, c: Connection) {
    (c in ConnOf(conn, e, r) && e < |keys| && NeedsInverse(mapSize, allows, keys[e].Rank(), r)) ==>
      HasInverse(conn, keys, e, r, c)
  }

  /** Every relation that needs an inverse has one. */
  ghost predicate Symmetric(conn: ConnTable, keys: seq<EntityKey>, mapSize: nat, allows: (nat, nat) -> bool) {
    forall e: Entity, r: nat, c :: InverseKept(conn, keys, mapSize, allows, e, r, c)
  }

  /** The table after Bucket::declare_relation on the list of (e, r). */
  function AddRel(conn: ConnTable, e: Entity, r: nat, target: Entity, ordinal: nat, perm: nat): ConnTable {
    conn[(e, r) := DeclareInList(ConnOf(conn, e, r), target, ordinal, perm).0]
  }

  /** The table after Bucket::destroy_relation on the list of (e, r). */
  function RemoveRel(conn: ConnTable, e: Entity, r: nat, target: Entity, ordinal: nat): ConnTable {
    conn[(e, r) := DestroyInList(ConnOf(conn, e, r), target, ordinal).0]
  }

  /**
   * The table after declaring a relation from `from` (of rank fr) to `to`
   * (of rank tr): unchanged when it is already stored; otherwise the forward
   * relation is added and, when the reverse rank pair is tracked, the inverse.
   */
  function DeclarePair(conn: ConnTable, from: Entity, fr: nat, to: Entity, tr: nat, id: nat, perm: nat,
                       tracked: bool): ConnTable {
    if HasRel(ConnOf(conn, from, tr), to, id) then conn
    else
      var c1 := AddRel(conn, from, tr, to, id, perm);
      if tracked then AddRel(c1, to, fr, from, id, perm) else c1
  }

  /**
   * Declaring never loses a stored relation, afterwards the declared
   * forward relation is stored, and a relation it adds is that one or its
   * inverse.
   */
  lemma DeclarePairFacts(conn: ConnTable, from: Entity, fr: nat, to: Entity, tr: nat, id: nat, perm: nat,
                         tracked: bool, x: Entity, q: nat, t: Entity, o: nat)
    ensures HasRel(ConnOf(conn, x, q), t, o) ==>
      HasRel(ConnOf(DeclarePair(conn, from, fr, to, tr, id, perm, tracked), x, q), t, o)
    ensures HasRel(ConnOf(DeclarePair(conn, from, fr, to, tr, id, perm, tracked), from, tr), to, id)
    ensures !HasRel(ConnOf(conn, x, q), t, o) && HasRel(ConnOf(DeclarePair(conn, from, fr, to, tr, id, perm, tracked), x, q), t, o)
      ==> ((x, q) == (from, tr) && t == to && o == id) || ((x, q) == (to, fr) && t == from && o == id)
  {
    if !HasRel(ConnOf(conn, from, tr), to, id) {
      var c1 := AddRel(conn, from, tr, to, id, perm);
      AddRelFacts(conn, from, tr, to, id, perm, x, q, t, o, Connection(t, o, 0));
      AddRelFacts(conn, from, tr, to, id, perm, from, tr, to, id, Connection(to, id, 0));
      if tracked {
        AddRelFacts(c1, to, fr, from, id, perm, x, q, t, o, Connection(t, o, 0));
        AddRelFacts(c1, to, fr, from, id, perm, from, tr, to, id, Connection(to, id, 0));
      }
    }
  }

  /** The rank of e's key; the invalid rank for a slot out of range. */
  function RankIn(keys: seq<EntityKey>, e: Entity): nat {
    if e < |keys| then keys[e].Rank() else InvalidRank
  }

  /**
   * A relation given from the point of view of entity is stored in the
   * higher ranked of the two entities, towards the lower ranked one.
   */
  predicate Stored(conn: ConnTable, keys: seq<EntityKey>, entity: Entity, c: Connection) {
    var er, tr := RankIn(keys, entity), RankIn(keys, c.target);
    if tr < er then HasRel(ConnOf(conn, entity, tr), c.target, c.ordinal)
    else HasRel(ConnOf(conn, c.target, er), entity, c.ordinal)
  }

  /** A relation stored before a declaration stays stored. */
  lemma DeclarePairKeepsStored(conn: ConnTable, from: Entity, fr: nat, to: Entity, tr: nat, id: nat, perm: nat,
                               tracked: bool, keys: seq<EntityKey>, entity: Entity, c: Connection)
    requires Stored(conn, keys, entity, c)
    ensures Stored(DeclarePair(conn, from, fr, to, tr, id, perm, tracked), keys, entity, c)
  {
    var er, cr := RankIn(keys, entity), RankIn(keys, c.target);
    if cr < er {
      DeclarePairFacts(conn, from, fr, to, tr, id, perm, tracked, entity, cr, c.target, c.ordinal);
    } else {
      DeclarePairFacts(conn, from, fr, to, tr, id, perm, tracked, c.target, er, entity, c.ordinal);
    }
  }

  /**
   * The first n relations of rels, given from the point of view of entity,
   * join entities of different ranks and are stored.
   */
  predicate StoredPrefix(conn: ConnTable, keys: seq<EntityKey>, entity: Entity, rels: seq<Connection>, n: nat) {
    n <= |rels| &&
    forall k :: 0 <= k < n ==>
      RankIn(keys, rels[k].target) != RankIn(keys, entity) && Stored(conn, keys, entity, rels[k])
  }

  /**
   * Declaring relation n of rels from the higher to the lower ranked of
   * entity and its target extends the stored prefix by one.
   */
  lemma DeclarePairExtendsPrefix(conn: ConnTable, keys: seq<EntityKey>, entity: Entity, rels: seq<Connection>,
                                 n: nat, perm: nat, tracked: bool)
    requires StoredPrefix(conn, keys, entity, rels, n) && n < |rels|
    requires RankIn(keys, rels[n].target) != RankIn(keys, entity)
    ensures var c := rels[n];
      var er, tr := RankIn(keys, entity), RankIn(keys, c.target);
      var hi, lo := if tr < er then entity else c.target, if tr < er then c.target else entity;
      StoredPrefix(DeclarePair(conn, hi, RankIn(keys, hi), lo, RankIn(keys, lo), c.ordinal, perm, tracked),
        keys, entity, rels, n + 1)
  {
    var c := rels[n];
    var er, tr := RankIn(keys, entity), RankIn(keys, c.target);
    var hi, lo := if tr < er then entity else c.target, if tr < er then c.target else entity;
    var c1 := DeclarePair(conn, hi, RankIn(keys, hi), lo, RankIn(keys, lo), c.ordinal, perm, tracked);
    DeclarePairFacts(conn, hi, RankIn(keys, hi), lo, RankIn(keys, lo), c.ordinal, perm, tracked, hi, RankIn(keys, lo), lo, c.ordinal);
    forall k | 0 <= k < n ensures Stored(c1, keys, entity, rels[k]) {
      DeclarePairKeepsStored(conn, hi, RankIn(keys, hi), lo, RankIn(keys, lo), c.ordinal, perm, tracked, keys, entity, rels[k]);
    }
  }

  /**
   * The table after destroying the relation from `from` (of rank fr) to `to`
   * (of rank tr) and its inverse: unchanged when the forward relation is
   * not stored.
   */
  function DestroyPair(conn: ConnTable, from: Entity, fr: nat, to: Entity, tr: nat, id: nat): ConnTable {
    if !HasRel(ConnOf(conn, from, tr), to, id) then conn
    else RemoveRel(RemoveRel(conn, from, tr, to, id), to, fr, from, id)
  }

  /**
   * On a table without duplicates, destroying removes the forward relation
   * and touches no other (entity, rank, target, ordinal) than it and its
   * inverse; every list loses at most one relation.
   */
  lemma DestroyPairFacts(conn: ConnTable, from: Entity, fr: nat, to: Entity, tr: nat, id: nat,
                         x: Entity, q: nat, t: Entity, o: nat)
    requires AllNoDup(conn) && from != to
    ensures !HasRel(ConnOf(DestroyPair(conn, from, fr, to, tr, id), from, tr), to, id)
    ensures !((x, q, t) == (from, tr, to) && o == id) && !((x, q, t) == (to, fr, from) && o == id) ==>
      (HasRel(ConnOf(DestroyPair(conn, from, fr, to, tr, id), x, q), t, o) <==> HasRel(ConnOf(conn, x, q), t, o))
    ensures |ConnOf(DestroyPair(conn, from, fr, to, tr, id), x, q)| + 1 >= |ConnOf(conn, x, q)|
    ensures |ConnOf(DestroyPair(conn, from, fr, to, tr, id), x, q)| <= |ConnOf(conn, x, q)|
    ensures AllNoDup(DestroyPair(conn, from, fr, to, tr, id))
  {
    if HasRel(ConnOf(conn, from, tr), to, id) {
      var c1 := RemoveRel(conn, from, tr, to, id);
      RemoveRelFacts(conn, from, tr, to, id, x, q, t, o, Connection(t, o, 0));
      RemoveRelFacts(conn, from, tr, to, id, from, tr, to, id, Connection(t, o, 0));
      RemoveRelFacts(c1, to, fr, from, id, x, q, t, o, Connection(t, o, 0));
      RemoveRelFacts(c1, to, fr, from, id, from, tr, to, id, Connection(t, o, 0));
    }
  }

  /** Removing a relation keeps every target below n. */
  lemma RemoveRelKeepsTargets(conn: ConnTable, n: nat, e: Entity, r: nat, target: Entity, ordinal: nat)
    requires TargetsBelow(conn, n)
    ensures TargetsBelow(RemoveRel(conn, e, r, target, ordinal), n)
  {
    var c1: ConnTable := RemoveRel(conn, e, r, target, ordinal);
    forall key: (Entity, nat), k: int | key in c1 && 0 <= k < |c1[key]| ensures c1[key][k].target < n {
      if key != (e, r) {
        assert c1[key] == conn[key];
      } else {
        assert c1[key][k] in DestroyInList(ConnOf(conn, e, r), target, ordinal).0;
        var i :| 0 <= i < |ConnOf(conn, e, r)| && ConnOf(conn, e, r)[i] == c1[key][k];
      }
    }
  }

  /** Inserting one relation: only that list gains, and only that relation. */
  lemma AddRelFacts(conn: ConnTable, e: Entity, r: nat, target: Entity, ordinal: nat, perm: nat,
                    x: Entity, q: nat, t: Entity, o: nat, c: Connection)
    ensures HasRel(ConnOf(AddRel(conn, e, r, target, ordinal, perm), x, q), t, o) <==>
      HasRel(ConnOf(conn, x, q), t, o) || ((x, q) == (e, r) && t == target && o == ordinal)
    ensures c in ConnOf(AddRel(conn, e, r, target, ordinal, perm), x, q) <==>
      c in ConnOf(conn, x, q) ||
      ((x, q) == (e, r) && !HasRel(ConnOf(conn, e, r), target, ordinal) && c == Connection(target, ordinal, perm))
    ensures AllNoDup(conn) ==> AllNoDup(AddRel(conn, e, r, target, ordinal, perm))
  {
  }

  /** Removing one relation from a list without duplicates: only that relation goes. */
  lemma RemoveRelFacts(conn: ConnTable, e: Entity, r: nat, target: Entity, ordinal: nat,
                       x: Entity, q: nat, t: Entity, o: nat, c: Connection)
    requires AllNoDup(conn)
    ensures HasRel(ConnOf(RemoveRel(conn, e, r, target, ordinal), x, q), t, o) <==>
      HasRel(ConnOf(conn, x, q), t, o) && !((x, q) == (e, r) && t == target && o == ordinal)
    ensures c in ConnOf(RemoveRel(conn, e, r, target, ordinal), x, q) ==> c in ConnOf(conn, x, q)
    ensures AllNoDup(RemoveRel(conn, e, r, target, ordinal))
  {
    assert NoDupRels(ConnOf(conn, e, r));
  }

  /**
   * On a symmetric table a stored relation that needs an inverse has it:
   * unpacks Symmetric for one relation.
   */
  lemma InverseOf(conn: ConnTable, keys: seq<EntityKey>, mapSize: nat, allows: (nat, nat) -> bool,
                  e: Entity, r: nat, c: Connection)
    requires Symmetric(conn, keys, mapSize, allows)
    requires c in ConnOf(conn, e, r) && e < |keys| && NeedsInverse(mapSize, allows, keys[e].Rank(), r)
    ensures HasInverse(conn, keys, e, r, c)
  {
    assert InverseKept(conn, keys, mapSize, allows, e, r, c);
  }

  /**
   * Declaring a new relation from a higher to a lower ranked entity on a
   * symmetric table: the inverse is not stored yet, so inserting it reports a
   * change; the table after the forward insert alone is symmetric when the
   * reverse rank pair is not tracked, and after both inserts when it is.
   */
  lemma DeclarePairKeepsSymmetric(conn: ConnTable, keys: seq<EntityKey>, mapSize: nat, allows: (nat, nat) -> bool,
                                  from: Entity, to: Entity, id: nat, perm: nat)
    requires Symmetric(conn, keys, mapSize, allows)
    requires from < |keys| && to < |keys| && keys[from].Rank() > keys[to].Rank()
    requires !HasRel(ConnOf(conn, from, keys[to].Rank()), to, id)
    ensures var c1 := AddRel(conn, from, keys[to].Rank(), to, id, perm);
      !HasRel(ConnOf(c1, to, keys[from].Rank()), from, id)
    ensures !TracksInverse(mapSize, allows, keys[to].Rank(), keys[from].Rank()) ==>
      Symmetric(AddRel(conn, from, keys[to].Rank(), to, id, perm), keys, mapSize, allows)
    ensures TracksInverse(mapSize, allows, keys[to].Rank(), keys[from].Rank()) ==>
      var c1 := AddRel(conn, from, keys[to].Rank(), to, id, perm);
      Symmetric(AddRel(c1, to, keys[from].Rank(), from, id, perm), keys, mapSize, allows)
  {
    var rt, rf := keys[to].Rank(), keys[from].Rank();
    var c1 := AddRel(conn, from, rt, to, id, perm);
    assert ConnOf(c1, to, rf) == ConnOf(conn, to, rf);
    if HasRel(ConnOf(conn, to, rf), from, id) {
      var k :| 0 <= k < |ConnOf(conn, to, rf)| && ConnOf(conn, to, rf)[k].target == from &&
        ConnOf(conn, to, rf)[k].ordinal == id;
      InverseOf(conn, keys, mapSize, allows, to, rf, ConnOf(conn, to, rf)[k]);
      assert false;
    }
    var tracked := TracksInverse(mapSize, allows, rt, rf);
    var c2 := if tracked then AddRel(c1, to, rf, from, id, perm) else c1;
    forall e: Entity, r: nat, c
      ensures InverseKept(c2, keys, mapSize, allows, e, r, c)
    {
      if c in ConnOf(c2, e, r) && e < |keys| && NeedsInverse(mapSize, allows, keys[e].Rank(), r) {
        AddRelFacts(conn, from, rt, to, id, perm, e, r, to, id, c);
        if tracked {
          AddRelFacts(c1, to, rf, from, id, perm, e, r, to, id, c);
        }
        if c in ConnOf(conn, e, r) {
          InverseOf(conn, keys, mapSize, allows, e, r, c);
          AddRelFacts(conn, from, rt, to, id, perm, c.target, keys[e].Rank(), e, c.ordinal, c);
          if tracked {
            AddRelFacts(c1, to, rf, from, id, perm, c.target, keys[e].Rank(), e, c.ordinal, c);
          }
        } else if (e, r) == (from, rt) {
          assert c == Connection(to, id, perm);
          AddRelFacts(c1, to, rf, from, id, perm, to, rf, from, id, c);
        } else {
          assert tracked && (e, r) == (to, rf) && c == Connection(from, id, perm);
          AddRelFacts(conn, from, rt, to, id, perm, from, rt, to, id, c);
          AddRelFacts(c1, to, rf, from, id, perm, from, rt, to, id, c);
        }
      }
    }
  }

  /**
   * Destroying a stored relation on a symmetric table without duplicates:
   * when the reverse rank pair is tracked the inverse is stored, and the table
   * after removing the forward relation (and the inverse, when there is one)
   * is again symmetric.
   */
  lemma DestroyPairKeepsSymmetric(conn: ConnTable, keys: seq<EntityKey>, mapSize: nat, allows: (nat, nat) -> bool,
                                  from: Entity, to: Entity, id: nat)
    requires Symmetric(conn, keys, mapSize, allows) && AllNoDup(conn)
    requires from < |keys| && to < |keys| && keys[from].Rank() > keys[to].Rank()
    requires HasRel(ConnOf(conn, from, keys[to].Rank()), to, id)
    ensures var c1 := RemoveRel(conn, from, keys[to].Rank(), to, id);
      TracksInverse(mapSize, allows, keys[to].Rank(), keys[from].Rank()) ==>
        HasRel(ConnOf(c1, to, keys[from].Rank()), from, id)
    ensures var c1 := RemoveRel(conn, from, keys[to].Rank(), to, id);
      !HasRel(ConnOf(c1, to, keys[from].Rank()), from, id) ==> Symmetric(c1, keys, mapSize, allows)
    ensures var c1 := RemoveRel(conn, from, keys[to].Rank(), to, id);
      HasRel(ConnOf(c1, to, keys[from].Rank()), from, id) ==>
        Symmetric(RemoveRel(c1, to, keys[from].Rank(), from, id), keys, mapSize, allows)
  {
    var rt, rf := keys[to].Rank(), keys[from].Rank();
    var c1 := RemoveRel(conn, from, rt, to, id);
    assert ConnOf(c1, to, rf) == ConnOf(conn, to, rf);
    if TracksInverse(mapSize, allows, rt, rf) {
      var k :| 0 <= k < |ConnOf(conn, from, rt)| && ConnOf(conn, from, rt)[k].target == to &&
        ConnOf(conn, from, rt)[k].ordinal == id;
      InverseOf(conn, keys, mapSize, allows, from, rt, ConnOf(conn, from, rt)[k]);
    }
    var inv := HasRel(ConnOf(c1, to, rf), from, id);
    RemoveRelFacts(conn, from, rt, to, id, from, rt, to, id, Connection(to, id, 0));
    var c2 := if inv then RemoveRel(c1, to, rf, from, id) else c1;
    forall e: Entity, r: nat, c
      ensures InverseKept(c2, keys, mapSize, allows, e, r, c)
    {
      if c in ConnOf(c2, e, r) && e < |keys| && NeedsInverse(mapSize, allows, keys[e].Rank(), r) {
        RemoveRelFacts(conn, from, rt, to, id, e, r, to, id, c);
        if inv {
          RemoveRelFacts(c1, to, rf, from, id, e, r, to, id, c);
        }
        assert c in ConnOf(conn, e, r);
        InverseOf(conn, keys, mapSize, allows, e, r, c);
        var t, er := c.target, keys[e].Rank();
        RemoveRelFacts(conn, from, rt, to, id, t, er, e, c.ordinal, c);
        if inv {
          RemoveRelFacts(c1, to, rf, from, id, t, er, e, c.ordinal, c);
        }
        if (t, er) == (from, rt) && e == to && c.ordinal == id {
          // c is the inverse relation: it was removed with the forward one, or never stored.
          RemoveRelFacts(conn, from, rt, to, id, to, rf, from, id, c);
          if inv {
            RemoveRelFacts(c1, to, rf, from, id, to, rf, from, id, c);
          }
          assert false;
        } else if inv && (t, er) == (to, rf) && e == from && c.ordinal == id {
          // c is the forward relation, which was removed.
          RemoveRelFacts(conn, from, rt, to, id, from, rt, to, id, c);
          RemoveRelFacts(c1, to, rf, from, id, from, rt, to, id, c);
          assert false;
        }
      }
    }
  }

  //----------------------------------------------------------------------
  // Upward paths

  /** Every stored relation names a slot below n. */
  ghost predicate TargetsBelow(conn: ConnTable, n: nat) {
    forall key, k :: key in conn && 0 <= k < |conn[key]| ==> conn[key][k].target < n
  }

  /** Some relation of the list reaches target. */
  predicate HasTarget(list: seq<Connection>, target: Entity) {
    exists k :: 0 <= k < |list| && list[k].target == target
  }

  /**
   * y is a higher-ranked entity stored in one of x's tables of a rank above
   * x's own: the step along which "modified" spreads.
   */
  predicate UpEdge(conn: ConnTable, keys: seq<EntityKey>, rankCount: nat, x: Entity, y: Entity) {
    x < |keys| && y < |keys| && keys[x].Rank() < keys[y].Rank() &&
    exists r :: keys[x].Rank() < r < rankCount && HasTarget(ConnOf(conn, x, r), y)
  }

  /** A path of upward steps through entities whose state is Unchanged. */
  ghost predicate UnchangedPath(conn: ConnTable, keys: seq<EntityKey>, rankCount: nat,
                                states: seq<EntityState>, p: seq<Entity>) {
    |p| >= 1 &&
    (forall i :: 0 <= i < |p| ==> p[i] < |states| && states[p[i]] == Unchanged) &&
    (forall i :: 0 <= i < |p| - 1 ==> UpEdge(conn, keys, rankCount, p[i], p[i + 1]))
  }

  ghost predicate Reachable(conn: ConnTable, keys: seq<EntityKey>, rankCount: nat,
                            states: seq<EntityState>, e: Entity, x: Entity) {
    exists p :: UnchangedPath(conn, keys, rankCount, states, p) && p[0] == e && p[|p| - 1] == x
  }

  /** States only move from Unchanged to Modified. */
  predicate MarksOnly(before: seq<EntityState>, after: seq<EntityState>) {
    |after| == |before| &&
    forall x :: 0 <= x < |before| ==>
      after[x] == before[x] || (before[x] == Unchanged && after[x] == Modified)
  }

  predicate NewlyMarked(before: seq<EntityState>, after: seq<EntityState>, x: Entity) {
    x < |before| && x < |after| && before[x] == Unchanged && after[x] == Modified
  }

  /** No newly marked entity has an upward neighbour that is still Unchanged. */
  ghost predicate ClosedUpward(conn: ConnTable, keys: seq<EntityKey>, rankCount: nat,
                         before: seq<EntityState>, after: seq<EntityState>) {
    forall x: Entity, y: Entity :: NewlyMarked(before, after, x) && UpEdge(conn, keys, rankCount, x, y) ==>
      y < |after| && after[y] != Unchanged
  }

  lemma MarksOnlyTransitive(s0: seq<EntityState>, s1: seq<EntityState>, s2: seq<EntityState>)
    requires MarksOnly(s0, s1) && MarksOnly(s1, s2)
    ensures MarksOnly(s0, s2)
  {
  }

  /** A path through entities Unchanged later was already Unchanged earlier. */
  lemma PathInEarlierState(conn: ConnTable, keys: seq<EntityKey>, rankCount: nat,
                           s0: seq<EntityState>, s1: seq<EntityState>, p: seq<Entity>)
    requires MarksOnly(s0, s1)
    requires UnchangedPath(conn, keys, rankCount, s1, p)
    ensures UnchangedPath(conn, keys, rankCount, s0, p)
  {
  }

  /** Prefixing an Unchanged entity with an upward step to the start of a path. */
  lemma PathPrepend(conn: ConnTable, keys: seq<EntityKey>, rankCount: nat,
                    s: seq<EntityState>, e: Entity, p: seq<Entity>)
    requires e < |s| && s[e] == Unchanged
    requires UnchangedPath(conn, keys, rankCount, s, p)
    requires UpEdge(conn, keys, rankCount, e, p[0])
    ensures UnchangedPath(conn, keys, rankCount, s, [e] + p)
  {
    var q := [e] + p;
    forall i | 0 <= i < |q| - 1
      ensures UpEdge(conn, keys, rankCount, q[i], q[i + 1])
    {
      if i > 0 {
        assert q[i] == p[i - 1] && q[i + 1] == p[i];
      }
    }
  }

  /**
   * The marking is exact: when the start was Unchanged and is now marked,
   * marking only moves Unchanged to Modified, every newly marked entity is
   * reachable and no newly marked entity has an Unchanged upward neighbour,
   * then the newly marked entities are exactly those reachable from the start
   * through Unchanged entities.
   */
  lemma {:induction false} MarkedIsReachable(conn: ConnTable, keys: seq<EntityKey>, rankCount: nat,
                                             before: seq<EntityState>, after: seq<EntityState>,
                                             e: Entity, x: Entity)
    requires MarksOnly(before, after)
    requires NewlyMarked(before, after, e)
    requires forall y :: NewlyMarked(before, after, y) ==> Reachable(conn, keys, rankCount, before, e, y)
    requires ClosedUpward(conn, keys, rankCount, before, after)
    ensures NewlyMarked(before, after, x) <==> Reachable(conn, keys, rankCount, before, e, x)
  {
    if Reachable(conn, keys, rankCount, before, e, x) {
      var p :| UnchangedPath(conn, keys, rankCount, before, p) && p[0] == e && p[|p| - 1] == x;
      PathMarked(conn, keys, rankCount, before, after, p, |p| - 1);
    }
  }

  /** Along a path from a newly marked start, every entity is newly marked. */
  lemma {:induction false} PathMarked(conn: ConnTable, keys: seq<EntityKey>, rankCount: nat,
                                      before: seq<EntityState>, after: seq<EntityState>,
                                      p: seq<Entity>, i: nat)
    requires MarksOnly(before, after)
    requires UnchangedPath(conn, keys, rankCount, before, p)
    requires NewlyMarked(before, after, p[0])
    requires ClosedUpward(conn, keys, rankCount, before, after)
    requires i < |p|
    ensures NewlyMarked(before, after, p[i])
  {
    if i > 0 {
      PathMarked(conn, keys, rankCount, before, after, p, i - 1);
      assert UpEdge(conn, keys, rankCount, p[i - 1], p[i]);
    }
  }

  /** Every newly marked entity other than e has no Unchanged upward neighbour. */
  ghost predicate ClosedExcept(conn: ConnTable, keys: seq<EntityKey>, rankCount: nat,
                               before: seq<EntityState>, after: seq<EntityState>, e: Entity) {
    forall x: Entity, y: Entity :: x != e && NewlyMarked(before, after, x) && UpEdge(conn, keys, rankCount, x, y) ==>
      y < |after| && after[y] != Unchanged
  }

  /**
   * One recursive step of the flood: after marking from e's upward neighbour
   * other, everything newly marked since the start is still reachable from e
   * and still closed (except possibly at e itself).
   */
  lemma FloodStep(conn: ConnTable, keys: seq<EntityKey>, rankCount: nat,
                  s0: seq<EntityState>, s1: seq<EntityState>, s2: seq<EntityState>, e: Entity, other: Entity)
    requires MarksOnly(s0, s1) && MarksOnly(s1, s2)
    requires e < |s0| && s0[e] == Unchanged && UpEdge(conn, keys, rankCount, e, other)
    requires forall x :: NewlyMarked(s0, s1, x) ==> Reachable(conn, keys, rankCount, s0, e, x)
    requires forall x :: NewlyMarked(s1, s2, x) ==> Reachable(conn, keys, rankCount, s1, other, x)
    requires ClosedExcept(conn, keys, rankCount, s0, s1, e)
    requires ClosedUpward(conn, keys, rankCount, s1, s2)
    ensures MarksOnly(s0, s2)
    ensures forall x :: NewlyMarked(s0, s2, x) ==> Reachable(conn, keys, rankCount, s0, e, x)
    ensures ClosedExcept(conn, keys, rankCount, s0, s2, e)
  {
    forall x | NewlyMarked(s0, s2, x)
      ensures Reachable(conn, keys, rankCount, s0, e, x)
    {
      if !NewlyMarked(s0, s1, x) {
        assert NewlyMarked(s1, s2, x);
        var p :| UnchangedPath(conn, keys, rankCount, s1, p) && p[0] == other && p[|p| - 1] == x;
        PathInEarlierState(conn, keys, rankCount, s0, s1, p);
        PathPrepend(conn, keys, rankCount, s0, e, p);
        assert ([e] + p)[|[e] + p| - 1] == x;
      }
    }
    forall x: Entity, y: Entity | x != e && NewlyMarked(s0, s2, x) && UpEdge(conn, keys, rankCount, x, y)
      ensures y < |s2| && s2[y] != Unchanged
    {
      if !NewlyMarked(s0, s1, x) {
        assert NewlyMarked(s1, s2, x);
      }
    }
  }

  //----------------------------------------------------------------------
  // Tables that grow or shrink

  /** Every relation stored in c1 is stored, in the same list, in c2. */
  ghost predicate SubTable(c1: ConnTable, c2: ConnTable) {
    forall x: Entity, q: nat, c :: c in ConnOf(c1, x, q) ==> c in ConnOf(c2, x, q)
  }

  /** x is the target of a relation stored by e. */
  ghost predicate RelatedTo(conn: ConnTable, e: Entity, x: Entity) {
    exists q: nat, c :: c in ConnOf(conn, e, q) && c.target == x
  }

  /** Some list of x holds a relation that is not in the same list of c0. */
  ghost predicate Gained(c0: ConnTable, c1: ConnTable, x: Entity) {
    exists q: nat, c :: c in ConnOf(c1, x, q) && c !in ConnOf(c0, x, q)
  }

  lemma SubTableTransitive(c1: ConnTable, c2: ConnTable, c3: ConnTable)
    requires SubTable(c1, c2) && SubTable(c2, c3)
    ensures SubTable(c1, c3)
  {
  }

  /** An upward step in a table is one in every table holding it. */
  lemma UpEdgeInSuper(c1: ConnTable, c2: ConnTable, keys: seq<EntityKey>, rankCount: nat, x: Entity, y: Entity)
    requires SubTable(c1, c2) && UpEdge(c1, keys, rankCount, x, y)
    ensures UpEdge(c2, keys, rankCount, x, y)
  {
    var r :| keys[x].Rank() < r < rankCount && HasTarget(ConnOf(c1, x, r), y);
    var k :| 0 <= k < |ConnOf(c1, x, r)| && ConnOf(c1, x, r)[k].target == y;
    var c := ConnOf(c1, x, r)[k];
    assert c in ConnOf(c2, x, r);
    var k2 :| 0 <= k2 < |ConnOf(c2, x, r)| && ConnOf(c2, x, r)[k2] == c;
    assert HasTarget(ConnOf(c2, x, r), y);
  }

  /** What is reachable in a table is reachable in every table holding it. */
  lemma ReachableInSuper(c1: ConnTable, c2: ConnTable, keys: seq<EntityKey>, rankCount: nat,
                         s: seq<EntityState>, a: Entity, x: Entity)
    requires SubTable(c1, c2) && Reachable(c1, keys, rankCount, s, a, x)
    ensures Reachable(c2, keys, rankCount, s, a, x)
  {
    var p :| UnchangedPath(c1, keys, rankCount, s, p) && p[0] == a && p[|p| - 1] == x;
    forall i | 0 <= i < |p| - 1 ensures UpEdge(c2, keys, rankCount, p[i], p[i + 1]) {
      UpEdgeInSuper(c1, c2, keys, rankCount, p[i], p[i + 1]);
    }
    assert UnchangedPath(c2, keys, rankCount, s, p);
  }

  /** A marking closed upward in a table is closed in every table it holds. */
  lemma ClosedInSub(c1: ConnTable, c2: ConnTable, keys: seq<EntityKey>, rankCount: nat,
                    before: seq<EntityState>, after: seq<EntityState>)
    requires SubTable(c1, c2) && ClosedUpward(c2, keys, rankCount, before, after)
    ensures ClosedUpward(c1, keys, rankCount, before, after)
  {
    forall x: Entity, y: Entity | NewlyMarked(before, after, x) && UpEdge(c1, keys, rankCount, x, y)
      ensures y < |after| && after[y] != Unchanged
    {
      UpEdgeInSuper(c1, c2, keys, rankCount, x, y);
    }
  }

  /** Two markings closed upward in one table make one closed marking. */
  lemma ClosedCompose(conn: ConnTable, keys: seq<EntityKey>, rankCount: nat,
                      s0: seq<EntityState>, s1: seq<EntityState>, s2: seq<EntityState>)
    requires MarksOnly(s0, s1) && MarksOnly(s1, s2)
    requires ClosedUpward(conn, keys, rankCount, s0, s1) && ClosedUpward(conn, keys, rankCount, s1, s2)
    ensures ClosedUpward(conn, keys, rankCount, s0, s2)
  {
    forall x: Entity, y: Entity | NewlyMarked(s0, s2, x) && UpEdge(conn, keys, rankCount, x, y)
      ensures y < |s2| && s2[y] != Unchanged
    {
      if !NewlyMarked(s0, s1, x) {
        assert NewlyMarked(s1, s2, x);
      }
    }
  }

  /** Inserting one relation keeps every stored one; only e's list of rank r gains, and only when it changed. */
  lemma AddRelGrows(conn: ConnTable, e: Entity, r: nat, target: Entity, ordinal: nat, perm: nat)
    ensures SubTable(conn, AddRel(conn, e, r, target, ordinal, perm))
    ensures forall x :: Gained(conn, AddRel(conn, e, r, target, ordinal, perm), x) <==>
      x == e && !HasRel(ConnOf(conn, e, r), target, ordinal)
  {
    var c1 := AddRel(conn, e, r, target, ordinal, perm);
    forall x: Entity, q: nat, c | c in ConnOf(conn, x, q) ensures c in ConnOf(c1, x, q) {
      AddRelFacts(conn, e, r, target, ordinal, perm, x, q, target, ordinal, c);
    }
    forall x ensures Gained(conn, c1, x) <==> x == e && !HasRel(ConnOf(conn, e, r), target, ordinal) {
      if Gained(conn, c1, x) {
        var q: nat, c :| c in ConnOf(c1, x, q) && c !in ConnOf(conn, x, q);
        AddRelFacts(conn, e, r, target, ordinal, perm, x, q, target, ordinal, c);
      }
      if x == e && !HasRel(ConnOf(conn, e, r), target, ordinal) {
        var c := Connection(target, ordinal, perm);
        AddRelFacts(conn, e, r, target, ordinal, perm, e, r, target, ordinal, c);
      }
    }
  }

  /** Declaring never loses a stored relation. */
  lemma DeclarePairGrows(conn: ConnTable, from: Entity, fr: nat, to: Entity, tr: nat, id: nat, perm: nat, tracked: bool)
    ensures SubTable(conn, DeclarePair(conn, from, fr, to, tr, id, perm, tracked))
  {
    if !HasRel(ConnOf(conn, from, tr), to, id) {
      var c1 := AddRel(conn, from, tr, to, id, perm);
      AddRelGrows(conn, from, tr, to, id, perm);
      if tracked {
        AddRelGrows(c1, to, fr, from, id, perm);
      }
    }
  }

  /**
   * The only upward step a declaration from a higher to a lower ranked
   * entity can add leads from `to` to `from`, through the inverse relation.
   */
  lemma DeclarePairUpEdge(conn: ConnTable, keys: seq<EntityKey>, rankCount: nat, from: Entity, to: Entity,
                          id: nat, perm: nat, tracked: bool, x: Entity, y: Entity)
    requires from < |keys| && to < |keys| && keys[from].Rank() > keys[to].Rank()
    requires UpEdge(DeclarePair(conn, from, keys[from].Rank(), to, keys[to].Rank(), id, perm, tracked),
                    keys, rankCount, x, y)
    ensures UpEdge(conn, keys, rankCount, x, y) || (x == to && y == from)
  {
    var fr, tr := keys[from].Rank(), keys[to].Rank();
    var c2 := DeclarePair(conn, from, fr, to, tr, id, perm, tracked);
    var r :| keys[x].Rank() < r < rankCount && HasTarget(ConnOf(c2, x, r), y);
    var k :| 0 <= k < |ConnOf(c2, x, r)| && ConnOf(c2, x, r)[k].target == y;
    var c := ConnOf(c2, x, r)[k];
    if !HasRel(ConnOf(conn, from, tr), to, id) {
      var c1 := AddRel(conn, from, tr, to, id, perm);
      AddRelFacts(conn, from, tr, to, id, perm, x, r, to, id, c);
      if tracked {
        AddRelFacts(c1, to, fr, from, id, perm, x, r, to, id, c);
      }
      if c in ConnOf(conn, x, r) {
        var k0 :| 0 <= k0 < |ConnOf(conn, x, r)| && ConnOf(conn, x, r)[k0] == c;
        assert HasTarget(ConnOf(conn, x, r), y);
      }
    } else {
      assert HasTarget(ConnOf(conn, x, r), y);
    }
  }

  /**
   * c1 arises from c0 by destroying relations of e together with their
   * inverses: nothing is gained; a list of another entity keeps every
   * relation that does not lead to e, and is untouched when none does.
   */
  ghost predicate DestroyFrame(c0: ConnTable, c1: ConnTable, e: Entity) {
    SubTable(c1, c0) &&
    (forall x: Entity, q: nat, c :: x != e && c in ConnOf(c0, x, q) && c.target != e ==> c in ConnOf(c1, x, q)) &&
    (forall x: Entity, q: nat :: x != e && !HasTarget(ConnOf(c0, x, q), e) ==> ConnOf(c1, x, q) == ConnOf(c0, x, q))
  }

  lemma DestroyFrameTransitive(c0: ConnTable, c1: ConnTable, c2: ConnTable, e: Entity)
    requires DestroyFrame(c0, c1, e) && DestroyFrame(c1, c2, e)
    ensures DestroyFrame(c0, c2, e)
  {
  }

  /** Destroying a relation of e and its inverse stays within the frame. */
  lemma DestroyPairFrame(conn: ConnTable, e: Entity, re: nat, target: Entity, rt: nat, id: nat)
    ensures DestroyFrame(conn, DestroyPair(conn, e, re, target, rt, id), e)
  {
    var c2 := DestroyPair(conn, e, re, target, rt, id);
    if HasRel(ConnOf(conn, e, rt), target, id) {
      var c1 := RemoveRel(conn, e, rt, target, id);
      forall x: Entity, q: nat
        ensures (forall c :: c in ConnOf(c2, x, q) ==> c in ConnOf(conn, x, q))
        ensures x != e ==> forall c :: c in ConnOf(conn, x, q) && c.target != e ==> c in ConnOf(c2, x, q)
        ensures x != e && !HasTarget(ConnOf(conn, x, q), e) ==> ConnOf(c2, x, q) == ConnOf(conn, x, q)
      {
        if x != e {
          assert ConnOf(c1, x, q) == ConnOf(conn, x, q);
          if !HasTarget(ConnOf(conn, x, q), e) {
            assert !HasRel(ConnOf(c1, x, q), e, id);
          }
        }
      }
    }
  }

  /**
   * A relation that destroying loses is the forward relation, which was
   * stored, or its inverse.
   */
  lemma DestroyPairDrops(conn: ConnTable, from: Entity, fr: nat, to: Entity, tr: nat, id: nat,
                         x: Entity, q: nat, t: Entity, o: nat)
    requires HasRel(ConnOf(conn, x, q), t, o) && !HasRel(ConnOf(DestroyPair(conn, from, fr, to, tr, id), x, q), t, o)
    ensures HasRel(ConnOf(conn, from, tr), to, id)
    ensures ((x, q) == (from, tr) && t == to && o == id) || ((x, q) == (to, fr) && t == from && o == id)
  {
  }

  /** Dropping every list of e stays within the frame. */
  lemma DropListsFrame(c0: ConnTable, c1: ConnTable, e: Entity)
    requires DestroyFrame(c0, c1, e)
    ensures DestroyFrame(c0, map k | k in c1 && k.0 != e :: c1[k], e)
  {
    var c2 := map k | k in c1 && k.0 != e :: c1[k];
    forall x: Entity, q: nat ensures x != e ==> ConnOf(c2, x, q) == ConnOf(c1, x, q)
      ensures x == e ==> ConnOf(c2, x, q) == []
    {
    }
  }

  //----------------------------------------------------------------------
  // Marking from two entities

  /**
   * The marking of modified on a and then on b: every state only moves from
   * Unchanged to Modified, the marking is closed upward, and the entities
   * newly marked are exactly those reachable from a or from b through
   * entities Unchanged before.
   */
  ghost predicate MarkedFrom(conn: ConnTable, keys: seq<EntityKey>, rankCount: nat,
                             before: seq<EntityState>, after: seq<EntityState>, a: Entity, b: Entity) {
    MarksOnly(before, after) && ClosedUpward(conn, keys, rankCount, before, after) &&
    forall x :: NewlyMarked(before, after, x) <==>
      Reachable(conn, keys, rankCount, before, a, x) || Reachable(conn, keys, rankCount, before, b, x)
  }

  /**
   * Along a path through entities Unchanged before a marking closed upward,
   * either the i-th entity was newly marked or the path up to it is still
   * Unchanged after.
   */
  lemma {:induction false} PathAfterFlood(conn: ConnTable, keys: seq<EntityKey>, rankCount: nat,
                                          s0: seq<EntityState>, s1: seq<EntityState>, p: seq<Entity>, i: nat)
    requires MarksOnly(s0, s1) && ClosedUpward(conn, keys, rankCount, s0, s1)
    requires UnchangedPath(conn, keys, rankCount, s0, p) && i < |p|
    ensures NewlyMarked(s0, s1, p[i]) || UnchangedPath(conn, keys, rankCount, s1, p[..i + 1])
  {
    if i > 0 {
      PathAfterFlood(conn, keys, rankCount, s0, s1, p, i - 1);
      if !NewlyMarked(s0, s1, p[i]) {
        assert UpEdge(conn, keys, rankCount, p[i - 1], p[i]);
        var q := p[..i + 1];
        assert forall j :: 0 <= j < i ==> q[j] == p[..i][j];
      }
    }
  }

  /**
   * Two exact markings, from a and then from b: the entities newly marked
   * overall are exactly those reachable from a or b through entities
   * Unchanged at the start.
   */
  lemma TwoFloods(conn: ConnTable, keys: seq<EntityKey>, rankCount: nat,
                  s0: seq<EntityState>, s1: seq<EntityState>, s2: seq<EntityState>, a: Entity, b: Entity)
    requires MarksOnly(s0, s1) && MarksOnly(s1, s2)
    requires a < |s0| && (s0[a] == Unchanged ==> s1[a] == Modified)
    requires b < |s1| && (s1[b] == Unchanged ==> s2[b] == Modified)
    requires forall y :: NewlyMarked(s0, s1, y) ==> Reachable(conn, keys, rankCount, s0, a, y)
    requires forall y :: NewlyMarked(s1, s2, y) ==> Reachable(conn, keys, rankCount, s1, b, y)
    requires ClosedUpward(conn, keys, rankCount, s0, s1) && ClosedUpward(conn, keys, rankCount, s1, s2)
    ensures MarkedFrom(conn, keys, rankCount, s0, s2, a, b)
  {
    ClosedCompose(conn, keys, rankCount, s0, s1, s2);
    forall x ensures NewlyMarked(s0, s2, x) <==>
      Reachable(conn, keys, rankCount, s0, a, x) || Reachable(conn, keys, rankCount, s0, b, x)
    {
      if NewlyMarked(s0, s2, x) && !NewlyMarked(s0, s1, x) {
        assert NewlyMarked(s1, s2, x);
        var p :| UnchangedPath(conn, keys, rankCount, s1, p) && p[0] == b && p[|p| - 1] == x;
        PathInEarlierState(conn, keys, rankCount, s0, s1, p);
      }
      if Reachable(conn, keys, rankCount, s0, a, x) {
        var p :| UnchangedPath(conn, keys, rankCount, s0, p) && p[0] == a && p[|p| - 1] == x;
        MarkedIsReachable(conn, keys, rankCount, s0, s1, a, x);
      }
      if Reachable(conn, keys, rankCount, s0, b, x) && !NewlyMarked(s0, s1, x) {
        var p :| UnchangedPath(conn, keys, rankCount, s0, p) && p[0] == b && p[|p| - 1] == x;
        PathAfterFlood(conn, keys, rankCount, s0, s1, p, |p| - 1);
        assert p[..|p|] == p;
        assert NewlyMarked(s1, s2, b);
        MarkedIsReachable(conn, keys, rankCount, s1, s2, b, x);
      }
    }
  }
}
