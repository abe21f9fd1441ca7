/**
 * stk::mesh::impl::EntityRepository: the map from entity keys to the local
 * handles of the entities that are active on this process.
 *
 * The map type is std::map on every platform (both branches of the switch
 * between std::map and an unordered map select std::map), so at most one
 * entity is recorded per key and iteration visits the keys in increasing
 * order.
 */
module Repository {
  import opened MeshTypes

  /** k is the smallest key of s. */
  predicate IsLeast(k: EntityKey, s: set<EntityKey>) {
    k in s && forall o :: o in s ==> o == k || KeyLess(k, o)
  }

  predicate StrictlyIncreasing(ks: seq<EntityKey>) {
    forall i, j :: 0 <= i < j < |ks| ==> KeyLess(ks[i], ks[j])
  }

  /** Every non-empty finite set of keys has a least element. */
  lemma {:induction false} LeastExists(s: set<EntityKey>)
    requires s != {}
    ensures exists k :: IsLeast(k, s)
  {
    var x :| x in s;
    if s == {x} {
      assert IsLeast(x, s);
    } else {
      LeastExists(s - {x});
      var m :| IsLeast(m, s - {x});
      KeyLessTotal(x, m);
      if KeyLess(x, m) {
        forall o | o in s
          ensures o == x || KeyLess(x, o)
        {
          if o != x && o != m {
            KeyLessTransitive(x, m, o);
          }
        }
        assert IsLeast(x, s);
      } else {
        assert IsLeast(m, s);
      }
    }
  }

  class EntityRepository {
    /** m_entities */
    var entities: map<EntityKey, Entity>

    constructor ()
      ensures entities == map[]
    {
      entities := map[];
    }

    /**
     * internal_create_entity: an active entity with the key is returned
     * unchanged with created == false; otherwise the key is bound to the
     * handle the mesh allocates next and created == true, even when an entity
     * with that key existed earlier and was destroyed.
     */
    method InternalCreateEntity(key: EntityKey, next: Entity) returns (e: Entity, created: bool)
      modifies this`entities
      ensures created <==> key !in old(entities)
      ensures !created ==> e == old(entities)[key] && entities == old(entities)
      ensures created ==> e == next && entities == old(entities)[key := next]
    {
      if key in entities {
        e, created := entities[key], false;
      } else {
        entities := entities[key := next];
        e, created := next, true;
      }
    }

    /**
     * update_entity_key: the entity recorded under oldKey is re-indexed under
     * newKey; every other key keeps its mapping.
     */
    method UpdateEntityKey(newKey: EntityKey, oldKey: EntityKey, entity: Entity)
      requires oldKey in entities && entities[oldKey] == entity
      modifies this`entities
      ensures newKey in entities && entities[newKey] == entity
      ensures oldKey != newKey ==> oldKey !in entities
      ensures forall k :: k != newKey && k != oldKey ==>
        (k in entities <==> k in old(entities)) && (k in entities ==> entities[k] == old(entities)[k])
    {
      entities := (entities - {oldKey})[newKey := entity];
    }

    /** destroy_entity: erases exactly the mapping of key. */
    method DestroyEntity(key: EntityKey, entity: Entity)
      modifies this`entities
      ensures key !in entities
      ensures forall k :: k != key ==>
        (k in entities <==> k in old(entities)) && (k in entities ==> entities[k] == old(entities)[k])
    {
      entities := entities - {key};
    }

    /**
     * Iteration from begin() to end(): every recorded key exactly once, in
     * strictly increasing key order.
     */
    method OrderedKeys() returns (ks: seq<EntityKey>)
      ensures StrictlyIncreasing(ks)
      ensures forall k :: k in ks <==> k in entities
      ensures |ks| == |entities|
    {
      ks := [];
      var remaining := entities.Keys;
      while remaining != {}
        invariant remaining <= entities.Keys
        invariant StrictlyIncreasing(ks)
        invariant forall k :: k in ks <==> k in entities && k !in remaining
        invariant forall i, o :: 0 <= i < |ks| && o in remaining ==> KeyLess(ks[i], o)
        invariant |ks| + |remaining| == |entities|
        decreases remaining
      {
        LeastExists(remaining);
        var k :| IsLeast(k, remaining);
        forall i, o | 0 <= i < |ks| && o in remaining - {k}
          ensures KeyLess((ks + [k])[i], o)
        {
        }
        ks := ks + [k];
        remaining := remaining - {k};
      }
    }
  }
}
