/**
 * Value types shared by the STK Mesh bookkeeping model: entity handles and
 * keys, entity and mesh states, and the errors the mesh raises.
 */
module MeshTypes {

  /** An entity handle is its local offset into the per-entity arrays; offset 0 is reserved. */
  type Entity = nat

  const InvalidEntity: Entity := 0

  /**
   * The largest identifier a key can carry: the identifier bits of the
   * default-constructed (all bits set) key, 56 bits wide.
   */
  const MaxId: nat := 0xFF_FFFF_FFFF_FFFF

  /** The rank read from the invalid key, whose rank bits are all set. */
  const InvalidRank: nat := 0xFF

  /** stk::topology::FACE_RANK */
  const FaceRank: nat := 2

  /**
   * An entity key: a (rank, identifier) pair, or the default-constructed
   * invalid key.
   */
  datatype EntityKey = Key(rank: nat, id: nat) | InvalidKey {
    function Rank(): nat {
      if Key? then rank else InvalidRank
    }

    /** The identifier read from a key; the invalid key has all identifier bits set. */
    function Id(): nat {
      if Key? then id else MaxId
    }
  }

  /**
   * The order of keys as 64-bit values: the rank occupies the high bits, so
   * keys compare by rank, then by identifier; the invalid key (all bits set)
   * is the greatest.
   */
  predicate KeyLess(a: EntityKey, b: EntityKey) {
    match (a, b)
    case (Key(ra, ia), Key(rb, ib)) => ra < rb || (ra == rb && ia < ib)
    case (Key(_, _), InvalidKey) => true
    case (InvalidKey, _) => false
  }

  /** KeyLess is a strict total order. */
  lemma KeyLessTotal(a: EntityKey, b: EntityKey)
    ensures a == b || KeyLess(a, b) || KeyLess(b, a)
    ensures !(KeyLess(a, b) && KeyLess(b, a))
    ensures !KeyLess(a, a)
  {
  }

  lemma KeyLessTransitive(a: EntityKey, b: EntityKey, c: EntityKey)
    requires KeyLess(a, b) && KeyLess(b, c)
    ensures KeyLess(a, c)
  {
  }

  datatype EntityState = Created | Modified | Unchanged | Deleted

  datatype SyncState = Modifiable | Synchronized

  /** The fatal errors the mesh throws; each aborts the operation that raised it. */
  datatype MeshError =
    | NotModifiable           // require_ok_to_modify
    | MeshFinalized           // modification_begin after finalization
    | BadRank                 // require_good_rank_and_id
    | BadId                   // require_good_rank_and_id
    | OwnerMismatch           // require_entity_owner
    | DestroyedEntity         // require_valid_relation: an endpoint is invalid
    | WrongRankOrder          // require_valid_relation: rank(from) <= rank(to)
    | InverseNotDeclared      // declare_relation: the inverse insert changed nothing
    | InverseNotDestroyed     // destroy_relation: the inverse removal changed nothing
    | SameRank                // the vector declare_relation: equal ranks
    | GeneratedKeyInUse       // generate_new_entities: the key was already active

  datatype Result<T> = Ok(value: T) | Err(error: MeshError) {
    predicate IsFailure() { Err? }
    function PropagateFailure<U>(): Result<U>
      requires Err?
    {
      Err(error)
    }
    function Extract(): T
      requires Ok?
    {
      value
    }
  }

  datatype Outcome = Pass | Fail(error: MeshError) {
    predicate IsFailure() { Fail? }
    function PropagateFailure<U>(): Result<U>
      requires Fail?
    {
      Err(error)
    }
  }
}
