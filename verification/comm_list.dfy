/**
 * The local parallel bookkeeping of STK Mesh: per-key communication
 * information (which processes share or receive ghost copies of an entity)
 * and the comm list, one entry per shared or ghosted entity, kept sorted by
 * key. Everything here is a read-only lookup or the value-level description
 * of an in-place update that the mesh performs.
 */
module CommList {
  import opened MeshTypes

  /**
   * EntityCommInfo: one (ghosting ordinal, process) pair of an entity;
   * ghosting ordinal 0 is the "shared" ghosting.
   */
  datatype EntityCommInfo = EntityCommInfo(ghostId: nat, proc: int)

  /** operator< on EntityCommInfo: by ghosting ordinal, then by process. */
  predicate InfoLess(a: EntityCommInfo, b: EntityCommInfo) {
    a.ghostId < b.ghostId || (a.ghostId == b.ghostId && a.proc < b.proc)
  }

  /** The per-entity comm info is kept strictly sorted. */
  predicate SortedInfos(s: seq<EntityCommInfo>) {
    forall i, j :: 0 <= i < j < |s| ==> InfoLess(s[i], s[j])
  }

  /** std::lower_bound: the first position whose element is not less than x. */
  function LowerBound(s: seq<EntityCommInfo>, x: EntityCommInfo): (i: nat)
    ensures i <= |s|
    ensures forall k :: 0 <= k < i ==> InfoLess(s[k], x)
    ensures i < |s| ==> !InfoLess(s[i], x)
  {
    if s == [] || !InfoLess(s[0], x) then 0 else 1 + LowerBound(s[1..], x)
  }

  /**
   * in_ghost: the lower bound of (ghosting ordinal, proc) in the entity's
   * comm info is that exact pair.
   */
  function InGhost(ec: seq<EntityCommInfo>, ordinal: nat, proc: int): bool {
    var tmp := EntityCommInfo(ordinal, proc);
    var i := LowerBound(ec, tmp);
    i < |ec| && ec[i] == tmp
  }

  /** On sorted comm info, in_ghost is true exactly when the pair is present. */
  lemma InGhostIffPresent(ec: seq<EntityCommInfo>, ordinal: nat, proc: int)
    requires SortedInfos(ec)
    ensures InGhost(ec, ordinal, proc) <==> EntityCommInfo(ordinal, proc) in ec
  {
    var tmp := EntityCommInfo(ordinal, proc);
    var i := LowerBound(ec, tmp);
    if tmp in ec {
      var k :| 0 <= k < |ec| && ec[k] == tmp;
      assert k == i;
    }
  }

  /** The number of leading entries of the "shared" ghosting (ordinal 0). */
  function SharingLength(ec: seq<EntityCommInfo>): (n: nat)
    ensures n <= |ec|
    ensures forall k :: 0 <= k < n ==> ec[k].ghostId == 0
    ensures n < |ec| ==> ec[n].ghostId != 0
  {
    if ec == [] || ec[0].ghostId != 0 then 0 else 1 + SharingLength(ec[1..])
  }

  /** entity_comm_sharing: the sharing run at the front of the sorted comm info. */
  function Sharing(ec: seq<EntityCommInfo>): seq<EntityCommInfo> {
    ec[..SharingLength(ec)]
  }

  /** On sorted comm info the sharing run holds every ordinal-0 entry. */
  lemma SharingIsOrdinalZero(ec: seq<EntityCommInfo>, info: EntityCommInfo)
    requires SortedInfos(ec)
    ensures info in Sharing(ec) <==> info in ec && info.ghostId == 0
  {
    var n := SharingLength(ec);
    if info in ec && info.ghostId == 0 {
      var k :| 0 <= k < |ec| && ec[k] == info;
      assert k < n;
      assert ec[..n][k] == info;
    }
  }

  /** in_shared: some entry of the sharing run names proc. */
  function InShared(ec: seq<EntityCommInfo>, proc: int): bool {
    exists info :: info in Sharing(ec) && info.proc == proc
  }

  /** in_shared agrees with in_ghost on the "shared" ghosting (ordinal 0). */
  lemma InSharedIsGhostZero(ec: seq<EntityCommInfo>, proc: int)
    requires SortedInfos(ec)
    ensures InShared(ec, proc) <==> InGhost(ec, 0, proc)
  {
    InGhostIffPresent(ec, 0, proc);
    SharingIsOrdinalZero(ec, EntityCommInfo(0, proc));
    if InShared(ec, proc) {
      var info :| info in Sharing(ec) && info.proc == proc;
      SharingIsOrdinalZero(ec, info);
    }
  }

  /**
   * in_send_ghost: some non-shared ghosting sends the entity to proc, which
   * is not the owner.
   */
  function InSendGhost(ec: seq<EntityCommInfo>, owner: int, proc: int): bool {
    exists info :: info in ec && info.ghostId != 0 && info.proc != owner && info.proc == proc
  }

  /** A send ghost is a ghosting (other than sharing) that in_ghost reports. */
  lemma InSendGhostIsSomeGhosting(ec: seq<EntityCommInfo>, owner: int, proc: int)
    requires SortedInfos(ec)
    ensures InSendGhost(ec, owner, proc) <==>
      proc != owner && exists info :: info in ec && info.ghostId != 0 && InGhost(ec, info.ghostId, proc)
  {
    if InSendGhost(ec, owner, proc) {
      var info :| info in ec && info.ghostId != 0 && info.proc != owner && info.proc == proc;
      InGhostIffPresent(ec, info.ghostId, proc);
    }
    if proc != owner && exists info :: info in ec && info.ghostId != 0 && InGhost(ec, info.ghostId, proc) {
      var info :| info in ec && info.ghostId != 0 && InGhost(ec, info.ghostId, proc);
      InGhostIffPresent(ec, info.ghostId, proc);
      assert EntityCommInfo(info.ghostId, proc) in ec;
    }
  }

  predicate StrictlySortedInts(s: seq<int>) {
    forall i, j :: 0 <= i < j < |s| ==> s[i] < s[j]
  }

  /** Inserting into a sorted sequence of processes, dropping a duplicate. */
  function InsertUnique(s: seq<int>, x: int): (r: seq<int>)
    ensures |r| <= |s| + 1
  {
    if s == [] then [x]
    else if x < s[0] then [x] + s
    else if x == s[0] then s
    else [s[0]] + InsertUnique(s[1..], x)
  }

  /** The insertion adds exactly x. */
  lemma {:induction false} InsertUniqueMembers(s: seq<int>, x: int)
    ensures forall p :: p in InsertUnique(s, x) <==> p in s || p == x
  {
    if s != [] && x > s[0] {
      InsertUniqueMembers(s[1..], x);
      assert s == [s[0]] + s[1..];
    }
  }

  /** The insertion keeps the sequence strictly sorted. */
  lemma {:induction false} InsertUniqueSorted(s: seq<int>, x: int)
    requires StrictlySortedInts(s)
    ensures StrictlySortedInts(InsertUnique(s, x))
  {
    if s != [] && x < s[0] {
      var r := [x] + s;
      forall i, j | 0 <= i < j < |r|
        ensures r[i] < r[j]
      {
        if i == 0 {
          assert s[0] <= s[j - 1];
        }
      }
    } else if s != [] && x > s[0] {
      var rest := InsertUnique(s[1..], x);
      InsertUniqueSorted(s[1..], x);
      InsertUniqueMembers(s[1..], x);
      var r := [s[0]] + rest;
      forall i, j | 0 <= i < j < |r|
        ensures r[i] < r[j]
      {
        if i == 0 {
          assert r[j] == rest[j - 1] && rest[j - 1] in rest;
          if rest[j - 1] != x {
            var k :| 0 <= k < |s[1..]| && s[1..][k] == rest[j - 1];
            assert s[k + 1] == r[j];
          }
        } else {
          assert r[i] == rest[i - 1] && r[j] == rest[j - 1];
        }
      }
    }
  }

  /**
   * comm_procs: the processes of all comm info entries of an entity, sorted
   * and without duplicates (push, std::sort, std::unique).
   */
  method CommProcs(ec: seq<EntityCommInfo>) returns (procs: seq<int>)
    ensures StrictlySortedInts(procs)
    ensures forall p :: p in procs <==> exists i :: 0 <= i < |ec| && ec[i].proc == p
  {
    procs := [];
    var i := 0;
    while i < |ec|
      invariant 0 <= i <= |ec|
      invariant StrictlySortedInts(procs)
      invariant forall p :: p in procs <==> exists k :: 0 <= k < i && ec[k].proc == p
    {
      InsertUniqueSorted(procs, ec[i].proc);
      InsertUniqueMembers(procs, ec[i].proc);
      procs := InsertUnique(procs, ec[i].proc);
      i := i + 1;
    }
  }

  /** The processes of one ghosting, in comm-info order. */
  function GhostingProcs(ec: seq<EntityCommInfo>, ordinal: nat): seq<int> {
    if ec == [] then []
    else (if ec[0].ghostId == ordinal then [ec[0].proc] else []) + GhostingProcs(ec[1..], ordinal)
  }

  /** A process is listed for a ghosting exactly when it has that (ordinal, proc) entry. */
  lemma {:induction false} GhostingProcsMembers(ec: seq<EntityCommInfo>, ordinal: nat, p: int)
    ensures p in GhostingProcs(ec, ordinal) <==> EntityCommInfo(ordinal, p) in ec
  {
    if ec != [] {
      GhostingProcsMembers(ec[1..], ordinal, p);
      assert ec == [ec[0]] + ec[1..];
    }
  }

  /** comm_procs for one ghosting: the processes whose ghost_id is its ordinal. */
  method CommProcsOfGhosting(ec: seq<EntityCommInfo>, ordinal: nat) returns (procs: seq<int>)
    ensures procs == GhostingProcs(ec, ordinal)
    ensures forall p :: p in procs <==> EntityCommInfo(ordinal, p) in ec
  {
    procs := [];
    var i := 0;
    while i < |ec|
      invariant 0 <= i <= |ec|
      invariant procs + GhostingProcs(ec[i..], ordinal) == GhostingProcs(ec, ordinal)
    {
      assert ec[i..] == [ec[i]] + ec[i + 1..];
      if ec[i].ghostId == ordinal {
        procs := procs + [ec[i].proc];
      }
      i := i + 1;
    }
    assert ec[i..] == [];
    forall p ensures p in procs <==> EntityCommInfo(ordinal, p) in ec {
      GhostingProcsMembers(ec, ordinal, p);
    }
  }

  //----------------------------------------------------------------------
  // The comm list

  /** EntityCommListInfo: one shared or ghosted entity. */
  datatype EntityCommListInfo = EntityCommListInfo(key: EntityKey, owner: int, entity: Entity)

  /** The comm list is sorted by key, one entry per key. */
  predicate SortedByKey(list: seq<EntityCommListInfo>) {
    forall i, j :: 0 <= i < j < |list| ==> KeyLess(list[i].key, list[j].key)
  }

  /** std::lower_bound over the comm list, by key. */
  function LowerBoundKey(list: seq<EntityCommListInfo>, key: EntityKey): (i: nat)
    ensures i <= |list|
    ensures forall k :: 0 <= k < i ==> KeyLess(list[k].key, key)
    ensures i < |list| ==> !KeyLess(list[i].key, key)
  {
    if list == [] || !KeyLess(list[0].key, key) then 0 else 1 + LowerBoundKey(list[1..], key)
  }

  /** On a sorted comm list the lower bound lands on the entry of key whenever there is one. */
  lemma LowerBoundFindsKey(list: seq<EntityCommListInfo>, key: EntityKey)
    requires SortedByKey(list)
    ensures var i := LowerBoundKey(list, key);
      (i < |list| && list[i].key == key) <==> exists k :: 0 <= k < |list| && list[k].key == key
  {
    var i := LowerBoundKey(list, key);
    if exists k :: 0 <= k < |list| && list[k].key == key {
      var k :| 0 <= k < |list| && list[k].key == key;
      if k < i {
        KeyLessTotal(key, key);
      } else if k > i {
        KeyLessTotal(list[i].key, key);
      }
    }
  }

  /**
   * The comm list after destroy_entity: the entry of key (if any) has its
   * entity handle reset to the invalid handle in place; length, order and keys
   * are unchanged and every other entry is untouched.
   */
  function ClearEntityOf(list: seq<EntityCommListInfo>, key: EntityKey): (r: seq<EntityCommListInfo>)
    requires SortedByKey(list)
    ensures |r| == |list| && SortedByKey(r)
    ensures forall k :: 0 <= k < |r| ==> r[k].key == list[k].key && r[k].owner == list[k].owner
    ensures forall k :: 0 <= k < |r| ==>
      r[k].entity == (if list[k].key == key then InvalidEntity else list[k].entity)
  {
    var i := LowerBoundKey(list, key);
    LowerBoundFindsKey(list, key);
    if i < |list| && list[i].key == key then
      list[i := list[i].(entity := InvalidEntity)]
    else
      list
  }

  /**
   * The comm list after internal_change_owner_in_comm_data when the owner
   * changed: only the entry whose key matches gets the new owner.
   */
  function ChangeOwnerOf(list: seq<EntityCommListInfo>, key: EntityKey, newOwner: int): (r: seq<EntityCommListInfo>)
    requires SortedByKey(list)
    ensures |r| == |list| && SortedByKey(r)
    ensures forall k :: 0 <= k < |r| ==> r[k].key == list[k].key && r[k].entity == list[k].entity
    ensures forall k :: 0 <= k < |r| ==>
      r[k].owner == (if list[k].key == key then newOwner else list[k].owner)
  {
    var i := LowerBoundKey(list, key);
    LowerBoundFindsKey(list, key);
    if i < |list| && list[i].key == key then
      list[i := list[i].(owner := newOwner)]
    else
      list
  }
}
