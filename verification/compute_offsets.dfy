/**
 * Tpetra::Details::computeOffsetsFromCounts and computeOffsetsFromConstantCount.
 *
 * Both functions run a Kokkos parallel_scan whose functor writes the running
 * sum into ptr[i] before adding the i-th contribution; sequentially that is an
 * exclusive prefix sum, modelled here as a loop filling an array in place.
 */
module ComputeOffsets {

  /** The offset type: a signed 64-bit integer (the entries of ptr). */
  newtype int64 = x: int | -0x8000_0000_0000_0000 <= x < 0x8000_0000_0000_0000

  predicate InOffsetRange(x: int) {
    -0x8000_0000_0000_0000 <= x < 0x8000_0000_0000_0000
  }

  datatype ScanError = InvalidArgument

  datatype Result = Ok(total: int64) | Err(error: ScanError)

  /** Sum of the first n counts. */
  function PrefixSum(counts: seq<int>, n: nat): int
    requires n <= |counts|
  {
    if n == 0 then 0 else PrefixSum(counts, n - 1) + counts[n - 1]
  }

  /** The caller's promise that no partial sum overflows the offset type. */
  predicate SumsFit(counts: seq<int>) {
    forall n :: 0 <= n <= |counts| ==> InOffsetRange(PrefixSum(counts, n))
  }

  /**
   * The exclusive scan of the counts: one entry longer than counts, starting
   * at zero, each entry the previous one plus the matching count, the last one
   * the sum of all counts.
   */
  function ExclusiveScan(counts: seq<int>): (r: seq<int>)
    ensures |r| == |counts| + 1
    ensures r[0] == 0
    ensures forall i :: 0 <= i < |counts| ==> r[i + 1] == r[i] + counts[i]
    ensures r[|counts|] == PrefixSum(counts, |counts|)
  {
    if counts == [] then [0]
    else
      var front := ExclusiveScan(counts[..|counts| - 1]);
      assert forall n :: 0 <= n <= |counts| - 1 ==>
        PrefixSum(counts[..|counts| - 1], n) == PrefixSum(counts, n) by {
        forall n | 0 <= n <= |counts| - 1
          ensures PrefixSum(counts[..|counts| - 1], n) == PrefixSum(counts, n)
        {
          PrefixOfPrefix(counts, |counts| - 1, n);
        }
      }
      front + [front[|counts| - 1] + counts[|counts| - 1]]
  }

  lemma {:induction false} PrefixOfPrefix(counts: seq<int>, m: nat, n: nat)
    requires n <= m <= |counts|
    ensures PrefixSum(counts[..m], n) == PrefixSum(counts, n)
  {
    if n > 0 {
      PrefixOfPrefix(counts, m, n - 1);
    }
  }

  /** Every entry of the exclusive scan is the sum of the counts before it. */
  lemma {:induction false} ExclusiveScanIsPrefixSum(counts: seq<int>, i: nat)
    requires i <= |counts|
    ensures ExclusiveScan(counts)[i] == PrefixSum(counts, i)
  {
    if i > 0 {
      ExclusiveScanIsPrefixSum(counts, i - 1);
    }
  }

  /**
   * computeOffsetsFromCounts: when ptr is non-empty and counts.size() >=
   * ptr.size() it throws invalid_argument and writes nothing; when ptr is
   * empty it returns 0 and writes nothing; otherwise ptr[0..|counts|] holds the
   * exclusive scan of counts, the entries past it are untouched, and the
   * returned total is the sum of all counts.
   */
  method ComputeOffsetsFromCounts(ptr: array<int64>, counts: seq<int>) returns (r: Result)
    requires SumsFit(counts)
    modifies ptr
    ensures ptr.Length == 0 ==> r == Ok(0)
    ensures ptr.Length != 0 && |counts| >= ptr.Length ==> r == Err(InvalidArgument)
    ensures r.Err? || ptr.Length == 0 ==> ptr[..] == old(ptr[..])
    ensures ptr.Length != 0 && |counts| < ptr.Length ==>
      && r.Ok?
      && r.total as int == PrefixSum(counts, |counts|)
      && (forall i :: 0 <= i <= |counts| ==> ptr[i] as int == ExclusiveScan(counts)[i])
      && (forall j :: |counts| < j < ptr.Length ==> ptr[j] == old(ptr[j]))
  {
    if ptr.Length == 0 {
      return Ok(0);
    }
    if |counts| >= ptr.Length {
      return Err(InvalidArgument);
    }
    ghost var scan := ExclusiveScan(counts);
    var numCounts := |counts|;
    var update: int64 := 0;
    var i := 0;
    // The scan range is [0, numCounts + 1).
    while i < numCounts + 1
      invariant 0 <= i <= numCounts + 1
      invariant update as int == PrefixSum(counts, if i <= numCounts then i else numCounts)
      invariant i <= numCounts ==> update as int == scan[i]
      invariant forall k :: 0 <= k < i ==> ptr[k] as int == scan[k]
      invariant forall j :: i <= j < ptr.Length ==> ptr[j] == old(ptr[j])
    {
      ExclusiveScanIsPrefixSum(counts, i);
      ptr[i] := update;
      if i < numCounts {
        assert InOffsetRange(PrefixSum(counts, i + 1));
        update := (update as int + counts[i]) as int64;
      }
      i := i + 1;
    }
    r := Ok(update);
  }

  /** The offsets for a constant count: entry i is i * count. */
  function ConstantOffsets(n: nat, count: int): seq<int> {
    seq(n, i => i * count)
  }

  /**
   * A constant count is the scan of n - 1 equal counts: the two functions of
   * this module agree.
   */
  lemma {:induction false} ConstantIsScanOfRepeated(n: nat, count: int)
    requires n > 0
    ensures ConstantOffsets(n, count) == ExclusiveScan(seq(n - 1, _ => count))
  {
    var counts := seq(n - 1, _ => count);
    var scan := ExclusiveScan(counts);
    forall i | 0 <= i < n
      ensures scan[i] == i * count
    {
      ScanOfRepeated(counts, count, i);
    }
  }

  lemma {:induction false} ScanOfRepeated(counts: seq<int>, count: int, i: nat)
    requires forall k :: 0 <= k < |counts| ==> counts[k] == count
    requires i <= |counts|
    ensures ExclusiveScan(counts)[i] == i * count
  {
    if i > 0 {
      ScanOfRepeated(counts, count, i - 1);
      assert ExclusiveScan(counts)[i] == ExclusiveScan(counts)[i - 1] + counts[i - 1];
      assert (i - 1) * count + count == i * count;
    }
  }

  lemma MultipleBetween(i: nat, m: nat, count: int)
    requires i <= m
    ensures count >= 0 ==> 0 <= i * count <= m * count
    ensures count < 0 ==> m * count <= i * count <= 0
  {
    if count >= 0 {
      assert (m - i) * count >= 0;
    } else {
      assert (m - i) * count <= 0;
    }
  }

  /**
   * computeOffsetsFromConstantCount: an empty ptr returns 0 and is left
   * alone; otherwise ptr[i] = i * count for every entry and the total is
   * (ptr.size() - 1) * count.
   */
  method ComputeOffsetsFromConstantCount(ptr: array<int64>, count: int) returns (total: int64)
    requires ptr.Length > 0 ==> InOffsetRange((ptr.Length - 1) * count)
    modifies ptr
    ensures ptr.Length == 0 ==> total == 0 && ptr[..] == old(ptr[..])
    ensures ptr.Length > 0 ==> total as int == (ptr.Length - 1) * count
    ensures forall i :: 0 <= i < ptr.Length ==> ptr[i] as int == i * count
  {
    var numOffsets := ptr.Length;
    total := 0;
    if numOffsets != 0 {
      var size := numOffsets - 1;
      var i := 0;
      while i < numOffsets
        invariant 0 <= i <= numOffsets
        invariant total as int == (if i <= size then i else size) * count
        invariant forall k :: 0 <= k < i ==> ptr[k] as int == k * count
      {
        MultipleBetween(i, size, count);
        ptr[i] := total;
        if i < size {
          MultipleBetween(i + 1, size, count);
          total := (total as int + count) as int64;
        }
        i := i + 1;
      }
    }
  }
}
