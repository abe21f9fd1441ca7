/**
 * The field-data members of stk::mesh::BulkData (m_num_fields,
 * m_field_meta_data, m_field_raw_data) and the callbacks the buckets invoke
 * on them: laying out a new bucket's storage, swapping an entity's slot
 * between buckets, resetting a removed entity's slot, freeing a bucket,
 * rotating the states of multi-state fields and renumbering buckets.
 *
 * A bucket's storage is one block of bytes; a raw pointer is either NULL or
 * a byte offset into the block of the bucket its meta data belongs to.
 * m_field_meta_data, a flat vector indexed by m_num_fields * rank + field, is
 * held here as nested sequences indexed [rank][field][bucket].
 */
module FieldData {

  datatype Option<T> = None | Some(value: T)

  /**
   * What the callbacks read from a field: the byte size of one scalar
   * (data_traits().stride_of), the field's array rank, its number of states
   * and its initial value, if one was declared.
   */
  datatype FieldInfo = FieldInfo(typeStride: nat, fieldRank: nat, numStates: nat, initialValue: Option<seq<bv8>>)

  /** The restriction find_restriction returns for a field on a bucket's parts. */
  datatype Restriction = Restriction(dimension: nat, strides: seq<nat>)

  /** A raw data pointer: NULL, or a byte offset into its bucket's block. */
  datatype Ptr = Null | At(offset: nat)

  /** FieldMetaData: bytes per entity, the restriction's stride array (empty for NULL) and the data pointer. */
  datatype FieldMeta = FieldMeta(size: nat, strides: seq<nat>, data: Ptr)

  /** An entry of m_field_raw_data: NULL, or the bucket's allocated block. */
  datatype Block = NoData | Data(bytes: seq<bv8>)

  // ---------------------------------------------------------------------
  // Sizing and layout of a new bucket
  // ---------------------------------------------------------------------

  /** The restriction has the stride the field's rank reads. */
  predicate Covers(f: FieldInfo, r: Restriction) {
    r.dimension > 0 && f.fieldRank > 0 ==> f.fieldRank - 1 < |r.strides|
  }

  predicate CoversAll(fields: seq<FieldInfo>, rs: seq<Restriction>) {
    |rs| == |fields| && forall i :: 0 <= i < |fields| ==> Covers(fields[i], rs[i])
  }

  /** Bytes per entity of a field under a restriction; 0 when the field does not exist there. */
  function BytesPerEntity(f: FieldInfo, r: Restriction): nat
    requires Covers(f, r)
  {
    if r.dimension > 0 then
      f.typeStride * (if f.fieldRank > 0 then r.strides[f.fieldRank - 1] else 1)
    else 0
  }

  /** The restrictions looked up for the first n fields on a bucket of the given rank and parts. */
  function Found(find: (nat, nat, seq<nat>) -> Restriction, rank: nat, parts: seq<nat>, n: nat): (rs: seq<Restriction>)
    ensures |rs| == n
  {
    seq(n, i requires 0 <= i => find(i, rank, parts))
  }

  function Sizes(fields: seq<FieldInfo>, rs: seq<Restriction>): (s: seq<nat>)
    requires CoversAll(fields, rs)
    ensures |s| == |fields|
  {
    seq(|fields|, i requires 0 <= i < |fields| => BytesPerEntity(fields[i], rs[i]))
  }

  /** The bytes one field takes in a bucket: its bytes per entity times the capacity. */
  function Span(size: nat, capacity: nat): nat {
    capacity * size
  }

  function Spans(sizes: seq<nat>, capacity: nat): (sp: seq<nat>)
    ensures |sp| == |sizes|
  {
    seq(|sizes|, k requires 0 <= k < |sizes| => Span(sizes[k], capacity))
  }

  /** Where field i's storage starts: the storage of the fields before it, back to back. */
  function Offset(spans: seq<nat>, i: nat): nat
    requires i <= |spans|
  {
    if i == 0 then 0 else Offset(spans, i - 1) + spans[i - 1]
  }

  function Total(sizes: seq<nat>, capacity: nat): nat {
    Offset(Spans(sizes, capacity), |sizes|)
  }

  function Zeros(n: nat): (z: seq<bv8>)
    ensures |z| == n
  {
    seq(n, _ => 0)
  }

  /** The initial value holds at least the bytes one slot copies from it. */
  predicate InitFits(init: Option<seq<bv8>>, size: nat) {
    init.Some? ==> size <= |init.value|
  }

  /** The bytes of one reset slot: the initial value, or zeros when there is none. */
  function SlotInit(init: Option<seq<bv8>>, size: nat): (x: seq<bv8>)
    requires InitFits(init, size)
    ensures |x| == size
  {
    if init.Some? then init.value[..size] else Zeros(size)
  }

  function Repeat(x: seq<bv8>, n: nat): seq<bv8> {
    if n == 0 then [] else Repeat(x, n - 1) + x
  }

  predicate InitsFit(fields: seq<FieldInfo>, sizes: seq<nat>) {
    |sizes| == |fields| && forall i :: 0 <= i < |fields| ==> InitFits(fields[i].initialValue, sizes[i])
  }

  /** The contents of the first i fields' storage in a new bucket: every slot initialised. */
  function Layout(fields: seq<FieldInfo>, sizes: seq<nat>, capacity: nat, i: nat): seq<bv8>
    requires InitsFit(fields, sizes) && i <= |sizes|
  {
    if i == 0 then []
    else Layout(fields, sizes, capacity, i - 1) + Repeat(SlotInit(fields[i - 1].initialValue, sizes[i - 1]), capacity)
  }

  /** The meta data new_bucket_callback records for field i. */
  function NewMeta(sizes: seq<nat>, rs: seq<Restriction>, capacity: nat, i: nat): FieldMeta
    requires |rs| == |sizes| && i < |sizes|
  {
    FieldMeta(sizes[i],
              if sizes[i] > 0 then rs[i].strides else [],
              if Total(sizes, capacity) > 0 && sizes[i] > 0 then At(Offset(Spans(sizes, capacity), i)) else Null)
  }

  function NewMetas(sizes: seq<nat>, rs: seq<Restriction>, capacity: nat): (ms: seq<FieldMeta>)
    requires |rs| == |sizes|
    ensures |ms| == |sizes|
  {
    seq(|sizes|, i requires 0 <= i < |sizes| => NewMeta(sizes, rs, capacity, i))
  }

  /** The block new_bucket_callback records: NULL when no field has storage. */
  function NewBlock(fields: seq<FieldInfo>, sizes: seq<nat>, capacity: nat): Block
    requires InitsFit(fields, sizes)
  {
    if Total(sizes, capacity) > 0 then Data(Layout(fields, sizes, capacity, |sizes|)) else NoData
  }

  /** The byte offset of slot ord in a field's storage that starts at offset o. */
  function SlotStart(o: nat, ord: nat, size: nat): nat {
    o + ord * size
  }

  /** A slot below the capacity ends inside its field's storage. */
  lemma SlotFits(o: nat, ord: nat, capacity: nat, size: nat)
    requires ord < capacity
    ensures SlotStart(o, ord, size) + size <= o + capacity * size
  {
    assert (ord + 1) * size <= capacity * size;
  }

  lemma {:induction false} RepeatLength(x: seq<bv8>, n: nat)
    ensures |Repeat(x, n)| == n * |x|
  {
    if n > 0 {
      RepeatLength(x, n - 1);
      assert n * |x| == (n - 1) * |x| + |x|;
    }
  }

  lemma PrefixSlice(p: seq<bv8>, q: seq<bv8>, a: nat, b: nat)
    requires a <= b <= |p|
    ensures (p + q)[a..b] == p[a..b]
  {
  }

  lemma SliceOfSlice(l: seq<bv8>, a: int, b: int, c: int, d: int)
    requires 0 <= a <= b <= |l| && 0 <= c <= d <= b - a
    ensures l[a..b][c..d] == l[a + c .. a + d]
  {
    assert forall k :: 0 <= k < d - c ==> l[a..b][c..d][k] == l[a + c .. a + d][k];
  }

  /** A piece x of a slice r of l is the matching piece of l. */
  lemma SliceInside(l: seq<bv8>, o: nat, e: nat, r: seq<bv8>, start: nat, x: seq<bv8>)
    requires o <= e <= |l| && l[o..e] == r && start + |x| <= |r| && r[start .. start + |x|] == x
    ensures l[o + start .. o + start + |x|] == x
  {
    SliceOfSlice(l, o, e, start, start + |x|);
  }

  /** Slot j of n repetitions of x is x. */
  lemma {:induction false} RepeatSlot(x: seq<bv8>, n: nat, j: nat)
    requires j < n
    ensures SlotStart(0, j, |x|) + |x| <= |Repeat(x, n)|
    ensures Repeat(x, n)[SlotStart(0, j, |x|) .. SlotStart(0, j, |x|) + |x|] == x
  {
    RepeatLength(x, n);
    SlotFits(0, j, n, |x|);
    RepeatLength(x, n - 1);
    var p := Repeat(x, n - 1);
    if j < n - 1 {
      RepeatSlot(x, n - 1, j);
      PrefixSlice(p, x, SlotStart(0, j, |x|), SlotStart(0, j, |x|) + |x|);
    } else {
      assert SlotStart(0, j, |x|) == |p|;
    }
  }

  /** memset of capacity * size zero bytes writes capacity zero slots. */
  lemma {:induction false} ZerosRepeat(size: nat, n: nat)
    ensures Zeros(n * size) == Repeat(Zeros(size), n)
  {
    if n > 0 {
      ZerosRepeat(size, n - 1);
      assert n * size == (n - 1) * size + size;
      assert Zeros(n * size) == Zeros((n - 1) * size) + Zeros(size);
    }
  }

  lemma {:induction false} LayoutLength(fields: seq<FieldInfo>, sizes: seq<nat>, capacity: nat, i: nat)
    requires InitsFit(fields, sizes) && i <= |sizes|
    ensures |Layout(fields, sizes, capacity, i)| == Offset(Spans(sizes, capacity), i)
  {
    if i > 0 {
      LayoutLength(fields, sizes, capacity, i - 1);
      RepeatLength(SlotInit(fields[i - 1].initialValue, sizes[i - 1]), capacity);
    }
  }

  /**
   * The layout is back to back: field k's storage is the size * capacity
   * bytes from Offset(k) to Offset(k + 1), where field k + 1's begins, and
   * holds capacity initialised slots.
   */
  lemma {:induction false} LayoutField(fields: seq<FieldInfo>, sizes: seq<nat>, capacity: nat, i: nat, k: nat)
    requires InitsFit(fields, sizes) && k < i <= |sizes|
    ensures Offset(Spans(sizes, capacity), k + 1) == Offset(Spans(sizes, capacity), k) + capacity * sizes[k]
    ensures Offset(Spans(sizes, capacity), k + 1) <= |Layout(fields, sizes, capacity, i)|
    ensures Layout(fields, sizes, capacity, i)[Offset(Spans(sizes, capacity), k) .. Offset(Spans(sizes, capacity), k + 1)]
         == Repeat(SlotInit(fields[k].initialValue, sizes[k]), capacity)
  {
    var sp := Spans(sizes, capacity);
    var p := Layout(fields, sizes, capacity, i - 1);
    var q := Repeat(SlotInit(fields[i - 1].initialValue, sizes[i - 1]), capacity);
    assert Layout(fields, sizes, capacity, i) == p + q;
    assert |p| == Offset(sp, i - 1) && |p + q| == Offset(sp, i) by {
      LayoutLength(fields, sizes, capacity, i);
      LayoutLength(fields, sizes, capacity, i - 1);
    }
    if k < i - 1 {
      assert Offset(sp, k + 1) <= Offset(sp, i - 1) by {
        OffsetMono(sp, k + 1, i - 1);
      }
      LayoutField(fields, sizes, capacity, i - 1, k);
      PrefixSlice(p, q, Offset(sp, k), Offset(sp, k + 1));
    } else {
      assert (p + q)[|p|..|p| + |q|] == q;
    }
  }

  /** Field i + 1's storage starts where field i's ends; right at its start when field i has none. */
  lemma OffsetNext(sizes: seq<nat>, capacity: nat, i: nat)
    requires i < |sizes|
    ensures Offset(Spans(sizes, capacity), i + 1) == Offset(Spans(sizes, capacity), i) + Span(sizes[i], capacity)
    ensures sizes[i] == 0 ==> Offset(Spans(sizes, capacity), i + 1) == Offset(Spans(sizes, capacity), i)
  {
  }

  /** Offsets never decrease with the field index. */
  lemma {:induction false} OffsetMono(spans: seq<nat>, i: nat, j: nat)
    requires i <= j <= |spans|
    ensures Offset(spans, i) <= Offset(spans, j)
  {
    if i < j {
      OffsetMono(spans, i, j - 1);
    }
  }

  /**
   * Every slot of every field of a new bucket holds the field's initial
   * value, or zeros when it has none, and lies inside the block.
   */
  lemma SlotsInitialised(fields: seq<FieldInfo>, sizes: seq<nat>, capacity: nat, i: nat, j: nat)
    requires InitsFit(fields, sizes) && i < |sizes| && j < capacity
    ensures SlotStart(Offset(Spans(sizes, capacity), i), j, sizes[i]) + sizes[i] <= Offset(Spans(sizes, capacity), i + 1)
    ensures Offset(Spans(sizes, capacity), i + 1) <= Total(sizes, capacity)
    ensures |Layout(fields, sizes, capacity, |sizes|)| == Total(sizes, capacity)
    ensures Layout(fields, sizes, capacity, |sizes|)
              [SlotStart(Offset(Spans(sizes, capacity), i), j, sizes[i]) .. SlotStart(Offset(Spans(sizes, capacity), i), j, sizes[i]) + sizes[i]]
            == SlotInit(fields[i].initialValue, sizes[i])
  {
    var sp := Spans(sizes, capacity);
    LayoutLength(fields, sizes, capacity, |sizes|);
    OffsetMono(sp, i + 1, |sizes|);
    LayoutField(fields, sizes, capacity, |sizes|, i);
    SlotOfStorage(Layout(fields, sizes, capacity, |sizes|), Offset(sp, i), Offset(sp, i + 1),
                  SlotInit(fields[i].initialValue, sizes[i]), capacity, j);
  }

  /** Slot j of a field's storage, capacity copies of x from o to e, is x. */
  lemma SlotOfStorage(l: seq<bv8>, o: nat, e: nat, x: seq<bv8>, capacity: nat, j: nat)
    requires o <= e <= |l| && l[o..e] == Repeat(x, capacity) && j < capacity
    ensures SlotStart(o, j, |x|) + |x| <= e
    ensures l[SlotStart(o, j, |x|) .. SlotStart(o, j, |x|) + |x|] == x
  {
    RepeatSlot(x, capacity, j);
    assert SlotStart(o, j, |x|) == o + SlotStart(0, j, |x|);
    SliceInside(l, o, e, Repeat(x, capacity), SlotStart(0, j, |x|), x);
  }

  /**
   * Two fields of a new bucket have disjoint storage, and so do two slots of
   * one field: the slots the callbacks address never overlap.
   */
  lemma LayoutSlotsDisjoint(sizes: seq<nat>, rs: seq<Restriction>, capacity: nat, rank: nat, bucket: nat,
                            i: nat, k: nat, ord1: nat, ord2: nat)
    requires |rs| == |sizes| && i < |sizes| && k < |sizes| && ord1 < capacity && ord2 < capacity
    requires sizes[i] > 0 && sizes[k] > 0 && (i != k || ord1 != ord2)
    ensures Disjoint(SlotRegion(NewMetas(sizes, rs, capacity)[i], SlotAddr(rank, bucket, ord1)),
                     SlotRegion(NewMetas(sizes, rs, capacity)[k], SlotAddr(rank, bucket, ord2)))
  {
    var sp := Spans(sizes, capacity);
    OffsetMono(sp, i + 1, |sizes|);
    assert Total(sizes, capacity) > 0;
    var o1, o2 := Offset(sp, i), Offset(sp, k);
    assert SlotRegion(NewMetas(sizes, rs, capacity)[i], SlotAddr(rank, bucket, ord1))
        == Region(rank, bucket, SlotStart(o1, ord1, sizes[i]), sizes[i]);
    assert SlotRegion(NewMetas(sizes, rs, capacity)[k], SlotAddr(rank, bucket, ord2))
        == Region(rank, bucket, SlotStart(o2, ord2, sizes[k]), sizes[k]);
    if i < k {
      OffsetMono(sp, i + 1, k);
      SlotBefore(o1, ord1, capacity, sizes[i], o2, ord2, sizes[k]);
    } else if k < i {
      OffsetMono(sp, k + 1, i);
      SlotBefore(o2, ord2, capacity, sizes[k], o1, ord1, sizes[i]);
    } else {
      SlotsApart(ord1, ord2, sizes[i]);
    }
  }

  /** A slot of a field whose storage ends before o2 ends before any slot that starts at or after o2. */
  lemma SlotBefore(o1: nat, ord1: nat, capacity: nat, s1: nat, o2: nat, ord2: nat, s2: nat)
    requires ord1 < capacity && o1 + capacity * s1 <= o2
    ensures SlotStart(o1, ord1, s1) + s1 <= SlotStart(o2, ord2, s2)
  {
    SlotFits(o1, ord1, capacity, s1);
  }

  /** Two different slots of one field do not overlap. */
  lemma SlotsApart(ord1: nat, ord2: nat, size: nat)
    requires ord1 != ord2
    ensures forall o :: SlotStart(o, ord1, size) + size <= SlotStart(o, ord2, size) ||
                        SlotStart(o, ord2, size) + size <= SlotStart(o, ord1, size)
  {
    if ord1 < ord2 {
      assert (ord1 + 1) * size <= ord2 * size;
    } else {
      assert (ord2 + 1) * size <= ord1 * size;
    }
  }

  // ---------------------------------------------------------------------
  // Bytes of the blocks
  // ---------------------------------------------------------------------

  /** m_field_raw_data: per rank, per bucket. */
  type RawData = seq<seq<Block>>

  /** The bytes [offset, offset + len) of the block of one bucket. */
  datatype Region = Region(rank: nat, bucket: nat, offset: nat, len: nat)

  /** An entity's slot: its bucket's rank and id and its ordinal in the bucket. */
  datatype SlotAddr = SlotAddr(rank: nat, bucket: nat, ord: nat)

  predicate InBlock(raw: RawData, g: Region) {
    g.rank < |raw| && g.bucket < |raw[g.rank]| && raw[g.rank][g.bucket].Data? &&
    g.offset + g.len <= |raw[g.rank][g.bucket].bytes|
  }

  predicate Disjoint(g: Region, h: Region) {
    g.rank != h.rank || g.bucket != h.bucket || g.offset + g.len <= h.offset || h.offset + h.len <= g.offset
  }

  function Read(raw: RawData, g: Region): (x: seq<bv8>)
    requires InBlock(raw, g)
    ensures |x| == g.len
  {
    raw[g.rank][g.bucket].bytes[g.offset .. g.offset + g.len]
  }

  function Write(raw: RawData, g: Region, x: seq<bv8>): RawData
    requires InBlock(raw, g) && |x| == g.len
  {
    var bs := raw[g.rank][g.bucket].bytes;
    raw[g.rank := raw[g.rank][g.bucket := Data(bs[..g.offset] + x + bs[g.offset + g.len ..])]]
  }

  /** The same buckets with the same blocks of the same lengths: only bytes may differ. */
  predicate SameShape(a: RawData, b: RawData) {
    |a| == |b| &&
    forall r :: 0 <= r < |a| ==>
      (|a[r]| == |b[r]| &&
       forall k :: 0 <= k < |a[r]| ==>
         a[r][k].Data? == b[r][k].Data? && (a[r][k].Data? ==> |a[r][k].bytes| == |b[r][k].bytes|))
  }

  lemma SameShapeTrans(a: RawData, b: RawData, c: RawData)
    requires SameShape(a, b) && SameShape(b, c)
    ensures SameShape(a, c)
  {
  }

  lemma WriteShape(raw: RawData, g: Region, x: seq<bv8>)
    requires InBlock(raw, g) && |x| == g.len
    ensures SameShape(raw, Write(raw, g, x))
  {
  }

  /** Reading a region just written yields what was written. */
  lemma ReadOwnWrite(raw: RawData, g: Region, x: seq<bv8>)
    requires InBlock(raw, g) && |x| == g.len
    ensures InBlock(Write(raw, g, x), g)
    ensures Read(Write(raw, g, x), g) == x
  {
    var bs := raw[g.rank][g.bucket].bytes;
    assert (bs[..g.offset] + x + bs[g.offset + g.len ..])[g.offset .. g.offset + g.len] == x;
  }

  /** Writing a region leaves every disjoint region's bytes as they were. */
  lemma ReadOtherWrite(raw: RawData, g: Region, x: seq<bv8>, h: Region)
    requires InBlock(raw, g) && |x| == g.len && InBlock(raw, h) && Disjoint(g, h)
    ensures InBlock(Write(raw, g, x), h)
    ensures Read(Write(raw, g, x), h) == Read(raw, h)
  {
    if g.rank == h.rank && g.bucket == h.bucket {
      var bs := raw[g.rank][g.bucket].bytes;
      var nb := bs[..g.offset] + x + bs[g.offset + g.len ..];
      assert |nb| == |bs|;
      forall t | h.offset <= t < h.offset + h.len
        ensures nb[t] == bs[t]
      {
      }
      assert nb[h.offset .. h.offset + h.len] == bs[h.offset .. h.offset + h.len];
    }
  }

  /** Writing back the bytes a region holds changes nothing. */
  lemma WriteSame(raw: RawData, g: Region)
    requires InBlock(raw, g)
    ensures Write(raw, g, Read(raw, g)) == raw
  {
    var bs := raw[g.rank][g.bucket].bytes;
    assert bs[..g.offset] + bs[g.offset .. g.offset + g.len] + bs[g.offset + g.len ..] == bs;
    assert raw[g.rank][g.bucket := Data(bs)] == raw[g.rank];
    assert raw[g.rank := raw[g.rank]] == raw;
  }

  /** The bytes of one entity's slot of the field whose meta data in that bucket is m. */
  function SlotRegion(m: FieldMeta, a: SlotAddr): Region {
    Region(a.rank, a.bucket, SlotStart(if m.data.At? then m.data.offset else 0, a.ord, m.size), m.size)
  }

  /** The slots of two different fields of one bucket do not overlap. */
  predicate FieldSlotsDisjoint(col: seq<FieldMeta>, a: SlotAddr) {
    forall i, k :: 0 <= i < |col| && 0 <= k < |col| && i != k && col[i].size > 0 && col[k].size > 0 ==>
      Disjoint(SlotRegion(col[i], a), SlotRegion(col[k], a))
  }

  // ---------------------------------------------------------------------
  // remove_entity_callback
  // ---------------------------------------------------------------------

  /**
   * The slot of every field with storage in the bucket has a data pointer,
   * lies in the block, and its field's initial value covers it.
   */
  predicate SlotsReady(raw: RawData, fields: seq<FieldInfo>, col: seq<FieldMeta>, a: SlotAddr) {
    |col| == |fields| &&
    forall i :: 0 <= i < |col| && col[i].size > 0 ==>
      col[i].data.At? && InBlock(raw, SlotRegion(col[i], a)) && InitFits(fields[i].initialValue, col[i].size)
  }

  /** The bytes after the slots of the first i fields were reset, in field order. */
  function ResetSlots(raw: RawData, fields: seq<FieldInfo>, col: seq<FieldMeta>, a: SlotAddr, i: nat): (r: RawData)
    requires SlotsReady(raw, fields, col, a) && i <= |col|
    ensures SameShape(raw, r)
  {
    if i == 0 then raw
    else
      var prev := ResetSlots(raw, fields, col, a, i - 1);
      if col[i - 1].size > 0 then
        WriteShape(prev, SlotRegion(col[i - 1], a), SlotInit(fields[i - 1].initialValue, col[i - 1].size));
        Write(prev, SlotRegion(col[i - 1], a), SlotInit(fields[i - 1].initialValue, col[i - 1].size))
      else prev
  }

  /** After the slots of fields below i were reset, field k's slot holds its initial value (or zeros). */
  lemma {:induction false} ResetSlotsSet(raw: RawData, fields: seq<FieldInfo>, col: seq<FieldMeta>, a: SlotAddr, i: nat, k: nat)
    requires SlotsReady(raw, fields, col, a) && FieldSlotsDisjoint(col, a) && k < i <= |col| && col[k].size > 0
    ensures InBlock(ResetSlots(raw, fields, col, a, i), SlotRegion(col[k], a))
    ensures Read(ResetSlots(raw, fields, col, a, i), SlotRegion(col[k], a)) == SlotInit(fields[k].initialValue, col[k].size)
  {
    var prev := ResetSlots(raw, fields, col, a, i - 1);
    var g := SlotRegion(col[i - 1], a);
    if k == i - 1 {
      ReadOwnWrite(prev, g, SlotInit(fields[k].initialValue, col[k].size));
    } else {
      ResetSlotsSet(raw, fields, col, a, i - 1, k);
      if col[i - 1].size > 0 {
        ReadOtherWrite(prev, g, SlotInit(fields[i - 1].initialValue, col[i - 1].size), SlotRegion(col[k], a));
      }
    }
  }

  /** Resetting the slots of fields below i leaves every region disjoint from them as it was. */
  lemma {:induction false} ResetSlotsFrame(raw: RawData, fields: seq<FieldInfo>, col: seq<FieldMeta>, a: SlotAddr, i: nat, h: Region)
    requires SlotsReady(raw, fields, col, a) && i <= |col| && InBlock(raw, h)
    requires forall k :: 0 <= k < i && col[k].size > 0 ==> Disjoint(SlotRegion(col[k], a), h)
    ensures InBlock(ResetSlots(raw, fields, col, a, i), h)
    ensures Read(ResetSlots(raw, fields, col, a, i), h) == Read(raw, h)
  {
    if i > 0 {
      ResetSlotsFrame(raw, fields, col, a, i - 1, h);
      if col[i - 1].size > 0 {
        var prev := ResetSlots(raw, fields, col, a, i - 1);
        ReadOtherWrite(prev, SlotRegion(col[i - 1], a), SlotInit(fields[i - 1].initialValue, col[i - 1].size), h);
      }
    }
  }

  // ---------------------------------------------------------------------
  // copy_entity_fields_callback
  // ---------------------------------------------------------------------

  /** A field's slots are swapped when the field has storage in both buckets. */
  predicate Swaps(d: FieldMeta, s: FieldMeta) {
    s.size > 0 && d.size > 0
  }

  /**
   * Every field swapped has the same size in both buckets, data pointers in
   * both, and both slots inside their blocks.
   */
  predicate SwapsReady(raw: RawData, dstCol: seq<FieldMeta>, srcCol: seq<FieldMeta>, dst: SlotAddr, src: SlotAddr) {
    |dstCol| == |srcCol| &&
    forall i :: 0 <= i < |srcCol| && Swaps(dstCol[i], srcCol[i]) ==>
      dstCol[i].size == srcCol[i].size && dstCol[i].data.At? && srcCol[i].data.At? &&
      InBlock(raw, SlotRegion(dstCol[i], dst)) && InBlock(raw, SlotRegion(srcCol[i], src))
  }

  /**
   * std::swap_ranges of two ranges of equal length that are identical or
   * disjoint, the only ones it is given (SwapSlotsApart): each range ends up
   * with the bytes the other held.
   */
  function SwapRanges(raw: RawData, d: Region, s: Region): (r: RawData)
    requires InBlock(raw, d) && InBlock(raw, s) && d.len == s.len
    ensures SameShape(raw, r)
  {
    WriteShape(raw, d, Read(raw, s));
    var mid := Write(raw, d, Read(raw, s));
    WriteShape(mid, s, Read(raw, d));
    SameShapeTrans(raw, mid, Write(mid, s, Read(raw, d)));
    Write(mid, s, Read(raw, d))
  }

  /**
   * Swapping two ranges that are identical or disjoint exchanges their bytes
   * and leaves every region disjoint from both as it was.
   */
  lemma SwapRangesEffect(raw: RawData, d: Region, s: Region)
    requires InBlock(raw, d) && InBlock(raw, s) && d.len == s.len && (d == s || Disjoint(d, s))
    ensures InBlock(SwapRanges(raw, d, s), d) && InBlock(SwapRanges(raw, d, s), s)
    ensures Read(SwapRanges(raw, d, s), d) == Read(raw, s)
    ensures Read(SwapRanges(raw, d, s), s) == Read(raw, d)
    ensures forall h :: InBlock(raw, h) && Disjoint(d, h) && Disjoint(s, h) ==>
      InBlock(SwapRanges(raw, d, s), h) && Read(SwapRanges(raw, d, s), h) == Read(raw, h)
  {
    var mid := Write(raw, d, Read(raw, s));
    if d == s {
      WriteSame(raw, d);
      WriteSame(raw, d);
    } else {
      ReadOwnWrite(raw, d, Read(raw, s));
      ReadOtherWrite(raw, d, Read(raw, s), s);
      ReadOwnWrite(mid, s, Read(raw, d));
      ReadOtherWrite(mid, s, Read(raw, d), d);
    }
    forall h | InBlock(raw, h) && Disjoint(d, h) && Disjoint(s, h)
      ensures InBlock(SwapRanges(raw, d, s), h) && Read(SwapRanges(raw, d, s), h) == Read(raw, h)
    {
      ReadOtherWrite(raw, d, Read(raw, s), h);
      ReadOtherWrite(mid, s, Read(raw, d), h);
    }
  }

  /**
   * One field's two slots are identical (the same entity of the same bucket)
   * or disjoint: in one bucket a field has one size and one pointer, and in
   * two buckets the slots lie in two blocks.
   */
  lemma SwapSlotsApart(dm: FieldMeta, sm: FieldMeta, dst: SlotAddr, src: SlotAddr)
    requires dst.rank == src.rank && dst.bucket == src.bucket ==> dm == sm
    ensures SlotRegion(dm, dst) == SlotRegion(sm, src) || Disjoint(SlotRegion(dm, dst), SlotRegion(sm, src))
  {
    if dst.rank == src.rank && dst.bucket == src.bucket && dst.ord != src.ord {
      SlotsApart(dst.ord, src.ord, dm.size);
    }
  }

  /** The slots two different swapped fields touch do not overlap. */
  predicate SwapSlotsDisjoint(dstCol: seq<FieldMeta>, srcCol: seq<FieldMeta>, dst: SlotAddr, src: SlotAddr) {
    |dstCol| == |srcCol| &&
    forall i, k :: 0 <= i < |srcCol| && 0 <= k < |srcCol| && i != k &&
                   Swaps(dstCol[i], srcCol[i]) && Swaps(dstCol[k], srcCol[k]) ==>
      Disjoint(SlotRegion(dstCol[i], dst), SlotRegion(dstCol[k], dst)) &&
      Disjoint(SlotRegion(srcCol[i], src), SlotRegion(srcCol[k], src)) &&
      Disjoint(SlotRegion(dstCol[i], dst), SlotRegion(srcCol[k], src))
  }

  /** The bytes after the slots of the first i fields were swapped, in field order. */
  function SwapSlots(raw: RawData, dstCol: seq<FieldMeta>, srcCol: seq<FieldMeta>, dst: SlotAddr, src: SlotAddr, i: nat): (r: RawData)
    requires SwapsReady(raw, dstCol, srcCol, dst, src) && i <= |srcCol|
    ensures SameShape(raw, r)
  {
    if i == 0 then raw
    else
      var prev := SwapSlots(raw, dstCol, srcCol, dst, src, i - 1);
      if Swaps(dstCol[i - 1], srcCol[i - 1]) then
        var r := SwapRanges(prev, SlotRegion(dstCol[i - 1], dst), SlotRegion(srcCol[i - 1], src));
        SameShapeTrans(raw, prev, r);
        r
      else prev
  }

  /** Swapping the slots of fields below i leaves every region disjoint from them as it was. */
  lemma {:induction false} SwapSlotsFrame(raw: RawData, dstCol: seq<FieldMeta>, srcCol: seq<FieldMeta>, dst: SlotAddr, src: SlotAddr,
                                          i: nat, h: Region)
    requires SwapsReady(raw, dstCol, srcCol, dst, src) && i <= |srcCol| && InBlock(raw, h)
    requires (dst.rank == src.rank && dst.bucket == src.bucket) ==> dstCol == srcCol
    requires forall k :: 0 <= k < i && Swaps(dstCol[k], srcCol[k]) ==>
      Disjoint(SlotRegion(dstCol[k], dst), h) && Disjoint(SlotRegion(srcCol[k], src), h)
    ensures InBlock(SwapSlots(raw, dstCol, srcCol, dst, src, i), h)
    ensures Read(SwapSlots(raw, dstCol, srcCol, dst, src, i), h) == Read(raw, h)
  {
    if i > 0 {
      SwapSlotsFrame(raw, dstCol, srcCol, dst, src, i - 1, h);
      if Swaps(dstCol[i - 1], srcCol[i - 1]) {
        var prev := SwapSlots(raw, dstCol, srcCol, dst, src, i - 1);
        SwapSlotsApart(dstCol[i - 1], srcCol[i - 1], dst, src);
        SwapRangesEffect(prev, SlotRegion(dstCol[i - 1], dst), SlotRegion(srcCol[i - 1], src));
      }
    }
  }

  /**
   * After the slots of fields below i were swapped, each swapped field's
   * destination slot holds the bytes its source slot held, and the other way
   * round: the callback exchanges, it does not copy.
   */
  lemma {:induction false} SwapSlotsSet(raw: RawData, dstCol: seq<FieldMeta>, srcCol: seq<FieldMeta>, dst: SlotAddr, src: SlotAddr,
                                        i: nat, k: nat)
    requires SwapsReady(raw, dstCol, srcCol, dst, src) && SwapSlotsDisjoint(dstCol, srcCol, dst, src)
    requires (dst.rank == src.rank && dst.bucket == src.bucket) ==> dstCol == srcCol
    requires k < i <= |srcCol| && Swaps(dstCol[k], srcCol[k])
    ensures InBlock(SwapSlots(raw, dstCol, srcCol, dst, src, i), SlotRegion(dstCol[k], dst))
    ensures InBlock(SwapSlots(raw, dstCol, srcCol, dst, src, i), SlotRegion(srcCol[k], src))
    ensures Read(SwapSlots(raw, dstCol, srcCol, dst, src, i), SlotRegion(dstCol[k], dst)) == Read(raw, SlotRegion(srcCol[k], src))
    ensures Read(SwapSlots(raw, dstCol, srcCol, dst, src, i), SlotRegion(srcCol[k], src)) == Read(raw, SlotRegion(dstCol[k], dst))
  {
    var prev := SwapSlots(raw, dstCol, srcCol, dst, src, i - 1);
    var d, s := SlotRegion(dstCol[k], dst), SlotRegion(srcCol[k], src);
    var d1, s1 := SlotRegion(dstCol[i - 1], dst), SlotRegion(srcCol[i - 1], src);
    if k == i - 1 {
      SwapSlotsFrame(raw, dstCol, srcCol, dst, src, i - 1, d);
      SwapSlotsFrame(raw, dstCol, srcCol, dst, src, i - 1, s);
      SwapSlotsApart(dstCol[k], srcCol[k], dst, src);
      SwapRangesEffect(prev, d, s);
    } else {
      SwapSlotsSet(raw, dstCol, srcCol, dst, src, i - 1, k);
      if Swaps(dstCol[i - 1], srcCol[i - 1]) {
        SwapSlotsApart(dstCol[i - 1], srcCol[i - 1], dst, src);
        assert Disjoint(d, s1);
        SwapRangesEffect(prev, d1, s1);
      }
    }
  }

  // ---------------------------------------------------------------------
  // update_field_data_states
  // ---------------------------------------------------------------------

  /**
   * From field k on, the fields come in runs, one per multi-state field:
   * each run starts with a field whose state count is its length.
   */
  predicate StateGroupsFrom(fields: seq<FieldInfo>, k: nat)
    requires k <= |fields|
    decreases |fields| - k
  {
    k == |fields| ||
    (fields[k].numStates >= 1 && k + fields[k].numStates <= |fields| &&
     StateGroupsFrom(fields, k + fields[k].numStates))
  }

  /** The first field of the run that holds field i, walking the runs from field k. */
  function GroupStart(fields: seq<FieldInfo>, k: nat, i: nat): (g: nat)
    requires k <= i < |fields| && StateGroupsFrom(fields, k)
    ensures k <= g <= i < g + fields[g].numStates <= |fields| && StateGroupsFrom(fields, g)
    decreases |fields| - k
  {
    if i < k + fields[k].numStates then k else GroupStart(fields, k + fields[k].numStates, i)
  }

  /** Two fields of one run have the same run start. */
  lemma {:induction false} SameGroup(fields: seq<FieldInfo>, k: nat, i: nat, j: nat)
    requires k <= i < |fields| && StateGroupsFrom(fields, k)
    requires GroupStart(fields, k, i) <= j < GroupStart(fields, k, i) + fields[GroupStart(fields, k, i)].numStates
    ensures GroupStart(fields, k, j) == GroupStart(fields, k, i)
    decreases |fields| - k
  {
    if i >= k + fields[k].numStates {
      SameGroup(fields, k + fields[k].numStates, i, j);
    }
  }

  /** Every one of the fields has nb buckets of meta data. */
  predicate Rect(m: seq<seq<FieldMeta>>, nb: nat) {
    forall i :: 0 <= i < |m| ==> |m[i]| == nb
  }

  /**
   * The data pointer of field i in bucket b after one rotation of one rank's
   * meta data: when the run's first state has storage in the bucket, state s
   * takes the pointer state s - 1 had and state 0 the last state's.
   */
  function RotatedData(fields: seq<FieldInfo>, m: seq<seq<FieldMeta>>, nb: nat, i: nat, b: nat): Ptr
    requires StateGroupsFrom(fields, 0) && |m| == |fields| && Rect(m, nb) && i < |m| && b < nb
  {
    var g := GroupStart(fields, 0, i);
    var n := fields[g].numStates;
    if n > 1 && m[g][b].size > 0 then m[if i == g then g + n - 1 else i - 1][b].data
    else m[i][b].data
  }

  /** One rank's meta data after update_field_data_states: only data pointers move. */
  function RotateStates(fields: seq<FieldInfo>, m: seq<seq<FieldMeta>>, nb: nat): (r: seq<seq<FieldMeta>>)
    requires StateGroupsFrom(fields, 0) && |m| == |fields| && Rect(m, nb)
    ensures |r| == |m| && Rect(r, nb)
  {
    seq(|m|, i requires 0 <= i < |m| =>
      seq(nb, b requires 0 <= b < nb => m[i][b].(data := RotatedData(fields, m, nb, i, b))))
  }

  /** The inverse rotation: state s takes the pointer of state s + 1 and the last state state 0's. */
  function UnrotatedData(fields: seq<FieldInfo>, m: seq<seq<FieldMeta>>, nb: nat, i: nat, b: nat): Ptr
    requires StateGroupsFrom(fields, 0) && |m| == |fields| && Rect(m, nb) && i < |m| && b < nb
  {
    var g := GroupStart(fields, 0, i);
    var n := fields[g].numStates;
    if n > 1 && m[g][b].size > 0 then m[if i == g + n - 1 then g else i + 1][b].data
    else m[i][b].data
  }

  function UnrotateStates(fields: seq<FieldInfo>, m: seq<seq<FieldMeta>>, nb: nat): (r: seq<seq<FieldMeta>>)
    requires StateGroupsFrom(fields, 0) && |m| == |fields| && Rect(m, nb)
    ensures |r| == |m| && Rect(r, nb)
  {
    seq(|m|, i requires 0 <= i < |m| =>
      seq(nb, b requires 0 <= b < nb => m[i][b].(data := UnrotatedData(fields, m, nb, i, b))))
  }

  /** Every rank's meta data after update_field_data_states. */
  function RotateAll(fields: seq<FieldInfo>, ranks: nat, meta: seq<seq<seq<FieldMeta>>>, raw: RawData): (r: seq<seq<seq<FieldMeta>>>)
    requires StateGroupsFrom(fields, 0) && |meta| == |raw| == ranks
    requires forall q :: 0 <= q < ranks ==> |meta[q]| == |fields| && Rect(meta[q], |raw[q]|)
    ensures |r| == ranks
  {
    seq(ranks, q requires 0 <= q < ranks => RotateStates(fields, meta[q], |raw[q]|))
  }

  /**
   * Rotation loses no pointer: rotating the other way restores every
   * field's meta data.
   */
  lemma RotateUndone(fields: seq<FieldInfo>, m: seq<seq<FieldMeta>>, nb: nat)
    requires StateGroupsFrom(fields, 0) && |m| == |fields| && Rect(m, nb)
    ensures UnrotateStates(fields, RotateStates(fields, m, nb), nb) == m
  {
    var r := RotateStates(fields, m, nb);
    forall i, b | 0 <= i < |m| && 0 <= b < nb
      ensures UnrotatedData(fields, r, nb, i, b) == m[i][b].data
    {
      var g := GroupStart(fields, 0, i);
      var n := fields[g].numStates;
      if n > 1 && m[g][b].size > 0 {
        var j := if i == g + n - 1 then g else i + 1;
        SameGroup(fields, 0, i, j);
        assert r[g][b].size == m[g][b].size;
      }
    }
    var u := UnrotateStates(fields, r, nb);
    forall i | 0 <= i < |m|
      ensures u[i] == m[i]
    {
      assert forall b :: 0 <= b < nb ==> u[i][b] == m[i][b];
    }
  }

  // ---------------------------------------------------------------------
  // reorder_buckets_callback
  // ---------------------------------------------------------------------

  /** Entry m of the result is entry idMap[m] of xs. */
  function Permute<T>(xs: seq<T>, idMap: seq<nat>): (ys: seq<T>)
    requires forall m :: 0 <= m < |idMap| ==> idMap[m] < |xs|
    ensures |ys| == |idMap|
  {
    seq(|idMap|, m requires 0 <= m < |idMap| => xs[idMap[m]])
  }

  /** Every field's meta data vector reordered alike. */
  function PermuteAll<T>(xss: seq<seq<T>>, idMap: seq<nat>): (yss: seq<seq<T>>)
    requires forall i, m :: 0 <= i < |xss| && 0 <= m < |idMap| ==> idMap[m] < |xss[i]|
    ensures |yss| == |xss|
  {
    seq(|xss|, i requires 0 <= i < |xss| => Permute(xss[i], idMap))
  }

  /** idMap names n distinct old bucket ids below n. */
  predicate IsPermutation(idMap: seq<nat>, n: nat) {
    |idMap| == n &&
    (forall m :: 0 <= m < n ==> idMap[m] < n) &&
    (forall m1, m2 :: 0 <= m1 < m2 < n ==> idMap[m1] != idMap[m2])
  }

  /**
   * Reordering by a permutation neither loses nor duplicates an entry: every
   * bucket's storage is still there exactly as often as before.
   */
  lemma {:induction false} PermuteKeepsMultiset<T>(xs: seq<T>, idMap: seq<nat>)
    requires IsPermutation(idMap, |xs|)
    ensures multiset(Permute(xs, idMap)) == multiset(xs)
  {
    var n := |xs|;
    if n > 0 {
      var j := idMap[n - 1];
      var xs' := xs[..j] + xs[j + 1..];
      var idMap' := seq(n - 1, m requires 0 <= m < n - 1 => if idMap[m] < j then idMap[m] else idMap[m] - 1);
      forall m1, m2 | 0 <= m1 < m2 < n - 1
        ensures idMap'[m1] != idMap'[m2]
      {
        assert idMap[m1] != idMap[m2];
      }
      PermuteKeepsMultiset(xs', idMap');
      var ys := Permute(xs, idMap);
      assert Permute(xs', idMap') == ys[..n - 1];
      assert ys == ys[..n - 1] + [xs[j]];
      assert xs == xs[..j] + [xs[j]] + xs[j + 1..];
    }
  }

  // ---------------------------------------------------------------------
  // The state the callbacks share
  // ---------------------------------------------------------------------

  /**
   * Before the first bucket m_num_fields is -1 and there is no meta data and
   * no bucket; afterwards every rank has one meta data vector per field, each
   * with one entry per bucket of the rank, and every field's initial value
   * covers its slots.
   */
  predicate Shaped(fields: seq<FieldInfo>, ranks: nat, numFields: int, meta: seq<seq<seq<FieldMeta>>>, raw: RawData) {
    |raw| == ranks &&
    (numFields == -1 ==> meta == [] && forall r :: 0 <= r < ranks ==> raw[r] == []) &&
    (numFields != -1 ==>
       numFields == |fields| && |meta| == ranks &&
       forall r :: 0 <= r < ranks ==> |meta[r]| == |fields| && Rect(meta[r], |raw[r]|)) &&
    InitsCovered(fields, meta)
  }

  predicate InitsCovered(fields: seq<FieldInfo>, meta: seq<seq<seq<FieldMeta>>>) {
    forall r, i, b :: 0 <= r < |meta| && 0 <= i < |meta[r]| && i < |fields| && 0 <= b < |meta[r][i]| ==>
      InitFits(fields[i].initialValue, meta[r][i][b].size)
  }

  /** The meta data of one bucket, field by field. */
  function Column(meta: seq<seq<seq<FieldMeta>>>, r: nat, b: nat): (col: seq<FieldMeta>)
    requires r < |meta| && forall i :: 0 <= i < |meta[r]| ==> b < |meta[r][i]|
    ensures |col| == |meta[r]|
  {
    seq(|meta[r]|, i requires 0 <= i < |meta[r]| => meta[r][i][b])
  }

  /** col is bucket b's meta data in rank r, field by field. */
  predicate ColumnAt(meta: seq<seq<seq<FieldMeta>>>, r: nat, b: nat, col: seq<FieldMeta>) {
    r < |meta| && |meta[r]| == |col| && forall i :: 0 <= i < |col| ==> b < |meta[r][i]| && meta[r][i][b] == col[i]
  }

  lemma ColumnIsAt(meta: seq<seq<seq<FieldMeta>>>, r: nat, b: nat)
    requires r < |meta| && forall i :: 0 <= i < |meta[r]| ==> b < |meta[r][i]|
    ensures ColumnAt(meta, r, b, Column(meta, r, b))
  {
  }

  /** The meta data after the first new_bucket_callback sized it: one empty vector per rank and field. */
  function Prepared(fields: seq<FieldInfo>, ranks: nat, numFields: int, meta: seq<seq<seq<FieldMeta>>>): seq<seq<seq<FieldMeta>>> {
    if numFields == -1 then seq(ranks, _ => seq(|fields|, _ => [])) else meta
  }

  /** Fields below i of the rank have col's entry appended. */
  function PushedUpTo(meta: seq<seq<seq<FieldMeta>>>, rank: nat, col: seq<FieldMeta>, i: nat): seq<seq<seq<FieldMeta>>>
    requires rank < |meta| && |col| == |meta[rank]|
  {
    meta[rank := seq(|meta[rank]|, k requires 0 <= k < |meta[rank]| => if k < i then meta[rank][k] + [col[k]] else meta[rank][k])]
  }

  function Pushed(meta: seq<seq<seq<FieldMeta>>>, rank: nat, col: seq<FieldMeta>): seq<seq<seq<FieldMeta>>>
    requires rank < |meta| && |col| == |meta[rank]|
  {
    PushedUpTo(meta, rank, col, |col|)
  }

  /** The meta data the sizing loop records: sizes and strides, no data pointer yet. */
  function SizedMetas(sizes: seq<nat>, rs: seq<Restriction>): (ms: seq<FieldMeta>)
    requires |rs| == |sizes|
    ensures |ms| == |sizes|
  {
    seq(|sizes|, i requires 0 <= i < |sizes| => FieldMeta(sizes[i], if sizes[i] > 0 then rs[i].strides else [], Null))
  }

  /** The first i entries from a, the rest from b: a loop that has replaced i entries. */
  function Mix<T>(a: seq<T>, b: seq<T>, i: nat): (c: seq<T>)
    requires |a| == |b|
    ensures |c| == |a|
  {
    seq(|a|, k requires 0 <= k < |a| => if k < i then a[k] else b[k])
  }

  /** Bytes destroy_bucket_callback hands back: size * capacity for every field with a data pointer. */
  function FreedBytes(col: seq<FieldMeta>, capacity: nat): nat {
    if col == [] then 0
    else FreedBytes(col[..|col| - 1], capacity) + (if col[|col| - 1].data.At? then col[|col| - 1].size * capacity else 0)
  }

  /**
   * A rank's meta data after destroy_bucket_callback visited the fields
   * below i: every one with a data pointer has size 0 and NULL in bucket b.
   */
  function Cleared(m: seq<seq<FieldMeta>>, b: nat, i: nat): (r: seq<seq<FieldMeta>>)
    requires forall k :: 0 <= k < |m| ==> b < |m[k]|
    ensures |r| == |m|
  {
    seq(|m|, k requires 0 <= k < |m| =>
      if k < i && m[k][b].data.At? then m[k][b := m[k][b].(size := 0, data := Null)] else m[k])
  }

  lemma RepeatEmpty(n: nat)
    ensures Repeat([], n) == []
  {
  }

  /**
   * destroy_bucket_callback hands back exactly the bytes new_bucket_callback
   * allocated for the bucket.
   */
  lemma {:induction false} FreedMatchesAllocated(sizes: seq<nat>, rs: seq<Restriction>, capacity: nat, i: nat)
    requires |rs| == |sizes| && i <= |sizes| && Total(sizes, capacity) > 0
    ensures FreedBytes(NewMetas(sizes, rs, capacity)[..i], capacity) == Offset(Spans(sizes, capacity), i)
  {
    if i > 0 {
      var ms := NewMetas(sizes, rs, capacity);
      assert ms[..i][..i - 1] == ms[..i - 1];
      FreedMatchesAllocated(sizes, rs, capacity, i - 1);
      assert sizes[i - 1] * capacity == capacity * sizes[i - 1];
    }
  }

  class FieldDataManager {
    /** mesh_meta_data().get_fields(), fixed once the first bucket exists. */
    const fieldSet: seq<FieldInfo>
    /** mesh_meta_data().entity_rank_count() */
    const rankCount: nat
    /** m_num_fields: -1 until the first bucket is created. */
    var numFields: int
    /** m_field_meta_data, indexed [rank][field][bucket]. */
    var metaData: seq<seq<seq<FieldMeta>>>
    /** m_field_raw_data, indexed [rank][bucket]. */
    var rawData: RawData

    ghost predicate Valid()
      reads this
    {
      Shaped(fieldSet, rankCount, numFields, metaData, rawData)
    }

    constructor (fields: seq<FieldInfo>, ranks: nat)
      ensures fieldSet == fields && rankCount == ranks
      ensures numFields == -1 && metaData == [] && rawData == seq(ranks, _ => [])
      ensures Valid()
    {
      fieldSet, rankCount := fields, ranks;
      numFields := -1;
      metaData := [];
      rawData := seq(ranks, _ => []);
    }

    /**
     * new_bucket_callback: on the first call the meta data is sized for the
     * fields; then every field gets one more meta data entry for the bucket
     * and the rank one more block, laid out and initialised by Layout (NULL
     * when no field has storage there).
     */
    method NewBucket(rank: nat, parts: seq<nat>, capacity: nat, find: (nat, nat, seq<nat>) -> Restriction)
      requires Valid() && rank < rankCount
      requires CoversAll(fieldSet, Found(find, rank, parts, |fieldSet|))
      requires InitsFit(fieldSet, Sizes(fieldSet, Found(find, rank, parts, |fieldSet|)))
      modifies this
      ensures Valid() && numFields == |fieldSet|
      ensures metaData == Pushed(Prepared(fieldSet, rankCount, old(numFields), old(metaData)), rank,
                                 NewMetas(Sizes(fieldSet, Found(find, rank, parts, |fieldSet|)), Found(find, rank, parts, |fieldSet|), capacity))
      ensures rawData == old(rawData)[rank := old(rawData)[rank] +
                           [NewBlock(fieldSet, Sizes(fieldSet, Found(find, rank, parts, |fieldSet|)), capacity)]]
    {
      if numFields == -1 {
        numFields := |fieldSet|;
        metaData := seq(rankCount, _ => seq(|fieldSet|, _ => []));
      }
      ghost var rs := Found(find, rank, parts, |fieldSet|);
      ghost var sizes := Sizes(fieldSet, rs);
      ghost var m0 := metaData;
      var total := SizeFields(rank, parts, capacity, find);
      if total > 0 {
        var block := LayOutFields(rank, capacity, sizes, rs, m0);
        rawData := rawData[rank := rawData[rank] + [Data(block)]];
      } else {
        assert Total(sizes, capacity) == 0;
        rawData := rawData[rank := rawData[rank] + [NoData]];
        PushedNull(m0, rank, sizes, rs, capacity);
      }
      NewBucketShaped(fieldSet, rankCount, old(rawData), rawData, m0, metaData, rank, sizes, rs, capacity);
    }

    /** The sizing loop of new_bucket_callback: returns the bucket's total bytes. */
    method SizeFields(rank: nat, parts: seq<nat>, capacity: nat, find: (nat, nat, seq<nat>) -> Restriction) returns (total: nat)
      requires rank < |metaData| && numFields == |fieldSet| == |metaData[rank]|
      requires CoversAll(fieldSet, Found(find, rank, parts, |fieldSet|))
      modifies this`metaData
      ensures total == Total(Sizes(fieldSet, Found(find, rank, parts, |fieldSet|)), capacity)
      ensures metaData == Pushed(old(metaData), rank,
                                 SizedMetas(Sizes(fieldSet, Found(find, rank, parts, |fieldSet|)), Found(find, rank, parts, |fieldSet|)))
    {
      ghost var rs := Found(find, rank, parts, |fieldSet|);
      ghost var sizes := Sizes(fieldSet, rs);
      ghost var sized := SizedMetas(sizes, rs);
      total := 0;
      var i := 0;
      PushNone(metaData, rank, sized);
      while i < numFields
        invariant 0 <= i <= numFields
        invariant total == Offset(Spans(sizes, capacity), i)
        invariant metaData == PushedUpTo(old(metaData), rank, sized, i)
      {
        var fm := FieldMeta(0, [], Null);
        var field := fieldSet[i];
        var restriction := find(i, rank, parts);
        assert restriction == rs[i];
        if restriction.dimension > 0 {
          var bytes := field.typeStride * (if field.fieldRank > 0 then restriction.strides[field.fieldRank - 1] else 1);
          if bytes > 0 {
            fm := fm.(size := bytes, strides := restriction.strides);
            total := total + Span(bytes, capacity);
          }
        }
        assert fm == sized[i];
        OffsetNext(sizes, capacity, i);
        PushStep(old(metaData), rank, sized, i);
        metaData := metaData[rank := metaData[rank][i := metaData[rank][i] + [fm]]];
        i := i + 1;
      }
    }

    /**
     * The allocation loop of new_bucket_callback: sets each sized field's data
     * pointer to the next free offset and initialises its capacity slots.
     * The block is built by appending: the loop writes every byte of the
     * allocation exactly once, in increasing order.
     */
    method LayOutFields(rank: nat, capacity: nat, ghost sizes: seq<nat>, ghost rs: seq<Restriction>, ghost m0: seq<seq<seq<FieldMeta>>>)
      returns (block: seq<bv8>)
      requires rank < |m0| && numFields == |fieldSet| == |m0[rank]| == |sizes| == |rs|
      requires InitsFit(fieldSet, sizes) && Total(sizes, capacity) > 0
      requires metaData == Pushed(m0, rank, SizedMetas(sizes, rs))
      modifies this`metaData
      ensures block == Layout(fieldSet, sizes, capacity, |sizes|)
      ensures metaData == Pushed(m0, rank, NewMetas(sizes, rs, capacity))
    {
      ghost var sp := Spans(sizes, capacity);
      ghost var newMetas := NewMetas(sizes, rs, capacity);
      ghost var sized := SizedMetas(sizes, rs);
      block := [];
      var offset := 0;
      var i := 0;
      assert Mix(newMetas, sized, 0) == sized;
      while i < numFields
        invariant 0 <= i <= numFields
        invariant offset == Offset(sp, i)
        invariant block == Layout(fieldSet, sizes, capacity, i)
        invariant metaData == Pushed(m0, rank, Mix(newMetas, sized, i))
      {
        offset, block := PlaceField(rank, i, capacity, offset, block, sizes, rs, m0);
        i := i + 1;
      }
      assert Mix(newMetas, sized, i) == newMetas;
    }

    /** One round of the allocation loop: field i's pointer and slots. */
    method PlaceField(rank: nat, i: nat, capacity: nat, offset: nat, block: seq<bv8>,
                      ghost sizes: seq<nat>, ghost rs: seq<Restriction>, ghost m0: seq<seq<seq<FieldMeta>>>)
      returns (offset': nat, block': seq<bv8>)
      requires rank < |m0| && |fieldSet| == |m0[rank]| == |sizes| == |rs| && i < |sizes|
      requires InitsFit(fieldSet, sizes) && Total(sizes, capacity) > 0
      requires offset == Offset(Spans(sizes, capacity), i)
      requires block == Layout(fieldSet, sizes, capacity, i)
      requires metaData == Pushed(m0, rank, Mix(NewMetas(sizes, rs, capacity), SizedMetas(sizes, rs), i))
      modifies this`metaData
      ensures offset' == Offset(Spans(sizes, capacity), i + 1)
      ensures block' == Layout(fieldSet, sizes, capacity, i + 1)
      ensures metaData == Pushed(m0, rank, Mix(NewMetas(sizes, rs, capacity), SizedMetas(sizes, rs), i + 1))
    {
      ghost var newMetas := NewMetas(sizes, rs, capacity);
      ghost var sized := SizedMetas(sizes, rs);
      LastSized(m0, rank, newMetas, sized, i);
      OffsetNext(sizes, capacity, i);
      var last := |metaData[rank][i]| - 1;
      var fm := metaData[rank][i][last];
      offset', block' := offset, block;
      if fm.size > 0 {
        fm := fm.(data := At(offset));
        assert fm == newMetas[i];
        SetLastStep(m0, rank, newMetas, sized, i);
        metaData := metaData[rank := metaData[rank][i := metaData[rank][i][last := fm]]];
        offset' := offset + Span(fm.size, capacity);
        block' := InitField(block, fieldSet[i].initialValue, fm.size, capacity);
      } else {
        KeepLastStep(m0, rank, newMetas, sized, i);
        RepeatEmpty(capacity);
      }
    }

    /** Fills one field's capacity slots: a copy of the initial value per slot, or one memset to zero. */
    static method InitField(block: seq<bv8>, init: Option<seq<bv8>>, size: nat, capacity: nat) returns (r: seq<bv8>)
      requires InitFits(init, size)
      ensures r == block + Repeat(SlotInit(init, size), capacity)
    {
      match init
      case Some(v) =>
        r := block;
        var j := 0;
        while j < capacity
          invariant j <= capacity
          invariant r == block + Repeat(v[..size], j)
        {
          r := r + v[..size];
          j := j + 1;
        }
      case None =>
        r := block + Zeros(capacity * size);
        ZerosRepeat(size, capacity);
    }

    /**
     * copy_entity_fields_callback: for every field with storage in both
     * buckets, std::swap_ranges exchanges the destination slot with the
     * source slot (SwapSlotsSet says what each slot then holds).
     */
    method CopyEntityFields(dst: SlotAddr, src: SlotAddr)
      requires Valid() && dst.rank < rankCount && src.rank < rankCount
      requires dst.bucket < |rawData[dst.rank]| && src.bucket < |rawData[src.rank]|
      requires SwapsReady(rawData, Column(metaData, dst.rank, dst.bucket), Column(metaData, src.rank, src.bucket), dst, src)
      modifies this`rawData
      ensures Valid()
      ensures rawData == SwapSlots(old(rawData), Column(metaData, dst.rank, dst.bucket), Column(metaData, src.rank, src.bucket),
                                   dst, src, |fieldSet|)
    {
      ghost var dstCol := Column(metaData, dst.rank, dst.bucket);
      ghost var srcCol := Column(metaData, src.rank, src.bucket);
      ColumnIsAt(metaData, dst.rank, dst.bucket);
      ColumnIsAt(metaData, src.rank, src.bucket);
      SwapAllSlots(dst, src, dstCol, srcCol);
      ShapedSameShape(fieldSet, rankCount, numFields, metaData, old(rawData), rawData);
    }

    /** The loop of copy_entity_fields_callback, over the fields of the mesh. */
    method SwapAllSlots(dst: SlotAddr, src: SlotAddr, ghost dstCol: seq<FieldMeta>, ghost srcCol: seq<FieldMeta>)
      requires numFields == |fieldSet| == |srcCol| && SwapsReady(rawData, dstCol, srcCol, dst, src)
      requires ColumnAt(metaData, dst.rank, dst.bucket, dstCol) && ColumnAt(metaData, src.rank, src.bucket, srcCol)
      modifies this`rawData
      ensures rawData == SwapSlots(old(rawData), dstCol, srcCol, dst, src, |fieldSet|)
    {
      var i := 0;
      while i < numFields
        invariant 0 <= i <= numFields
        invariant rawData == SwapSlots(old(rawData), dstCol, srcCol, dst, src, i)
      {
        SwapSlot(dst, src, i, dstCol, srcCol, old(rawData));
        i := i + 1;
      }
    }

    /**
     * remove_entity_callback: every field with storage in the bucket has the
     * entity's slot reset to its initial value, or zeroed when it has none
     * (ResetSlotsSet says what each slot then holds).
     */
    method RemoveEntitySlot(a: SlotAddr)
      requires Valid() && a.rank < rankCount && a.bucket < |rawData[a.rank]|
      requires SlotsReady(rawData, fieldSet, Column(metaData, a.rank, a.bucket), a)
      modifies this`rawData
      ensures Valid()
      ensures rawData == ResetSlots(old(rawData), fieldSet, Column(metaData, a.rank, a.bucket), a, |fieldSet|)
    {
      ghost var col := Column(metaData, a.rank, a.bucket);
      ColumnIsAt(metaData, a.rank, a.bucket);
      ResetAllSlots(a, col);
      ShapedSameShape(fieldSet, rankCount, numFields, metaData, old(rawData), rawData);
    }

    /** The loop of remove_entity_callback, over the fields of the mesh. */
    method ResetAllSlots(a: SlotAddr, ghost col: seq<FieldMeta>)
      requires numFields == |fieldSet| && SlotsReady(rawData, fieldSet, col, a)
      requires ColumnAt(metaData, a.rank, a.bucket, col)
      modifies this`rawData
      ensures rawData == ResetSlots(old(rawData), fieldSet, col, a, |fieldSet|)
    {
      var i := 0;
      while i < numFields
        invariant 0 <= i <= numFields
        invariant rawData == ResetSlots(old(rawData), fieldSet, col, a, i)
      {
        ResetSlot(a, i, col, old(rawData));
        i := i + 1;
      }
    }

    /** One round of the loop of copy_entity_fields_callback: field i. */
    method SwapSlot(dst: SlotAddr, src: SlotAddr, i: nat, ghost dstCol: seq<FieldMeta>, ghost srcCol: seq<FieldMeta>, ghost raw0: RawData)
      requires i < |srcCol| && SwapsReady(raw0, dstCol, srcCol, dst, src)
      requires ColumnAt(metaData, dst.rank, dst.bucket, dstCol) && ColumnAt(metaData, src.rank, src.bucket, srcCol)
      requires rawData == SwapSlots(raw0, dstCol, srcCol, dst, src, i)
      modifies this`rawData
      ensures rawData == SwapSlots(raw0, dstCol, srcCol, dst, src, i + 1)
    {
      var srcMeta := metaData[src.rank][i][src.bucket];
      if srcMeta.size != 0 {
        var dstMeta := metaData[dst.rank][i][dst.bucket];
        if dstMeta.size != 0 {
          assert Swaps(dstCol[i], srcCol[i]);
          InBlockShape(raw0, rawData, SlotRegion(dstMeta, dst));
          InBlockShape(raw0, rawData, SlotRegion(srcMeta, src));
          rawData := SwapRanges(rawData, SlotRegion(dstMeta, dst), SlotRegion(srcMeta, src));
        }
      }
    }

    /** One round of the loop of remove_entity_callback: field i. */
    method ResetSlot(a: SlotAddr, i: nat, ghost col: seq<FieldMeta>, ghost raw0: RawData)
      requires i < |col| == |fieldSet| && SlotsReady(raw0, fieldSet, col, a)
      requires ColumnAt(metaData, a.rank, a.bucket, col)
      requires rawData == ResetSlots(raw0, fieldSet, col, a, i)
      modifies this`rawData
      ensures rawData == ResetSlots(raw0, fieldSet, col, a, i + 1)
    {
      var fm := metaData[a.rank][i][a.bucket];
      if fm.size > 0 {
        var g := SlotRegion(fm, a);
        InBlockShape(raw0, rawData, g);
        match fieldSet[i].initialValue
        case Some(v) =>
          rawData := Write(rawData, g, v[..fm.size]);
        case None =>
          rawData := Write(rawData, g, Zeros(fm.size));
      }
    }

    /**
     * destroy_bucket_callback: when the bucket has a block, every field with
     * a data pointer there gets size 0 and NULL, the block is released and
     * becomes NULL; bytesToDelete is the size handed to the allocator.
     */
    method DestroyBucket(rank: nat, bucket: nat, capacity: nat) returns (bytesToDelete: nat)
      requires Valid() && rank < rankCount && bucket < |rawData[rank]|
      modifies this`metaData, this`rawData
      ensures Valid()
      ensures old(rawData)[rank][bucket].NoData? ==>
        metaData == old(metaData) && rawData == old(rawData) && bytesToDelete == 0
      ensures old(rawData)[rank][bucket].Data? ==>
        metaData == old(metaData)[rank := Cleared(old(metaData)[rank], bucket, |fieldSet|)] &&
        rawData == old(rawData)[rank := old(rawData)[rank][bucket := NoData]] &&
        bytesToDelete == FreedBytes(Column(old(metaData), rank, bucket), capacity)
    {
      bytesToDelete := 0;
      if rawData[rank][bucket].Data? {
        ghost var m := metaData[rank];
        ghost var col := Column(metaData, rank, bucket);
        var i := 0;
        ClearedNone(m, bucket);
        while i < numFields
          invariant 0 <= i <= numFields == |fieldSet|
          invariant metaData == old(metaData)[rank := Cleared(m, bucket, i)]
          invariant rawData == old(rawData)
          invariant bytesToDelete == FreedBytes(col[..i], capacity)
        {
          ClearedStep(m, bucket, i);
          FreedStep(col, capacity, i);
          var fieldData := metaData[rank][i][bucket];
          if fieldData.data != Null {
            bytesToDelete := bytesToDelete + fieldData.size * capacity;
            metaData := metaData[rank := metaData[rank][i := metaData[rank][i][bucket := fieldData.(size := 0, data := Null)]]];
          }
          i := i + 1;
        }
        assert col[..i] == col;
        rawData := rawData[rank := rawData[rank][bucket := NoData]];
        ClearedShaped(fieldSet, rankCount, old(metaData), old(rawData), rank, bucket);
      }
    }

    /**
     * update_field_data_states: in every bucket where a multi-state field's
     * first state has storage, the data pointers of its states move one
     * state on, the last state's pointer becoming state 0's (RotateStates).
     * The fast-access copies refreshed afterwards are not part of this model.
     */
    method UpdateFieldDataStates()
      requires Valid() && (numFields != -1 ==> StateGroupsFrom(fieldSet, 0))
      modifies this`metaData
      ensures Valid()
      ensures numFields == -1 ==> metaData == old(metaData)
      ensures numFields != -1 ==> metaData == RotateAll(fieldSet, rankCount, old(metaData), rawData)
    {
      if numFields != -1 {
        ghost var m0 := metaData;
        ghost var rotated := RotateAll(fieldSet, rankCount, m0, rawData);
        var r := 0;
        assert Mix(rotated, m0, 0) == m0;
        while r < rankCount
          invariant 0 <= r <= rankCount
          invariant metaData == Mix(rotated, m0, r)
        {
          MixStep(rotated, m0, r);
          RotateRank(r, |rawData[r]|);
          r := r + 1;
        }
        assert Mix(rotated, m0, r) == rotated;
        RotatedShaped(fieldSet, rankCount, m0, rawData);
      }
      // with m_num_fields == -1 the loop over the fields runs no round
    }

    /** One rank of update_field_data_states: the runs of states, one after another. */
    method RotateRank(r: nat, ghost nb: nat)
      requires numFields == |fieldSet| && StateGroupsFrom(fieldSet, 0)
      requires r < |metaData| && |metaData[r]| == |fieldSet| && Rect(metaData[r], nb)
      modifies this`metaData
      ensures metaData == old(metaData)[r := RotateStates(fieldSet, old(metaData)[r], nb)]
    {
      ghost var m := metaData[r];
      ghost var rotated := RotateStates(fieldSet, m, nb);
      var i := 0;
      assert Mix(rotated, m, 0) == m;
      assert metaData[r := m] == metaData;
      while i < numFields
        invariant 0 <= i <= numFields == |fieldSet|
        invariant StateGroupsFrom(fieldSet, i)
        invariant forall j :: i <= j < |fieldSet| ==> GroupStart(fieldSet, 0, j) == GroupStart(fieldSet, i, j)
        invariant metaData == old(metaData)[r := Mix(rotated, m, i)]
        decreases numFields - i
      {
        var numState := fieldSet[i].numStates;
        GroupStep(fieldSet, m, nb, i);
        if numState > 1 {
          RotateGroup(r, i, numState, nb);
        }
        i := i + numState;
      }
      assert Mix(rotated, m, i) == rotated;
    }

    /** One run of states of one rank: the swap loop in every bucket where state 0 has storage. */
    method RotateGroup(r: nat, g: nat, n: nat, ghost nb: nat)
      requires r < |metaData| && 1 <= n && g + n <= |metaData[r]| && Rect(metaData[r], nb)
      modifies this`metaData
      ensures metaData == old(metaData)[r := RotGroupUpTo(old(metaData)[r], g, n, nb, nb)]
    {
      ghost var m := metaData[r];
      var b := 0;
      var be := |metaData[r][g]|;
      RotGroupNone(m, g, n, nb);
      while b < be
        invariant 0 <= b <= be == nb
        invariant metaData == old(metaData)[r := RotGroupUpTo(m, g, n, nb, b)]
      {
        RotGroupStep(m, g, n, nb, b);
        if metaData[r][g][b].size > 0 {
          RotateBucket(r, g, n, b);
        }
        b := b + 1;
      }
    }

    /** The swap loop of one bucket: each state takes the pointer carried from the one before it. */
    method RotateBucket(r: nat, g: nat, n: nat, b: nat)
      requires r < |metaData| && 1 <= n && g + n <= |metaData[r]|
      requires forall j :: g <= j < g + n ==> b < |metaData[r][j]|
      modifies this`metaData
      ensures metaData == old(metaData)[r := RotBucket(old(metaData)[r], g, n, b)]
    {
      ghost var m: seq<seq<FieldMeta>> := metaData[r];
      ghost var m0 := metaData;
      var dataLast := metaData[r][g][b].data;
      var s := 1;
      assert m0[r := m] == m0;
      while s < n
        invariant 1 <= s <= n
        invariant dataLast == m[g + s - 1][b].data
        invariant metaData == m0[r := Shifted(m, g, s, b)]
      {
        ShiftStep(m, g, s, b);
        var carried := metaData[r][g + s][b].data;
        SetData(r, g + s, b, dataLast, m0, Shifted(m, g, s, b));
        dataLast := carried;
        s := s + 1;
      }
      ShiftDone(m, g, n, b);
      SetData(r, g, b, dataLast, m0, Shifted(m, g, n, b));
    }

    /** Sets the data pointer of field j in bucket b of rank r, whose meta data is row. */
    method SetData(r: nat, j: nat, b: nat, p: Ptr, ghost m0: seq<seq<seq<FieldMeta>>>, ghost row: seq<seq<FieldMeta>>)
      requires r < |m0| && j < |row| && b < |row[j]| && metaData == m0[r := row]
      modifies this`metaData
      ensures metaData == m0[r := WithData(row, j, b, p)]
    {
      var state := metaData[r][j];
      metaData := metaData[r := metaData[r][j := state[b := state[b].(data := p)]]];
    }

    /**
     * reorder_buckets_callback: bucket m of the rank takes the block and the
     * meta data bucket idMap[m] had; under a permutation no bucket is lost
     * or duplicated (PermuteKeepsMultiset).
     */
    method ReorderBuckets(rank: nat, idMap: seq<nat>)
      requires Valid() && rank < rankCount
      requires forall m :: 0 <= m < |idMap| ==> idMap[m] < |rawData[rank]|
      modifies this`rawData, this`metaData
      ensures Valid()
      ensures rawData == old(rawData)[rank := Permute(old(rawData)[rank], idMap)]
      ensures numFields == -1 ==> metaData == old(metaData)
      ensures numFields != -1 ==> metaData == old(metaData)[rank := PermuteAll(old(metaData)[rank], idMap)]
    {
      var fieldRawData := PermuteVector(rawData[rank], idMap);
      rawData := rawData[rank := fieldRawData];
      if numFields != -1 {
        ghost var m := metaData[rank];
        ghost var permuted := PermuteAll(m, idMap);
        var i := 0;
        assert Mix(permuted, m, 0) == m;
        assert metaData[rank := m] == metaData;
        while i < numFields
          invariant 0 <= i <= numFields == |fieldSet|
          invariant metaData == old(metaData)[rank := Mix(permuted, m, i)]
          invariant rawData == old(rawData)[rank := fieldRawData]
        {
          var newFields := PermuteVector(metaData[rank][i], idMap);
          MixStep(permuted, m, i);
          metaData := metaData[rank := metaData[rank][i := newFields]];
          i := i + 1;
        }
        assert Mix(permuted, m, i) == permuted;
      }
      // with m_num_fields == -1 the loop over the fields runs no round
      ReorderedShaped(fieldSet, rankCount, numFields, old(metaData), old(rawData), rank, idMap);
    }

    /** Fills a vector of idMap's length with the entries idMap names. */
    static method PermuteVector<T>(xs: seq<T>, idMap: seq<nat>) returns (ys: seq<T>)
      requires forall m :: 0 <= m < |idMap| ==> idMap[m] < |xs|
      ensures ys == Permute(xs, idMap)
    {
      ys := [];
      var m := 0;
      while m < |idMap|
        invariant m <= |idMap| && |ys| == m
        invariant forall k :: 0 <= k < m ==> ys[k] == xs[idMap[k]]
      {
        ys := ys + [xs[idMap[m]]];
        m := m + 1;
      }
    }
  }

  lemma PushNone(meta: seq<seq<seq<FieldMeta>>>, rank: nat, col: seq<FieldMeta>)
    requires rank < |meta| && |col| == |meta[rank]|
    ensures PushedUpTo(meta, rank, col, 0) == meta
  {
    assert PushedUpTo(meta, rank, col, 0)[rank] == meta[rank];
  }

  /** Appending field i's entry extends the pushed prefix by one field. */
  lemma PushStep(meta: seq<seq<seq<FieldMeta>>>, rank: nat, col: seq<FieldMeta>, i: nat)
    requires rank < |meta| && |col| == |meta[rank]| && i < |col|
    ensures var p := PushedUpTo(meta, rank, col, i);
      p[rank := p[rank][i := p[rank][i] + [col[i]]]] == PushedUpTo(meta, rank, col, i + 1)
  {
    var p := PushedUpTo(meta, rank, col, i);
    assert p[rank][i := p[rank][i] + [col[i]]] == PushedUpTo(meta, rank, col, i + 1)[rank];
  }

  /** Before the allocation loop visits field i, its last entry is still the sized one. */
  lemma LastSized(m0: seq<seq<seq<FieldMeta>>>, rank: nat, newMetas: seq<FieldMeta>, sized: seq<FieldMeta>, i: nat)
    requires rank < |m0| && |m0[rank]| == |newMetas| == |sized| && i < |sized|
    ensures var p := Pushed(m0, rank, Mix(newMetas, sized, i));
      |p[rank][i]| > 0 && p[rank][i][|p[rank][i]| - 1] == sized[i]
  {
  }

  /** A field without storage keeps its sized entry. */
  lemma KeepLastStep(m0: seq<seq<seq<FieldMeta>>>, rank: nat, newMetas: seq<FieldMeta>, sized: seq<FieldMeta>, i: nat)
    requires rank < |m0| && |m0[rank]| == |newMetas| == |sized| && i < |sized|
    requires newMetas[i] == sized[i]
    ensures Pushed(m0, rank, Mix(newMetas, sized, i)) == Pushed(m0, rank, Mix(newMetas, sized, i + 1))
  {
    assert Mix(newMetas, sized, i) == Mix(newMetas, sized, i + 1);
  }

  /** A field with storage gets its data pointer in its last entry. */
  lemma SetLastStep(m0: seq<seq<seq<FieldMeta>>>, rank: nat, newMetas: seq<FieldMeta>, sized: seq<FieldMeta>, i: nat)
    requires rank < |m0| && |m0[rank]| == |newMetas| == |sized| && i < |sized|
    requires newMetas[i] == sized[i].(data := newMetas[i].data)
    ensures var p := Pushed(m0, rank, Mix(newMetas, sized, i));
      |p[rank][i]| > 0 &&
      p[rank := p[rank][i := p[rank][i][|p[rank][i]| - 1 := newMetas[i]]]]
        == Pushed(m0, rank, Mix(newMetas, sized, i + 1))
  {
    var p := Pushed(m0, rank, Mix(newMetas, sized, i));
    var q := Pushed(m0, rank, Mix(newMetas, sized, i + 1));
    var last := |p[rank][i]| - 1;
    forall k | 0 <= k < |sized| && k != i
      ensures p[rank][k] == q[rank][k]
    {
      assert Mix(newMetas, sized, i)[k] == Mix(newMetas, sized, i + 1)[k];
    }
    assert p[rank][i][last := newMetas[i]] == q[rank][i];
    assert p[rank][i := p[rank][i][last := newMetas[i]]] == q[rank];
  }

  /** With no storage at all the allocation loop is skipped: every pointer stays NULL. */
  lemma PushedNull(m0: seq<seq<seq<FieldMeta>>>, rank: nat, sizes: seq<nat>, rs: seq<Restriction>, capacity: nat)
    requires rank < |m0| && |m0[rank]| == |sizes| == |rs| && Total(sizes, capacity) == 0
    ensures SizedMetas(sizes, rs) == NewMetas(sizes, rs, capacity)
  {
  }

  lemma NewBucketShaped(fields: seq<FieldInfo>, ranks: nat, raw0: RawData, raw: RawData,
                        m0: seq<seq<seq<FieldMeta>>>, meta: seq<seq<seq<FieldMeta>>>,
                        rank: nat, sizes: seq<nat>, rs: seq<Restriction>, capacity: nat)
    requires rank < ranks == |raw0| == |m0| && |m0[rank]| == |fields| == |sizes| == |rs|
    requires forall r :: 0 <= r < ranks ==> |m0[r]| == |fields| && Rect(m0[r], |raw0[r]|)
    requires InitsCovered(fields, m0) && InitsFit(fields, sizes)
    requires raw == raw0[rank := raw0[rank] + [NewBlock(fields, sizes, capacity)]]
    requires meta == Pushed(m0, rank, NewMetas(sizes, rs, capacity))
    ensures Shaped(fields, ranks, |fields|, meta, raw)
  {
  }

  lemma InBlockShape(a: RawData, b: RawData, g: Region)
    requires SameShape(a, b) && InBlock(a, g)
    ensures InBlock(b, g)
  {
  }

  /** Changing bytes only keeps the callbacks' state well formed. */
  lemma ShapedSameShape(fields: seq<FieldInfo>, ranks: nat, numFields: int, meta: seq<seq<seq<FieldMeta>>>, a: RawData, b: RawData)
    requires Shaped(fields, ranks, numFields, meta, a) && SameShape(a, b)
    ensures Shaped(fields, ranks, numFields, meta, b)
  {
    if numFields == -1 {
      forall r | 0 <= r < ranks
        ensures b[r] == []
      {
        assert |b[r]| == |a[r]|;
      }
    }
  }

  lemma MixStep<T>(a: seq<T>, b: seq<T>, i: nat)
    requires |a| == |b| && i < |a|
    ensures Mix(a, b, i)[i] == b[i]
    ensures Mix(a, b, i)[i := a[i]] == Mix(a, b, i + 1)
  {
    assert Mix(a, b, i)[i := a[i]] == Mix(a, b, i + 1);
  }

  lemma ClearedNone(m: seq<seq<FieldMeta>>, b: nat)
    requires forall k :: 0 <= k < |m| ==> b < |m[k]|
    ensures Cleared(m, b, 0) == m
  {
  }

  /** One round of the loop of destroy_bucket_callback. */
  lemma ClearedStep(m: seq<seq<FieldMeta>>, b: nat, i: nat)
    requires (forall k :: 0 <= k < |m| ==> b < |m[k]|) && i < |m|
    ensures var c := Cleared(m, b, i);
      c[i] == m[i] &&
      (m[i][b].data.At? ==> c[i := c[i][b := c[i][b].(size := 0, data := Null)]] == Cleared(m, b, i + 1)) &&
      (!m[i][b].data.At? ==> c == Cleared(m, b, i + 1))
  {
    var c: seq<seq<FieldMeta>> := Cleared(m, b, i);
    if m[i][b].data.At? {
      assert c[i := c[i][b := c[i][b].(size := 0, data := Null)]] == Cleared(m, b, i + 1);
    } else {
      assert c == Cleared(m, b, i + 1);
    }
  }

  lemma FreedStep(col: seq<FieldMeta>, capacity: nat, i: nat)
    requires i < |col|
    ensures FreedBytes(col[..i + 1], capacity) ==
            FreedBytes(col[..i], capacity) + (if col[i].data.At? then col[i].size * capacity else 0)
  {
    assert col[..i + 1][..i] == col[..i];
  }

  lemma ClearedShaped(fields: seq<FieldInfo>, ranks: nat, meta: seq<seq<seq<FieldMeta>>>, raw: RawData, rank: nat, bucket: nat)
    requires Shaped(fields, ranks, |fields|, meta, raw) && rank < ranks && bucket < |raw[rank]|
    ensures Shaped(fields, ranks, |fields|, meta[rank := Cleared(meta[rank], bucket, |fields|)],
                   raw[rank := raw[rank][bucket := NoData]])
  {
  }

  /** Every run of states has the same storage in each bucket once rotated: sizes and strides stay. */
  lemma RotatedShaped(fields: seq<FieldInfo>, ranks: nat, meta: seq<seq<seq<FieldMeta>>>, raw: RawData)
    requires Shaped(fields, ranks, |fields|, meta, raw) && StateGroupsFrom(fields, 0) && |fields| != -1
    ensures Shaped(fields, ranks, |fields|, RotateAll(fields, ranks, meta, raw), raw)
  {
  }

  /** A map into no buckets is empty. */
  lemma MapIntoEmpty(idMap: seq<nat>, n: nat)
    requires forall m :: 0 <= m < |idMap| ==> idMap[m] < n
    ensures n == 0 ==> idMap == []
  {
    if |idMap| > 0 {
      assert idMap[0] < n;
    }
  }

  lemma ReorderedShaped(fields: seq<FieldInfo>, ranks: nat, numFields: int, meta: seq<seq<seq<FieldMeta>>>, raw: RawData,
                        rank: nat, idMap: seq<nat>)
    requires Shaped(fields, ranks, numFields, meta, raw) && rank < ranks
    requires forall m :: 0 <= m < |idMap| ==> idMap[m] < |raw[rank]|
    ensures Shaped(fields, ranks, numFields,
                   if numFields == -1 then meta else meta[rank := PermuteAll(meta[rank], idMap)],
                   raw[rank := Permute(raw[rank], idMap)])
  {
    MapIntoEmpty(idMap, |raw[rank]|);
    if numFields == -1 {
      assert raw[rank := Permute(raw[rank], idMap)] == raw;
    }
  }

  /** The pointers of bucket b after the swap loop ran s - 1 rounds: state g+s-1 took the pointer carried from state g+s-2. */
  function Shifted(m: seq<seq<FieldMeta>>, g: nat, s: nat, b: nat): (r: seq<seq<FieldMeta>>)
    requires 1 <= s && g + s <= |m| && forall j :: g <= j < g + s ==> b < |m[j]|
    ensures |r| == |m| && forall j :: 0 <= j < |m| ==> |r[j]| == |m[j]|
    decreases s
  {
    if s == 1 then m else WithData(Shifted(m, g, s - 1, b), g + s - 1, b, m[g + s - 2][b].data)
  }

  /** Field j's meta data in bucket b takes the data pointer p. */
  function WithData(m: seq<seq<FieldMeta>>, j: nat, b: nat, p: Ptr): (r: seq<seq<FieldMeta>>)
    requires j < |m| && b < |m[j]|
    ensures |r| == |m|
  {
    m[j := m[j][b := m[j][b].(data := p)]]
  }

  /** After s - 1 rounds, states g+1 .. g+s-1 hold their predecessor's pointer and the rest are untouched. */
  lemma {:induction false} ShiftedAt(m: seq<seq<FieldMeta>>, g: nat, s: nat, b: nat, j: nat)
    requires 1 <= s && g + s <= |m| && (forall k :: g <= k < g + s ==> b < |m[k]|) && j < |m|
    ensures Shifted(m, g, s, b)[j] == if g < j < g + s then m[j][b := m[j][b].(data := m[j - 1][b].data)] else m[j]
    decreases s
  {
    if s > 1 {
      ShiftedAt(m, g, s - 1, b, j);
    }
  }

  /** Entry j of bucket b once rotated: state g takes the last state's pointer, state s state s-1's. */
  function RotEntry(m: seq<seq<FieldMeta>>, g: nat, n: nat, j: nat, b: nat): FieldMeta
    requires 1 <= n && g <= j < g + n <= |m| && b < |m[j]| && b < |m[if j == g then g + n - 1 else j - 1]|
  {
    m[j][b].(data := m[if j == g then g + n - 1 else j - 1][b].data)
  }

  /** The pointers of bucket b after the whole swap. */
  function RotBucket(m: seq<seq<FieldMeta>>, g: nat, n: nat, b: nat): (r: seq<seq<FieldMeta>>)
    requires 1 <= n && g + n <= |m| && forall j :: g <= j < g + n ==> b < |m[j]|
    ensures |r| == |m|
  {
    seq(|m|, j requires 0 <= j < |m| => if g <= j < g + n then m[j][b := RotEntry(m, g, n, j, b)] else m[j])
  }

  /** One std::swap of the loop: state g+s still holds its own pointer, which it hands on. */
  lemma ShiftStep(m: seq<seq<FieldMeta>>, g: nat, s: nat, b: nat)
    requires 1 <= s && g + s < |m| && forall j :: g <= j <= g + s ==> b < |m[j]|
    ensures Shifted(m, g, s, b)[g + s] == m[g + s]
  {
    ShiftedAt(m, g, s, b, g + s);
  }

  /** The assignment after the swap loop completes the rotation of bucket b. */
  lemma ShiftDone(m: seq<seq<FieldMeta>>, g: nat, n: nat, b: nat)
    requires 1 <= n && g + n <= |m| && forall j :: g <= j < g + n ==> b < |m[j]|
    ensures WithData(Shifted(m, g, n, b), g, b, m[g + n - 1][b].data) == RotBucket(m, g, n, b)
  {
    var p := Shifted(m, g, n, b);
    var w := WithData(p, g, b, m[g + n - 1][b].data);
    forall j | 0 <= j < |m|
      ensures w[j] == RotBucket(m, g, n, b)[j]
    {
      ShiftedAt(m, g, n, b, j);
    }
  }

  /** State j of the run g .. g+n-1 after the buckets below b were rotated. */
  function RotRow(m: seq<seq<FieldMeta>>, g: nat, n: nat, nb: nat, j: nat, b: nat): (row: seq<FieldMeta>)
    requires 1 <= n && g <= j < g + n <= |m| && Rect(m, nb)
    ensures |row| == nb
  {
    seq(nb, c requires 0 <= c < nb => if c < b && m[g][c].size > 0 then RotEntry(m, g, n, j, c) else m[j][c])
  }

  /** The run of states g .. g+n-1 after its buckets below b were rotated. */
  function RotGroupUpTo(m: seq<seq<FieldMeta>>, g: nat, n: nat, nb: nat, b: nat): (r: seq<seq<FieldMeta>>)
    requires 1 <= n && g + n <= |m| && Rect(m, nb)
    ensures |r| == |m| && Rect(r, nb)
  {
    seq(|m|, j requires 0 <= j < |m| => if g <= j < g + n then RotRow(m, g, n, nb, j, b) else m[j])
  }

  lemma RotGroupNone(m: seq<seq<FieldMeta>>, g: nat, n: nat, nb: nat)
    requires 1 <= n && g + n <= |m| && Rect(m, nb)
    ensures RotGroupUpTo(m, g, n, nb, 0) == m
  {
    var p := RotGroupUpTo(m, g, n, nb, 0);
    forall j | 0 <= j < |m|
      ensures p[j] == m[j]
    {
      if g <= j < g + n {
        assert RotRow(m, g, n, nb, j, 0) == m[j];
      }
    }
  }

  /** Bucket b of one state: rotated in the round for b when state 0 has storage there. */
  lemma RotRowStep(m: seq<seq<FieldMeta>>, g: nat, n: nat, nb: nat, j: nat, b: nat)
    requires 1 <= n && g <= j < g + n <= |m| && Rect(m, nb) && b < nb
    ensures RotRow(m, g, n, nb, j, b)[b] == m[j][b]
    ensures m[g][b].size > 0 ==> RotRow(m, g, n, nb, j, b)[b := RotEntry(m, g, n, j, b)] == RotRow(m, g, n, nb, j, b + 1)
    ensures m[g][b].size == 0 ==> RotRow(m, g, n, nb, j, b) == RotRow(m, g, n, nb, j, b + 1)
  {
    if m[g][b].size > 0 {
      assert RotRow(m, g, n, nb, j, b)[b := RotEntry(m, g, n, j, b)] == RotRow(m, g, n, nb, j, b + 1);
    } else {
      assert RotRow(m, g, n, nb, j, b) == RotRow(m, g, n, nb, j, b + 1);
    }
  }

  /** One round of the bucket loop: bucket b is rotated when state 0 has storage there. */
  lemma RotGroupStep(m: seq<seq<FieldMeta>>, g: nat, n: nat, nb: nat, b: nat)
    requires 1 <= n && g + n <= |m| && Rect(m, nb) && b < nb
    ensures RotGroupUpTo(m, g, n, nb, b)[g][b].size == m[g][b].size
    ensures m[g][b].size > 0 ==> RotBucket(RotGroupUpTo(m, g, n, nb, b), g, n, b) == RotGroupUpTo(m, g, n, nb, b + 1)
    ensures m[g][b].size == 0 ==> RotGroupUpTo(m, g, n, nb, b) == RotGroupUpTo(m, g, n, nb, b + 1)
  {
    var p := RotGroupUpTo(m, g, n, nb, b);
    var q := RotGroupUpTo(m, g, n, nb, b + 1);
    RotRowStep(m, g, n, nb, g, b);
    if m[g][b].size > 0 {
      var rb := RotBucket(p, g, n, b);
      forall j | 0 <= j < |m|
        ensures rb[j] == q[j]
      {
        if g <= j < g + n {
          var k := if j == g then g + n - 1 else j - 1;
          RotRowStep(m, g, n, nb, j, b);
          RotRowStep(m, g, n, nb, k, b);
          assert RotEntry(p, g, n, j, b) == RotEntry(m, g, n, j, b);
        }
      }
    } else {
      forall j | 0 <= j < |m|
        ensures p[j] == q[j]
      {
        if g <= j < g + n {
          RotRowStep(m, g, n, nb, j, b);
        }
      }
    }
  }

  /** RotRow reads only the rows of its run. */
  lemma RotRowLocal(m1: seq<seq<FieldMeta>>, m2: seq<seq<FieldMeta>>, g: nat, n: nat, nb: nat, j: nat, b: nat)
    requires 1 <= n && g <= j < g + n <= |m1| == |m2| && Rect(m1, nb) && Rect(m2, nb)
    requires forall k :: g <= k < g + n ==> m1[k] == m2[k]
    ensures RotRow(m1, g, n, nb, j, b) == RotRow(m2, g, n, nb, j, b)
  {
  }

  /** With every bucket visited, a state of a multi-state run is its RotateStates row. */
  lemma RowRotated(fields: seq<FieldInfo>, m: seq<seq<FieldMeta>>, nb: nat, i: nat, j: nat)
    requires StateGroupsFrom(fields, 0) && |m| == |fields| && Rect(m, nb)
    requires i <= j < |fields| && GroupStart(fields, 0, j) == i && fields[i].numStates > 1
    ensures RotateStates(fields, m, nb)[j] == RotRow(m, i, fields[i].numStates, nb, j, nb)
  {
    var n := fields[i].numStates;
    assert forall c :: 0 <= c < nb ==> RotateStates(fields, m, nb)[j][c] == RotRow(m, i, n, nb, j, nb)[c];
  }

  /** A single-state field is left as it is. */
  lemma RowUnrotated(fields: seq<FieldInfo>, m: seq<seq<FieldMeta>>, nb: nat, i: nat)
    requires StateGroupsFrom(fields, 0) && |m| == |fields| && Rect(m, nb)
    requires i < |fields| && GroupStart(fields, 0, i) == i && fields[i].numStates <= 1
    ensures RotateStates(fields, m, nb)[i] == m[i]
  {
    assert forall c :: 0 <= c < nb ==> RotateStates(fields, m, nb)[i][c] == m[i][c];
  }

  /**
   * One round of the loop over the runs: rotating the run that starts at i
   * (or leaving a single-state field alone) extends the rotated prefix.
   */
  lemma GroupStep(fields: seq<FieldInfo>, m: seq<seq<FieldMeta>>, nb: nat, i: nat)
    requires StateGroupsFrom(fields, 0) && |m| == |fields| && Rect(m, nb) && i < |fields| && StateGroupsFrom(fields, i)
    requires forall j :: i <= j < |fields| ==> GroupStart(fields, 0, j) == GroupStart(fields, i, j)
    ensures 1 <= fields[i].numStates && i + fields[i].numStates <= |fields| && StateGroupsFrom(fields, i + fields[i].numStates)
    ensures Rect(Mix(RotateStates(fields, m, nb), m, i), nb)
    ensures forall j :: i + fields[i].numStates <= j < |fields| ==>
      GroupStart(fields, 0, j) == GroupStart(fields, i + fields[i].numStates, j)
    ensures fields[i].numStates > 1 ==>
      RotGroupUpTo(Mix(RotateStates(fields, m, nb), m, i), i, fields[i].numStates, nb, nb)
        == Mix(RotateStates(fields, m, nb), m, i + fields[i].numStates)
    ensures fields[i].numStates <= 1 ==>
      Mix(RotateStates(fields, m, nb), m, i) == Mix(RotateStates(fields, m, nb), m, i + fields[i].numStates)
  {
    var n := fields[i].numStates;
    var rot := RotateStates(fields, m, nb);
    var p := Mix(rot, m, i);
    var q := Mix(rot, m, i + n);
    forall j | i + n <= j < |fields|
      ensures GroupStart(fields, 0, j) == GroupStart(fields, i + n, j)
    {
      assert GroupStart(fields, 0, j) == GroupStart(fields, i, j);
    }
    if n > 1 {
      var t := RotGroupUpTo(p, i, n, nb, nb);
      forall j | 0 <= j < |m|
        ensures t[j] == q[j]
      {
        if i <= j < i + n {
          assert GroupStart(fields, 0, j) == GroupStart(fields, i, j);
          RowRotated(fields, m, nb, i, j);
          RotRowLocal(p, m, i, n, nb, j, nb);
        }
      }
    } else {
      assert GroupStart(fields, 0, i) == GroupStart(fields, i, i);
      RowUnrotated(fields, m, nb, i);
      assert p == q;
    }
  }
}
