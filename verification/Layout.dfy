/**
 Where things are in the shared file: N metadata copies, N data segments, the keywords.  Offsets
 are in bytes and unbounded; `md`, `element` and `keyword` are the sizes of one entry of each.
 */
module Layout {
  import opened Ring

  datatype Sizes = Sizes(n: nat, md: nat, element: nat, nelement: nat, keyword: nat, nbkw: nat)

  /** The offsets of the data array and of the keywords. */
  datatype Pointers = Pointers(data: nat, keywords: nat)

  /** `daoShmImageCreate_FIFO`: the size of the file, summed up before it is mapped. */
  function SharedSize(z: Sizes): nat {
    z.n * z.md + z.n * z.nelement * z.element + z.nbkw * z.keyword
  }

  /** ... and the pointers the creator then sets, stepping through the map. */
  function CreatorPointers(z: Sizes): Pointers {
    var mapv := z.md * z.n;
    Pointers(mapv, mapv + z.element * z.nelement * z.n)
  }

  /** `daoShmShm2Img`: the pointers a reader recomputes from the first metadata copy. */
  function OpenerPointers(z: Sizes): Pointers {
    var mapv := z.n * z.md;
    Pointers(mapv, mapv + z.element * z.n * z.nelement)
  }

  /** An entry of the file. */
  datatype Region = Metadata(i: nat) | Data(i: nat) | Keyword(i: nat)

  predicate IsRegion(z: Sizes, r: Region) {
    match r
    case Metadata(i) => i < z.n
    case Data(i) => i < z.n
    case Keyword(i) => i < z.nbkw
  }

  function SegmentBytes(z: Sizes): nat {
    z.nelement * z.element
  }

  /** Where an entry starts, by indexing from the creator's pointers. */
  function Start(z: Sizes, r: Region): nat {
    match r
    case Metadata(i) => i * z.md
    case Data(i) => CreatorPointers(z).data + i * SegmentBytes(z)
    case Keyword(i) => CreatorPointers(z).keywords + i * z.keyword
  }

  function Bytes(z: Sizes, r: Region): nat {
    match r
    case Metadata(_) => z.md
    case Data(_) => SegmentBytes(z)
    case Keyword(_) => z.keyword
  }

  predicate Inside(z: Sizes, r: Region, b: nat) {
    Start(z, r) <= b < Start(z, r) + Bytes(z, r)
  }

  lemma Regroup(a: nat, b: nat, c: nat)
    ensures (a * b) * c == a * (b * c)
  {}

  lemma Swap(a: nat, b: nat)
    ensures a * b == b * a
  {}

  /** The three ways the source multiplies out the data area come to the same. */
  lemma DataProducts(n: nat, nelement: nat, element: nat)
    ensures n * nelement * element == Offset(n, nelement * element)
    ensures element * nelement * n == Offset(n, nelement * element)
    ensures element * n * nelement == Offset(n, nelement * element)
  {
    OffsetIsProduct(n, nelement * element);
    Regroup(n, nelement, element);
    Swap(element, nelement);
    Swap(nelement * element, n);
    Swap(element, n);
    Regroup(n, element, nelement);
  }

  /** Creator and opener agree, and both pointers are where the tables before them end. */
  lemma PointersAgree(z: Sizes)
    ensures CreatorPointers(z) == OpenerPointers(z)
    ensures CreatorPointers(z) == Pointers(Offset(z.n, z.md), Offset(z.n, z.md) + Offset(z.n, SegmentBytes(z)))
    ensures SharedSize(z) == CreatorPointers(z).keywords + Offset(z.nbkw, z.keyword)
  {
    OffsetIsProduct(z.n, z.md);
    OffsetIsProduct(z.nbkw, z.keyword);
    DataProducts(z.n, z.nelement, z.element);
  }

  /** Every entry lies inside the file, within its own table. */
  lemma RegionInTable(z: Sizes, r: Region)
    requires IsRegion(z, r)
    ensures Start(z, r) == match r
                           case Metadata(i) => Offset(i, z.md)
                           case Data(i) => CreatorPointers(z).data + Offset(i, SegmentBytes(z))
                           case Keyword(i) => CreatorPointers(z).keywords + Offset(i, z.keyword)
    ensures Start(z, r) + Bytes(z, r) <= match r
                                         case Metadata(_) => CreatorPointers(z).data
                                         case Data(_) => CreatorPointers(z).keywords
                                         case Keyword(_) => SharedSize(z)
  {
    PointersAgree(z);
    match r
    case Metadata(i) => OffsetIsProduct(i, z.md); OffsetsOrdered(i, z.n, z.md);
    case Data(i) => OffsetIsProduct(i, SegmentBytes(z)); OffsetsOrdered(i, z.n, SegmentBytes(z));
    case Keyword(i) => OffsetIsProduct(i, z.keyword); OffsetsOrdered(i, z.nbkw, z.keyword);
  }

  /** No byte belongs to two entries. */
  lemma RegionsDisjoint(z: Sizes, r: Region, r': Region, b: nat)
    requires IsRegion(z, r) && IsRegion(z, r') && Inside(z, r, b) && Inside(z, r', b)
    ensures r == r'
  {
    RegionInTable(z, r);
    RegionInTable(z, r');
    PointersAgree(z);
    if r.i < r'.i {
      OffsetsOrdered(r.i, r'.i, Bytes(z, r));
    } else if r'.i < r.i {
      OffsetsOrdered(r'.i, r.i, Bytes(z, r));
    }
  }

  /** The entries fill the file: every byte belongs to one. */
  lemma RegionsFill(z: Sizes, b: nat) returns (r: Region)
    requires b < SharedSize(z)
    ensures IsRegion(z, r) && Inside(z, r, b)
  {
    PointersAgree(z);
    var p := CreatorPointers(z);
    if b < p.data {
      var i := ElementInSegment(b, z.n, z.md);
      r := Metadata(i);
    } else if b < p.keywords {
      var i := ElementInSegment(b - p.data, z.n, SegmentBytes(z));
      r := Data(i);
    } else {
      var i := ElementInSegment(b - p.keywords, z.nbkw, z.keyword);
      r := Keyword(i);
    }
    RegionInTable(z, r);
  }

  lemma RemainderInRange(x: nat, n: nat)
    requires 0 < n
    ensures 0 <= x % n < n
  {}

  /** Whatever index `daoShmGetArbitrarySegment` is given, its pointer is the start of a data segment. */
  lemma ArbitrarySegmentIsRegion(z: Sizes, fifoIdx: nat)
    requires 0 < z.n
    ensures var actual := fifoIdx % z.n;
            && IsRegion(z, Data(actual))
            && Start(z, Data(actual)) == OpenerPointers(z).data + (actual * z.nelement) * z.element
            && Start(z, Data(actual)) + Bytes(z, Data(actual)) <= OpenerPointers(z).keywords <= SharedSize(z)
  {
    var actual := fifoIdx % z.n;
    RemainderInRange(fifoIdx, z.n);
    PointersAgree(z);
    RegionInTable(z, Data(actual));
    OffsetIsProduct(actual, SegmentBytes(z));
    Regroup(actual, z.nelement, z.element);
  }
}
