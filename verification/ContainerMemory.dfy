/**
 * The memory of relocatable containers: the unchecked bump allocator of
 * iceoryx2-bb/elementary/src/bump_allocator.rs against the sizes that
 * iceoryx2-bb/elementary/src/math.rs and the containers announce.
 */
module ContainerMemory {
  import opened Math

  /** An array of `capacity` elements of a type with this size and alignment. */
  datatype Request = Request(elementSize: nat, alignment: nat, capacity: nat)
  {
    function Bytes(): nat { elementSize * capacity }
    predicate Valid() { alignment > 0 }
  }

  datatype Region = Region(address: nat, bytes: nat)
  {
    function End(): nat { address + bytes }
  }

  /** What `const_memory_size` announces for one array: room for any misalignment of the start. */
  function UnalignedMemSize(r: Request): nat
    requires r.Valid()
  {
    r.Bytes() + r.alignment - 1
  }

  ghost predicate AllValid(rs: seq<Request>) {
    forall i :: 0 <= i < |rs| ==> rs[i].Valid()
  }

  function TotalMemSize(rs: seq<Request>): nat
    requires AllValid(rs)
  {
    if rs == [] then 0 else TotalMemSize(rs[..|rs| - 1]) + UnalignedMemSize(rs[|rs| - 1])
  }

  /** The regions that serve the requests one after the other, from a position on. */
  function Place(pos: nat, rs: seq<Request>): (regions: seq<Region>)
    requires AllValid(rs)
    ensures |regions| == |rs|
  {
    if rs == [] then [] else
    var front, r := Place(pos, rs[..|rs| - 1]), rs[|rs| - 1];
    front + [Region(Align(EndOf(pos, front), r.alignment), r.Bytes())]
  }

  function EndOf(pos: nat, regions: seq<Region>): nat {
    if regions == [] then pos else regions[|regions| - 1].End()
  }

  /** The region is aligned and large enough for the request. */
  predicate Serves(region: Region, r: Request)
    requires r.Valid()
  {
    region.address % r.alignment == 0 && region.bytes == r.Bytes()
  }

  /** The elements of an array lie one after the other and fill its region to the end. */
  lemma ElementsFillRegion(region: Region, r: Request, i: nat)
    requires r.Valid() && Serves(region, r) && i < r.capacity
    ensures var element := region.address + i * r.elementSize;
            && region.address <= element && element + r.elementSize <= region.End()
            && (i + 1 == r.capacity ==> element + r.elementSize == region.address + region.bytes)
  {
    MulDistributes(i, 1, r.elementSize);
    MulMonotone(i + 1, r.capacity, r.elementSize);
    MulMonotone(0, i, r.elementSize);
  }

  lemma EmptyArrayTakesNothing(region: Region, r: Request)
    requires r.Valid() && Serves(region, r) && r.capacity == 0
    ensures region.bytes == 0 && region.End() == region.address
  {
  }

  /** The last region starts behind all others, and takes no more than its request announced. */
  lemma LastRegion(pos: nat, rs: seq<Request>)
    requires AllValid(rs) && rs != []
    ensures var front, r, last := Place(pos, rs[..|rs| - 1]), rs[|rs| - 1], Place(pos, rs)[|rs| - 1];
            && Place(pos, rs) == front + [last] && Serves(last, r)
            && EndOf(pos, front) <= last.address <= last.End() <= EndOf(pos, front) + UnalignedMemSize(r)
  {
  }

  /**
   * For any start address and any list of arrays: the regions are aligned, large
   * enough, in order without overlap, and stay within the announced total.
   */
  lemma {:induction false} AnnouncedSizeSuffices(pos: nat, rs: seq<Request>)
    requires AllValid(rs)
    ensures var regions := Place(pos, rs);
            && (forall i :: 0 <= i < |rs| ==> Serves(regions[i], rs[i]) && pos <= regions[i].address)
            && (forall i, j :: 0 <= i < j < |rs| ==> regions[i].End() <= regions[j].address)
            && pos <= EndOf(pos, regions) <= pos + TotalMemSize(rs)
            && (forall i :: 0 <= i < |rs| ==> regions[i].End() <= EndOf(pos, regions))
  {
    if rs != [] {
      var front := rs[..|rs| - 1];
      AnnouncedSizeSuffices(pos, front);
      LastRegion(pos, rs);
      assert forall i :: 0 <= i < |front| ==> front[i] == rs[i] && Place(pos, rs)[i] == Place(pos, front)[i];
    }
  }

  /** No announced byte of an array is superfluous: behind the worst start address all of them are used. */
  lemma AnnouncedSizeIsTight(r: Request) returns (pos: nat)
    requires r.Valid()
    ensures EndOf(pos, Place(pos, [r])) == pos + TotalMemSize([r])
  {
    pos := 1;
    assert [r][..0] == [];
    assert Place(pos, []) == [] && TotalMemSize([]) == 0;
    AlignOfOne(r.alignment);
  }

  lemma AlignOfOne(alignment: nat)
    requires alignment > 0
    ensures Align(1, alignment) == alignment
  {
    MultipleIsAligned(1, alignment);
    AlignIsLeast(1, alignment, alignment);
    if Align(1, alignment) < alignment {
      DivModEquation(Align(1, alignment), alignment);
      NoMultipleBetween(Align(1, alignment) / alignment, alignment, Align(1, alignment));
    }
  }

  /** A base address that fits every alignment just shifts the regions: offsets inside a C struct carry over. */
  lemma {:induction false} PlacementShifts(base: nat, offset: nat, rs: seq<Request>)
    requires AllValid(rs) && forall i :: 0 <= i < |rs| ==> base % rs[i].alignment == 0
    ensures forall i :: 0 <= i < |rs| ==>
              Place(base + offset, rs)[i] == Region(base + Place(offset, rs)[i].address, Place(offset, rs)[i].bytes)
    ensures EndOf(base + offset, Place(base + offset, rs)) == base + EndOf(offset, Place(offset, rs))
  {
    if rs != [] {
      var front, r := rs[..|rs| - 1], rs[|rs| - 1];
      PlacementShifts(base, offset, front);
      AlignShifts(base, EndOf(offset, Place(offset, front)), r.alignment);
    }
  }

  lemma AlignShifts(base: nat, x: nat, a: nat)
    requires a > 0 && base % a == 0
    ensures Align(base + x, a) == base + Align(x, a)
  {
    DivModEquation(base, a);
    DivModEquation(x, a);
    MulDistributes(base / a, x / a, a);
    DivModUnique(base + x, a, base / a + x / a, x % a);
  }

  class BumpAllocator {
    const start: nat
    var pos: nat

    constructor (start: nat)
      ensures this.start == start && pos == start
    {
      this.start, pos := start, start;
    }

    method Allocate(bytes: nat, alignment: nat) returns (mem: nat)
      requires alignment > 0
      modifies this`pos
      ensures mem == Align(old(pos), alignment) && pos == mem + bytes
    {
      mem := Align(pos, alignment);
      pos := mem + bytes;
    }
  }

  /** The arrays of a slot map in the order of its `init`: index vector, free list, data vector, slot queue. */
  function SlotMapRequests(capacity: nat, option: Request): (rs: seq<Request>)
    requires option.Valid()
    ensures AllValid(rs)
  {
    [Request(8, 8, capacity), Request(16, 8, capacity), option.(capacity := capacity), Request(8, 8, capacity)]
  }

  function SlotMapMemorySize(capacity: nat, option: Request): nat
    requires option.Valid()
  {
    UnalignedMemSize(Request(8, 8, capacity)) + UnalignedMemSize(Request(16, 8, capacity))
    + UnalignedMemSize(option.(capacity := capacity)) + UnalignedMemSize(Request(8, 8, capacity))
  }

  /** `init` of one vector or queue. */
  method InitArray(allocator: BumpAllocator, r: Request) returns (region: Region)
    requires r.Valid()
    modifies allocator`pos
    ensures region == Region(Align(old(allocator.pos), r.alignment), r.Bytes()) && allocator.pos == region.End()
  {
    var mem := allocator.Allocate(r.Bytes(), r.alignment);
    region := Region(mem, r.Bytes());
  }

  /** `init` of a slot map; never takes more than `const_memory_size`. */
  method InitSlotMap(allocator: BumpAllocator, capacity: nat, option: Request) returns (regions: seq<Region>)
    requires option.Valid()
    modifies allocator`pos
    ensures regions == Place(old(allocator.pos), SlotMapRequests(capacity, option))
    ensures allocator.pos == EndOf(old(allocator.pos), regions) <= old(allocator.pos) + SlotMapMemorySize(capacity, option)
  {
    ghost var pos, rs := allocator.pos, SlotMapRequests(capacity, option);
    var idxToData := InitArray(allocator, Request(8, 8, capacity));
    var freeList := InitArray(allocator, Request(16, 8, capacity));
    var data := InitArray(allocator, option.(capacity := capacity));
    var queue := InitArray(allocator, Request(8, 8, capacity));
    regions := [idxToData, freeList, data, queue];
    assert rs[..3][..2] == rs[..2] && rs[..2][..1] == rs[..1] && rs[..1][..0] == [];
    assert Place(pos, rs[..1]) == [idxToData];
    assert Place(pos, rs[..2]) == [idxToData, freeList];
    assert Place(pos, rs[..3]) == [idxToData, freeList, data];
    AnnouncedSizeSuffices(pos, rs);
    SlotMapTotal(capacity, option);
  }

  lemma SlotMapTotal(capacity: nat, option: Request)
    requires option.Valid()
    ensures TotalMemSize(SlotMapRequests(capacity, option)) == SlotMapMemorySize(capacity, option)
  {
    var rs := SlotMapRequests(capacity, option);
    assert rs[..3][..2] == rs[..2] && rs[..2][..1] == rs[..1] && rs[..1][..0] == [];
    assert TotalMemSize(rs[..1]) == UnalignedMemSize(rs[0]);
    assert TotalMemSize(rs[..2]) == TotalMemSize(rs[..1]) + UnalignedMemSize(rs[1]);
    assert TotalMemSize(rs[..3]) == TotalMemSize(rs[..2]) + UnalignedMemSize(rs[2]);
  }
}
