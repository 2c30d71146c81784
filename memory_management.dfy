/** The kernel heap of Kernel/MemoryManagement.c: a first-fit allocator
    over a doubly linked list of region headers, each followed by the bytes
    it hands out.  The list is a sequence of header records in list order;
    a header's `previous` and `next` are its neighbours in the sequence. */
module MemoryManagement {

  /** sizeof(MemoryManagement_regionHeader) on i386: two pointers, two
      uint32_t and an enum, four bytes each. */
  const H: int := 20
  const MAGIC: int := 0x12345678
  /** The 32-bit address space. */
  const W: int := 0x1_0000_0000
  /** SYSTEM_MEMORY_MAP_ENTRY_FREE (Loader/CommonConstants.h). */
  const SMAP_FREE: int := 9

  datatype RegionType = Free | Occupied

  /** A region header at `addr`, describing the `size` bytes after it. */
  datatype Region = Region(addr: int, size: int, kind: RegionType, magic: int)

  /** The address just past a region's bytes. */
  function End(r: Region): int { r.addr + H + r.size }

  /** A header at a non-null address whose region lies inside the 32-bit
      address space. */
  predicate Fits(r: Region) { 0 < r.addr && 0 <= r.size && End(r) <= W }

  predicate Sound(rs: seq<Region>) { forall i :: 0 <= i < |rs| ==> Fits(rs[i]) }

  /** The bytes a list of regions covers, headers included. */
  function Covered(rs: seq<Region>): int
  {
    if |rs| == 0 then 0 else rs[0].size + H + Covered(rs[1..])
  }

  lemma {:induction false} CoveredConcat(a: seq<Region>, b: seq<Region>)
    ensures Covered(a + b) == Covered(a) + Covered(b)
    decreases |a|
  {
    if |a| > 0 {
      assert (a + b)[0] == a[0];
      assert (a + b)[1..] == a[1..] + b;
      CoveredConcat(a[1..], b);
    } else {
      assert a + b == b;
    }
  }

  lemma CoveredOne(x: Region)
    ensures Covered([x]) == x.size + H
  {
    assert [x][1..] == [];
  }

  lemma CoveredTwo(x: Region, y: Region)
    ensures Covered([x, y]) == x.size + y.size + 2 * H
  {
    assert [x, y][1..] == [y];
    CoveredOne(y);
  }

  /** Replacing the regions at positions i..j-1 by `mid` changes the covered
      bytes by the difference. */
  lemma CoveredReplace(rs: seq<Region>, i: nat, j: nat, mid: seq<Region>)
    requires i <= j <= |rs|
    ensures Covered(rs[..i] + mid + rs[j..]) == Covered(rs) - Covered(rs[i..j]) + Covered(mid)
  {
    assert rs == rs[..i] + rs[i..j] + rs[j..];
    CoveredConcat(rs[..i] + rs[i..j], rs[j..]);
    CoveredConcat(rs[..i], rs[i..j]);
    CoveredConcat(rs[..i] + mid, rs[j..]);
    CoveredConcat(rs[..i], mid);
  }

  lemma SoundReplace(rs: seq<Region>, i: nat, j: nat, mid: seq<Region>)
    requires i <= j <= |rs| && Sound(rs) && Sound(mid)
    ensures Sound(rs[..i] + mid + rs[j..])
  {
    var s := rs[..i] + mid + rs[j..];
    forall k | 0 <= k < |s|
      ensures Fits(s[k])
    {
      if k < i {
        assert s[k] == rs[k];
      } else if k < i + |mid| {
        assert s[k] == mid[k - i];
      } else {
        assert s[k] == rs[k - i - |mid| + j];
      }
    }
  }

  /** Rewriting one header in place, as a replacement of one region. */
  lemma UpdateIsReplace(rs: seq<Region>, i: nat, x: Region)
    requires i < |rs|
    ensures rs[i := x] == rs[..i] + [x] + rs[i + 1..]
    ensures rs[i..i + 1] == [rs[i]]
  {
  }

  // ---------------------------------------------------------------------------
  // c_MemoryManagement_allocate

  /** A region the allocator may hand out for a request of `size` bytes. */
  predicate Suits(r: Region, size: int) { r.kind == Free && r.size >= size }

  datatype Walk = Halt | NoFit | Fit(at: nat)

  /** Lines 28-65: the walk from position `i`: halt on a bad magic, stop at
      the first region that suits, give up at the end of the list. */
  function WalkFrom(rs: seq<Region>, size: int, i: nat): Walk
    requires i <= |rs|
    decreases |rs| - i
  {
    if i == |rs| then NoFit
    else if rs[i].magic != MAGIC then Halt
    else if Suits(rs[i], size) then Fit(i)
    else WalkFrom(rs, size, i + 1)
  }

  function FirstFit(rs: seq<Region>, size: int): Walk { WalkFrom(rs, size, 0) }

  /** Every region before position `k` has a good magic and does not suit. */
  predicate PassedOver(rs: seq<Region>, size: int, k: int)
    requires 0 <= k <= |rs|
  {
    forall j :: 0 <= j < k ==> rs[j].magic == MAGIC && !Suits(rs[j], size)
  }

  lemma {:induction false} WalkFromOutcome(rs: seq<Region>, size: int, i: nat)
    requires i <= |rs| && PassedOver(rs, size, i)
    ensures WalkFrom(rs, size, i) == NoFit <==> PassedOver(rs, size, |rs|)
    ensures forall k :: i <= k < |rs| ==>
      (WalkFrom(rs, size, i) == Fit(k) <==> PassedOver(rs, size, k) && rs[k].magic == MAGIC && Suits(rs[k], size))
    ensures WalkFrom(rs, size, i).Fit? ==> i <= WalkFrom(rs, size, i).at < |rs|
    decreases |rs| - i
  {
    if i < |rs| && rs[i].magic == MAGIC && !Suits(rs[i], size) {
      WalkFromOutcome(rs, size, i + 1);
    }
  }

  /** Where the walk halts. */
  lemma {:induction false} HaltPosition(rs: seq<Region>, size: int, i: nat) returns (k: int)
    requires i <= |rs| && PassedOver(rs, size, i) && WalkFrom(rs, size, i) == Halt
    ensures i <= k < |rs| && PassedOver(rs, size, k) && rs[k].magic != MAGIC
    decreases |rs| - i
  {
    if rs[i].magic != MAGIC {
      k := i;
    } else {
      k := HaltPosition(rs, size, i + 1);
    }
  }

  /** A bad magic met before any region that suits halts the walk. */
  lemma {:induction false} HaltsAt(rs: seq<Region>, size: int, i: nat, k: nat)
    requires i <= k < |rs| && PassedOver(rs, size, k) && rs[k].magic != MAGIC
    ensures WalkFrom(rs, size, i) == Halt
    decreases k - i
  {
    if i < k {
      HaltsAt(rs, size, i + 1, k);
    }
  }

  /** The first-fit choice, both ways: the allocator picks position `k`
      exactly when `k` is the first region that suits and every header up
      to it has a good magic; it finds nothing exactly when no header is bad
      and none suits; and it halts exactly when it meets a bad magic before
      any region that suits. */
  lemma FirstFitChooses(rs: seq<Region>, size: int)
    ensures FirstFit(rs, size) == NoFit <==> PassedOver(rs, size, |rs|)
    ensures forall k :: 0 <= k < |rs| ==>
      (FirstFit(rs, size) == Fit(k) <==> PassedOver(rs, size, k) && rs[k].magic == MAGIC && Suits(rs[k], size))
    ensures FirstFit(rs, size) == Halt <==> exists k :: 0 <= k < |rs| && PassedOver(rs, size, k) && rs[k].magic != MAGIC
    ensures FirstFit(rs, size).Fit? ==> FirstFit(rs, size).at < |rs|
  {
    WalkFromOutcome(rs, size, 0);
    if FirstFit(rs, size) == Halt {
      var k := HaltPosition(rs, size, 0);
    }
    if k :| 0 <= k < |rs| && PassedOver(rs, size, k) && rs[k].magic != MAGIC {
      HaltsAt(rs, size, 0, k);
    }
  }

  /** Lines 38-58: split the chosen region when it exceeds the request by
      more than a header: a new free header right after the `size` bytes
      handed out takes the rest and is linked in directly behind it. */
  function SplitAt(rs: seq<Region>, i: nat, size: int): seq<Region>
    requires i < |rs|
  {
    var r := rs[i];
    if r.size > size + H then
      rs[..i] + [r.(size := size), Region(r.addr + H + size, r.size - H - size, r.kind, MAGIC)] + rs[i + 1..]
    else rs
  }

  /** Lines 38-62: split if worth it, then occupy the chosen region. */
  function Allocated(rs: seq<Region>, i: nat, size: int): seq<Region>
    requires i < |rs|
  {
    var s := SplitAt(rs, i, size);
    s[i := s[i].(kind := Occupied)]
  }

  /** The region the allocator hands out, and the free rest when it
      splits. */
  function Carved(r: Region, size: int): seq<Region>
  {
    if r.size > size + H then [r.(size := size, kind := Occupied), Region(r.addr + H + size, r.size - H - size, Free, MAGIC)]
    else [r.(kind := Occupied)]
  }

  /** An allocation replaces the chosen region by what is carved from it.
      When it splits, the handed-out region keeps its address and gets
      exactly the request, and the new free header sits where those bytes
      end and reaches as far as the old region did.  The test `size + H`
      of line 38 does not wrap. */
  lemma AllocatedShape(rs: seq<Region>, i: nat, size: int)
    requires i < |rs| && Sound(rs) && Suits(rs[i], size) && 0 <= size
    ensures size + H < W
    ensures Allocated(rs, i, size) == rs[..i] + Carved(rs[i], size) + rs[i + 1..]
    ensures var c := Carved(rs[i], size);
      && c[0].addr == rs[i].addr && c[0].kind == Occupied
      && (rs[i].size > size + H ==> |c| == 2 && c[0].size == size && c[1].addr == End(c[0]) && c[1].kind == Free && End(c[1]) == End(rs[i]))
      && (rs[i].size <= size + H ==> c == [rs[i].(kind := Occupied)])
  {
  }

  /** Splitting and occupying keep the list sound and cover exactly the
      bytes the region covered. */
  lemma AllocatedConserves(rs: seq<Region>, i: nat, size: int)
    requires i < |rs| && Sound(rs) && Suits(rs[i], size) && 0 <= size
    ensures Covered(Allocated(rs, i, size)) == Covered(rs) && Sound(Allocated(rs, i, size))
  {
    AllocatedShape(rs, i, size);
    var c := Carved(rs[i], size);
    UpdateIsReplace(rs, i, rs[i]);
    CoveredReplace(rs, i, i + 1, c);
    CoveredOne(rs[i]);
    if rs[i].size > size + H {
      CoveredTwo(c[0], c[1]);
    } else {
      CoveredOne(c[0]);
    }
    SoundReplace(rs, i, i + 1, c);
  }

  // ---------------------------------------------------------------------------
  // c_MemoryManagement_free

  /** Lines 95-97 and 114-116: the header of `b` starts where the bytes of
      `a` end. */
  predicate Touch(a: Region, b: Region) { End(a) == b.addr }

  /** Lines 100-105 and 119-124: `rs[i]` absorbs its successor and its
      header. */
  function Merge(rs: seq<Region>, i: nat): seq<Region>
    requires i + 1 < |rs|
  {
    rs[..i] + [rs[i].(size := rs[i].size + rs[i + 1].size + H)] + rs[i + 2..]
  }

  /** Merging touching regions keeps the list sound, covers the same bytes,
      and yields one region spanning both. */
  lemma MergeShape(rs: seq<Region>, i: nat)
    requires i + 1 < |rs| && Sound(rs) && Touch(rs[i], rs[i + 1])
    ensures var m := Merge(rs, i);
      && Sound(m) && Covered(m) == Covered(rs) && |m| == |rs| - 1
      && m[..i] == rs[..i] && m[i + 1..] == rs[i + 2..]
      && m[i].addr == rs[i].addr && m[i].kind == rs[i].kind && m[i].magic == rs[i].magic && End(m[i]) == End(rs[i + 1])
  {
    var joined := rs[i].(size := rs[i].size + rs[i + 1].size + H);
    assert rs[i..i + 2] == [rs[i], rs[i + 1]];
    CoveredReplace(rs, i, i + 2, [joined]);
    CoveredTwo(rs[i], rs[i + 1]);
    CoveredOne(joined);
    SoundReplace(rs, i, i + 2, [joined]);
  }

  /** Line 90: the region marked free. */
  function Released(rs: seq<Region>, i: nat): seq<Region>
    requires i < |rs|
  {
    rs[i := rs[i].(kind := Free)]
  }

  lemma ReleasedShape(rs: seq<Region>, i: nat)
    requires i < |rs| && Sound(rs)
    ensures var f := Released(rs, i);
      Sound(f) && Covered(f) == Covered(rs) && |f| == |rs| && f[..i] == rs[..i] && f[i + 1..] == rs[i + 1..]
      && f[i].kind == Free && f[i].addr == rs[i].addr && End(f[i]) == End(rs[i])
  {
    var x := rs[i].(kind := Free);
    UpdateIsReplace(rs, i, x);
    CoveredReplace(rs, i, i + 1, [x]);
    CoveredOne(x);
    CoveredOne(rs[i]);
    SoundReplace(rs, i, i + 1, [x]);
  }

  /** Line 92: the region below is free and ends where `rs[i]` starts. */
  predicate MergesBelow(rs: seq<Region>, i: nat)
    requires i < |rs|
  {
    i > 0 && rs[i - 1].kind == Free && Touch(rs[i - 1], rs[i])
  }

  /** Line 112: the region above `g[j]` is free and starts where it ends. */
  predicate MergesAbove(g: seq<Region>, j: nat)
    requires j < |g|
  {
    j + 1 < |g| && g[j + 1].kind == Free && Touch(g[j], g[j + 1])
  }

  /** Lines 90-109: mark the region free and merge it into a free region
      that ends where it starts (marking `rs[i]` free changes neither its
      neighbour nor where it starts). */
  function FreedBelow(rs: seq<Region>, i: nat): seq<Region>
    requires i < |rs|
  {
    var f := Released(rs, i);
    if MergesBelow(rs, i) then Merge(f, i - 1) else f
  }

  /** The position of the region holding the freed bytes after that. */
  function FreedAt(rs: seq<Region>, i: nat): nat
    requires i < |rs|
  {
    if MergesBelow(rs, i) then i - 1 else i
  }

  /** Lines 112-126: the region at `j` absorbs a free touching successor. */
  function MergedAbove(g: seq<Region>, j: nat): seq<Region>
    requires j < |g|
  {
    if MergesAbove(g, j) then Merge(g, j) else g
  }

  /** Lines 90-126: freeing, then merging with the region above when it is
      free and starts where the freed bytes end. */
  function Freed(rs: seq<Region>, i: nat): seq<Region>
    requires i < |rs|
  {
    MergedAbove(FreedBelow(rs, i), FreedAt(rs, i))
  }

  /** Merging below: the freed bytes end up, free, at position `j`, which
      is the previous region exactly when that one was free and touching. */
  lemma FreedBelowShape(rs: seq<Region>, i: nat)
    requires i < |rs| && Sound(rs)
    ensures var g := FreedBelow(rs, i);
      var j := FreedAt(rs, i);
      var below := MergesBelow(rs, i);
      && Sound(g) && Covered(g) == Covered(rs)
      && j == (if below then i - 1 else i) && |g| == |rs| - (if below then 1 else 0)
      && j < |g| && g[..j] == rs[..j] && g[j + 1..] == rs[i + 1..]
      && g[j].kind == Free && g[j].addr == rs[j].addr && End(g[j]) == End(rs[i])
  {
    var f := Released(rs, i);
    ReleasedShape(rs, i);
    if MergesBelow(rs, i) {
      assert f[i - 1] == rs[i - 1];
      MergeShape(f, i - 1);
      assert f[..i - 1] == rs[..i - 1];
      assert f[i + 1..] == rs[i + 1..];
    }
  }

  /** Merging above, on the list left by the merge below: the free region
      at `j` absorbs its successor when that one is free and touching. */
  lemma MergedAboveShape(g: seq<Region>, j: nat)
    requires j < |g| && Sound(g) && g[j].kind == Free
    ensures var above := MergesAbove(g, j);
      var h := MergedAbove(g, j);
      && Sound(h) && Covered(h) == Covered(g)
      && |h| == |g| - (if above then 1 else 0)
      && h[..j] == g[..j] && h[j].kind == Free && h[j].addr == g[j].addr
      && End(h[j]) == (if above then End(g[j + 1]) else End(g[j]))
      && h[j + 1..] == g[j + (if above then 2 else 1)..]
  {
    if MergesAbove(g, j) {
      MergeShape(g, j);
    }
  }

  /** c_MemoryManagement_free's outcome: one free region holding the freed
      bytes, starting at the previous region when that one was free and
      touching, ending at the end of the next region when that one was free
      and touching; the regions before and after are untouched, and the
      covered bytes are conserved. */
  lemma FreedShape(rs: seq<Region>, i: nat)
    requires i < |rs| && Sound(rs)
    ensures var g := Freed(rs, i);
      var below := i > 0 && rs[i - 1].kind == Free && Touch(rs[i - 1], rs[i]);
      var above := i + 1 < |rs| && rs[i + 1].kind == Free && Touch(rs[i], rs[i + 1]);
      var j := if below then i - 1 else i;
      && Sound(g) && Covered(g) == Covered(rs)
      && |g| == |rs| - (if below then 1 else 0) - (if above then 1 else 0)
      && g[..j] == rs[..j] && g[j].kind == Free && g[j].addr == rs[j].addr
      && End(g[j]) == (if above then End(rs[i + 1]) else End(rs[i]))
      && g[j + 1..] == rs[i + (if above then 2 else 1)..]
  {
    FreedBelowShape(rs, i);
    var g := FreedBelow(rs, i);
    var j := FreedAt(rs, i);
    MergedAboveShape(g, j);
    if i + 1 < |rs| {
      assert g[j + 1] == rs[i + 1];
      assert g[j + 2..] == rs[i + 2..];
    }
  }

  // ---------------------------------------------------------------------------
  // c_MemoryManagement_addRegion and MemoryManagement_addFromSMAP

  /** Line 151: a region is taken when its base is not null and it is
      larger than a header. */
  predicate Admitted(base: int, size: int) { base != 0 && size > H }

  /** Lines 153-158: the free header written at the base of a new region. */
  function NewRegion(base: int, size: int): Region { Region(base, size - H, Free, MAGIC) }

  /** One System Memory Map entry: its type and 64-bit base and size. */
  datatype SmapEntry = SmapEntry(kind: int, base: int, size: int)

  /** Lines 177-179: the entry as a 32-bit region. */
  function Base32(e: SmapEntry): int { e.base % W }
  function Size32(e: SmapEntry): int { e.size % W }

  /** Lines 173-180: the regions the memory map adds, in map order. */
  function SmapRegions(es: seq<SmapEntry>): seq<Region>
  {
    if |es| == 0 then []
    else
      var e := es[|es| - 1];
      SmapRegions(es[..|es| - 1]) + if e.kind == SMAP_FREE && Admitted(Base32(e), Size32(e)) then [NewRegion(Base32(e), Size32(e))] else []
  }

  /** What addRegion's callers must provide: a taken region lies inside the
      32-bit address space. */
  predicate InAddressSpace(base: int, size: int) { Admitted(base, size) ==> base + size <= W }

  predicate MapInAddressSpace(es: seq<SmapEntry>)
  {
    forall k :: 0 <= k < |es| ==> es[k].kind == SMAP_FREE ==> InAddressSpace(Base32(es[k]), Size32(es[k]))
  }

  /** The regions the memory map adds are sound, and cover what the free
      entries, truncated to 32 bits, span. */
  function SmapBytes(es: seq<SmapEntry>): int
  {
    if |es| == 0 then 0
    else
      var e := es[|es| - 1];
      SmapBytes(es[..|es| - 1]) + if e.kind == SMAP_FREE && Admitted(Base32(e), Size32(e)) then Size32(e) else 0
  }

  lemma {:induction false} SmapRegionsCover(es: seq<SmapEntry>)
    requires MapInAddressSpace(es)
    ensures Sound(SmapRegions(es)) && Covered(SmapRegions(es)) == SmapBytes(es)
    decreases |es|
  {
    if |es| > 0 {
      var front := es[..|es| - 1];
      assert MapInAddressSpace(front) by {
        forall k | 0 <= k < |front|
          ensures front[k].kind == SMAP_FREE ==> InAddressSpace(Base32(front[k]), Size32(front[k]))
        {
          assert front[k] == es[k];
        }
      }
      SmapRegionsCover(front);
      var e := es[|es| - 1];
      var tail: seq<Region> := if e.kind == SMAP_FREE && Admitted(Base32(e), Size32(e)) then [NewRegion(Base32(e), Size32(e))] else [];
      CoveredConcat(SmapRegions(front), tail);
      assert Covered(tail) == if e.kind == SMAP_FREE && Admitted(Base32(e), Size32(e)) then Size32(e) else 0;
    }
  }

  /** Adding a sound tail keeps a list sound. */
  lemma SoundConcat(a: seq<Region>, b: seq<Region>)
    requires Sound(a) && Sound(b)
    ensures Sound(a + b)
  {
    forall k | 0 <= k < |a + b|
      ensures Fits((a + b)[k])
    {
      if k >= |a| {
        assert (a + b)[k] == b[k - |a|];
      }
    }
  }

  // ---------------------------------------------------------------------------
  // The heap

  datatype AllocResult = Halted | Null | Block(ptr: int)

  class Heap {
    /** The region list from MemoryManagement_base, in list order. */
    var regions: seq<Region>

    ghost predicate Valid()
      reads this
    {
      Sound(regions)
    }

    /** The empty list (MemoryManagement_base == NULL). */
    constructor ()
      ensures Valid() && regions == []
    {
      regions := [];
    }

    /** Lines 38-62: hand out region `i`, split when the rest can hold a
        header, and return the address after its header. */
    method Carve(i: nat, size: int) returns (r: AllocResult)
      requires Valid() && i < |regions| && Suits(regions[i], size) && 0 <= size < W
      modifies this
      ensures Valid() && Covered(regions) == Covered(old(regions))
      ensures r == Block(old(regions)[i].addr + H) && regions == Allocated(old(regions), i, size)
    {
      AllocatedConserves(regions, i, size);
      var h := regions[i];
      if h.size > size + H {
        regions := regions[..i] + [h.(size := size), Region(h.addr + H + size, h.size - H - size, h.kind, MAGIC)] + regions[i + 1..];
      }
      regions := regions[i := regions[i].(kind := Occupied)];
      return Block(h.addr + H);
    }

    /** c_MemoryManagement_allocate: walk the list; halt on a bad magic;
        hand out the first free region that is large enough; NULL with
        nothing changed when no region suits. */
    method Allocate(size: int) returns (r: AllocResult)
      requires Valid() && 0 <= size < W
      modifies this
      ensures Valid() && Covered(regions) == Covered(old(regions))
      ensures match FirstFit(old(regions), size)
        case Halt => r == Halted && regions == old(regions)
        case NoFit => r == Null && regions == old(regions)
        case Fit(i) => i < |old(regions)| && r == Block(old(regions)[i].addr + H) && regions == Allocated(old(regions), i, size)
    {
      var i := 0;
      while i < |regions|
        invariant 0 <= i <= |regions| && PassedOver(regions, size, i)
        invariant FirstFit(regions, size) == WalkFrom(regions, size, i)
      {
        var h := regions[i];
        if h.magic != MAGIC {
          return Halted;
        }
        if h.kind == RegionType.Free && h.size >= size {
          r := Carve(i, size);
          return;
        }
        i := i + 1;
      }
      return Null;
    }

    /** c_MemoryManagement_free of `pmem`, whose header is at list position
        `at`: halt for NULL, for a region that is not occupied and for a bad
        magic; otherwise free and coalesce. */
    method Free(pmem: int, at: nat) returns (halted: bool)
      requires Valid() && (pmem != 0 ==> at < |regions| && regions[at].addr + H == pmem)
      modifies this
      ensures Valid() && Covered(regions) == Covered(old(regions))
      ensures halted <==> pmem == 0 || old(regions)[at].kind != Occupied || old(regions)[at].magic != MAGIC
      ensures halted ==> regions == old(regions)
      ensures !halted ==> regions == Freed(old(regions), at)
    {
      if pmem == 0 {
        return true;
      }
      var h := regions[at];
      if h.kind != Occupied || h.magic != MAGIC {
        return true;
      }
      FreedShape(regions, at);
      FreedBelowShape(regions, at);
      regions := regions[at := h.(kind := RegionType.Free)];
      var j := at;
      if j > 0 && regions[j - 1].kind == RegionType.Free && Touch(regions[j - 1], regions[j]) {
        regions := Merge(regions, j - 1);
        j := j - 1;
      }
      if j + 1 < |regions| && regions[j + 1].kind == RegionType.Free && Touch(regions[j], regions[j + 1]) {
        regions := Merge(regions, j);
      }
      return false;
    }

    /** MemoryManagement_append: the header goes at the tail of the list. */
    method Append(r: Region)
      requires Valid() && Fits(r)
      modifies this
      ensures Valid() && regions == old(regions) + [r]
      ensures Covered(regions) == Covered(old(regions)) + r.size + H
    {
      CoveredConcat(regions, [r]);
      SoundConcat(regions, [r]);
      regions := regions + [r];
    }

    /** c_MemoryManagement_addRegion: a region with a null base or too small
        to hold more than its header is ignored; otherwise a free header
        with the rest of the bytes is appended. */
    method AddRegion(base: int, size: int)
      requires Valid() && 0 <= base < W && 0 <= size < W && InAddressSpace(base, size)
      modifies this
      ensures Valid()
      ensures regions == old(regions) + if Admitted(base, size) then [NewRegion(base, size)] else []
      ensures Covered(regions) == Covered(old(regions)) + if Admitted(base, size) then size else 0
    {
      if Admitted(base, size) {
        Append(NewRegion(base, size));
      } else {
        assert old(regions) + [] == regions;
      }
    }

    /** MemoryManagement_addFromSMAP: every free entry of the memory map,
        truncated to 32 bits, is offered to addRegion in map order. */
    method AddFromSmap(es: seq<SmapEntry>)
      requires Valid() && MapInAddressSpace(es)
      modifies this
      ensures Valid() && regions == old(regions) + SmapRegions(es)
      ensures Covered(regions) == Covered(old(regions)) + SmapBytes(es)
    {
      var k := 0;
      while k < |es|
        invariant 0 <= k <= |es| && Valid()
        invariant regions == old(regions) + SmapRegions(es[..k])
        invariant Covered(regions) == Covered(old(regions)) + SmapBytes(es[..k])
      {
        var e := es[k];
        assert es[..k + 1][..k] == es[..k] && es[..k + 1][k] == e;
        if e.kind == SMAP_FREE {
          AddRegion(e.base % W, e.size % W);
        }
        k := k + 1;
      }
      assert es[..|es|] == es;
    }
  }
}
