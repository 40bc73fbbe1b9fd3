// Address space for patch blobs: a bump allocator whose `last` region is the
// only state, over the pages the kernel holds for the process
// (libsandbox.c, map_patch_map and unmap_patch_map).
module Mapper {
  import opened Codes
  import opened Words

  const PAGE_SIZE: nat := 0x1000

  // struct patch_map; address 0 is the null pointer.
  datatype Region = Region(addr: nat, size: nat)
  const MAP_FAILED: nat := W64 - 1
  const NO_MAP := Region(0, 0)

  // The linker symbols and the address after the heap, where the first map
  // may go (0 when it cannot be found).
  datatype Image = Image(start: nat, end: nat, heap: nat)

  datatype Alloc = Alloc(last: Region, pages: set<int>)

  // `& PAGE_MASK`
  function PageFloor(a: nat): (r: nat)
    ensures r % PAGE_SIZE == 0 && r <= a < r + PAGE_SIZE
  {
    a / PAGE_SIZE * PAGE_SIZE
  }

  // The pointer addition counts in 8-byte units.
  function Limit(start: nat): nat {
    PageFloor((start + 8 * 0xffff_ffff) % W64)
  }

  function NextAddr(last: Region): nat {
    PageFloor((last.addr + last.size + 0x1000) % W64)
  }

  // Bytes mapped for a request, and pages released for it.
  function Mapped(size: nat): nat {
    PageFloor((size + 0x1000) % W64)
  }

  predicate InSpan(p: int, a: int, b: int) {
    a <= p < b
  }

  // Page numbers from a up to but not including b.
  function Pages(a: int, b: int): set<int> {
    set p: int | a <= p < b && InSpan(p, a, b)
  }

  function Grown(pages: set<int>, r: Region): set<int> {
    pages + Pages(r.addr / PAGE_SIZE, r.addr / PAGE_SIZE + Mapped(r.size) / PAGE_SIZE)
  }

  // munmap refuses an unaligned address (MAP_FAILED is one) and a size of 0.
  function Released(pages: set<int>, r: Region): set<int> {
    if r.addr == 0 || r.addr % PAGE_SIZE != 0 || r.size == 0 then pages
    else pages - Pages(r.addr / PAGE_SIZE, (r.addr + r.size + PAGE_SIZE - 1) / PAGE_SIZE)
  }

  datatype MapResult = MapResult(code: int, pm: Region, alloc: Alloc)

  // One call of map_patch_map; `granted` is whether mmap succeeds.
  function MapSpec(a: Alloc, img: Image, size: nat, granted: bool): MapResult {
    var last := if a.last.addr == 0 then a.last.(addr := img.heap) else a.last;
    var a' := a.(last := last);
    var next := NextAddr(last);
    if last.addr == 0 then MapResult(SANDBOX_ERR_INVALID, Region(0, size), a')
    else if (next + Mapped(size)) % W64 >= Limit(img.start) then
      MapResult(SANDBOX_ERR_INVALID, Region(MAP_FAILED, 0), a')
    else if !granted then MapResult(SANDBOX_ERR_NOMEM, Region(MAP_FAILED, size), a')
    else
      var pm := Region(next, size);
      MapResult(SANDBOX_OK, pm, Alloc(pm, Grown(a.pages, pm)))
  }

  function UnmapSpec(a: Alloc, pm: Region): Alloc {
    a.(pages := Released(a.pages, pm))
  }

  class PatchMapper {
    const img: Image
    var last: Region
    var pages: set<int>  // the kernel's view: pages mapped for patches

    constructor (img: Image)
      ensures this.img == img && Abs() == Alloc(NO_MAP, {})
    {
      this.img := img;
      last := NO_MAP;
      pages := {};
    }

    function Abs(): Alloc
      reads this
    {
      Alloc(last, pages)
    }

    method MapPatchMap(size: nat, granted: bool) returns (code: int, pm: Region)
      modifies this
      ensures MapResult(code, pm, Abs()) == MapSpec(old(Abs()), img, size, granted)
    {
      if last.addr == 0 {
        last := last.(addr := img.heap);
      }
      if last.addr == 0 {
        return SANDBOX_ERR_INVALID, Region(0, size);
      }
      var nextAddr := NextAddr(last);
      var nextSize := Mapped(size);
      if (nextAddr + nextSize) % W64 >= Limit(img.start) {
        return SANDBOX_ERR_INVALID, Region(MAP_FAILED, 0);
      }
      if !granted {
        return SANDBOX_ERR_NOMEM, Region(MAP_FAILED, size);
      }
      pm := Region(nextAddr, size);
      pages := Grown(pages, pm);
      last := pm;
      code := SANDBOX_OK;
    }

    // Clears the size, so that a second call releases nothing.
    method UnmapPatchMap(pm: Region) returns (pm': Region)
      modifies this
      ensures Abs() == UnmapSpec(old(Abs()), pm)
      ensures pm' == pm.(size := 0) && UnmapSpec(Abs(), pm') == Abs()
    {
      if pm.addr != 0 {
        pages := Released(pages, pm);
      }
      pm' := pm.(size := 0);
    }
  }

  // --- Every run ------------------------------------------------------------------

  // Every region ever handed out, oldest first: its first page, one past the
  // last page a release gives back, one past its last page, the size asked
  // for, and whether it is still mapped.
  datatype Entry = Entry(first: int, rel: int, end: int, size: nat, live: bool) {
    function Mapping(): Region
      requires 0 <= first
    {
      Region(first * PAGE_SIZE, size)
    }

    // The pages this entry accounts for: all of them, or after unmapping those
    // the release left behind.
    function Kept(): set<int> {
      Pages(if live then first else rel, end)
    }

    predicate Shaped() {
      && 0 < first && 0 < size < W32
      && rel == first + (size + PAGE_SIZE - 1) / PAGE_SIZE
      && end == first + size / PAGE_SIZE + 1
    }
  }

  function EntryFor(r: Region): Entry {
    var first := r.addr / PAGE_SIZE;
    Entry(first, first + (r.size + PAGE_SIZE - 1) / PAGE_SIZE, first + r.size / PAGE_SIZE + 1, r.size, true)
  }

  type Ledger = seq<Entry>

  function Held(ledger: Ledger, n: nat): set<int>
    requires n <= |ledger|
  {
    if n == 0 then {} else Held(ledger, n - 1) + ledger[n - 1].Kept()
  }

  // User-space addresses (below 2^47), a page-aligned heap end.
  predicate UserSpace(img: Image) {
    img.start < 0x8000_0000_0000 && 0 < img.heap < 0x8000_0000_0000 && img.heap % PAGE_SIZE == 0
  }

  // The page the next region will start at.
  function Top(img: Image, last: Region): int {
    if last.addr == 0 then img.heap / PAGE_SIZE + 1
    else last.addr / PAGE_SIZE + last.size / PAGE_SIZE + 1
  }

  ghost predicate Ordered(ledger: Ledger) {
    && (forall i :: 0 <= i < |ledger| ==> ledger[i].first < ledger[i].rel <= ledger[i].end)
    && (forall i, j :: 0 <= i < j < |ledger| ==> ledger[i].end <= ledger[j].first)
  }

  // The allocator's own state between calls.
  ghost predicate LastInv(img: Image, last: Region) {
    && last.addr % PAGE_SIZE == 0
    && (last.addr == 0 ==> last.size == 0)
    && (last.addr != 0 ==> last.addr >= img.heap)
    && (last.addr == img.heap ==> last.size == 0)
    && (last.addr > img.heap ==> Top(img, last) * PAGE_SIZE < Limit(img.start))
  }

  ghost predicate LedgerInv(img: Image, a: Alloc, ledger: Ledger) {
    && LastInv(img, a.last)
    && Ordered(ledger)
    && (forall i :: 0 <= i < |ledger| ==>
          ledger[i].Shaped() && ledger[i].end <= Top(img, a.last) && ledger[i].end * PAGE_SIZE < Limit(img.start))
    && a.pages == Held(ledger, |ledger|)
  }

  datatype MapEvent = Map(size: nat, granted: bool) | Unmap(i: nat) | UnmapAgain(addr: nat)

  // Blobs are between 1 and 2^32 - 1 bytes. A live region is unmapped once;
  // any other unmap the program makes has size 0.
  ghost predicate Allowed(ledger: Ledger, e: MapEvent) {
    match e
    case Map(size, _) => 0 < size < W32
    case Unmap(i) => i < |ledger| && ledger[i].live && ledger[i].Shaped()
    case UnmapAgain(_) => true
  }

  ghost function AllocStep(a: Alloc, img: Image, ledger: Ledger, e: MapEvent): (Alloc, Ledger)
    requires Allowed(ledger, e)
  {
    match e
    case Map(size, granted) =>
      var r := MapSpec(a, img, size, granted);
      (r.alloc, if r.code == SANDBOX_OK then ledger + [EntryFor(r.pm)] else ledger)
    case Unmap(i) =>
      (UnmapSpec(a, ledger[i].Mapping()), ledger[i := ledger[i].(live := false)])
    case UnmapAgain(addr) => (UnmapSpec(a, Region(addr, 0)), ledger)
  }

  // The masked sums, in pages.
  lemma PageArithmetic(last: Region, size: nat)
    requires last.addr % PAGE_SIZE == 0
    requires last.addr + last.size + 0x1000 < W64 && size + 0x1000 < W64
    ensures NextAddr(last) == (last.addr / PAGE_SIZE + last.size / PAGE_SIZE + 1) * PAGE_SIZE
    ensures Mapped(size) == (size / PAGE_SIZE + 1) * PAGE_SIZE
  {
    var k := last.addr / PAGE_SIZE;
    assert last.addr == k * PAGE_SIZE;
    assert (k * PAGE_SIZE + last.size + PAGE_SIZE) / PAGE_SIZE == k + last.size / PAGE_SIZE + 1;
  }

  lemma EntryShape(r: Region)
    requires r.addr % PAGE_SIZE == 0 && 0 < r.addr < 0x10_0000_0000_0000 && 0 < r.size < W32
    ensures var e := EntryFor(r);
            && e.Shaped() && e.first < e.rel <= e.end && e.Mapping() == r
            && e.first == r.addr / PAGE_SIZE && Mapped(r.size) == (e.end - e.first) * PAGE_SIZE
            && (e.end - e.rel == if r.size % PAGE_SIZE == 0 then 1 else 0)
  {
    PageArithmetic(r, r.size);
  }

  // The next region in pages: it would fill [Top, Top + n).
  lemma NextInPages(img: Image, last: Region, size: nat)
    requires UserSpace(img) && LastInv(img, last) && last.addr != 0 && 0 < size < W32
    ensures var n := size / PAGE_SIZE + 1;
            && NextAddr(last) == Top(img, last) * PAGE_SIZE
            && Mapped(size) == n * PAGE_SIZE
            && (NextAddr(last) + Mapped(size)) % W64 == (Top(img, last) + n) * PAGE_SIZE
  {
    LimitBound(img);
    assert last.addr + last.size < 0x10_0000_0000_0000;
    PageArithmetic(last, size);
    assert Top(img, last) == last.addr / PAGE_SIZE + last.size / PAGE_SIZE + 1;
    hide NextAddr, Mapped, Top, Limit, LastInv;
    assert NextAddr(last) + Mapped(size) < W64;
  }

  lemma MapAtTop(img: Image, last: Region, size: nat)
    requires UserSpace(img) && LastInv(img, last) && last.addr != 0 && 0 < size < W32
    requires (Top(img, last) + size / PAGE_SIZE + 1) * PAGE_SIZE < Limit(img.start)
    ensures var pm := Region(Top(img, last) * PAGE_SIZE, size);
            var e := EntryFor(pm);
            && LastInv(img, pm) && e.Shaped() && e.first == Top(img, last) && e.first < e.rel <= e.end
            && e.end == Top(img, pm) == Top(img, last) + size / PAGE_SIZE + 1
            && Mapped(size) / PAGE_SIZE == size / PAGE_SIZE + 1
  {
    LimitBound(img);
    hide Limit;
    var pm := Region(Top(img, last) * PAGE_SIZE, size);
    EntryShape(pm);
    assert pm.addr / PAGE_SIZE == Top(img, last);
    assert pm.addr > img.heap;
  }

  // A successful map starts exactly at the top and leaves no page between
  // itself and the next region; any failure leaves the top where it was.
  lemma MapMovesTop(img: Image, a: Alloc, size: nat, granted: bool)
    requires UserSpace(img) && LastInv(img, a.last) && 0 < size < W32
    ensures var r := MapSpec(a, img, size, granted);
            && LastInv(img, r.alloc.last)
            && if r.code == SANDBOX_OK then
                 var e := EntryFor(r.pm);
                 && r.pm == Region(Top(img, a.last) * PAGE_SIZE, size) == r.alloc.last
                 && e.Shaped() && e.first == Top(img, a.last) && e.end == Top(img, r.alloc.last)
                 && e.first < e.rel <= e.end && e.end * PAGE_SIZE < Limit(img.start)
                 && r.alloc.pages == a.pages + e.Kept()
               else Top(img, r.alloc.last) == Top(img, a.last) && r.alloc.pages == a.pages
  {
    var last := if a.last.addr == 0 then a.last.(addr := img.heap) else a.last;
    assert LastInv(img, last) && Top(img, last) == Top(img, a.last);
    NextInPages(img, last, size);
    hide Limit, Top, LastInv, NextAddr, Mapped, EntryFor;
    var r := MapSpec(a, img, size, granted);
    if r.code == SANDBOX_OK {
      MapAtTop(img, last, size);
      assert EntryFor(r.pm) == EntryFor(Region(Top(img, last) * PAGE_SIZE, size));
      GrownByEntry(a.pages, r.pm);
    }
  }

  // Below the limit there is room for a request at the top.
  predicate Room(img: Image, last: Region, size: nat) {
    (Top(img, last) + size / PAGE_SIZE + 1) * PAGE_SIZE < Limit(img.start)
  }

  // A map succeeds exactly when there is room and mmap grants it. The three
  // outcomes, the region each failure leaves behind, and that even a failure
  // has settled where the first map goes.
  lemma MapExactly(img: Image, a: Alloc, size: nat, granted: bool)
    requires UserSpace(img) && LastInv(img, a.last) && 0 < size < W32
    ensures var r, room := MapSpec(a, img, size, granted), Room(img, a.last, size);
            && (r.code == SANDBOX_OK <==> room && granted)
            && (r.code == SANDBOX_ERR_NOMEM <==> room && !granted)
            && (r.code == SANDBOX_ERR_INVALID <==> !room)
            && (r.code == SANDBOX_ERR_NOMEM ==> r.pm == Region(MAP_FAILED, size))
            && (r.code == SANDBOX_ERR_INVALID ==> r.pm == Region(MAP_FAILED, 0))
            && (!(room && granted) ==> r.alloc.last.addr == if a.last.addr == 0 then img.heap else a.last.addr)
  {
    var last := if a.last.addr == 0 then a.last.(addr := img.heap) else a.last;
    assert LastInv(img, last) && Top(img, last) == Top(img, a.last);
    NextInPages(img, last, size);
    hide Limit, Top, LastInv, NextAddr, Mapped;
  }

  // Where the heap cannot be found nothing is ever mapped.
  lemma NoHeap(img: Image, a: Alloc, size: nat, granted: bool)
    requires img.heap == 0 && a.last.addr == 0
    ensures MapSpec(a, img, size, granted) == MapResult(SANDBOX_ERR_INVALID, Region(0, size), a)
  {
  }

  // The limit is eight times 2^32 - 1 above the text, cut to a page.
  lemma LimitIs(img: Image)
    requires UserSpace(img)
    ensures Limit(img.start) % PAGE_SIZE == 0
    ensures Limit(img.start) <= img.start + 0x7_ffff_fff8 < Limit(img.start) + PAGE_SIZE
  {
  }

  lemma GrownByEntry(pages: set<int>, r: Region)
    requires Mapped(r.size) / PAGE_SIZE == r.size / PAGE_SIZE + 1
    ensures Grown(pages, r) == pages + EntryFor(r).Kept()
  {
  }

  lemma LimitBound(img: Image)
    requires UserSpace(img)
    ensures Limit(img.start) < 0x10_0000_0000_0000
  {
  }

  lemma {:induction false} HeldBelow(ledger: Ledger, n: nat, top: int)
    requires n <= |ledger| && forall i :: 0 <= i < n ==> ledger[i].end <= top
    ensures forall p :: p in Held(ledger, n) ==> p < top
  {
    if n > 0 {
      HeldBelow(ledger, n - 1, top);
    }
  }

  lemma {:induction false} HeldPrefix(ledger: Ledger, other: Ledger, n: nat)
    requires n <= |ledger| && n <= |other| && forall i :: 0 <= i < n ==> ledger[i] == other[i]
    ensures Held(ledger, n) == Held(other, n)
  {
    if n > 0 {
      HeldPrefix(ledger, other, n - 1);
    }
  }

  lemma HeldApart(ledger: Ledger, n: nat)
    requires 0 < n <= |ledger| && Ordered(ledger)
    ensures |Held(ledger, n)| == |Held(ledger, n - 1)| + |ledger[n - 1].Kept()|
  {
    HeldBelow(ledger, n - 1, ledger[n - 1].first);
    assert Held(ledger, n - 1) !! ledger[n - 1].Kept();
  }

  // Marking entry i unmapped takes exactly the released pages out.
  lemma {:induction false} HeldAfterUnmap(ledger: Ledger, i: nat, n: nat)
    requires i < n <= |ledger| && Ordered(ledger) && ledger[i].live
    ensures Held(ledger[i := ledger[i].(live := false)], n) ==
            Held(ledger, n) - Pages(ledger[i].first, ledger[i].rel)
  {
    var l' := ledger[i := ledger[i].(live := false)];
    if n == i + 1 {
      HeldPrefix(ledger, l', i);
      HeldBelow(ledger, i, ledger[i].first);
    } else {
      HeldAfterUnmap(ledger, i, n - 1);
      assert l'[n - 1] == ledger[n - 1] && ledger[i].end <= ledger[n - 1].first;
    }
  }

  lemma UnmapPages(pages: set<int>, e: Entry)
    requires e.Shaped()
    ensures Released(pages, e.Mapping()) == pages - Pages(e.first, e.rel)
  {
    var r := e.Mapping();
    assert r.addr / PAGE_SIZE == e.first && (r.addr + r.size + PAGE_SIZE - 1) / PAGE_SIZE == e.rel;
  }

  lemma UnmapKeeps(img: Image, a: Alloc, ledger: Ledger, i: nat)
    requires LedgerInv(img, a, ledger) && Allowed(ledger, Unmap(i))
    ensures var (a', l') := AllocStep(a, img, ledger, Unmap(i));
            LedgerInv(img, a', l')
  {
    hide Released, Limit, Top, LastInv, MapSpec;
    var (a', l') := AllocStep(a, img, ledger, Unmap(i));
    UnmapPages(a.pages, ledger[i]);
    HeldAfterUnmap(ledger, i, |ledger|);
    assert forall k :: 0 <= k < |l'| ==> l'[k] == ledger[k].(live := l'[k].live);
  }

  lemma MapKeeps(img: Image, a: Alloc, ledger: Ledger, size: nat, granted: bool)
    requires UserSpace(img) && LedgerInv(img, a, ledger) && 0 < size < W32
    ensures var (a', l') := AllocStep(a, img, ledger, Map(size, granted));
            LedgerInv(img, a', l')
  {
    hide MapSpec, Top, EntryFor, Limit, LastInv, Entry.Shaped, Entry.Kept, Entry.Mapping, Released, UnmapSpec;
    var (a', l') := AllocStep(a, img, ledger, Map(size, granted));
    MapMovesTop(img, a, size, granted);
    var r := MapSpec(a, img, size, granted);
    if r.code == SANDBOX_OK {
      var e := EntryFor(r.pm);
      HeldPrefix(ledger, l', |ledger|);
      assert Held(l', |l'|) == Held(l', |ledger|) + e.Kept();
      assert forall i :: 0 <= i < |l'| ==> l'[i] == if i < |ledger| then ledger[i] else e;
    }
  }

  lemma AllocStepKeeps(img: Image, a: Alloc, ledger: Ledger, e: MapEvent)
    requires UserSpace(img) && LedgerInv(img, a, ledger) && Allowed(ledger, e)
    ensures var (a', l') := AllocStep(a, img, ledger, e);
            LedgerInv(img, a', l')
  {
    match e
    case Map(size, granted) => MapKeeps(img, a, ledger, size, granted);
    case Unmap(i) => UnmapKeeps(img, a, ledger, i);
    case UnmapAgain(_) =>
  }

  // A run of the allocator from a given state, if every event is allowed.
  ghost function AllocRun(a: Alloc, img: Image, ledger: Ledger, es: seq<MapEvent>): Option<(Alloc, Ledger)>
    decreases |es|
  {
    if es == [] then Some((a, ledger))
    else if !Allowed(ledger, es[0]) then None
    else
      var (a', l') := AllocStep(a, img, ledger, es[0]);
      AllocRun(a', img, l', es[1..])
  }

  // Whatever mix of limit failures, mmap failures and unmaps a run holds.
  lemma {:induction false} RunKeepsLedger(img: Image, a: Alloc, ledger: Ledger, es: seq<MapEvent>)
    requires UserSpace(img) && LedgerInv(img, a, ledger) && AllocRun(a, img, ledger, es).Some?
    ensures var (a', l') := AllocRun(a, img, ledger, es).value;
            LedgerInv(img, a', l')
    decreases |es|
  {
    hide AllocStep, LedgerInv;
    if es != [] {
      AllocStepKeeps(img, a, ledger, es[0]);
      var (a', l') := AllocStep(a, img, ledger, es[0]);
      RunKeepsLedger(img, a', l', es[1..]);
    }
  }

  const FRESH := Alloc(NO_MAP, {})

  // Every region a run from start-up ever returned is page-aligned, larger
  // than requested and below the limit, and lies wholly below every later one.
  lemma RegionsOfEveryRun(img: Image, es: seq<MapEvent>, i: nat)
    requires UserSpace(img) && AllocRun(FRESH, img, [], es).Some?
    requires i < |AllocRun(FRESH, img, [], es).value.1|
    ensures var l := AllocRun(FRESH, img, [], es).value.1;
            && l[i].Shaped()
            && var r := l[i].Mapping();
            && r.addr % PAGE_SIZE == 0 && r.size < Mapped(r.size)
            && r.addr + Mapped(r.size) < Limit(img.start)
            && forall j :: i < j < |l| ==> l[j].Shaped() && r.addr + Mapped(r.size) <= l[j].Mapping().addr
  {
    RunKeepsLedger(img, FRESH, [], es);
    var l := AllocRun(FRESH, img, [], es).value.1;
    hide AllocRun, Limit, Mapped, Top, Held;
    PlacedRegion(img, l[i]);
    forall j | i < j < |l|
      ensures l[j].Shaped() && l[i].end * PAGE_SIZE <= l[j].Mapping().addr
    {
      assert l[i].end <= l[j].first;
    }
  }

  lemma PlacedRegion(img: Image, e: Entry)
    requires UserSpace(img) && e.Shaped() && e.end * PAGE_SIZE < Limit(img.start)
    ensures var r := e.Mapping();
            && r.addr % PAGE_SIZE == 0 && r.addr == e.first * PAGE_SIZE
            && r.size < Mapped(r.size) == (e.end - e.first) * PAGE_SIZE
  {
    LimitBound(img);
    PageArithmetic(e.Mapping(), e.size);
  }

  // The pages of a live region, or the one page left behind by unmapping a
  // blob whose size is a multiple of the page size.
  function OwnPages(e: Entry): nat
  {
    if e.live then e.size / PAGE_SIZE + 1
    else if e.size % PAGE_SIZE == 0 then 1
    else 0
  }

  function PageCount(ledger: Ledger, n: nat): nat
    requires n <= |ledger|
  {
    if n == 0 then 0 else PageCount(ledger, n - 1) + OwnPages(ledger[n - 1])
  }

  lemma {:induction false} PagesCount(a: int, b: int)
    ensures |Pages(a, b)| == if a <= b then b - a else 0
    decreases b - a
  {
    if a < b {
      PagesCount(a, b - 1);
      assert Pages(a, b) == Pages(a, b - 1) + {b - 1};
    } else {
      assert Pages(a, b) == {};
    }
  }

  lemma KeptCount(e: Entry)
    requires e.Shaped()
    ensures |e.Kept()| == OwnPages(e)
  {
    PagesCount(if e.live then e.first else e.rel, e.end);
  }

  lemma {:induction false} HeldCount(ledger: Ledger, n: nat)
    requires n <= |ledger| && Ordered(ledger)
    requires forall i :: 0 <= i < |ledger| ==> ledger[i].Shaped()
    ensures |Held(ledger, n)| == PageCount(ledger, n)
  {
    hide OwnPages, Entry.Kept;
    if n > 0 {
      HeldCount(ledger, n - 1);
      KeptCount(ledger[n - 1]);
      HeldApart(ledger, n);
    }
  }

  // Mapping takes size/4096 + 1 pages and unmapping gives back the size
  // rounded up, so over every run the pages the process still holds are those
  // of live blobs and exactly one per unmapped blob of whole pages.
  lemma PageConservation(img: Image, es: seq<MapEvent>)
    requires UserSpace(img) && AllocRun(FRESH, img, [], es).Some?
    ensures var (a, l) := AllocRun(FRESH, img, [], es).value;
            |a.pages| == PageCount(l, |l|)
  {
    RunKeepsLedger(img, FRESH, [], es);
    var l := AllocRun(FRESH, img, [], es).value.1;
    HeldCount(l, |l|);
  }
}
