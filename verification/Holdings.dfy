// Which pages the process holds for its patches, over every run of applies,
// failed applies and undos: the run's calls of the mapper, and what they add
// up to.
module Holdings {
  import opened Codes
  import opened Words
  import opened Overlay
  import opened PatchData
  import opened Payload
  import opened Relocs
  import opened Mapper
  import opened Server
  import opened Engine
  import UndoLog

  // --- The mapper calls of one operation ----------------------------------------------

  // The request passes every check before the blob is mapped, and has one.
  predicate Reaches(p: Bytes, g: Grants) {
    |p| >= HEADER_SIZE && g.patch &&
    var h := ReadHeader(p);
    HasBlob(h) && h.numwrites != 0 && h.numexctblents == 0 && h.numpreexctblents == 0
  }

  function MapFor(img: Image, s: State, p: Bytes, g: Grants): MapResult
    requires |p| >= HEADER_SIZE
  {
    MapSpec(s.alloc, img, ReadHeader(p).bloblen, g.mmap)
  }

  // One map for each apply that reaches the mapper. If the patch is dropped
  // afterwards its region, number n of the run, is unmapped; if staging
  // failed, that is followed by the second unmap, of size 0.
  function ApplyCalls(img: Image, s: State, n: nat, p: Bytes, g: Grants): seq<MapEvent>
    requires StateOk(img, s)
  {
    var (r, s') := ApplySpec(img, s, p, g);
    if r == Undefined || !Reaches(p, g) then []
    else
      var m := MapFor(img, s, p, g);
      var call := Map(ReadHeader(p).bloblen, g.mmap);
      if m.code != SANDBOX_OK then [call, UnmapAgain(m.pm.addr)]
      else if |s'.applied| > |s.applied| then [call]
      else if r == Returns(SANDBOX_OK) then [call, Unmap(n)]
      else [call, Unmap(n), UnmapAgain(m.pm.addr)]
  }

  // own[k] is the number of the region that applied patch k holds, or -1 when
  // it has no blob. An undo that succeeds unmaps that region.
  function UndoCalls(img: Image, s: State, own: seq<int>, sha1: Sha1): seq<MapEvent>
    requires StateOk(img, s)
  {
    var k := IndexOf(s.applied, sha1, 0);
    if UndoSpec(img, s, sha1).0 == 0 && k < |own| && own[k] >= 0 then [Unmap(own[k])] else []
  }

  function Calls(img: Image, s: State, n: nat, own: seq<int>, op: Op): seq<MapEvent>
    requires StateOk(img, s)
  {
    match op
    case Apply(p, g) => ApplyCalls(img, s, n, p, g)
    case Undo(sha1) => UndoCalls(img, s, own, sha1)
  }

  function OwnAfter(img: Image, s: State, n: nat, own: seq<int>, op: Op): seq<int>
    requires StateOk(img, s)
  {
    match op
    case Apply(p, g) =>
      if |ApplySpec(img, s, p, g).1.applied| == |s.applied| then own
      else [if Reaches(p, g) then n else -1] + own
    case Undo(sha1) =>
      var k := IndexOf(s.applied, sha1, 0);
      if UndoSpec(img, s, sha1).0 == 0 && k < |own| then RemoveAt(own, k) else own
  }

  // How many regions the operation is handed.
  function Handed(img: Image, s: State, op: Op): nat
    requires StateOk(img, s)
  {
    match op
    case Apply(p, g) =>
      if ApplySpec(img, s, p, g).0 != Undefined && Reaches(p, g) && MapFor(img, s, p, g).code == SANDBOX_OK then 1
      else 0
    case Undo(_) => 0
  }

  // The mapper calls of a whole run. A step whose behaviour is undefined makes
  // none: the model leaves the state as it was.
  ghost function RunCalls(img: Image, s: State, n: nat, own: seq<int>, ops: seq<Op>): seq<MapEvent>
    requires StateOk(img, s)
    decreases |ops|
  {
    if ops == [] then []
    else
      StepKeepsState(img, s, ops[0]);
      Calls(img, s, n, own, ops[0]) +
      RunCalls(img, Step(img, s, ops[0]).1, n + Handed(img, s, ops[0]), OwnAfter(img, s, n, own, ops[0]), ops[1..])
  }

  ghost function RunOwn(img: Image, s: State, n: nat, own: seq<int>, ops: seq<Op>): seq<int>
    requires StateOk(img, s)
    decreases |ops|
  {
    if ops == [] then own
    else
      StepKeepsState(img, s, ops[0]);
      RunOwn(img, Step(img, s, ops[0]).1, n + Handed(img, s, ops[0]), OwnAfter(img, s, n, own, ops[0]), ops[1..])
  }

  // --- Regions and patches ---------------------------------------------------------------

  // Every live region is held by exactly one listed patch.
  ghost predicate Backed(img: Image, s: State, ledger: Ledger, own: seq<int>) {
    && LedgerInv(img, s.alloc, ledger)
    && |own| == |s.applied|
    && (forall k :: 0 <= k < |own| ==> Backs(ledger, own[k], s.applied[k].pm))
    && (forall j, k :: 0 <= j < k < |own| && own[j] >= 0 ==> own[j] != own[k])
    && (forall i :: 0 <= i < |ledger| && ledger[i].live ==> i in own)
  }

  ghost predicate Backs(ledger: Ledger, i: int, pm: Region) {
    if i < 0 then pm == NO_MAP
    else i < |ledger| && ledger[i].live && ledger[i].Shaped() && ledger[i].Mapping() == pm
  }

  lemma FailedMapUnmaps(a: Alloc, img: Image, size: nat, granted: bool)
    requires MapSpec(a, img, size, granted).code != SANDBOX_OK
    ensures var r := MapSpec(a, img, size, granted); UnmapSpec(r.alloc, r.pm) == r.alloc
  {
    assert MAP_FAILED % PAGE_SIZE == 4095;
  }

  lemma StageAlloc(img: Image, a: Alloc, p: Bytes, h: Header, g: Grants)
    ensures var st := StageSpec(img, a, p, h, g);
            var r := MapSpec(a, img, h.bloblen, g.mmap);
            match st
            case Wild => true
            case Ready(pm, _, _, a') =>
              if HasBlob(h) then r.code == SANDBOX_OK && pm == r.pm && a' == r.alloc else pm == NO_MAP && a' == a
            case Failed(_, pm, a') =>
              UnmapSpec(a', pm) ==
              if !HasBlob(h) then a
              else if r.code == SANDBOX_OK then UnmapSpec(r.alloc, r.pm)
              else r.alloc
  {
    var r := MapSpec(a, img, h.bloblen, g.mmap);
    if HasBlob(h) && r.code != SANDBOX_OK {
      FailedMapUnmaps(a, img, h.bloblen, g.mmap);
    }
    hide MapSpec, RelocSpec, FixWrite, ReadWords, ReadWrites, RelocRel;
  }

  // What one apply does to the allocator, and whose region the new patch gets.
  lemma ApplyAlloc(img: Image, s: State, p: Bytes, g: Grants)
    requires StateOk(img, s)
    ensures var (r, s') := ApplySpec(img, s, p, g);
            if r == Undefined then s' == s
            else if !Reaches(p, g) then
              s'.alloc == s.alloc && (Untouched(s, s') || (Grew(s, s') && s'.applied[0].pm == NO_MAP))
            else
              var m := MapFor(img, s, p, g);
              if m.code != SANDBOX_OK then s'.alloc == m.alloc && Untouched(s, s')
              else if |s'.applied| > |s.applied| then s'.alloc == m.alloc && Grew(s, s') && s'.applied[0].pm == m.pm
              else s'.alloc == UnmapSpec(m.alloc, m.pm) && Untouched(s, s')
  {
    if |p| >= HEADER_SIZE {
      var h := ReadHeader(p);
      var s' := ApplySpec(img, s, p, g).1;
      StageAlloc(img, s.alloc, p, h, g);
      if HasBlob(h) && MapSpec(s.alloc, img, h.bloblen, g.mmap).code != SANDBOX_OK {
        StageNeedsMap(img, s.alloc, p, h, g);
      }
      hide StageSpec, MapSpec, Overlaid, Saved, ReadHeader, Released;
      if |s'.applied| == |s.applied| + 1 {
        assert s'.applied[1..] == s.applied;
      }
    }
  }

  lemma StageNeedsMap(img: Image, a: Alloc, p: Bytes, h: Header, g: Grants)
    requires HasBlob(h) && MapSpec(a, img, h.bloblen, g.mmap).code != SANDBOX_OK
    ensures StageSpec(img, a, p, h, g).Failed?
  {
  }

  lemma BackedMore(ledger: Ledger, ledger': Ledger, i: int, pm: Region)
    requires Backs(ledger, i, pm) && |ledger| <= |ledger'|
    requires forall j :: 0 <= j < |ledger| ==> ledger'[j] == ledger[j]
    ensures Backs(ledger', i, pm)
  {
  }

  // A new live region at the end of the ledger, held by the new list head.
  lemma BackHead(img: Image, s: State, s': State, ledger: Ledger, own: seq<int>, r: MapResult)
    requires Backed(img, s, ledger, own) && Grew(s, s')
    requires r.code == SANDBOX_OK && s'.alloc == r.alloc && s'.applied[0].pm == r.pm
    requires LedgerInv(img, r.alloc, ledger + [EntryFor(r.pm)])
    requires EntryFor(r.pm).Shaped() && EntryFor(r.pm).Mapping() == r.pm
    ensures Backed(img, s', ledger + [EntryFor(r.pm)], [|ledger|] + own)
  {
    hide LedgerInv, EntryFor, Entry.Shaped;
    var ledger' := ledger + [EntryFor(r.pm)];
    var own' := [|ledger|] + own;
    EntryLive(r.pm);
    forall k | 0 <= k < |own'|
      ensures Backs(ledger', own'[k], s'.applied[k].pm)
    {
      if k > 0 {
        assert s'.applied[k] == s'.applied[1..][k - 1];
        BackedMore(ledger, ledger', own[k - 1], s.applied[k - 1].pm);
      }
    }
    forall i | 0 <= i < |ledger'| && ledger'[i].live
      ensures i in own'
    {
      if i < |ledger| {
        assert ledger'[i] == ledger[i] && i in own;
      } else {
        assert own'[0] == i;
      }
    }
  }

  lemma EntryLive(r: Region)
    ensures EntryFor(r).live && EntryFor(r).size == r.size
  {
  }

  // A region mapped and unmapped again within one apply.
  lemma MapThenUnmap(img: Image, s: State, s': State, ledger: Ledger, own: seq<int>, r: MapResult)
    requires Backed(img, s, ledger, own) && Untouched(s, s')
    requires r.code == SANDBOX_OK && s'.alloc == UnmapSpec(r.alloc, r.pm)
    requires LedgerInv(img, r.alloc, ledger + [EntryFor(r.pm)])
    requires EntryFor(r.pm).Shaped() && EntryFor(r.pm).Mapping() == r.pm
    ensures Backed(img, s', ledger + [EntryFor(r.pm).(live := false)], own)
  {
    var l1, n := ledger + [EntryFor(r.pm)], |ledger|;
    EntryLive(r.pm);
    UnmapKeeps(img, r.alloc, l1, n);
    var ledger' := ledger + [EntryFor(r.pm).(live := false)];
    assert ledger' == l1[n := l1[n].(live := false)];
    hide LedgerInv, EntryFor, Entry.Shaped;
    forall k | 0 <= k < |own|
      ensures Backs(ledger', own[k], s'.applied[k].pm)
    {
      BackedMore(ledger, ledger', own[k], s.applied[k].pm);
    }
    assert forall i :: 0 <= i < n ==> ledger'[i] == ledger[i];
  }

  // A patch without a blob.
  lemma BackNone(img: Image, s: State, s': State, ledger: Ledger, own: seq<int>)
    requires Backed(img, s, ledger, own) && Grew(s, s') && s'.alloc == s.alloc && s'.applied[0].pm == NO_MAP
    ensures Backed(img, s', ledger, [-1] + own)
  {
    hide LedgerInv, Entry.Shaped;
    var own' := [-1] + own;
    forall k | 0 <= k < |own'|
      ensures Backs(ledger, own'[k], s'.applied[k].pm)
    {
      if k > 0 {
        assert s'.applied[k] == s'.applied[1..][k - 1] && own'[k] == own[k - 1];
      }
    }
    assert forall i :: i in own ==> i in own';
  }

  lemma MappedEntry(img: Image, a: Alloc, ledger: Ledger, size: nat, granted: bool)
    requires UserSpace(img) && LedgerInv(img, a, ledger) && 0 < size < W32
    ensures var r := MapSpec(a, img, size, granted);
            if r.code == SANDBOX_OK then
              && LedgerInv(img, r.alloc, ledger + [EntryFor(r.pm)])
              && EntryFor(r.pm).Shaped() && EntryFor(r.pm).Mapping() == r.pm && r.pm.addr != 0 && r.pm.size == size
            else LedgerInv(img, r.alloc, ledger)
  {
    MapKeeps(img, a, ledger, size, granted);
    MapMovesTop(img, a, size, granted);
    hide Limit, Top;
    var r := MapSpec(a, img, size, granted);
    hide MapSpec, LedgerInv;
    if r.code == SANDBOX_OK {
      assert r.pm.addr % PAGE_SIZE == 0;
    }
  }

  // --- Counting pages ------------------------------------------------------------------

  // The pages mapped for a listed patch.
  function BlobPages(pm: Region): nat {
    if pm == NO_MAP then 0 else pm.size / PAGE_SIZE + 1
  }

  function ListedPages(applied: seq<Applied>): nat {
    if applied == [] then 0 else BlobPages(applied[0].pm) + ListedPages(applied[1..])
  }

  // The pages that unmapping a blob leaves behind.
  function LeftPages(size: nat): nat {
    if size % PAGE_SIZE == 0 then 1 else 0
  }

  // The pages an operation leaves behind: those of the blob it maps and unmaps
  // again, or of the patch it undoes.
  function LeftBy(img: Image, s: State, op: Op): nat
    requires StateOk(img, s)
  {
    match op
    case Apply(p, g) =>
      if Handed(img, s, op) == 1 && |ApplySpec(img, s, p, g).1.applied| == |s.applied|
      then LeftPages(ReadHeader(p).bloblen) else 0
    case Undo(sha1) =>
      var k := IndexOf(s.applied, sha1, 0);
      if UndoSpec(img, s, sha1).0 == 0 && s.applied[k].pm != NO_MAP then LeftPages(s.applied[k].pm.size) else 0
  }

  ghost function LeftOver(img: Image, s: State, ops: seq<Op>): nat
    requires StateOk(img, s)
    decreases |ops|
  {
    if ops == [] then 0
    else
      StepKeepsState(img, s, ops[0]);
      LeftBy(img, s, ops[0]) + LeftOver(img, Step(img, s, ops[0]).1, ops[1..])
  }

  lemma {:induction false} PageCountPrefix(ledger: Ledger, other: Ledger, n: nat)
    requires n <= |ledger| && n <= |other| && forall i :: 0 <= i < n ==> ledger[i] == other[i]
    ensures PageCount(ledger, n) == PageCount(other, n)
  {
    if n > 0 {
      PageCountPrefix(ledger, other, n - 1);
    }
  }

  lemma PageCountAppend(ledger: Ledger, e: Entry)
    ensures PageCount(ledger + [e], |ledger| + 1) == PageCount(ledger, |ledger|) + OwnPages(e)
  {
    PageCountPrefix(ledger, ledger + [e], |ledger|);
  }

  lemma {:induction false} PageCountUnmap(ledger: Ledger, i: nat, n: nat)
    requires i < n <= |ledger| && ledger[i].live
    ensures PageCount(ledger[i := ledger[i].(live := false)], n) ==
            PageCount(ledger, n) - (ledger[i].size / PAGE_SIZE + 1) + LeftPages(ledger[i].size)
  {
    if n == i + 1 {
      PageCountPrefix(ledger, ledger[i := ledger[i].(live := false)], i);
    } else {
      PageCountUnmap(ledger, i, n - 1);
    }
  }

  lemma {:induction false} ListedAfterRemove(applied: seq<Applied>, k: nat)
    requires k < |applied|
    ensures ListedPages(RemoveAt(applied, k)) == ListedPages(applied) - BlobPages(applied[k].pm)
  {
    var r := RemoveAt(applied, k);
    if k == 0 {
      assert r == applied[1..];
    } else {
      ListedAfterRemove(applied[1..], k - 1);
      assert r[0] == applied[0] && r[1..] == RemoveAt(applied[1..], k - 1);
    }
  }

  // --- One operation -------------------------------------------------------------------

  // What a step must keep: its mapper calls lead from the ledger before to the
  // ledger after, patches and live regions match, and pages add up.
  ghost predicate Traced(img: Image, s: State, ledger: Ledger, own: seq<int>, op: Op, ledger': Ledger)
    requires StateOk(img, s)
  {
    var s' := Step(img, s, op).1;
    && AllocRun(s.alloc, img, ledger, Calls(img, s, |ledger|, own, op)) == Some((s'.alloc, ledger'))
    && |ledger'| == |ledger| + Handed(img, s, op)
    && Backed(img, s', ledger', OwnAfter(img, s, |ledger|, own, op))
    && PageCount(ledger', |ledger'|) + ListedPages(s.applied) ==
       PageCount(ledger, |ledger|) + ListedPages(s'.applied) + LeftBy(img, s, op)
  }

  lemma RunOne(a: Alloc, img: Image, ledger: Ledger, e: MapEvent)
    requires Allowed(ledger, e)
    ensures AllocRun(a, img, ledger, [e]) == Some(AllocStep(a, img, ledger, e))
  {
    hide AllocStep, Allowed;
    var (a1, l1) := AllocStep(a, img, ledger, e);
    assert [e][1..] == [];
    assert AllocRun(a1, img, l1, []) == Some((a1, l1));
  }

  lemma {:induction false} RunAppend(a: Alloc, img: Image, ledger: Ledger, es: seq<MapEvent>, fs: seq<MapEvent>)
    requires AllocRun(a, img, ledger, es).Some?
    ensures var (a', l') := AllocRun(a, img, ledger, es).value;
            AllocRun(a, img, ledger, es + fs) == AllocRun(a', img, l', fs)
    decreases |es|
  {
    hide AllocStep, Allowed;
    if es == [] {
      assert es + fs == fs;
    } else {
      var (a1, l1) := AllocStep(a, img, ledger, es[0]);
      RunAppend(a1, img, l1, es[1..], fs);
      assert (es + fs)[0] == es[0] && (es + fs)[1..] == es[1..] + fs;
    }
  }

  // The second unmap of a failed apply.
  lemma UnmapAgainLast(a: Alloc, img: Image, ledger: Ledger, es: seq<MapEvent>, addr: nat)
    requires AllocRun(a, img, ledger, es).Some?
    ensures AllocRun(a, img, ledger, es + [UnmapAgain(addr)]) == AllocRun(a, img, ledger, es)
  {
    var (a', l') := AllocRun(a, img, ledger, es).value;
    RunAppend(a, img, ledger, es, [UnmapAgain(addr)]);
    RunOne(a', img, l', UnmapAgain(addr));
  }

  lemma MapRun(a: Alloc, img: Image, ledger: Ledger, size: nat, granted: bool)
    requires 0 < size < W32
    ensures var r := MapSpec(a, img, size, granted);
            AllocRun(a, img, ledger, [Map(size, granted)]) ==
            Some((r.alloc, if r.code == SANDBOX_OK then ledger + [EntryFor(r.pm)] else ledger))
  {
    RunOne(a, img, ledger, Map(size, granted));
  }

  lemma MapUnmapRun(a: Alloc, img: Image, ledger: Ledger, size: nat, granted: bool)
    requires 0 < size < W32 && MapSpec(a, img, size, granted).code == SANDBOX_OK
    requires var r := MapSpec(a, img, size, granted);
             EntryFor(r.pm).Shaped() && EntryFor(r.pm).Mapping() == r.pm
    ensures var r := MapSpec(a, img, size, granted);
            AllocRun(a, img, ledger, [Map(size, granted), Unmap(|ledger|)]) ==
            Some((UnmapSpec(r.alloc, r.pm), ledger + [EntryFor(r.pm).(live := false)]))
  {
    var r := MapSpec(a, img, size, granted);
    var l1 := ledger + [EntryFor(r.pm)];
    MapRun(a, img, ledger, size, granted);
    RunAppend(a, img, ledger, [Map(size, granted)], [Unmap(|ledger|)]);
    assert [Map(size, granted)] + [Unmap(|ledger|)] == [Map(size, granted), Unmap(|ledger|)];
    EntryLive(r.pm);
    RunOne(r.alloc, img, l1, Unmap(|ledger|));
    assert l1[|ledger| := l1[|ledger|].(live := false)] == ledger + [EntryFor(r.pm).(live := false)];
  }

  lemma ApplyWithoutMap(img: Image, s: State, ledger: Ledger, own: seq<int>, p: Bytes, g: Grants)
    requires StateOk(img, s) && Backed(img, s, ledger, own)
    requires ApplySpec(img, s, p, g).0 == Undefined || !Reaches(p, g)
    ensures Traced(img, s, ledger, own, Apply(p, g), ledger)
  {
    ApplyAlloc(img, s, p, g);
    hide ApplySpec, LedgerInv, Reaches, MapSpec, AllocStep, PageCount, Backs;
    var s' := ApplySpec(img, s, p, g).1;
    if Grew(s, s') {
      assert !Reaches(p, g);
      BackNone(img, s, s', ledger, own);
    }
  }

  lemma BackedLedger(img: Image, s: State, ledger: Ledger, own: seq<int>)
    requires Backed(img, s, ledger, own)
    ensures LedgerInv(img, s.alloc, ledger) && |own| == |s.applied|
  {
  }

  lemma BackedSame(img: Image, s: State, s': State, ledger: Ledger, own: seq<int>)
    requires Backed(img, s, ledger, own) && Untouched(s, s') && LedgerInv(img, s'.alloc, ledger)
    ensures Backed(img, s', ledger, own)
  {
  }

  lemma ApplyMapFails(img: Image, s: State, ledger: Ledger, own: seq<int>, p: Bytes, g: Grants)
    requires UserSpace(img) && StateOk(img, s) && Backed(img, s, ledger, own)
    requires ApplySpec(img, s, p, g).0 != Undefined && Reaches(p, g) && MapFor(img, s, p, g).code != SANDBOX_OK
    ensures Traced(img, s, ledger, own, Apply(p, g), ledger)
  {
    hide ApplySpec, MapSpec, ReadHeader, LedgerInv, AllocRun, PageCount, ListedPages, Backed, Limit, Entry.Shaped;
    BackedLedger(img, s, ledger, own);
    ApplyAlloc(img, s, p, g);
    var size, m := ReadHeader(p).bloblen, MapFor(img, s, p, g);
    MappedEntry(img, s.alloc, ledger, size, g.mmap);
    MapRun(s.alloc, img, ledger, size, g.mmap);
    UnmapAgainLast(s.alloc, img, ledger, [Map(size, g.mmap)], m.pm.addr);
    BackedSame(img, s, ApplySpec(img, s, p, g).1, ledger, own);
    assert [Map(size, g.mmap)] + [UnmapAgain(m.pm.addr)] == [Map(size, g.mmap), UnmapAgain(m.pm.addr)];
  }

  lemma ApplyMapped(img: Image, s: State, ledger: Ledger, own: seq<int>, p: Bytes, g: Grants)
    requires UserSpace(img) && StateOk(img, s) && Backed(img, s, ledger, own)
    requires ApplySpec(img, s, p, g).0 != Undefined && Reaches(p, g) && MapFor(img, s, p, g).code == SANDBOX_OK
    requires |ApplySpec(img, s, p, g).1.applied| > |s.applied|
    ensures Traced(img, s, ledger, own, Apply(p, g), ledger + [EntryFor(MapFor(img, s, p, g).pm)])
  {
    hide ApplySpec, MapSpec, ReadHeader, LedgerInv, AllocRun, PageCount, Backs, EntryFor, Backed, Limit, Entry.Shaped;
    BackedLedger(img, s, ledger, own);
    ApplyAlloc(img, s, p, g);
    var size, m, s' := ReadHeader(p).bloblen, MapFor(img, s, p, g), ApplySpec(img, s, p, g).1;
    MappedEntry(img, s.alloc, ledger, size, g.mmap);
    MapRun(s.alloc, img, ledger, size, g.mmap);
    BackHead(img, s, s', ledger, own, m);
    PageCountAppend(ledger, EntryFor(m.pm));
    EntryLive(m.pm);
  }

  lemma ApplyUnmapped(img: Image, s: State, ledger: Ledger, own: seq<int>, p: Bytes, g: Grants)
    requires UserSpace(img) && StateOk(img, s) && Backed(img, s, ledger, own)
    requires ApplySpec(img, s, p, g).0 != Undefined && Reaches(p, g) && MapFor(img, s, p, g).code == SANDBOX_OK
    requires |ApplySpec(img, s, p, g).1.applied| <= |s.applied|
    ensures Traced(img, s, ledger, own, Apply(p, g), ledger + [EntryFor(MapFor(img, s, p, g).pm).(live := false)])
  {
    hide ApplySpec, MapSpec, ReadHeader, LedgerInv, AllocRun, PageCount, ListedPages, Backs, EntryFor, Backed,
      UnmapSpec, Limit, Entry.Shaped;
    BackedLedger(img, s, ledger, own);
    ApplyAlloc(img, s, p, g);
    var size, m, n := ReadHeader(p).bloblen, MapFor(img, s, p, g), |ledger|;
    var (r, s') := ApplySpec(img, s, p, g);
    MappedEntry(img, s.alloc, ledger, size, g.mmap);
    MapUnmapRun(s.alloc, img, ledger, size, g.mmap);
    MapThenUnmap(img, s, s', ledger, own, m);
    PageCountAppend(ledger, EntryFor(m.pm).(live := false));
    EntryLive(m.pm);
    UnmapAgainLast(s.alloc, img, ledger, [Map(size, g.mmap), Unmap(n)], m.pm.addr);
    assert [Map(size, g.mmap), Unmap(n)] + [UnmapAgain(m.pm.addr)] ==
           [Map(size, g.mmap), Unmap(n), UnmapAgain(m.pm.addr)];
  }

  // The backing of the patches that stay when patch k goes and its region, if
  // it has one, is unmapped.
  lemma BackRest(ledger: Ledger, applied: seq<Applied>, own: seq<int>, k: nat)
    requires k < |own| == |applied|
    requires forall j :: 0 <= j < |own| ==> Backs(ledger, own[j], applied[j].pm)
    requires forall i, j :: 0 <= i < j < |own| && own[i] >= 0 ==> own[i] != own[j]
    requires forall i :: 0 <= i < |ledger| && ledger[i].live ==> i in own
    ensures own[k] < |ledger|
    ensures var ledger' := if own[k] < 0 then ledger else ledger[own[k] := ledger[own[k]].(live := false)];
            && (forall j :: 0 <= j < |own| - 1 ==> Backs(ledger', RemoveAt(own, k)[j], RemoveAt(applied, k)[j].pm))
            && (forall i, j :: 0 <= i < j < |own| - 1 && RemoveAt(own, k)[i] >= 0 ==>
                  RemoveAt(own, k)[i] != RemoveAt(own, k)[j])
            && (forall i :: 0 <= i < |ledger'| && ledger'[i].live ==> i in RemoveAt(own, k))
  {
    hide Entry.Shaped, Entry.Mapping;
    var e, own' := own[k], RemoveAt(own, k);
    assert Backs(ledger, e, applied[k].pm);
    var ledger' := if e < 0 then ledger else ledger[e := ledger[e].(live := false)];
    forall j | 0 <= j < |own'|
      ensures Backs(ledger', own'[j], RemoveAt(applied, k)[j].pm)
    {
      var j' := if j < k then j else j + 1;
      assert own'[j] == own[j'] && Backs(ledger, own[j'], applied[j'].pm);
      assert own[j'] < 0 || own[j'] != e;
    }
    forall i | 0 <= i < |ledger'| && ledger'[i].live
      ensures i in own'
    {
      var j :| 0 <= j < |own| && own[j] == i;
      assert own'[if j < k then j else j - 1] == i;
    }
  }

  lemma UndoTraced(img: Image, s: State, ledger: Ledger, own: seq<int>, sha1: Sha1) returns (ledger': Ledger)
    requires StateOk(img, s) && Backed(img, s, ledger, own)
    ensures Traced(img, s, ledger, own, Undo(sha1), ledger')
  {
    hide Overlaid, Limit, Within, RemoveAt, LedgerInv, Released, Entry.Shaped, Entry.Mapping, AllocRun, AllocStep,
      PageCount, ListedPages, HasDependents;
    var (r, s') := UndoSpec(img, s, sha1);
    ledger' := ledger;
    NoRun(s.alloc, img, ledger);
    if r == 0 {
      var k := IndexOf(s.applied, sha1, 0);
      var e := own[k];
      assert Backs(ledger, e, s.applied[k].pm);
      BackRest(ledger, s.applied, own, k);
      ListedAfterRemove(s.applied, k);
      if e >= 0 {
        UnmapKeeps(img, s.alloc, ledger, e);
        PageCountUnmap(ledger, e, |ledger|);
        UnmapRun(s.alloc, img, ledger, e, s.applied[k].pm);
        ledger' := ledger[e := ledger[e].(live := false)];
      } else {
        NothingReleased(s.alloc.pages);
      }
      hide Backs;
    }
  }

  lemma NoRun(a: Alloc, img: Image, ledger: Ledger)
    ensures AllocRun(a, img, ledger, []) == Some((a, ledger))
  {
  }

  lemma UnmapRun(a: Alloc, img: Image, ledger: Ledger, i: nat, pm: Region)
    requires Backs(ledger, i, pm)
    ensures AllocRun(a, img, ledger, [Unmap(i)]) ==
            Some((UnmapSpec(a, pm), ledger[i := ledger[i].(live := false)]))
    ensures AllocStep(a, img, ledger, Unmap(i)) == (UnmapSpec(a, pm), ledger[i := ledger[i].(live := false)])
    ensures pm.addr > 0 && pm.size == ledger[i].size
  {
    RunOne(a, img, ledger, Unmap(i));
  }

  lemma NothingReleased(pages: set<int>)
    ensures Released(pages, NO_MAP) == pages
  {
  }

  lemma StepTraced(img: Image, s: State, ledger: Ledger, own: seq<int>, op: Op) returns (ledger': Ledger)
    requires UserSpace(img) && StateOk(img, s) && Backed(img, s, ledger, own)
    ensures Traced(img, s, ledger, own, op, ledger')
  {
    hide ApplySpec, UndoSpec, ReadHeader, Backed, Traced;
    match op
    case Apply(p, g) =>
      if ApplySpec(img, s, p, g).0 == Undefined || !Reaches(p, g) {
        ApplyWithoutMap(img, s, ledger, own, p, g);
        ledger' := ledger;
      } else if MapFor(img, s, p, g).code != SANDBOX_OK {
        ApplyMapFails(img, s, ledger, own, p, g);
        ledger' := ledger;
      } else if |ApplySpec(img, s, p, g).1.applied| > |s.applied| {
        ApplyMapped(img, s, ledger, own, p, g);
        ledger' := ledger + [EntryFor(MapFor(img, s, p, g).pm)];
      } else {
        ApplyUnmapped(img, s, ledger, own, p, g);
        ledger' := ledger + [EntryFor(MapFor(img, s, p, g).pm).(live := false)];
      }
    case Undo(sha1) => ledger' := UndoTraced(img, s, ledger, own, sha1);
  }

  // --- Every run --------------------------------------------------------------------------

  ghost predicate RunTraced(img: Image, s: State, hist: UndoLog.Hist, ledger: Ledger, own: seq<int>, ops: seq<Op>,
                            ledger': Ledger)
    requires StateOk(img, s)
  {
    var s' := AfterRun(img, s, hist, ops).0;
    && AllocRun(s.alloc, img, ledger, RunCalls(img, s, |ledger|, own, ops)) == Some((s'.alloc, ledger'))
    && Backed(img, s', ledger', RunOwn(img, s, |ledger|, own, ops))
    && PageCount(ledger', |ledger'|) + ListedPages(s.applied) ==
       PageCount(ledger, |ledger|) + ListedPages(s'.applied) + LeftOver(img, s, ops)
  }

  // Over every run the allocator goes through exactly the run's mapper calls,
  // and every region still live belongs to one listed patch.
  lemma {:induction false} RunKeepsBacked(img: Image, s: State, hist: UndoLog.Hist, ledger: Ledger, own: seq<int>,
                                          ops: seq<Op>)
    returns (ledger': Ledger)
    requires UserSpace(img) && StateOk(img, s) && Backed(img, s, ledger, own)
    ensures RunTraced(img, s, hist, ledger, own, ops, ledger')
    decreases |ops|
  {
    hide Step, HistAfter, Backed, StateOk, Calls, OwnAfter, Handed, LeftBy, ListedPages, PageCount;
    if ops == [] {
      ledger' := ledger;
    } else {
      var n, op := |ledger|, ops[0];
      var l1 := StepTraced(img, s, ledger, own, op);
      StepKeepsState(img, s, op);
      var s1, own1 := Step(img, s, op).1, OwnAfter(img, s, n, own, op);
      ledger' := RunKeepsBacked(img, s1, HistAfter(img, s, hist, op), l1, own1, ops[1..]);
      RunAppend(s.alloc, img, ledger, Calls(img, s, n, own, op), RunCalls(img, s1, |l1|, own1, ops[1..]));
    }
  }

  // From start-up, over any run of the server and whatever its applies and
  // undos return: the pages held are those of the listed patches' blobs plus
  // exactly one for each blob of whole pages that the run unmapped, in a
  // failed or dropped apply or in an undo. The regions are those of the run's
  // own mapper calls, so what holds of every allocator run holds of them.
  lemma PagesOfEveryRun(img: Image, base: Bytes, ops: seq<Op>)
    requires UserSpace(img) && ImageOk(img, |base|)
    ensures var s0 := State(base, [], FRESH);
            var s := AfterRun(img, s0, [], ops).0;
            var run := AllocRun(FRESH, img, [], RunCalls(img, s0, 0, [], ops));
            && run.Some? && run.value.0 == s.alloc
            && Backed(img, s, run.value.1, RunOwn(img, s0, 0, [], ops))
            && |s.alloc.pages| == PageCount(run.value.1, |run.value.1|)
            && |s.alloc.pages| == ListedPages(s.applied) + LeftOver(img, s0, ops)
  {
    var s0 := State(base, [], FRESH);
    var ledger := RunKeepsBacked(img, s0, [], [], [], ops);
    hide RunCalls, AfterRun, Backed, LeftOver, RunOwn;
    PageConservation(img, RunCalls(img, s0, 0, [], ops));
  }

  // The blobs of two listed patches never share a byte.
  lemma BlobsApart(img: Image, base: Bytes, ops: seq<Op>, j: nat, k: nat)
    requires UserSpace(img) && ImageOk(img, |base|)
    requires j < k < |AfterRun(img, State(base, [], FRESH), [], ops).0.applied|
    ensures var applied := AfterRun(img, State(base, [], FRESH), [], ops).0.applied;
            var r, t := applied[j].pm, applied[k].pm;
            r == NO_MAP || t == NO_MAP || r.addr + r.size < t.addr || t.addr + t.size < r.addr
  {
    var s0 := State(base, [], FRESH);
    var ledger := RunKeepsBacked(img, s0, [], [], [], ops);
    hide RunCalls, AfterRun, LeftOver, RunOwn, AllocRun, ListedPages, PageCount, Limit, Top, LastInv, Held,
      Entry.Shaped, Entry.Mapping;
    var applied, own := AfterRun(img, s0, [], ops).0.applied, RunOwn(img, s0, 0, [], ops);
    assert Backs(ledger, own[j], applied[j].pm) && Backs(ledger, own[k], applied[k].pm);
    if own[j] >= 0 && own[k] >= 0 {
      EntryRoom(ledger[own[j]]);
      EntryRoom(ledger[own[k]]);
    }
  }

  lemma EntryRoom(e: Entry)
    requires e.Shaped()
    ensures e.Mapping().addr == e.first * PAGE_SIZE && e.Mapping().addr + e.size < e.end * PAGE_SIZE
  {
  }
}
