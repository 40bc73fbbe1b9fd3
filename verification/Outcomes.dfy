// What every request comes to: the exact code and effect of an apply and of
// an undo, for any request and for the client's own (libsandbox.c,
// xenlp_apply4 and xenlp_undo4).
module Outcomes {
  import opened Codes
  import opened Words
  import opened Overlay
  import opened PatchData
  import opened Payload
  import opened Relocs
  import opened Client
  import opened Mapper
  import opened Server
  import opened Engine
  import opened EndToEnd
  import Holdings
  import UndoLog

  // --- Any apply request --------------------------------------------------------------

  predicate HeaderPasses(h: Header) {
    h.bloblen <= MAX_PATCH_SIZE && h.numwrites > 0 && h.numexctblents == 0 && h.numpreexctblents == 0
  }

  // The cursor is moved past the blob only when the blob is mapped.
  function RelocsAt(h: Header): nat {
    HEADER_SIZE + if HasBlob(h) then h.bloblen else 0
  }

  function WritesAt(h: Header): nat {
    RelocsAt(h) + 4 * h.numrelocs
  }

  function WritesEnd(h: Header): nat {
    WritesAt(h) + 24 * h.numwrites
  }

  // The first relocation is not refused, and there is no blob for it to change.
  predicate StoresOutside(p: Bytes, h: Header)
    requires |p| >= WritesAt(h)
  {
    h.numrelocs > 0 &&
    (h.bloblen < 4 || (h.bloblen == MAX_PATCH_SIZE && Word32(p, RelocsAt(h)) + 4 <= h.bloblen))
  }

  predicate RelocsPass(p: Bytes, h: Header)
    requires |p| >= WritesAt(h)
  {
    h.numrelocs == 0 ||
    (HasBlob(h) && forall i :: 0 <= i < h.numrelocs ==> Word32(p, RelocsAt(h) + 4 * i) + 4 <= h.bloblen)
  }

  predicate WritePasses(img: Image, slide: nat, w: Write) {
    img.start <= (w.hvabs + slide) % W64 < img.end && Relocatable(w)
  }

  predicate WritesPass(img: Image, p: Bytes, h: Header)
    requires |p| >= WritesEnd(h)
  {
    var slide := if HasBlob(h) then (img.start - h.refabs) % W64 else 0;
    forall i :: 0 <= i < h.numwrites ==> WritePasses(img, slide, ReadWrite(p, WritesAt(h) + 24 * i))
  }

  // Tags of 128 bytes are let through, and their NUL then stored behind the
  // array; longer ones are left out, shorter ones must be in the message.
  predicate TagsPastEnd(p: Bytes, h: Header) {
    h.taglen == 128 || (h.taglen < 128 && |p| < HEADER_SIZE + h.taglen)
  }

  // The first thing that is wrong with a request decides its outcome.
  function WritesVerdict(img: Image, p: Bytes, h: Header, g: Grants): Outcome {
    if !g.writes then Returns(SANDBOX_ERR_NOMEM)
    else if |p| < WritesEnd(h) then Undefined
    else if !WritesPass(img, p, h) then Returns(SANDBOX_ERR_INVALID)
    else Returns(SANDBOX_OK)
  }

  function RelocsVerdict(img: Image, p: Bytes, h: Header, g: Grants): Outcome {
    if h.numrelocs > 0 && !g.relocs then Returns(SANDBOX_ERR_NOMEM)
    else if |p| < WritesAt(h) || StoresOutside(p, h) then Undefined
    else if !RelocsPass(p, h) then Returns(SANDBOX_ERR_INVALID)
    else WritesVerdict(img, p, h, g)
  }

  function StageVerdict(img: Image, last: Region, p: Bytes, h: Header, g: Grants): Outcome {
    if HasBlob(h) && !Room(img, last, h.bloblen) then Returns(SANDBOX_ERR_INVALID)
    else if HasBlob(h) && !g.mmap then Returns(SANDBOX_ERR_NOMEM)
    else if |p| < RelocsAt(h) then Undefined
    else RelocsVerdict(img, p, h, g)
  }

  function Verdict(img: Image, last: Region, p: Bytes, g: Grants): Outcome {
    if |p| < HEADER_SIZE then Undefined
    else
      var h := ReadHeader(p);
      if !HeaderPasses(h) then Returns(SANDBOX_ERR_INVALID)
      else if !g.patch then Returns(SANDBOX_ERR_NOMEM)
      else if StageVerdict(img, last, p, h, g) != Returns(SANDBOX_OK) then StageVerdict(img, last, p, h, g)
      else if h.numdeps > 0 then
        if g.deps && |p| < HEADER_SIZE + 24 * h.numdeps then Undefined else Returns(SANDBOX_OK)
      else if TagsPastEnd(p, h) then Undefined
      else Returns(SANDBOX_OK)
  }

  // The relocations of a request, whatever its blob.
  lemma RelocsDecided(p: Bytes, h: Header, blob: Bytes, relocrel: nat)
    requires |p| >= WritesAt(h) && h.bloblen <= MAX_PATCH_SIZE
    requires |blob| == if HasBlob(h) then h.bloblen else 0
    ensures var r := RelocSpec(blob, h.bloblen, ReadWords(p, RelocsAt(h), h.numrelocs), relocrel, h.numrelocs);
            && (r == Relocated.Wild <==> StoresOutside(p, h))
            && (r.Done? <==> !StoresOutside(p, h) && RelocsPass(p, h))
  {
    hide AddAt, Word32;
    var offs := ReadWords(p, RelocsAt(h), h.numrelocs);
    if HasBlob(h) {
      RelocSpecDone(blob, offs, relocrel, h.numrelocs);
      WildExactly(blob, offs, relocrel, h.numrelocs);
      OffsetsPass(p, h);
    } else if h.numrelocs > 0 {
      FirstDecides(blob, h.bloblen, offs, relocrel);
    }
  }

  lemma OffsetsPass(p: Bytes, h: Header)
    requires |p| >= WritesAt(h) && HasBlob(h)
    ensures RelocsPass(p, h) <==> InRange(h.bloblen, ReadWords(p, RelocsAt(h), h.numrelocs))
  {
    hide Word32;
    var offs := ReadWords(p, RelocsAt(h), h.numrelocs);
    if RelocsPass(p, h) {
      forall i | 0 <= i < |offs|
        ensures offs[i] + 4 <= h.bloblen
      {
        assert offs[i] == Word32(p, RelocsAt(h) + 4 * i);
      }
    }
    if InRange(h.bloblen, offs) {
      forall i | 0 <= i < h.numrelocs
        ensures Word32(p, RelocsAt(h) + 4 * i) + 4 <= h.bloblen
      {
        assert offs[i] == Word32(p, RelocsAt(h) + 4 * i);
      }
    }
  }

  lemma FirstDecides(blob: Bytes, bloblen: nat, offs: seq<nat>, relocrel: nat)
    requires blob == [] && offs != []
    ensures RelocSpec(blob, bloblen, offs, relocrel, |offs|) ==
            if Refused(bloblen, offs[0]) then Refuse else Relocated.Wild
  {
    hide AddAt;
    assert RelocSpec(blob, bloblen, offs, relocrel, 0) == Done(blob);
    RelocSpecStops(blob, bloblen, offs, relocrel, 1, |offs|);
  }

  lemma WritesDecided(img: Image, p: Bytes, h: Header, slide: nat, relocrel: nat)
    requires |p| >= WritesEnd(h) && relocrel < W32
    requires slide == if HasBlob(h) then (img.start - h.refabs) % W64 else 0
    ensures Fixable(ReadWrites(p, WritesAt(h), h.numwrites), slide, relocrel, img) <==> WritesPass(img, p, h)
  {
    hide FixWrite, ReadWrite, Relocatable;
    var ws := ReadWrites(p, WritesAt(h), h.numwrites);
    forall i | 0 <= i < h.numwrites
      ensures FixWrite(ws[i], slide, relocrel, img).Some? <==>
              WritePasses(img, slide, ReadWrite(p, WritesAt(h) + 24 * i))
    {
      FixWriteExactly(ws[i], slide, relocrel, img);
    }
    if WritesPass(img, p, h) {
      forall i | 0 <= i < |ws|
        ensures FixWrite(ws[i], slide, relocrel, img).Some?
      {
        assert WritePasses(img, slide, ReadWrite(p, WritesAt(h) + 24 * i));
      }
    }
    if Fixable(ws, slide, relocrel, img) {
      forall i | 0 <= i < h.numwrites
        ensures WritePasses(img, slide, ReadWrite(p, WritesAt(h) + 24 * i))
      {
        assert FixWrite(ws[i], slide, relocrel, img).Some?;
      }
    }
  }

  predicate ComesTo(st: Staged, v: Outcome, h: Header) {
    match v
    case Undefined => st.Wild?
    case Returns(code) =>
      if code == SANDBOX_OK then st.Ready? && |st.writes| == h.numwrites else st.Failed? && st.code == code
  }

  // Staging the writes, before that the relocations, and before that the map.
  lemma StageWritesDecided(img: Image, a: Alloc, p: Bytes, h: Header, g: Grants, pm: Region, blob: Bytes)
    ensures ComesTo(StageWrites(img, a, p, h, g, WritesAt(h), pm, blob), WritesVerdict(img, p, h, g), h)
  {
    if |p| >= WritesEnd(h) {
      var relocrel := if HasBlob(h) then RelocRel(pm.addr, img.start, h.refabs) else 0;
      WritesDecided(img, p, h, if HasBlob(h) then Slide(img, h) else 0, relocrel);
    }
    hide Fixable, Fixed, RelocRel, ReadWrites, WritesPass, UnmapSpec;
  }

  lemma StageDecided(img: Image, a: Alloc, p: Bytes, h: Header, g: Grants, pm: Region, blob: Bytes)
    requires |p| >= RelocsAt(h)
    requires h.bloblen <= MAX_PATCH_SIZE && |blob| == if HasBlob(h) then h.bloblen else 0
    ensures ComesTo(StageRelocs(img, a, p, h, g, RelocsAt(h), pm, blob), RelocsVerdict(img, p, h, g), h)
  {
    hide RelocSpec, RelocRel, ReadWords, StageWrites, WritesVerdict, UnmapSpec;
    var relocrel := if HasBlob(h) then RelocRel(pm.addr, img.start, h.refabs) else 0;
    var out := blob;
    if h.numrelocs > 0 && |p| >= WritesAt(h) {
      RelocsDecided(p, h, blob, relocrel);
      var r := RelocSpec(blob, h.bloblen, ReadWords(p, RelocsAt(h), h.numrelocs), relocrel, h.numrelocs);
      out := if r.Done? then r.blob else blob;
    }
    StageWritesDecided(img, a, p, h, g, pm, out);
  }

  // The engine's state between requests, as far as the mapper looks at it.
  ghost predicate Settled(img: Image, s: State) {
    UserSpace(img) && StateOk(img, s) && LastInv(img, s.alloc.last)
  }

  // The outcome of every apply request, and whether it was installed: exactly
  // those without dependencies that come to SANDBOX_OK are.
  lemma ApplyExactly(img: Image, s: State, p: Bytes, g: Grants)
    requires Settled(img, s)
    ensures var (r, s') := ApplySpec(img, s, p, g);
            && r == Verdict(img, s.alloc.last, p, g)
            && (Grew(s, s') <==> r == Returns(SANDBOX_OK) && ReadHeader(p).numdeps == 0)
            && (!Grew(s, s') ==> Untouched(s, s'))
  {
    ApplyAllOrNothing(img, s, p, g);
    if |p| >= HEADER_SIZE && HeaderPasses(ReadHeader(p)) {
      var h := ReadHeader(p);
      StagePasses(img, s.alloc, p, h, g);
      if ApplySpec(img, s, p, g).0 == Returns(SANDBOX_OK) {
        SilentDrop(img, s, p, g);
      }
      hide StageSpec, StageVerdict, ReadHeader, Overlaid, Saved, UnmapSpec, MapSpec;
    }
  }

  // Every state a run of the server reaches is such a state.
  lemma RunSettled(img: Image, base: Bytes, ops: seq<Op>)
    requires UserSpace(img) && ImageOk(img, |base|)
    ensures Settled(img, AfterRun(img, State(base, [], FRESH), [], ops).0)
    ensures Removable(AfterRun(img, State(base, [], FRESH), [], ops).0)
  {
    Holdings.PagesOfEveryRun(img, base, ops);
    RunKeepsRemovable(img, State(base, [], FRESH), [], ops);
    hide AfterRun, Removable, AllocRun, Holdings.RunCalls, Holdings.RunOwn, Holdings.LeftOver;
  }

  lemma StagePasses(img: Image, a: Alloc, p: Bytes, h: Header, g: Grants)
    requires UserSpace(img) && LastInv(img, a.last) && h.bloblen <= MAX_PATCH_SIZE
    requires |p| >= HEADER_SIZE
    ensures ComesTo(StageSpec(img, a, p, h, g), StageVerdict(img, a.last, p, h, g), h)
  {
    hide RelocsVerdict, Room, MapSpec, StageRelocs;
    if HasBlob(h) {
      var m := MapSpec(a, img, h.bloblen, g.mmap);
      MapExactly(img, a, h.bloblen, g.mmap);
      if |p| >= RelocsAt(h) {
        StageDecided(img, m.alloc, p, h, g, m.pm, p[HEADER_SIZE..RelocsOff(h)]);
      }
    } else if |p| >= RelocsAt(h) {
      StageDecided(img, a, p, h, g, NO_MAP, []);
    }
  }

  // --- The client's request -------------------------------------------------------------

  // Where the server looks for a function: slid with the image if the patch
  // has a blob, at its link-time address if not.
  function RunAddress(img: Image, p: Patch, f: Func): nat {
    if p.blob == [] then f.oldabs else SlidAddress(img, p, f)
  }

  predicate InPlace(img: Image, p: Patch) {
    forall i :: 0 <= i < |p.funcs| ==> img.start <= RunAddress(img, p, p.funcs[i]) < img.end
  }

  lemma ClientWritesPass(img: Image, p: Patch)
    requires PatchFits(p) && |p.blob| < MAX_PATCH_SIZE
    ensures var e, h := ClientPayload(p), HeaderOf(ClientRequest(p));
            && |e| >= WritesEnd(h) && WritesAt(h) == WritesOff(h)
            && (WritesPass(img, e, h) <==> InPlace(img, p))
  {
    ClientHeader(p);
    var e, h := ClientPayload(p), HeaderOf(ClientRequest(p));
    Offsets(h);
    hide ClientPayload, ClientRequest, HeaderOf, ReadHeader, ReadWords, ReadWrites, SlidAddress, StrNLen, WritesPass,
      InPlace, Trampolines, PatchFits, WritesAt, WritesEnd, RelocsAt, RelocsOff, WritesOff, EndOff;
    TrampolinesPass(img, p, e, h);
  }

  // The offsets the server computes are those of the layout, and a payload
  // that ends where the header says holds all it reads.
  lemma Offsets(h: Header)
    requires h.bloblen < MAX_PATCH_SIZE
    ensures RelocsAt(h) == RelocsOff(h) && WritesAt(h) == WritesOff(h)
    ensures RelocsAt(h) <= WritesAt(h) <= WritesEnd(h) <= EndOff(h)
    ensures HEADER_SIZE + h.taglen <= EndOff(h) && HEADER_SIZE + 24 * h.numdeps <= EndOff(h)
  {
  }

  lemma TrampolinesPass(img: Image, p: Patch, e: Bytes, h: Header)
    requires PatchFits(p) && |p.blob| < MAX_PATCH_SIZE && h.bloblen == |p.blob| && h.refabs == p.refabs
    requires |e| >= WritesEnd(h) && h.numwrites == |p.funcs|
    requires ReadWrites(e, WritesAt(h), |p.funcs|) == Trampolines(p)
    ensures WritesPass(img, e, h) <==> InPlace(img, p)
  {
    hide ReadWrite, Trampoline, RunAddress;
    var slide := if HasBlob(h) then (img.start - h.refabs) % W64 else 0;
    forall i | 0 <= i < |p.funcs|
      ensures WritePasses(img, slide, ReadWrite(e, WritesAt(h) + 24 * i)) <==>
              img.start <= RunAddress(img, p, p.funcs[i]) < img.end
    {
      assert ReadWrites(e, WritesAt(h), |p.funcs|)[i] == ReadWrite(e, WritesAt(h) + 24 * i);
      assert Trampolines(p)[i] == Trampoline(p.refabs, p.funcs[i]);
      TrampolinePasses(img, p, p.funcs[i], slide);
    }
    hide WritePasses;
    if InPlace(img, p) {
      forall i | 0 <= i < h.numwrites
        ensures WritePasses(img, slide, ReadWrite(e, WritesAt(h) + 24 * i))
      {
        assert img.start <= RunAddress(img, p, p.funcs[i]) < img.end;
      }
    }
    if WritesPass(img, e, h) {
      forall i | 0 <= i < |p.funcs|
        ensures img.start <= RunAddress(img, p, p.funcs[i]) < img.end
      {
        assert WritePasses(img, slide, ReadWrite(e, WritesAt(h) + 24 * i));
      }
    }
  }

  lemma TrampolinePasses(img: Image, p: Patch, f: Func, slide: nat)
    requires f.oldabs < W64 && slide == if p.blob == [] then 0 else (img.start - p.refabs) % W64
    ensures WritePasses(img, slide, Trampoline(p.refabs, f)) <==> img.start <= RunAddress(img, p, f) < img.end
  {
    hide JmpOffset, LE;
  }

  lemma ClientRelocsPass(p: Patch)
    requires PatchFits(p) && |p.blob| < MAX_PATCH_SIZE
    ensures var e, h := ClientPayload(p), HeaderOf(ClientRequest(p));
            && |e| >= WritesAt(h)
            && (StoresOutside(e, h) <==> |p.blob| < 4 && p.relocs != [])
            && (!StoresOutside(e, h) ==> (RelocsPass(e, h) <==> InRange(|p.blob|, p.relocs)))
  {
    ClientHeader(p);
    hide ClientPayload, ClientRequest, HeaderOf, ReadHeader, ReadWords, ReadWrites, Trampolines, StrNLen;
    var e, h := ClientPayload(p), HeaderOf(ClientRequest(p));
    if HasBlob(h) {
      OffsetsPass(e, h);
    }
  }

  // Every outcome of the client's own request: the first thing that is wrong,
  // in this order. A patch with dependencies comes to SANDBOX_OK like any
  // other but is not installed.
  lemma ClientOutcome(img: Image, s: State, p: Patch, g: Grants)
    requires Settled(img, s) && PatchFits(p) && |p.blob| != MAX_PATCH_SIZE
    ensures var (r, s') := ApplySpec(img, s, ClientPayload(p), g);
            && r == (if |p.blob| > MAX_PATCH_SIZE || p.funcs == [] || p.exctbl != [] || p.preexctbl != [] then
                       Returns(SANDBOX_ERR_INVALID)
                     else if !g.patch then Returns(SANDBOX_ERR_NOMEM)
                     else if p.blob != [] && !Room(img, s.alloc.last, |p.blob|) then Returns(SANDBOX_ERR_INVALID)
                     else if p.blob != [] && !g.mmap then Returns(SANDBOX_ERR_NOMEM)
                     else if p.relocs != [] && !g.relocs then Returns(SANDBOX_ERR_NOMEM)
                     else if p.relocs != [] && |p.blob| < 4 then Undefined
                     else if !InRange(|p.blob|, p.relocs) then Returns(SANDBOX_ERR_INVALID)
                     else if !g.writes then Returns(SANDBOX_ERR_NOMEM)
                     else if !InPlace(img, p) then Returns(SANDBOX_ERR_INVALID)
                     else Returns(SANDBOX_OK))
            && (Grew(s, s') <==> r == Returns(SANDBOX_OK) && p.deps == [])
            && (!Grew(s, s') ==> Untouched(s, s'))
  {
    hide ApplySpec, ClientPayload, ClientRequest, HeaderOf, ReadHeader, ReadWords, ReadWrites, Trampolines, StrNLen,
      InPlace, InRange, WritesPass, RelocsPass, StoresOutside, Room, Settled, RelocsOff, WritesOff, EndOff, PatchFits,
      RelocsAt, WritesAt, WritesEnd, Grew, Untouched;
    ClientHeader(p);
    var e := ClientPayload(p);
    ApplyExactly(img, s, e, g);
    if |p.blob| < MAX_PATCH_SIZE {
      Offsets(HeaderOf(ClientRequest(p)));
      ClientWritesPass(img, p);
      ClientRelocsPass(p);
    }
  }

  // A patch with dependencies, when memory is granted and there is room: it
  // is answered as installed exactly when it would have been without them,
  // and in every case text and list stay as they were.
  lemma DependentsDropped(img: Image, s: State, p: Patch, g: Grants)
    requires Settled(img, s) && PatchFits(p) && 0 < |p.blob| < MAX_PATCH_SIZE && p.deps != []
    requires p.funcs != [] && p.exctbl == [] && p.preexctbl == []
    requires g.patch && g.mmap && g.relocs && g.writes && Room(img, s.alloc.last, |p.blob|)
    ensures var (r, s') := ApplySpec(img, s, ClientPayload(p), g);
            && Untouched(s, s')
            && (r == Returns(SANDBOX_OK) <==> InRange(|p.blob|, p.relocs) && InText(img, p))
            && (r == Returns(SANDBOX_ERR_INVALID) <==>
                  (|p.blob| >= 4 || p.relocs == []) && !(InRange(|p.blob|, p.relocs) && InText(img, p)))
  {
    ClientOutcome(img, s, p, g);
    assert InPlace(img, p) <==> InText(img, p);
    hide ApplySpec, ClientPayload, Room, Settled, SlidAddress;
    if |p.blob| < 4 && p.relocs != [] {
      RangeNeedsWord(|p.blob|, p.relocs);
    }
  }

  // With memory granted the client's patch is installed, and answered with
  // SANDBOX_OK, exactly when there is room below the limit, every relocation
  // lies in the blob and every patched address, slid with the image, in its
  // text; any other is answered with SANDBOX_ERR_INVALID, if at all.
  lemma AcceptedExactly(img: Image, s: State, p: Patch, g: Grants)
    requires Settled(img, s) && Plain(p) && g.patch && g.mmap && g.relocs && g.writes
    ensures var (r, s') := ApplySpec(img, s, ClientPayload(p), g);
            var accepted := Room(img, s.alloc.last, |p.blob|) && InRange(|p.blob|, p.relocs) && InText(img, p);
            && (Grew(s, s') <==> accepted)
            && (r == Returns(SANDBOX_OK) <==> accepted)
            && (!accepted && r != Undefined ==> r == Returns(SANDBOX_ERR_INVALID))
            && (r == Undefined <==> Room(img, s.alloc.last, |p.blob|) && |p.blob| < 4 && p.relocs != [])
  {
    ClientOutcome(img, s, p, g);
    assert InPlace(img, p) <==> InText(img, p);
    hide ApplySpec, ClientPayload, Room, Settled, SlidAddress;
    if |p.blob| < 4 && p.relocs != [] {
      RangeNeedsWord(|p.blob|, p.relocs);
    }
  }

  lemma RangeNeedsWord(len: nat, offs: seq<nat>)
    requires len < 4 && offs != []
    ensures !InRange(len, offs)
  {
    assert offs[0] + 4 > len;
  }

  // --- What an installed patch records ----------------------------------------------------

  // Where write i of a request goes.
  function WindowOf(img: Image, p: Bytes, h: Header, i: nat): nat
    requires i < h.numwrites && |p| >= WritesEnd(h)
  {
    (ReadWrite(p, WritesAt(h) + 24 * i).hvabs + if HasBlob(h) then (img.start - h.refabs) % W64 else 0) % W64
  }

  lemma RecordedExactly(img: Image, s: State, p: Bytes, g: Grants)
    requires StateOk(img, s) && Grew(s, ApplySpec(img, s, p, g).1)
    ensures |p| >= HEADER_SIZE
    ensures var h, ap := ReadHeader(p), ApplySpec(img, s, p, g).1.applied[0];
            && ap.sha1 == p[..20] && ap.deps == [] && |ap.writes| == h.numwrites && |p| >= WritesEnd(h)
            && (forall i :: 0 <= i < |ap.writes| ==> ap.writes[i].hvabs == WindowOf(img, p, h, i))
            && ap.pm == (if HasBlob(h) then MapSpec(s.alloc, img, h.bloblen, g.mmap).pm else NO_MAP)
            && |ap.blob| == (if HasBlob(h) then h.bloblen else 0)
            && (if 0 < h.taglen < MAX_TAGS_LEN then
                  HEADER_SIZE + h.taglen <= |p| && ap.tags == p[HEADER_SIZE..HEADER_SIZE + h.taglen]
                else ap.tags == [])
  {
    if |p| >= HEADER_SIZE {
      var h := ReadHeader(p);
      StagedShape(img, s.alloc, p, h, g);
      StagedWindows(img, s.alloc, p, h, g);
      hide WindowOf, WritesEnd, StageSpec, Overlaid, Saved, UnmapSpec, Word32, Word64, MapSpec;
    }
  }

  lemma StagedShape(img: Image, a: Alloc, p: Bytes, h: Header, g: Grants)
    requires StageSpec(img, a, p, h, g).Ready?
    ensures var st := StageSpec(img, a, p, h, g);
            && |st.writes| == h.numwrites
            && st.pm == (if HasBlob(h) then MapSpec(a, img, h.bloblen, g.mmap).pm else NO_MAP)
            && |st.blob| == (if HasBlob(h) then h.bloblen else 0)
  {
    hide MapSpec, RelocSpec, FixWrite, ReadWords, ReadWrites, RelocRel, UnmapSpec;
  }

  lemma StagedWindows(img: Image, a: Alloc, p: Bytes, h: Header, g: Grants)
    requires StageSpec(img, a, p, h, g).Ready? && h.bloblen <= MAX_PATCH_SIZE
    ensures |p| >= WritesEnd(h) && |StageSpec(img, a, p, h, g).writes| == h.numwrites
    ensures forall i :: 0 <= i < h.numwrites ==>
              StageSpec(img, a, p, h, g).writes[i].hvabs == WindowOf(img, p, h, i)
  {
    hide MapSpec, RelocSpec, FixWrite, ReadWords, ReadWrite, RelocRel, UnmapSpec;
    var st, m := StageSpec(img, a, p, h, g), MapSpec(a, img, h.bloblen, g.mmap);
    var slide := if HasBlob(h) then Slide(img, h) else 0;
    var relocrel := if HasBlob(h) then RelocRel(m.pm.addr, img.start, h.refabs) else 0;
    var ws := ReadWrites(p, WritesAt(h), h.numwrites);
    assert Fixable(ws, slide, relocrel, img) && st.writes == Fixed(ws, slide, relocrel, img);
    forall i | 0 <= i < h.numwrites
      ensures st.writes[i].hvabs == WindowOf(img, p, h, i)
    {
      assert ws[i] == ReadWrite(p, WritesAt(h) + 24 * i);
      assert FixWrite(ws[i], slide, relocrel, img) == Some(st.writes[i]);
      FixWriteExactly(ws[i], slide, relocrel, img);
    }
  }

  // Without a mapped blob nothing is slid or relocated: the writes of the
  // request go into the text as they are.
  lemma AsSent(img: Image, s: State, p: Bytes, g: Grants)
    requires StateOk(img, s) && |p| >= HEADER_SIZE && !HasBlob(ReadHeader(p))
    requires Grew(s, ApplySpec(img, s, p, g).1)
    ensures var h, s' := ReadHeader(p), ApplySpec(img, s, p, g).1;
            |p| >= WritesEnd(h) &&
            var ws := ReadWrites(p, WritesAt(h), h.numwrites);
            && Within(|s.text|, img.start, ws)
            && s'.text == Overlaid(s.text, img.start, ws) && s'.applied[0].writes == Saved(s.text, img.start, ws)
  {
    var h := ReadHeader(p);
    StagedWithin(img, s, p, h, g);
    hide StageSpec, Overlaid, Saved, UnmapSpec, Within, ReadHeader, ReadWrites, WritesAt, WritesEnd;
    StagedAsSent(img, s.alloc, p, h, g);
  }

  lemma StagedAsSent(img: Image, a: Alloc, p: Bytes, h: Header, g: Grants)
    requires StageSpec(img, a, p, h, g).Ready? && !HasBlob(h)
    ensures |p| >= WritesEnd(h) && StageSpec(img, a, p, h, g).writes == ReadWrites(p, WritesAt(h), h.numwrites)
  {
    hide RelocSpec, FixWrite, ReadWords, ReadWrite, RelocRel, UnmapSpec;
    var st, ws := StageSpec(img, a, p, h, g), ReadWrites(p, WritesAt(h), h.numwrites);
    assert Fixable(ws, 0, 0, img) && st.writes == Fixed(ws, 0, 0, img);
    forall i | 0 <= i < h.numwrites
      ensures st.writes[i] == ws[i]
    {
      assert FixWrite(ws[i], 0, 0, img) == Some(st.writes[i]);
      assert ws[i] == ReadWrite(p, WritesAt(h) + 24 * i);
      WriteAddress(p, WritesAt(h) + 24 * i);
      FixNothing(ws[i], img);
    }
  }

  lemma WriteAddress(p: Bytes, at: nat)
    requires at + 24 <= |p|
    ensures ReadWrite(p, at).hvabs < W64
  {
  }

  lemma FixNothing(w: Write, img: Image)
    requires w.hvabs < W64 && FixWrite(w, 0, 0, img).Some?
    ensures FixWrite(w, 0, 0, img) == Some(w)
  {
    hide LE, Word32, Word64;
    if w.dataoff < 0x80 && w.reloctype == XENLP_RELOC_UINT64 {
      SameWord(w.data, 0, 8);
      assert w.data[0..8] == w.data;
    } else if w.dataoff <= 4 && w.reloctype == XENLP_RELOC_INT32 {
      SameWord(w.data, w.dataoff as nat, 4);
    }
  }

  // Storing a word that was read where it was read.
  lemma SameWord(s: Bytes, off: nat, n: nat)
    requires off + n <= |s|
    ensures n == 4 ==> Splice(s, off, LE(4, Word32(s, off))) == s
    ensures n == 8 ==> LE(8, Word64(s, off)) == s[off..off + 8]
  {
    LEUnLE(s[off..off + n]);
    hide LE, UnLE;
    assert s == s[..off] + s[off..off + n] + s[off + n..];
  }

  // A blob of exactly 2^20 bytes is not mapped and the cursor is not moved
  // past it: where the client put the blob the server finds the writes.
  lemma MegabyteBlob(img: Image, s: State, p: Patch, g: Grants)
    requires StateOk(img, s) && PatchFits(p) && |p.blob| == MAX_PATCH_SIZE && p.relocs == []
    requires Grew(s, ApplySpec(img, s, ClientPayload(p), g).1)
    ensures var ap := ApplySpec(img, s, ClientPayload(p), g).1.applied[0];
            && ap.pm == NO_MAP && |ap.writes| == |p.funcs|
            && forall i :: 0 <= i < |p.funcs| && 24 * i + 24 <= |p.blob| ==>
                 ap.writes[i].hvabs == Word64(p.blob, 24 * i)
  {
    ClientHeader(p);
    var e, h := ClientPayload(p), HeaderOf(ClientRequest(p));
    RecordedExactly(img, s, e, g);
    hide ApplySpec, ClientPayload, ClientRequest, HeaderOf, ReadHeader, ReadWords, ReadWrites, Trampolines, StrNLen,
      MapSpec, PatchFits, WindowOf, WritesEnd, EndOff;
    WindowsInBlob(img, e, h, p.blob);
  }

  lemma WindowsInBlob(img: Image, e: Bytes, h: Header, blob: Bytes)
    requires h.bloblen == |blob| == MAX_PATCH_SIZE && h.numrelocs == 0 && |e| >= WritesEnd(h)
    requires |e| >= RelocsOff(h) && e[HEADER_SIZE..RelocsOff(h)] == blob
    ensures forall i :: 0 <= i < h.numwrites && 24 * i + 24 <= |blob| ==>
              WindowOf(img, e, h, i) == Word64(blob, 24 * i)
  {
    forall i | 0 <= i < h.numwrites && 24 * i + 24 <= |blob|
      ensures WindowOf(img, e, h, i) == Word64(blob, 24 * i)
    {
      SubSlice(e, HEADER_SIZE, RelocsOff(h), 24 * i, 24 * i + 8);
      assert e[HEADER_SIZE + 24 * i..HEADER_SIZE + 24 * i + 8] == blob[24 * i..24 * i + 8];
    }
  }

  // --- A request cut short ----------------------------------------------------------------

  lemma SameWords(p: Bytes, k: nat, at: nat)
    requires k <= |p|
    ensures at + 4 <= k ==> Word32(p[..k], at) == Word32(p, at)
    ensures at + 8 <= k ==> Word64(p[..k], at) == Word64(p, at)
    ensures at + 24 <= k ==> ReadWrite(p[..k], at) == ReadWrite(p, at)
  {
    if at + 4 <= k {
      assert p[..k][at..at + 4] == p[at..at + 4];
    }
    if at + 8 <= k {
      assert p[..k][at..at + 8] == p[at..at + 8];
    }
    if at + 24 <= k {
      assert p[..k][at + 8..at + 16] == p[at + 8..at + 16];
    }
  }

  lemma SameHeader(p: Bytes, k: nat)
    requires HEADER_SIZE <= k <= |p|
    ensures ReadHeader(p[..k]) == ReadHeader(p)
  {
    hide Word32, Word64;
    SameWords(p, k, 24);
    SameWords(p, k, 32);
    SameWords(p, k, 36);
    SameWords(p, k, 40);
    SameWords(p, k, 44);
    SameWords(p, k, 48);
    SameWords(p, k, 52);
    SameWords(p, k, 56);
    assert p[..k][..20] == p[..20];
  }

  // What the server looks at behind the header of a request it installs.
  function Needed(h: Header): nat {
    var tags := HEADER_SIZE + if h.taglen < MAX_TAGS_LEN then h.taglen else 0;
    if tags <= WritesEnd(h) then WritesEnd(h) else tags
  }

  // A request that would be installed, cut anywhere: the server reads past
  // the message exactly when the cut is before the end of the writes, or of
  // the tags where it takes them to be; behind that it notices nothing.
  lemma CutRequest(img: Image, last: Region, p: Bytes, g: Grants, k: nat)
    requires Verdict(img, last, p, g) == Returns(SANDBOX_OK) && ReadHeader(p).numdeps == 0 && k <= |p|
    ensures Verdict(img, last, p[..k], g) == if k < Needed(ReadHeader(p)) then Undefined else Returns(SANDBOX_OK)
  {
    if k >= HEADER_SIZE {
      var h := ReadHeader(p);
      SameHeader(p, k);
      SameParts(img, p, h, k);
      hide ReadHeader, RelocsPass, StoresOutside, WritesPass, Room;
    }
  }

  lemma SameParts(img: Image, p: Bytes, h: Header, k: nat)
    requires k <= |p|
    ensures k >= WritesAt(h) ==>
              (StoresOutside(p[..k], h) <==> StoresOutside(p, h)) && (RelocsPass(p[..k], h) <==> RelocsPass(p, h))
    ensures k >= WritesEnd(h) ==> (WritesPass(img, p[..k], h) <==> WritesPass(img, p, h))
  {
    hide ReadWrite, Word32, WritePasses;
    var q := p[..k];
    if k >= WritesAt(h) {
      forall i | 0 <= i < h.numrelocs
        ensures Word32(q, RelocsAt(h) + 4 * i) == Word32(p, RelocsAt(h) + 4 * i)
      {
        SameWords(p, k, RelocsAt(h) + 4 * i);
      }
      if h.numrelocs > 0 {
        SameWords(p, k, RelocsAt(h));
      }
    }
    if k >= WritesEnd(h) {
      forall i | 0 <= i < h.numwrites
        ensures ReadWrite(q, WritesAt(h) + 24 * i) == ReadWrite(p, WritesAt(h) + 24 * i)
      {
        SameWords(p, k, WritesAt(h) + 24 * i);
      }
    }
  }

  // --- Any undo request ------------------------------------------------------------------

  predicate Listed(applied: seq<Applied>, sha1: Sha1) {
    exists k :: 0 <= k < |applied| && applied[k].sha1 == sha1
  }

  // Entry k is the first with the hash.
  predicate FirstWith(applied: seq<Applied>, sha1: Sha1, k: nat) {
    k < |applied| && applied[k].sha1 == sha1 && forall j :: 0 <= j < k ==> applied[j].sha1 != sha1
  }

  predicate OlderDepends(applied: seq<Applied>, k: nat, sha1: Sha1) {
    exists j :: k < j < |applied| && sha1 in applied[j].deps
  }

  // The three outcomes of an undo, 0, -ENOENT and -ENXIO, and its effect: the first entry with the
  // hash is swapped back and unlinked, wherever it stands.
  lemma UndoExactly(img: Image, s: State, sha1: Sha1, k: nat)
    requires StateOk(img, s)
    ensures var (r, s') := UndoSpec(img, s, sha1);
            && (r == -2 <==> !Listed(s.applied, sha1))
            && (r != 0 ==> s' == s)
            && (FirstWith(s.applied, sha1, k) ==>
                  && (r == 0 <==> !OlderDepends(s.applied, k, sha1) && s.applied[k].writes != [])
                  && (r == -6 <==> r != 0)
                  && (r == 0 ==>
                        && s'.applied == RemoveAt(s.applied, k)
                        && s'.text == Overlaid(s.text, img.start, s.applied[k].writes)
                        && s'.alloc == UnmapSpec(s.alloc, s.applied[k].pm)))
  {
    hide Overlaid, UnmapSpec, RemoveAt;
    var i := IndexOf(s.applied, sha1, 0);
    if FirstWith(s.applied, sha1, k) {
      assert i == k;
    }
  }

  // In every state a run can reach, an undo succeeds exactly when the hash is
  // listed, and is otherwise answered with -ENOENT.
  lemma UndoSucceeds(img: Image, s: State, sha1: Sha1)
    requires StateOk(img, s) && Removable(s)
    ensures UndoSpec(img, s, sha1).0 == if Listed(s.applied, sha1) then 0 else -ENOENT
  {
    hide UndoSpec;
    var k := IndexOf(s.applied, sha1, 0);
    UndoExactly(img, s, sha1, k);
  }

  // Undoing the listed entry k of the engine. It returns 0, and when the patch
  // is clear of itself and of every newer one it leaves the text, the list and
  // the saved data of the run without it.
  lemma UndoFromMiddle(img: Image, base: Bytes, s: State, hist: UndoLog.Hist, k: nat)
    requires StateOk(img, s) && Removable(s) && LogOk(img, base, s, hist) && k < |s.applied|
    requires FirstWith(s.applied, s.applied[k].sha1, k)
    ensures var (r, s') := UndoSpec(img, s, s.applied[k].sha1);
            && r == 0 && s'.applied == RemoveAt(s.applied, k)
            && (UndoLog.Undoable(hist, k) ==>
                  && s'.text == UndoLog.Layers(base, img.start, RemoveAt(hist, k), 0)
                  && LogOk(img, base, s', RemoveAt(hist, k)))
  {
    hide UndoSpec, Overlaid;
    UndoExactly(img, s, s.applied[k].sha1, k);
    UndoSucceeds(img, s, s.applied[k].sha1);
    if UndoLog.Undoable(hist, k) {
      UndoLog.LogRemove(base, img.start, s.text, WritesOf(s.applied), hist, k);
      var s' := UndoSpec(img, s, s.applied[k].sha1).1;
      assert WritesOf(s'.applied) == RemoveAt(WritesOf(s.applied), k);
    }
  }

  // And only then: a patch that is not clear has a base and patch data for
  // which the same undo leaves other bytes than the run without it.
  lemma UndoFromMiddleExact(img: Image, s: State, k: nat)
    requires StateOk(img, s) && Removable(s) && k < |s.applied|
    requires FirstWith(s.applied, s.applied[k].sha1, k)
    ensures UndoLog.Undoable(WritesOf(s.applied), k) <==>
            forall base: Bytes, gs | |base| == |s.text| && UndoLog.SameLayout(gs, WritesOf(s.applied)) ::
              UndoneCleanly(img, s, base, gs, k)
  {
    hide UndoSpec, UndoneCleanly, UndoLog.RemovesCleanly, UndoLog.Undoable;
    var hist := WritesOf(s.applied);
    UndoLog.MiddleUndoExact(|s.text|, img.start, hist, k);
    forall base: Bytes, gs | |base| == |s.text| && UndoLog.SameLayout(gs, hist)
      ensures UndoLog.AllWithin(|base|, img.start, gs)
      ensures UndoneCleanly(img, s, base, gs, k) <==> UndoLog.RemovesCleanly(base, img.start, gs, k)
    {
      LayoutWithin(|s.text|, img.start, hist, gs);
      UndoneText(img, s, base, gs, k);
    }
  }

  lemma LayoutWithin(n: nat, start: nat, hist: UndoLog.Hist, gs: UndoLog.Hist)
    requires UndoLog.AllWithin(n, start, hist) && UndoLog.SameLayout(gs, hist)
    ensures UndoLog.AllWithin(n, start, gs)
  {
    forall i | 0 <= i < |gs|
      ensures Within(n, start, gs[i])
    {
      assert SameWindows(gs[i], hist[i]) && Within(n, start, hist[i]);
    }
  }

  // The state s with the text and saved data of a run that installed gs on base.
  ghost function Replayed(img: Image, s: State, base: Bytes, gs: UndoLog.Hist): (t: State)
    requires |gs| == |s.applied| && UndoLog.AllWithin(|base|, img.start, gs)
    ensures |t.applied| == |s.applied| && |t.text| == |base|
    ensures t.text == UndoLog.Layers(base, img.start, gs, 0)
    ensures forall i {:trigger t.applied[i]} :: 0 <= i < |gs| ==>
              t.applied[i] == s.applied[i].(writes := UndoLog.Logs(base, img.start, gs)[i])
  {
    var logs := UndoLog.Logs(base, img.start, gs);
    State(UndoLog.Layers(base, img.start, gs, 0),
          seq(|gs|, i requires 0 <= i < |gs| => s.applied[i].(writes := logs[i])), s.alloc)
  }

  // Undoing entry k there gives the text of the run without it.
  ghost predicate UndoneCleanly(img: Image, s: State, base: Bytes, gs: UndoLog.Hist, k: nat)
    requires k < |s.applied|
  {
    |gs| == |s.applied| && UndoLog.AllWithin(|base|, img.start, gs) &&
    var t := Replayed(img, s, base, gs);
    StateOk(img, t) &&
    UndoSpec(img, t, s.applied[k].sha1).1.text == UndoLog.Layers(base, img.start, RemoveAt(gs, k), 0)
  }

  lemma ReplayedOk(img: Image, s: State, base: Bytes, gs: UndoLog.Hist, k: nat)
    requires StateOk(img, s) && Removable(s) && k < |s.applied| && |base| == |s.text|
    requires UndoLog.SameLayout(gs, WritesOf(s.applied)) && UndoLog.AllWithin(|base|, img.start, gs)
    requires FirstWith(s.applied, s.applied[k].sha1, k)
    ensures var t := Replayed(img, s, base, gs);
            && StateOk(img, t) && Removable(t) && FirstWith(t.applied, s.applied[k].sha1, k)
            && t.applied[k].writes == UndoLog.Logs(base, img.start, gs)[k]
  {
    hide UndoLog.Layers, Overlaid;
    var t, logs := Replayed(img, s, base, gs), UndoLog.Logs(base, img.start, gs);
    forall i | 0 <= i < |gs|
      ensures Within(|base|, img.start, t.applied[i].writes) && |t.applied[i].writes| > 0 && t.applied[i].deps == []
    {
      assert SameWindows(gs[i], WritesOf(s.applied)[i]) && |s.applied[i].writes| > 0;
      assert SameWindows(logs[i], gs[i]) && Within(|base|, img.start, gs[i]);
    }
  }

  lemma UndoneText(img: Image, s: State, base: Bytes, gs: UndoLog.Hist, k: nat)
    requires StateOk(img, s) && Removable(s) && k < |s.applied| && |base| == |s.text|
    requires UndoLog.SameLayout(gs, WritesOf(s.applied)) && UndoLog.AllWithin(|base|, img.start, gs)
    requires FirstWith(s.applied, s.applied[k].sha1, k)
    ensures UndoneCleanly(img, s, base, gs, k) <==> UndoLog.RemovesCleanly(base, img.start, gs, k)
  {
    hide UndoSpec, Overlaid, UndoLog.Layers, UndoLog.Logs, StateOk, Removable, FirstWith, Replayed;
    var t := Replayed(img, s, base, gs);
    ReplayedOk(img, s, base, gs, k);
    UndoSucceeds(img, t, s.applied[k].sha1);
    assert Listed(t.applied, s.applied[k].sha1) by { FirstListed(t.applied, s.applied[k].sha1, k); }
    UndoExactly(img, t, s.applied[k].sha1, k);
  }

  lemma FirstListed(applied: seq<Applied>, sha1: Sha1, k: nat)
    requires FirstWith(applied, sha1, k)
    ensures Listed(applied, sha1)
  {
  }
}
