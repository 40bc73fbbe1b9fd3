// From the client's patch record to patched text: the three stages of address
// arithmetic (user/raxlpxs.c, patch_writes; libsandbox.c, read_patch_data and
// swap_trampolines) put together.
module EndToEnd {
  import opened Codes
  import opened Words
  import opened Overlay
  import opened PatchData
  import opened Payload
  import opened Relocs
  import opened Client
  import opened Mapper
  import opened Server
  import opened Engine
  import Parsing
  import PatchFormat
  import PatchLoad

  function ClientRequest(p: Patch): Request {
    RequestOf(p, Trampolines(p))
  }

  // A patch the server can take: a mapped blob, functions to patch, nothing
  // the server refuses or drops.
  predicate Plain(p: Patch) {
    && PatchFits(p) && 0 < |p.blob| < MAX_PATCH_SIZE && p.funcs != []
    && p.deps == [] && p.exctbl == [] && p.preexctbl == []
  }

  lemma RequestOfFits(p: Patch)
    requires PatchFits(p)
    ensures RequestFits(ClientRequest(p))
  {
    hide Trampoline;
    var ws := Trampolines(p);
    forall i | 0 <= i < |ws|
      ensures WriteFits(ws[i])
    {
      TrampolineAddress(p.refabs, p.funcs[i]);
    }
  }

  lemma TrampolineAddress(refabs: nat, f: Func)
    ensures Trampoline(refabs, f).hvabs == f.oldabs
  {
  }

  function SlidAddress(img: Image, p: Patch, f: Func): nat {
    (f.oldabs + (img.start - p.refabs) % W64) % W64
  }

  predicate InText(img: Image, p: Patch) {
    forall i :: 0 <= i < |p.funcs| ==> img.start <= SlidAddress(img, p, p.funcs[i]) < img.end
  }

  // --- The trampoline -----------------------------------------------------------------

  // What the server makes of the client's E9 entry.
  lemma FixedTrampoline(img: Image, p: Patch, f: Func, pmAddr: nat)
    ensures var rel := RelocRel(pmAddr, img.start, p.refabs);
            var slide := (img.start - p.refabs) % W64;
            var r := FixWrite(Trampoline(p.refabs, f), slide, rel, img);
            var hv := SlidAddress(img, p, f);
            && (r.Some? <==> img.start <= hv < img.end)
            && (r.Some? ==>
                  && r.value.hvabs == hv && r.value.data[0] == 0xe9
                  && Word32(r.value.data, 1) == (JmpOffset(p.refabs, f) + rel) % W32
                  && r.value.data[5..] == [0, 0, 0])
  {
    var w := Trampoline(p.refabs, f);
    var jmp := JmpOffset(p.refabs, f);
    var rel := RelocRel(pmAddr, img.start, p.refabs);
    hide LE, Word32, RelocRel, JmpOffset;
    assert w.data[1..5] == LE(4, jmp);
    WordAt(w.data, 1, jmp);
    AddedWord(w.data, 1, rel, 1);
    var d := AddAt(w.data, 1, rel);
    assert d[0] == w.data[0] && d[5..] == w.data[5..];
  }

  // The displacement's three stages cancel.
  lemma JumpArithmetic(img: Image, p: Patch, f: Func, pmAddr: nat)
    ensures var word := (JmpOffset(p.refabs, f) + RelocRel(pmAddr, img.start, p.refabs)) % W32;
            Cong32(RelTarget(SlidAddress(img, p, f), 1, word), pmAddr + f.newrel)
  {
    var start, refabs, rel, jmp := img.start, p.refabs, RelocRel(pmAddr, img.start, p.refabs), JmpOffset(p.refabs, f);
    var hv, word := SlidAddress(img, p, f), (jmp + rel) % W32;
    RelocRelMeaning(pmAddr, start, refabs);
    JmpMeaning(refabs, f);
    SlidMeaning(img, p, f);
    CongTrunc(jmp + rel, word);
    hide Cong32, RelocRel, JmpOffset, SlidAddress;
    CongSum(jmp, refabs + f.newrel - f.oldabs - 5, rel, pmAddr - start);
    CongSum(jmp + rel, word, 0, 0) by { CongRefl(0); }
    CongChain(word, jmp + rel, refabs + f.newrel - f.oldabs - 5 + (pmAddr - start));
    CongSum(word, refabs + f.newrel - f.oldabs - 5 + (pmAddr - start), hv, f.oldabs + start - refabs);
    CongRefl(5);
    CongSum(word + hv, pmAddr + f.newrel - 5, 5, 5);
  }

  lemma JmpMeaning(refabs: nat, f: Func)
    ensures Cong32(JmpOffset(refabs, f), refabs + f.newrel - f.oldabs - 5)
  {
    var x := refabs + f.newrel - f.oldabs - 5;
    ModMod(x);
    CongTrunc(x, x % W32);
    CongSum(x, x % W32, 0, 0);
  }

  lemma SlidMeaning(img: Image, p: Patch, f: Func)
    ensures Cong32(SlidAddress(img, p, f), f.oldabs + img.start - p.refabs)
  {
    var slide := (img.start - p.refabs) % W64;
    var a, b := (img.start - p.refabs) / W64, (f.oldabs + slide) / W64;
    assert img.start - p.refabs == a * W64 + slide;
    assert f.oldabs + slide == b * W64 + SlidAddress(img, p, f);
    MultipleCong(SlidAddress(img, p, f), f.oldabs + img.start - p.refabs, -(a + b) * W32);
  }

  // --- The whole apply ------------------------------------------------------------------

  function ClientPayload(p: Patch): Bytes {
    Encode(ClientRequest(p))
  }

  lemma ClientHeader(p: Patch)
    requires PatchFits(p)
    ensures var e, h := ClientPayload(p), HeaderOf(ClientRequest(p));
            && |e| == EndOff(h) >= HEADER_SIZE && ReadHeader(e) == h
            && h.bloblen == |p.blob| && h.numrelocs == |p.relocs| && h.numwrites == |p.funcs|
            && h.refabs == p.refabs && h.sha1 == p.sha1
            && h.numdeps == |p.deps| && h.numexctblents == |p.exctbl| && h.numpreexctblents == |p.preexctbl|
            && h.taglen == StrNLen(p.tags, MAX_TAGS_LEN - 1)
            && e[HEADER_SIZE..RelocsOff(h)] == p.blob
            && ReadWords(e, RelocsOff(h), |p.relocs|) == p.relocs
            && ReadWrites(e, WritesOff(h), |p.funcs|) == Trampolines(p)
  {
    RequestOfFits(p);
    HeadRoundTrip(ClientRequest(p));
    hide Encode, ReadHeader, ReadWords, ReadWrites, Trampoline, StrNLen;
  }

  // What staging the client's sections amounts to.
  function ClientRelocs(img: Image, a: Alloc, p: Patch, g: Grants, pm: Region): Staged
    requires |p.blob| < W32
  {
    var rel := RelocRel(pm.addr, img.start, p.refabs);
    if p.relocs == [] then ClientWrites(img, a, p, g, pm, p.blob)
    else if !g.relocs then Abort(SANDBOX_ERR_NOMEM, pm, a)
    else
      match RelocSpec(p.blob, |p.blob|, p.relocs, rel, |p.relocs|)
      case Done(b) => ClientWrites(img, a, p, g, pm, b)
      case Refuse => Abort(SANDBOX_ERR_INVALID, pm, a)
      case Wild => Staged.Wild
  }

  function ClientWrites(img: Image, a: Alloc, p: Patch, g: Grants, pm: Region, blob: Bytes): Staged {
    var rel, slide := RelocRel(pm.addr, img.start, p.refabs), (img.start - p.refabs) % W64;
    var ws := Trampolines(p);
    if !g.writes then Abort(SANDBOX_ERR_NOMEM, pm, a)
    else if Fixable(ws, slide, rel, img) then Ready(pm, blob, Fixed(ws, slide, rel, img), a)
    else Abort(SANDBOX_ERR_INVALID, pm, a)
  }

  function ClientStaged(img: Image, a: Alloc, p: Patch, g: Grants): Staged
    requires |p.blob| < W32
  {
    var m := MapSpec(a, img, |p.blob|, g.mmap);
    if m.code != SANDBOX_OK then Failed(m.code, m.pm, m.alloc)
    else ClientRelocs(img, m.alloc, p, g, m.pm)
  }

  // A payload whose header and sections are the client's.
  ghost predicate CarriesPatch(p: Patch, e: Bytes, h: Header) {
    && HasBlob(h) && h.bloblen == |p.blob| && h.refabs == p.refabs
    && h.numrelocs == |p.relocs| && h.numwrites == |p.funcs|
    && ExctblOff(h) <= |e|
    && e[HEADER_SIZE..RelocsOff(h)] == p.blob
    && ReadWords(e, RelocsOff(h), h.numrelocs) == p.relocs
    && ReadWrites(e, WritesOff(h), h.numwrites) == Trampolines(p)
  }

  lemma ClientStageWrites(img: Image, a: Alloc, p: Patch, g: Grants, pm: Region, blob: Bytes, e: Bytes, h: Header)
    requires CarriesPatch(p, e, h)
    ensures StageWrites(img, a, e, h, g, WritesOff(h), pm, blob) == ClientWrites(img, a, p, g, pm, blob)
  {
    hide ReadWords, ReadWrites, RelocRel, Fixable, Fixed, Trampolines, UnmapSpec;
  }

  lemma ClientStageRelocs(img: Image, a: Alloc, p: Patch, g: Grants, pm: Region, e: Bytes, h: Header)
    requires CarriesPatch(p, e, h) && |p.blob| < W32
    ensures StageRelocs(img, a, e, h, g, RelocsOff(h), pm, p.blob) == ClientRelocs(img, a, p, g, pm)
  {
    var out := RelocSpec(p.blob, |p.blob|, p.relocs, RelocRel(pm.addr, img.start, p.refabs), |p.relocs|);
    ClientStageWrites(img, a, p, g, pm, if out.Done? && p.relocs != [] then out.blob else p.blob, e, h);
    hide ReadWords, ReadWrites, RelocRel, RelocSpec, Trampolines, StageWrites, ClientWrites, UnmapSpec;
  }

  lemma ClientStage(img: Image, a: Alloc, p: Patch, g: Grants)
    requires Plain(p)
    ensures StageSpec(img, a, ClientPayload(p), HeaderOf(ClientRequest(p)), g) == ClientStaged(img, a, p, g)
  {
    ClientHeader(p);
    var e, h := ClientPayload(p), HeaderOf(ClientRequest(p));
    var m := MapSpec(a, img, |p.blob|, g.mmap);
    hide ClientPayload, ClientRequest, HeaderOf, ReadHeader, ReadWords, ReadWrites, MapSpec, Trampolines,
      StageRelocs, ClientRelocs, StrNLen;
    assert CarriesPatch(p, e, h);
    ClientStageRelocs(img, m.alloc, p, g, m.pm, e, h);
  }

  lemma TrampolinesFixable(img: Image, p: Patch, pmAddr: nat)
    ensures Fixable(Trampolines(p), (img.start - p.refabs) % W64, RelocRel(pmAddr, img.start, p.refabs), img) <==>
            InText(img, p)
  {
    hide FixWrite, Trampoline, RelocRel, SlidAddress;
    var ws := Trampolines(p);
    forall i | 0 <= i < |p.funcs|
      ensures FixWrite(ws[i], (img.start - p.refabs) % W64, RelocRel(pmAddr, img.start, p.refabs), img).Some? <==>
              img.start <= SlidAddress(img, p, p.funcs[i]) < img.end
    {
      FixedTrampoline(img, p, p.funcs[i], pmAddr);
    }
    if Fixable(ws, (img.start - p.refabs) % W64, RelocRel(pmAddr, img.start, p.refabs), img) {
      forall i | 0 <= i < |p.funcs|
        ensures img.start <= SlidAddress(img, p, p.funcs[i]) < img.end
      {
        assert FixWrite(ws[i], (img.start - p.refabs) % W64, RelocRel(pmAddr, img.start, p.refabs), img).Some?;
      }
    }
  }

  // The client's request is applied exactly when its staging succeeds.
  lemma ClientApplied(img: Image, s: State, p: Patch, g: Grants)
    requires StateOk(img, s) && Plain(p) && g.patch
    ensures var st, s' := ClientStaged(img, s.alloc, p, g), ApplySpec(img, s, ClientPayload(p), g).1;
            && (Grew(s, s') <==> st.Ready?)
            && (st.Ready? ==>
                  && s'.text == Overlaid(s.text, img.start, st.writes)
                  && s'.applied[0].blob == st.blob && s'.applied[0].pm == st.pm
                  && s'.applied[0].sha1 == p.sha1
                  && s'.applied[0].tags == ClientTags(p))
  {
    ClientHeader(p);
    ClientStage(img, s.alloc, p, g);
    ClientTagsAre(p);
    var e, h := ClientPayload(p), HeaderOf(ClientRequest(p));
    hide StageSpec, ClientPayload, ClientRequest, HeaderOf, ReadHeader, ReadWords, ReadWrites, ClientStaged,
      Overlaid, Saved, UnmapSpec, Trampolines, StrNLen, ClientTags;
    var s' := ApplySpec(img, s, e, g).1;
    if StageSpec(img, s.alloc, e, h, g).Ready? {
      assert s'.applied[1..] == s.applied;
    }
  }

  // The bytes the server takes for the tags: those after the header.
  function ClientTags(p: Patch): Bytes
  {
    var e, n := ClientPayload(p), StrNLen(p.tags, MAX_TAGS_LEN - 1);
    if n == 0 || |e| < HEADER_SIZE + n then [] else e[HEADER_SIZE..HEADER_SIZE + n]
  }

  lemma ClientTagsAre(p: Patch)
    requires Plain(p)
    ensures var e, h := ClientPayload(p), HeaderOf(ClientRequest(p));
            && h.taglen < MAX_TAGS_LEN && HEADER_SIZE + h.taglen <= |e|
            && TagsAsRead(e, h) == ClientTags(p)
  {
    ClientHeader(p);
    hide ClientPayload, ClientRequest, HeaderOf, ReadHeader, ReadWords, ReadWrites, Trampolines, StrNLen;
  }

  // With every allocation granted and room below the limit, the server applies
  // what the client built exactly when every relocation lies in the blob and
  // every patched address, slid with the image, lies in its text.
  lemma GrownExactly(img: Image, s: State, p: Patch, g: Grants)
    requires StateOk(img, s) && Plain(p)
    requires g.patch && g.relocs && g.writes && MapSpec(s.alloc, img, |p.blob|, g.mmap).code == SANDBOX_OK
    ensures Grew(s, ApplySpec(img, s, ClientPayload(p), g).1) <==> InRange(|p.blob|, p.relocs) && InText(img, p)
  {
    ClientApplied(img, s, p, g);
    ReadyExactly(img, s.alloc, p, g);
    hide ApplySpec, ClientPayload, MapSpec, ClientStaged, InText, InRange, ClientTags, Overlaid;
  }

  lemma ReadyExactly(img: Image, a: Alloc, p: Patch, g: Grants)
    requires |p.blob| < W32 && g.relocs && g.writes && MapSpec(a, img, |p.blob|, g.mmap).code == SANDBOX_OK
    ensures ClientStaged(img, a, p, g).Ready? <==> InRange(|p.blob|, p.relocs) && InText(img, p)
  {
    var m := MapSpec(a, img, |p.blob|, g.mmap);
    TrampolinesFixable(img, p, m.pm.addr);
    RangeOfDone(p, RelocRel(m.pm.addr, img.start, p.refabs));
    hide MapSpec, RelocSpec, Fixable, Fixed, Trampolines, RelocRel, UnmapSpec, InText;
  }

  lemma RangeOfDone(p: Patch, rel: nat)
    requires |p.blob| < W32
    ensures RelocSpec(p.blob, |p.blob|, p.relocs, rel, |p.relocs|).Done? <==> InRange(|p.blob|, p.relocs)
  {
    RelocSpecDone(p.blob, p.relocs, rel, |p.relocs|);
  }

  // The client's request makes the server store outside the blob exactly when
  // it gets as far as the relocations, there are any, and the blob is shorter
  // than one word.
  lemma UndefinedExactly(img: Image, s: State, p: Patch, g: Grants)
    requires StateOk(img, s) && Plain(p)
    ensures ApplySpec(img, s, ClientPayload(p), g).0 == Undefined <==>
            && g.patch && MapSpec(s.alloc, img, |p.blob|, g.mmap).code == SANDBOX_OK && g.relocs
            && |p.blob| < 4 && p.relocs != []
  {
    hide StageSpec, ClientPayload, ClientRequest, HeaderOf, ReadHeader, ReadWords, ReadWrites, ClientStaged,
      Overlaid, Saved, UnmapSpec, MapSpec, Trampolines, StrNLen, ClientTags;
    ClientHeader(p);
    ClientStage(img, s.alloc, p, g);
    ClientTagsAre(p);
    StagedWild(img, s.alloc, p, g);
  }

  lemma StagedWild(img: Image, a: Alloc, p: Patch, g: Grants)
    requires PatchFits(p)
    ensures ClientStaged(img, a, p, g).Wild? <==>
            && MapSpec(a, img, |p.blob|, g.mmap).code == SANDBOX_OK && g.relocs
            && |p.blob| < 4 && p.relocs != []
  {
    var m := MapSpec(a, img, |p.blob|, g.mmap);
    WildExactly(p.blob, p.relocs, RelocRel(m.pm.addr, img.start, p.refabs), |p.relocs|);
    hide MapSpec, RelocSpec, Fixable, Fixed, Trampolines, RelocRel, UnmapSpec;
  }

  // --- What an accepted patch does ------------------------------------------------------

  predicate Separate(a: nat, b: nat) {
    a + 8 <= b || b + 8 <= a
  }

  // No later window of the same patch covers function i's window.
  predicate LastAtItsWindow(img: Image, p: Patch, i: nat)
    requires i < |p.funcs|
  {
    forall j :: i < j < |p.funcs| ==>
      Separate(SlidAddress(img, p, p.funcs[i]), SlidAddress(img, p, p.funcs[j]))
  }

  // At function f's run-time address the text holds an E9 jump whose operand
  // leads to the new function in the mapped blob: modulo 2^32 always, and as a
  // real address exactly when the distance fits a signed 32-bit displacement.
  ghost predicate Lands(img: Image, p: Patch, text: Bytes, pmAddr: nat, f: Func) {
    var hv, target := SlidAddress(img, p, f), pmAddr + f.newrel;
    && img.start <= hv && hv + 8 <= img.start + |text|
    && text[hv - img.start] == 0xe9
    && var word := Word32(text, hv - img.start + 1);
    && Cong32(RelTarget(hv, 1, word), target)
    && (RelTarget(hv, 1, Signed32(word)) == target <==> InReach(hv + 5, target))
  }

  // Every listed operand of the placed blob resolves to its link-time target
  // plus the image's slide; every other byte is the file's.
  ghost predicate BlobPlaced(img: Image, p: Patch, blob: Bytes, pmAddr: nat) {
    && |blob| == |p.blob|
    && (forall i :: 0 <= i < |p.relocs| ==> OperandPlaced(img, p, blob, pmAddr, p.relocs[i]))
    && (forall q :: 0 <= q < |p.blob| && (forall i :: 0 <= i < |p.relocs| ==> !(p.relocs[i] <= q < p.relocs[i] + 4)) ==>
          blob[q] == p.blob[q])
  }

  ghost predicate OperandPlaced(img: Image, p: Patch, blob: Bytes, pmAddr: nat, off: nat) {
    && off + 4 <= |p.blob| && off + 4 <= |blob|
    && Cong32(RelTarget(pmAddr, off, Word32(blob, off)),
              RelTarget(p.refabs, off, Word32(p.blob, off)) + (img.start - p.refabs))
  }

  // The window's bytes after the swap are the relocated trampoline.
  lemma TrampolineBytes(img: Image, text: Bytes, start: nat, ws: seq<Write>, i: nat)
    requires Within(|text|, start, ws) && i < |ws| && forall j :: i < j < |ws| ==> Apart(ws[i], ws[j])
    ensures var at, t := ws[i].hvabs - start, Overlaid(text, start, ws);
            && t[at] == ws[i].data[0] && Word32(t, at + 1) == Word32(ws[i].data, 1)
  {
    hide UnLE;
    var at, t := ws[i].hvabs - start, Overlaid(text, start, ws);
    forall b | 0 <= b < 8
      ensures t[at + b] == ws[i].data[b]
    {
      LastCover(text, start, ws, |ws|, i, ws[i].hvabs + b);
    }
    assert t[at + 1..at + 5] == ws[i].data[1..5];
  }

  lemma WindowsApart(img: Image, p: Patch, ws: seq<Write>, i: nat)
    requires |ws| == |p.funcs| && i < |ws| && LastAtItsWindow(img, p, i)
    requires forall j :: 0 <= j < |ws| ==> ws[j].hvabs == SlidAddress(img, p, p.funcs[j])
    ensures forall j :: i < j < |ws| ==> Apart(ws[i], ws[j])
  {
    hide SlidAddress;
  }

  lemma JumpLands(img: Image, p: Patch, text: Bytes, pmAddr: nat, f: Func)
    requires var hv := SlidAddress(img, p, f);
             && img.start <= hv && hv + 8 <= img.start + |text| && text[hv - img.start] == 0xe9
             && Word32(text, hv - img.start + 1) ==
                (JmpOffset(p.refabs, f) + RelocRel(pmAddr, img.start, p.refabs)) % W32
    ensures Lands(img, p, text, pmAddr, f)
  {
    hide RelocRel, SlidAddress, Word32, RelTarget, Cong32, JmpOffset;
    JumpArithmetic(img, p, f, pmAddr);
    var hv := SlidAddress(img, p, f);
    TargetExact(hv, 1, Word32(text, hv - img.start + 1), pmAddr + f.newrel);
  }

  lemma FixedTrampolineLands(img: Image, text: Bytes, p: Patch, pmAddr: nat, i: nat)
    requires ImageOk(img, |text|) && i < |p.funcs| && LastAtItsWindow(img, p, i)
    requires Fixable(Trampolines(p), (img.start - p.refabs) % W64, RelocRel(pmAddr, img.start, p.refabs), img)
    ensures var ws := Fixed(Trampolines(p), (img.start - p.refabs) % W64, RelocRel(pmAddr, img.start, p.refabs), img);
            Lands(img, p, Overlaid(text, img.start, ws), pmAddr, p.funcs[i])
  {
    var rel, slide := RelocRel(pmAddr, img.start, p.refabs), (img.start - p.refabs) % W64;
    var ws, f := Fixed(Trampolines(p), slide, rel, img), p.funcs[i];
    hide FixWrite, Trampoline, RelocRel, SlidAddress, Word32, JmpOffset, Overlaid, Lands, LastAtItsWindow;
    forall j | 0 <= j < |ws|
      ensures ws[j].hvabs == SlidAddress(img, p, p.funcs[j])
    {
      FixedTrampoline(img, p, p.funcs[j], pmAddr);
    }
    FixedWithin(Trampolines(p), slide, rel, img, |text|);
    FixedTrampoline(img, p, f, pmAddr);
    WindowsApart(img, p, ws, i);
    TrampolineBytes(img, text, img.start, ws, i);
    JumpLands(img, p, Overlaid(text, img.start, ws), pmAddr, f);
  }

  lemma BlobIsPlaced(img: Image, p: Patch, pmAddr: nat, blob: Bytes)
    requires |p.blob| < W32 && NonOverlapping(p.relocs)
    requires RelocSpec(p.blob, |p.blob|, p.relocs, RelocRel(pmAddr, img.start, p.refabs), |p.relocs|) == Done(blob)
    ensures BlobPlaced(img, p, blob, pmAddr)
  {
    hide RelocSpec, RelocRel, Word32, RelTarget, Cong32;
    RangeOfDone(p, RelocRel(pmAddr, img.start, p.refabs));
    BlobMeaning(p.blob, p.relocs, pmAddr, img.start, p.refabs);
  }

  // The patch at the list head is in force: every trampoline that no later
  // window of the patch covers leads to its new function, and unless its
  // relocations overlap its blob is placed.
  ghost predicate TookEffect(img: Image, p: Patch, s: State) {
    && s.applied != []
    && s.applied[0].sha1 == p.sha1
    && (NonOverlapping(p.relocs) ==> BlobPlaced(img, p, s.applied[0].blob, s.applied[0].pm.addr))
    && forall i :: 0 <= i < |p.funcs| && LastAtItsWindow(img, p, i) ==>
         Lands(img, p, s.text, s.applied[0].pm.addr, p.funcs[i])
  }

  // End to end: whatever the server's state and the placement of the blob, if
  // the client's patch is applied then it takes effect: its jumps land in the
  // blob, and the blob's operands resolve to their link-time targets in the
  // moved image.
  lemma PatchTakesEffect(img: Image, s: State, p: Patch, g: Grants)
    requires StateOk(img, s) && Plain(p) && Grew(s, ApplySpec(img, s, ClientPayload(p), g).1)
    ensures TookEffect(img, p, ApplySpec(img, s, ClientPayload(p), g).1)
  {
    NeedsRecord(img, s, p, g);
    ClientApplied(img, s, p, g);
    var st := ClientStaged(img, s.alloc, p, g);
    ReadyParts(img, s.alloc, p, g);
    hide ApplySpec, ClientPayload, ClientStaged, Fixable, Fixed, Trampolines, RelocRel, RelocSpec, Overlaid, ClientTags,
      LastAtItsWindow, Lands, BlobPlaced, NonOverlapping;
    if NonOverlapping(p.relocs) {
      BlobIsPlaced(img, p, st.pm.addr, st.blob);
    }
    forall i | 0 <= i < |p.funcs| && LastAtItsWindow(img, p, i)
      ensures Lands(img, p, Overlaid(s.text, img.start, st.writes), st.pm.addr, p.funcs[i])
    {
      FixedTrampolineLands(img, s.text, p, st.pm.addr, i);
    }
  }

  lemma NeedsRecord(img: Image, s: State, p: Patch, g: Grants)
    requires StateOk(img, s) && Grew(s, ApplySpec(img, s, ClientPayload(p), g).1)
    ensures g.patch
  {
    hide StageSpec, ClientPayload, ReadHeader, Overlaid, Saved, UnmapSpec;
  }

  lemma ReadyParts(img: Image, a: Alloc, p: Patch, g: Grants)
    requires |p.blob| < W32 && ClientStaged(img, a, p, g).Ready?
    ensures var st := ClientStaged(img, a, p, g);
            var rel, slide := RelocRel(st.pm.addr, img.start, p.refabs), (img.start - p.refabs) % W64;
            && Fixable(Trampolines(p), slide, rel, img) && st.writes == Fixed(Trampolines(p), slide, rel, img)
            && RelocSpec(p.blob, |p.blob|, p.relocs, rel, |p.relocs|) == Done(st.blob)
  {
    var m := MapSpec(a, img, |p.blob|, g.mmap);
    if p.relocs == [] {
      assert RelocSpec(p.blob, |p.blob|, p.relocs, RelocRel(m.pm.addr, img.start, p.refabs), 0) == Done(p.blob);
    }
    hide MapSpec, RelocSpec, Fixable, Fixed, Trampolines, RelocRel, UnmapSpec;
  }

  // The tags the server records are the bytes behind the header, which begin
  // with the blob: they are the client's exactly when those bytes happen to
  // begin with the client's tags.
  lemma TagsRecorded(img: Image, s: State, p: Patch, g: Grants)
    requires StateOk(img, s) && Plain(p) && Grew(s, ApplySpec(img, s, ClientPayload(p), g).1)
    ensures var e, n := ClientPayload(p), StrNLen(p.tags, MAX_TAGS_LEN - 1);
            var ap := ApplySpec(img, s, e, g).1.applied[0];
            && HEADER_SIZE + |p.blob| <= |e| && HEADER_SIZE + n <= |e|
            && e[HEADER_SIZE..][..|p.blob|] == p.blob
            && ap.tags == e[HEADER_SIZE..][..n]
            && (ap.tags == p.tags[..n] <==> p.tags[..n] <= e[HEADER_SIZE..])
  {
    NeedsRecord(img, s, p, g);
    ClientApplied(img, s, p, g);
    ClientHeader(p);
    ClientTagsAre(p);
    hide ApplySpec, ClientPayload, ClientStaged, ReadHeader, ReadWords, ReadWrites, StrNLen, Overlaid, Trampolines;
    var e, n := ClientPayload(p), StrNLen(p.tags, MAX_TAGS_LEN - 1);
    assert e[HEADER_SIZE..][..n] == e[HEADER_SIZE..HEADER_SIZE + n];
    assert e[HEADER_SIZE..][..|p.blob|] == e[HEADER_SIZE..HEADER_SIZE + |p.blob|];
  }

  // --- A jump that misses ---------------------------------------------------------------

  // An image at 4 MiB whose heap ends at 16 GiB, which the limit allows.
  const FAR_IMAGE := Image(0x40_0000, 0x50_0000, 0x4_0000_0000)
  const ALL_GRANTED := Grants(true, true, true, true, true, true)

  // One function at the start of the text, replaced by a one-byte blob.
  const ONE_JUMP := Patch(3, Zeros(20), Zeros(32), Zeros(32), 0, 0x40_0000, [0xc3], [], [],
                          [Func([], 0x40_0000, 0)], [], [], [], [], [], [], [], [])

  lemma FarMap()
    ensures UserSpace(FAR_IMAGE)
    ensures var r := MapSpec(FRESH, FAR_IMAGE, 1, true);
            r.code == SANDBOX_OK && r.pm == Region(0x4_0000_1000, 1)
  {
  }

  // The limit does not keep blobs within a jump's reach: here the patch is
  // applied, and the jump that is to lead to its blob leads somewhere else.
  lemma JumpMisses()
    ensures UserSpace(FAR_IMAGE) && Plain(ONE_JUMP)
    ensures var s := State(Zeros(0x10_0007), [], FRESH);
            && StateOk(FAR_IMAGE, s)
            && var s' := ApplySpec(FAR_IMAGE, s, ClientPayload(ONE_JUMP), ALL_GRANTED).1;
            && Grew(s, s') && |s'.text| == 0x10_0007 && s'.text[0] == 0xe9
            && RelTarget(FAR_IMAGE.start, 1, Signed32(Word32(s'.text, 1))) != s'.applied[0].pm.addr
  {
    var s := State(Zeros(0x10_0007), [], FRESH);
    var p, img := ONE_JUMP, FAR_IMAGE;
    FarMap();
    OneJumpFits();
    hide ApplySpec, ClientPayload, MapSpec, Lands, LastAtItsWindow, BlobPlaced, SlidAddress, Limit;
    GrownExactly(img, s, p, ALL_GRANTED);
    var s' := ApplySpec(img, s, ClientPayload(p), ALL_GRANTED).1;
    PatchTakesEffect(img, s, p, ALL_GRANTED);
    ClientRegion(img, s, p, ALL_GRANTED);
    assert LastAtItsWindow(img, p, 0) by { OnlyWindow(img, p); }
    LandsAt(img, p, s'.text, s'.applied[0].pm.addr, p.funcs[0]);
  }

  lemma OneJumpFits()
    ensures Plain(ONE_JUMP) && InRange(1, ONE_JUMP.relocs)
    ensures SlidAddress(FAR_IMAGE, ONE_JUMP, ONE_JUMP.funcs[0]) == 0x40_0000 && InText(FAR_IMAGE, ONE_JUMP)
  {
  }

  lemma OnlyWindow(img: Image, p: Patch)
    requires |p.funcs| == 1
    ensures LastAtItsWindow(img, p, 0)
  {
  }

  lemma LandsAt(img: Image, p: Patch, text: Bytes, pmAddr: nat, f: Func)
    requires Lands(img, p, text, pmAddr, f)
    ensures var hv := SlidAddress(img, p, f);
            && img.start <= hv && hv + 8 <= img.start + |text| && text[hv - img.start] == 0xe9
            && (RelTarget(hv, 1, Signed32(Word32(text, hv - img.start + 1))) == pmAddr + f.newrel <==>
                InReach(hv + 5, pmAddr + f.newrel))
  {
    hide Cong32, SlidAddress, Word32;
  }

  // The applied patch has the region the mapper handed out.
  lemma ClientRegion(img: Image, s: State, p: Patch, g: Grants)
    requires StateOk(img, s) && Plain(p) && Grew(s, ApplySpec(img, s, ClientPayload(p), g).1)
    ensures ApplySpec(img, s, ClientPayload(p), g).1.applied[0].pm == MapSpec(s.alloc, img, |p.blob|, g.mmap).pm
    ensures |ApplySpec(img, s, ClientPayload(p), g).1.text| == |s.text|
  {
    NeedsRecord(img, s, p, g);
    ClientApplied(img, s, p, g);
    hide ApplySpec, ClientPayload, MapSpec, RelocSpec, Fixable, Fixed, Trampolines, RelocRel, UnmapSpec, Overlaid;
  }

  // --- From the file ------------------------------------------------------------------------

  // Whatever the loader accepts fits the fields of a request.
  lemma LoadedFits(p: Patch)
    requires PatchLoad.Storable(p)
    ensures PatchFits(p)
  {
    BaseValues();
    forall i | 0 <= i < |p.relocs|
      ensures p.relocs[i] < W32
    {
      assert Parsing.Fits(4)(p.relocs[i]);
    }
    forall i | 0 <= i < |p.funcs|
      ensures p.funcs[i].oldabs < W64 && p.funcs[i].newrel < W32
    {
      assert PatchFormat.FuncOk(p.funcs[i]);
    }
    forall i | 0 <= i < |p.exctbl|
      ensures ExFits(p.exctbl[i])
    {
      assert PatchFormat.ExOk(p.exctbl[i]);
    }
    forall i | 0 <= i < |p.preexctbl|
      ensures ExFits(p.preexctbl[i])
    {
      assert PatchFormat.ExOk(p.preexctbl[i]);
    }
  }

  // File to text: from any accepted file without dependencies or exception
  // tables, with a blob that is mapped, the jumps that the server installs
  // lead to that file's functions in that file's blob.
  lemma FileTakesEffect(hash: Bytes -> Sha1, file: Bytes, name: Bytes, bare: bool, p: Patch, img: Image, s: State,
                        g: Grants)
    requires PatchLoad.LoadFile(hash, file, name, bare) == PatchLoad.Loaded(p)
    requires 0 < |p.blob| < MAX_PATCH_SIZE && p.funcs != []
    requires p.deps == [] && p.exctbl == [] && p.preexctbl == []
    requires StateOk(img, s) && Grew(s, ApplySpec(img, s, ClientPayload(p), g).1)
    ensures PatchLoad.Storable(p) && PatchLoad.FileBody(p) <= file
    ensures TookEffect(img, p, ApplySpec(img, s, ClientPayload(p), g).1)
  {
    hide PatchLoad.LoadFile, PatchLoad.Storable, PatchLoad.FileBody, ApplySpec, ClientPayload, PatchFits, BlobPlaced,
      Lands, LastAtItsWindow, NonOverlapping, StateOk, TookEffect;
    PatchLoad.AcceptedFile(hash, file, name, bare);
    LoadedFits(p);
    PatchTakesEffect(img, s, p, g);
  }
}
