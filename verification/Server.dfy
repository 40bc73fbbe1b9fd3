// The server's patch engine (libsandbox.c: read_patch_data, xenlp_apply4,
// has_dependent_patches and xenlp_undo4).
module Server {
  import opened Codes
  import opened Words
  import opened Overlay
  import opened PatchData
  import opened Payload
  import opened Relocs
  import opened Mapper

  const MAX_PATCH_SIZE: nat := 1048576
  const ENOENT := 2
  const ENXIO := 6

  // struct applied_patch with the contents of its map.
  datatype Applied = Applied(
    pm: Region, blob: Bytes, sha1: Sha1, writes: seq<Write>, deps: seq<Sha1>, tags: Bytes)

  // `text` runs from _start to at least 7 bytes past _end, so that a window
  // starting anywhere in [_start, _end) lies in it. The list head is applied[0].
  datatype State = State(text: Bytes, applied: seq<Applied>, alloc: Alloc)

  // Which of the allocations succeed that serving a message may ask for; the
  // first is the dispatcher's own buffer.
  datatype Grants = Grants(buffer: bool, patch: bool, mmap: bool, relocs: bool, writes: bool, deps: bool)

  // Undefined: the program reads past the message, or stores outside the blob
  // or the tags array.
  datatype Outcome = Returns(code: int) | Undefined

  predicate ImageOk(img: Image, n: nat) {
    img.start <= img.end && img.end + 7 <= img.start + n
  }

  predicate StateOk(img: Image, s: State) {
    && ImageOk(img, |s.text|)
    && forall k :: 0 <= k < |s.applied| ==> Within(|s.text|, img.start, s.applied[k].writes)
  }

  // --- read_patch_data, on values ------------------------------------------------------

  // One entry: slide its address, check it, then relocate its data. A negative
  // `dataoff` means no relocation.
  function FixWrite(w: Write, slide: nat, relocrel: nat, img: Image): Option<Write>
    requires relocrel < W32
  {
    var hvabs := (w.hvabs + slide) % W64;
    if hvabs < img.start || hvabs >= img.end then None
    else if w.dataoff >= 0x80 then Some(w.(hvabs := hvabs))
    else if w.reloctype == XENLP_RELOC_UINT64 then
      if w.dataoff > 0 then None
      else Some(w.(hvabs := hvabs, data := LE(8, (Word64(w.data, 0) + Signed32(relocrel)) % W64)))
    else if w.reloctype == XENLP_RELOC_INT32 then
      if w.dataoff > 4 then None
      else Some(w.(hvabs := hvabs, data := AddAt(w.data, w.dataoff as nat, relocrel)))
    else None
  }

  // The relocation an entry asks for fits its 8 bytes, or it asks for none.
  predicate Relocatable(w: Write) {
    || w.dataoff >= 0x80
    || (w.reloctype == XENLP_RELOC_UINT64 && w.dataoff == 0)
    || (w.reloctype == XENLP_RELOC_INT32 && w.dataoff <= 4)
  }

  // Which entries pass, and what each kind of them becomes: the address slid,
  // one word of the data increased, and nothing else changed.
  lemma FixWriteExactly(w: Write, slide: nat, relocrel: nat, img: Image)
    requires relocrel < W32
    ensures var r, hv := FixWrite(w, slide, relocrel, img), (w.hvabs + slide) % W64;
            && (r.Some? <==> img.start <= hv < img.end && Relocatable(w))
            && (r.Some? ==>
                  var v := r.value;
                  && v.hvabs == hv && v.reloctype == w.reloctype && v.dataoff == w.dataoff
                  && if w.dataoff >= 0x80 then v.data == w.data
                     else if w.reloctype == XENLP_RELOC_UINT64 then
                       Word64(v.data, 0) == (Word64(w.data, 0) + Signed32(relocrel)) % W64
                     else
                       var off := w.dataoff as nat;
                       && Word32(v.data, off) == (Word32(w.data, off) + relocrel) % W32
                       && v.data[..off] == w.data[..off] && v.data[off + 4..] == w.data[off + 4..])
  {
    hide LE, Word32, Word64;
    if w.dataoff < 0x80 && w.reloctype == XENLP_RELOC_UINT64 && w.dataoff == 0 {
      StoredPointer((Word64(w.data, 0) + Signed32(relocrel)) % W64);
    } else if w.dataoff <= 4 && w.reloctype == XENLP_RELOC_INT32 {
      AddedWord(w.data, w.dataoff as nat, relocrel, w.dataoff as nat);
    }
  }

  lemma StoredPointer(v: nat)
    requires v < W64
    ensures Word64(LE(8, v), 0) == v
  {
    BaseValues();
    UnLELE(8, v);
    assert LE(8, v)[0..8] == LE(8, v);
  }

  predicate Fixable(ws: seq<Write>, slide: nat, relocrel: nat, img: Image)
    requires relocrel < W32
  {
    forall i :: 0 <= i < |ws| ==> FixWrite(ws[i], slide, relocrel, img).Some?
  }

  function Fixed(ws: seq<Write>, slide: nat, relocrel: nat, img: Image): (r: seq<Write>)
    requires relocrel < W32 && Fixable(ws, slide, relocrel, img)
    ensures |r| == |ws|
    ensures forall i {:trigger r[i]} :: 0 <= i < |r| ==> r[i] == FixWrite(ws[i], slide, relocrel, img).value
  {
    seq(|ws|, i requires 0 <= i < |ws| => FixWrite(ws[i], slide, relocrel, img).value)
  }

  // Every accepted window starts in [_start, _end).
  lemma FixedWithin(ws: seq<Write>, slide: nat, relocrel: nat, img: Image, n: nat)
    requires relocrel < W32 && Fixable(ws, slide, relocrel, img) && ImageOk(img, n)
    ensures Within(n, img.start, Fixed(ws, slide, relocrel, img))
    ensures forall i :: 0 <= i < |ws| ==>
      img.start <= Fixed(ws, slide, relocrel, img)[i].hvabs < img.end
  {
    hide AddAt, LE;
  }

  datatype Staged =
    | Ready(pm: Region, blob: Bytes, writes: seq<Write>, alloc: Alloc)
    | Failed(code: int, pm: Region, alloc: Alloc)
    | Wild

  // `errout`: unmap and fail. The map's size is cleared.
  function Abort(code: int, pm: Region, a: Alloc): Staged {
    Failed(code, pm.(size := 0), UnmapSpec(a, pm))
  }

  function Slide(img: Image, h: Header): nat {
    (img.start - h.refabs) % W64
  }

  // A blob is mapped only if 0 < bloblen < MAX_PATCH_SIZE; the slide of the
  // image is applied to the writes only in that case.
  predicate HasBlob(h: Header) {
    0 < h.bloblen < MAX_PATCH_SIZE
  }

  function StageWrites(img: Image, a: Alloc, p: Bytes, h: Header, g: Grants, at: nat,
                       pm: Region, blob: Bytes): Staged
  {
    var slide := if HasBlob(h) then Slide(img, h) else 0;
    var relocrel := if HasBlob(h) then RelocRel(pm.addr, img.start, h.refabs) else 0;
    if !g.writes then Abort(SANDBOX_ERR_NOMEM, pm, a)
    else if |p| < at + 24 * h.numwrites then Staged.Wild
    else
      var ws := ReadWrites(p, at, h.numwrites);
      if Fixable(ws, slide, relocrel, img) then Ready(pm, blob, Fixed(ws, slide, relocrel, img), a)
      else Abort(SANDBOX_ERR_INVALID, pm, a)
  }

  function StageRelocs(img: Image, a: Alloc, p: Bytes, h: Header, g: Grants, at: nat,
                       pm: Region, blob: Bytes): Staged
  {
    var relocrel := if HasBlob(h) then RelocRel(pm.addr, img.start, h.refabs) else 0;
    if h.numrelocs == 0 then StageWrites(img, a, p, h, g, at, pm, blob)
    else if !g.relocs then Abort(SANDBOX_ERR_NOMEM, pm, a)
    else if |p| < at + 4 * h.numrelocs then Staged.Wild
    else
      match RelocSpec(blob, h.bloblen, ReadWords(p, at, h.numrelocs), relocrel, h.numrelocs)
      case Done(b) => StageWrites(img, a, p, h, g, at + 4 * h.numrelocs, pm, b)
      case Refuse => Abort(SANDBOX_ERR_INVALID, pm, a)
      case Wild => Staged.Wild
  }

  function StageSpec(img: Image, a: Alloc, p: Bytes, h: Header, g: Grants): Staged {
    if !HasBlob(h) then StageRelocs(img, a, p, h, g, HEADER_SIZE, NO_MAP, [])
    else
      var r := MapSpec(a, img, h.bloblen, g.mmap);
      if r.code != SANDBOX_OK then Failed(r.code, r.pm, r.alloc)
      else if |p| < RelocsOff(h) then Staged.Wild
      else StageRelocs(img, r.alloc, p, h, g, RelocsOff(h), r.pm, p[HEADER_SIZE..RelocsOff(h)])
  }

  // --- xenlp_apply4 and xenlp_undo4, on values -------------------------------------------

  // The tags are copied from past the message, or their final NUL is stored
  // one past the array.
  predicate TagsWild(p: Bytes, h: Header) {
    h.taglen == MAX_TAGS_LEN || (h.taglen < MAX_TAGS_LEN && |p| < HEADER_SIZE + h.taglen)
  }

  function TagsAsRead(p: Bytes, h: Header): Bytes
    requires |p| >= HEADER_SIZE + h.taglen
  {
    if 0 < h.taglen < MAX_TAGS_LEN then p[HEADER_SIZE..HEADER_SIZE + h.taglen] else []
  }

  // The caller's cursor stays at the end of the header, because
  // read_patch_data advances only its own copy; and a request with
  // dependencies is always dropped, with the code of the stage before.
  function ApplySpec(img: Image, s: State, p: Bytes, g: Grants): (Outcome, State)
    requires StateOk(img, s)
  {
    if |p| < HEADER_SIZE then (Undefined, s)
    else
      var h := ReadHeader(p);
      if h.bloblen > MAX_PATCH_SIZE || h.numwrites == 0 || h.numexctblents != 0 || h.numpreexctblents != 0 then
        (Returns(SANDBOX_ERR_INVALID), s)
      else if !g.patch then (Returns(SANDBOX_ERR_NOMEM), s)
      else
        match StageSpec(img, s.alloc, p, h, g)
        case Wild => (Undefined, s)
        case Failed(code, pm, a) => (Returns(code), s.(alloc := UnmapSpec(a, pm)))
        case Ready(pm, blob, ws, a) =>
          if h.numdeps > 0 then
            if g.deps && |p| < HEADER_SIZE + 24 * h.numdeps then (Undefined, s)
            else (Returns(SANDBOX_OK), s.(alloc := UnmapSpec(a, pm)))
          else if TagsWild(p, h) then (Undefined, s)
          else
            StagedWithin(img, s, p, h, g);
            var tags := if h.taglen < MAX_TAGS_LEN then TagsAsRead(p, h) else [];
            var ap := Applied(pm, blob, h.sha1, Saved(s.text, img.start, ws), [], tags);
            (Returns(SANDBOX_OK), State(Overlaid(s.text, img.start, ws), [ap] + s.applied, a))
  }

  lemma StagedWithin(img: Image, s: State, p: Bytes, h: Header, g: Grants)
    requires StateOk(img, s) && StageSpec(img, s.alloc, p, h, g).Ready?
    ensures Within(|s.text|, img.start, StageSpec(img, s.alloc, p, h, g).writes)
    ensures forall i :: 0 <= i < |StageSpec(img, s.alloc, p, h, g).writes| ==>
      img.start <= StageSpec(img, s.alloc, p, h, g).writes[i].hvabs < img.end
    ensures |StageSpec(img, s.alloc, p, h, g).writes| == h.numwrites
  {
    hide RelocSpec, MapSpec, RelocRel, FixWrite, UnmapSpec;
    var r := MapSpec(s.alloc, img, h.bloblen, g.mmap);
    if !HasBlob(h) {
      RelocsWithin(img, s.alloc, p, h, g, HEADER_SIZE, NO_MAP, [], |s.text|);
    } else {
      RelocsWithin(img, r.alloc, p, h, g, RelocsOff(h), r.pm, p[HEADER_SIZE..RelocsOff(h)], |s.text|);
    }
  }

  lemma RelocsWithin(img: Image, a: Alloc, p: Bytes, h: Header, g: Grants, at: nat, pm: Region, blob: Bytes, n: nat)
    requires ImageOk(img, n) && StageRelocs(img, a, p, h, g, at, pm, blob).Ready?
    ensures var ws := StageRelocs(img, a, p, h, g, at, pm, blob).writes;
            && Within(n, img.start, ws) && |ws| == h.numwrites
            && forall i :: 0 <= i < |ws| ==> img.start <= ws[i].hvabs < img.end
  {
    hide RelocSpec, RelocRel, FixWrite;
    var slide := if HasBlob(h) then Slide(img, h) else 0;
    var relocrel := if HasBlob(h) then RelocRel(pm.addr, img.start, h.refabs) else 0;
    var at' := at + 4 * h.numrelocs;
    FixedWithin(ReadWrites(p, at', h.numwrites), slide, relocrel, img, n);
  }

  // The first entry with this hash; |applied| if there is none.
  function IndexOf(applied: seq<Applied>, sha1: Sha1, k: nat): (r: nat)
    requires k <= |applied|
    ensures k <= r <= |applied|
    ensures r < |applied| ==> applied[r].sha1 == sha1
    ensures forall i :: k <= i < r ==> applied[i].sha1 != sha1
    decreases |applied| - k
  {
    if k == |applied| || applied[k].sha1 == sha1 then k else IndexOf(applied, sha1, k + 1)
  }

  // LIST_NEXT from an entry: towards the older ones.
  predicate HasDependents(applied: seq<Applied>, k: nat)
    requires k < |applied|
  {
    exists j :: k < j < |applied| && applied[k].sha1 in applied[j].deps
  }

  function UndoSpec(img: Image, s: State, sha1: Sha1): (int, State)
    requires StateOk(img, s)
  {
    var k := IndexOf(s.applied, sha1, 0);
    if k == |s.applied| then (-ENOENT, s)
    else if HasDependents(s.applied, k) || |s.applied[k].writes| == 0 then (-ENXIO, s)
    else
      (0, State(Overlaid(s.text, img.start, s.applied[k].writes), RemoveAt(s.applied, k),
                UnmapSpec(s.alloc, s.applied[k].pm)))
  }

  lemma ApplyKeepsState(img: Image, s: State, p: Bytes, g: Grants)
    requires StateOk(img, s)
    ensures StateOk(img, ApplySpec(img, s, p, g).1)
  {
    hide StageSpec, Overlaid, ReadHeader, UnmapSpec;
    if |p| >= HEADER_SIZE && StageSpec(img, s.alloc, p, ReadHeader(p), g).Ready? {
      StagedWithin(img, s, p, ReadHeader(p), g);
    }
  }

  lemma UndoKeepsState(img: Image, s: State, sha1: Sha1)
    requires StateOk(img, s)
    ensures StateOk(img, UndoSpec(img, s, sha1).1)
  {
    hide Overlaid;
  }
}
