// The client side of an apply (user/raxlpxs.c: patch_writes, fill_patch_buf4
// and the dependency stage of _cmd_apply4).
module Client {
  import opened Words
  import opened Overlay
  import opened PatchData
  import opened Payload
  import opened Relocs

  // --- Trampolines ---------------------------------------------------------------

  const JMP: Byte := 0xe9

  // The displacement, computed in 64 bits and cut to an int32_t.
  function JmpOffset(refabs: nat, f: Func): (r: nat)
    ensures r < W32
  {
    (refabs + f.newrel - f.oldabs - 5) % W64 % W32
  }

  function Trampoline(refabs: nat, f: Func): Write {
    Write(f.oldabs, [JMP] + LE(4, JmpOffset(refabs, f)) + [0, 0, 0], XENLP_RELOC_INT32, 1)
  }

  function Trampolines(p: Patch): (ws: seq<Write>)
    ensures |ws| == |p.funcs|
    ensures forall i {:trigger ws[i]} :: 0 <= i < |ws| ==> ws[i] == Trampoline(p.refabs, p.funcs[i])
  {
    seq(|p.funcs|, i requires 0 <= i < |p.funcs| => Trampoline(p.refabs, p.funcs[i]))
  }

  const NO_WRITE := Write(0, [0, 0, 0, 0, 0, 0, 0, 0], 0, 0)

  // Fills the write array, which the caller has zeroed.
  method PatchWrites(patch: Patch, writes: array<Write>)
    requires writes.Length == |patch.funcs|
    requires forall i :: 0 <= i < writes.Length ==> writes[i] == NO_WRITE
    modifies writes
    ensures writes[..] == Trampolines(patch)
  {
    for i := 0 to |patch.funcs|
      invariant forall j :: 0 <= j < i ==> writes[j] == Trampoline(patch.refabs, patch.funcs[j])
      invariant forall j :: i <= j < writes.Length ==> writes[j] == NO_WRITE
    {
      var func := patch.funcs[i];
      var pw := writes[i];
      pw := pw.(hvabs := func.oldabs);
      var jmpoffset := LE(4, JmpOffset(patch.refabs, func));
      pw := pw.(data := pw.data[0 := JMP]);
      pw := pw.(data := [pw.data[0], jmpoffset[0], jmpoffset[1], jmpoffset[2], jmpoffset[3],
                         pw.data[5], pw.data[6], pw.data[7]]);
      pw := pw.(reloctype := XENLP_RELOC_INT32, dataoff := 1);
      assert pw.data == [JMP] + jmpoffset + [0, 0, 0];
      writes[i] := pw;
    }
  }

  // --- References into dependencies ---------------------------------------------------

  function Offsets3(p: Patch): (offs: seq<nat>)
    ensures |offs| == |p.relocs3|
    ensures forall i {:trigger offs[i]} :: 0 <= i < |offs| ==> offs[i] == p.relocs3[i].offset
  {
    seq(|p.relocs3|, i requires 0 <= i < |p.relocs3| => p.relocs3[i].offset)
  }

  // How far a dependency was moved, as a uint32_t.
  function Reladdr(d: Dependency, hvaddr: nat): (r: nat)
    ensures r < W32
  {
    (hvaddr - d.refabs) % W64 % W32
  }

  predicate DepsFound(p: Patch, found: map<Sha1, nat>) {
    forall i :: 0 <= i < |p.deps| ==> p.deps[i].sha1 in found
  }

  // The address change of the dependency that reference i names.
  function Deltas3(p: Patch, found: map<Sha1, nat>): (ds: seq<int>)
    ensures |ds| == |p.relocs3|
  {
    seq(|p.relocs3|, i requires 0 <= i < |p.relocs3| =>
      var j := p.relocs3[i].index;
      if j < |p.deps| && p.deps[j].sha1 in found then Reladdr(p.deps[j], found[p.deps[j].sha1]) else 0)
  }

  // The loader sizes the relocation array with a uint16_t, `rel_count`.
  function RelocRoom(p: Patch): nat {
    (|p.relocs| + |p.relocs3|) % W16
  }

  // The offsets this stage appends fit exactly when the two counts together
  // stay below 2^16.
  lemma RelocRoomExact(p: Patch)
    requires |p.relocs| < W16 && |p.relocs3| < W16
    ensures |p.relocs| + |p.relocs3| <= RelocRoom(p) <==> |p.relocs| + |p.relocs3| < W16
  {
  }

  // Reference i names a dependency and lies inside the blob.
  predicate RefOk(p: Patch, rel3: Reloc3) {
    rel3.index < |p.deps| && rel3.offset + 4 <= |p.blob|
  }

  // Every dependency is loaded, every index and every offset is in range.
  predicate Linkable(p: Patch, found: map<Sha1, nat>) {
    && DepsFound(p, found)
    && forall i :: 0 <= i < |p.relocs3| ==> RefOk(p, p.relocs3[i])
  }

  // The stage is in order exactly when every dependency is loaded and the
  // client's references, as a list of offsets, pass the server's own test.
  lemma LinkableExactly(p: Patch, found: map<Sha1, nat>)
    ensures Linkable(p, found) <==>
            && (forall d :: d in p.deps ==> d.sha1 in found)
            && (forall r :: r in p.relocs3 ==> r.index < |p.deps|)
            && InRange(|p.blob|, Offsets3(p))
  {
    if InRange(|p.blob|, Offsets3(p)) {
      forall i | 0 <= i < |p.relocs3|
        ensures p.relocs3[i].offset + 4 <= |p.blob|
      {
        assert Offsets3(p)[i] + 4 <= |p.blob|;
      }
    }
  }

  // Reference k is the first that is not in order.
  ghost predicate FirstBad(p: Patch, k: nat) {
    k < |p.relocs3| && !RefOk(p, p.relocs3[k]) && forall j :: 0 <= j < k ==> RefOk(p, p.relocs3[j])
  }

  // PastBlob: a store past the end of the blob.
  datatype LinkResult = Linked | MissingDependency | InvalidIndex | PastBlob

  // The blob and relocation list after the stage.
  function LinkedBlob(p: Patch, found: map<Sha1, nat>): (b: Bytes)
    requires Linkable(p, found)
    ensures |b| == |p.blob|
  {
    Bumped(p.blob, Offsets3(p), Deltas3(p, found), |p.relocs3|)
  }

  function LinkedRelocs(p: Patch): (offs: seq<nat>)
    ensures |offs| == |p.relocs| + |p.relocs3|
  {
    p.relocs + Offsets3(p)
  }

  lemma LinkedAt(p: Patch, i: nat)
    requires i < |p.relocs3|
    ensures LinkedRelocs(p)[|p.relocs| + i] == Offsets3(p)[i] == p.relocs3[i].offset
  {
  }

  method FindDependencies(patch: Patch, found: map<Sha1, nat>) returns (ok: bool, reladdr: array<nat>)
    ensures ok <==> DepsFound(patch, found)
    ensures fresh(reladdr) && reladdr.Length == |patch.deps|
    ensures ok ==> forall j :: 0 <= j < |patch.deps| ==>
      reladdr[j] == Reladdr(patch.deps[j], found[patch.deps[j].sha1])
  {
    reladdr := new nat[|patch.deps|];
    for i := 0 to |patch.deps|
      invariant forall j :: 0 <= j < i ==>
        patch.deps[j].sha1 in found && reladdr[j] == Reladdr(patch.deps[j], found[patch.deps[j].sha1])
    {
      if patch.deps[i].sha1 !in found {
        return false, reladdr;
      }
      reladdr[i] := Reladdr(patch.deps[i], found[patch.deps[i].sha1]);
    }
    ok := true;
  }

  // Patch the reference now and hand its offset on to the server.
  method LinkOne(blob: array<Byte>, relocs: array<nat>, at: nat, offset: nat, reladdr: nat)
    requires offset + 4 <= blob.Length && at < relocs.Length
    modifies blob, relocs
    ensures blob[..] == AddAt(old(blob[..]), offset, reladdr)
    ensures relocs[..] == old(relocs[..])[at := offset]
  {
    AddWord(blob, offset, reladdr);
    relocs[at] := offset;
  }

  // The two buffers after the first i references.
  ghost predicate LinkedUpto(p: Patch, found: map<Sha1, nat>, blob: Bytes, relocs: seq<nat>, i: nat) {
    && i <= |p.relocs3|
    && (forall j :: 0 <= j < i ==> RefOk(p, p.relocs3[j]))
    && blob == Bumped(p.blob, Offsets3(p), Deltas3(p, found), i)
    && |relocs| == |p.relocs| + |p.relocs3|
    && forall j :: 0 <= j < |p.relocs| + i ==> relocs[j] == LinkedRelocs(p)[j]
  }

  lemma LinkedStart(p: Patch, found: map<Sha1, nat>, relocs: seq<nat>)
    requires |relocs| == |p.relocs| + |p.relocs3| && relocs[..|p.relocs|] == p.relocs
    ensures LinkedUpto(p, found, p.blob, relocs, 0)
  {
    assert forall j :: 0 <= j < |p.relocs| ==> relocs[j] == relocs[..|p.relocs|][j];
  }

  lemma LinkedSizes(p: Patch, found: map<Sha1, nat>, blob: Bytes, relocs: seq<nat>, i: nat)
    requires LinkedUpto(p, found, blob, relocs, i) && i < |p.relocs3|
    ensures |blob| == |p.blob| && |relocs| == |p.relocs| + |p.relocs3|
    ensures RefOk(p, p.relocs3[i]) <==> p.relocs3[i].index < |p.deps| && p.relocs3[i].offset + 4 <= |blob|
    ensures !RefOk(p, p.relocs3[i]) ==> FirstBad(p, i)
  {
  }

  lemma LinkedEnd(p: Patch, found: map<Sha1, nat>, blob: Bytes, relocs: seq<nat>)
    requires LinkedUpto(p, found, blob, relocs, |p.relocs3|) && DepsFound(p, found)
    ensures Linkable(p, found) && blob == LinkedBlob(p, found) && relocs == LinkedRelocs(p)
  {
    hide Bumped;
  }

  lemma LinkedStep(p: Patch, found: map<Sha1, nat>, blob: Bytes, relocs: seq<nat>, i: nat)
    requires LinkedUpto(p, found, blob, relocs, i) && i < |p.relocs3| && RefOk(p, p.relocs3[i])
    ensures LinkedUpto(p, found, AddAt(blob, p.relocs3[i].offset, Deltas3(p, found)[i]),
                       relocs[|p.relocs| + i := p.relocs3[i].offset], i + 1)
  {
    LinkedAt(p, i);
    hide AddAt, LinkedRelocs, Deltas3;
  }

  // The stage itself, on the blob and the array the loader left room in.
  method LinkDependencies(patch: Patch, found: map<Sha1, nat>, blob: array<Byte>, relocs: array<nat>)
    returns (r: LinkResult)
    requires blob[..] == patch.blob
    requires relocs.Length == |patch.relocs| + |patch.relocs3| && relocs[..|patch.relocs|] == patch.relocs
    modifies blob, relocs
    ensures r == Linked <==> Linkable(patch, found)
    ensures r == MissingDependency <==> !DepsFound(patch, found)
    ensures r == InvalidIndex ==> exists k: nat :: FirstBad(patch, k) && patch.relocs3[k].index >= |patch.deps|
    ensures r == PastBlob ==> exists k: nat :: FirstBad(patch, k) && patch.relocs3[k].index < |patch.deps|
    ensures r == Linked ==> blob[..] == LinkedBlob(patch, found) && relocs[..] == LinkedRelocs(patch)
  {
    hide AddAt, Reladdr, LinkedRelocs, Bumped, LinkedUpto, RefOk, FirstBad, LinkedBlob;
    var ok, reladdr := FindDependencies(patch, found);
    if !ok {
      return MissingDependency;
    }
    LinkedStart(patch, found, relocs[..]);
    for i := 0 to |patch.relocs3|
      invariant forall j :: 0 <= j < |patch.deps| ==>
        reladdr[j] == Reladdr(patch.deps[j], found[patch.deps[j].sha1])
      invariant LinkedUpto(patch, found, blob[..], relocs[..], i)
    {
      var rel3 := patch.relocs3[i];
      LinkedSizes(patch, found, blob[..], relocs[..], i);
      if rel3.index >= |patch.deps| {
        return InvalidIndex;
      }
      if rel3.offset + 4 > blob.Length {
        return PastBlob;
      }
      LinkedStep(patch, found, blob[..], relocs[..], i);
      assert Deltas3(patch, found)[i] == reladdr[rel3.index];
      LinkOne(blob, relocs, |patch.relocs| + i, rel3.offset, reladdr[rel3.index]);
    }
    LinkedEnd(patch, found, blob[..], relocs[..]);
    r := Linked;
  }

  // A level-3 reference of a linked and placed blob: `sym` is the offset into
  // the dependency it was linked against. It lands at the dependency's address
  // plus `sym` plus the image's slide, so exactly there when, and only when,
  // the slide is a multiple of 2^32 (0 for an image that was not moved).
  lemma DependentTarget(p: Patch, found: map<Sha1, nat>, pmAddr: nat, start: nat, k: nat, sym: int)
    requires Linkable(p, found) && k < |p.relocs3| && |p.blob| < W32
    requires InRange(|p.blob|, LinkedRelocs(p)) && NonOverlapping(LinkedRelocs(p))
    requires RefOk(p, p.relocs3[k])
    requires var off, d := p.relocs3[k].offset, p.deps[p.relocs3[k].index];
             Cong32(RelTarget(p.refabs, off, Word32(p.blob, off)), d.refabs + sym)
    ensures var off, d := p.relocs3[k].offset, p.deps[p.relocs3[k].index];
            var rel := RelocRel(pmAddr, start, p.refabs);
            var out := RelocSpec(LinkedBlob(p, found), |p.blob|, LinkedRelocs(p), rel, |LinkedRelocs(p)|);
            && out.Done?
            && var target := RelTarget(pmAddr, off, Word32(out.blob, off));
            && Cong32(target, found[d.sha1] + sym + (start - p.refabs))
            && (Cong32(target, found[d.sha1] + sym) <==> Cong32(start, p.refabs))
  {
    hide Word32, RelTarget, Cong32, LinkedBlob, RelocSpec, RelocRel, LinkedRelocs, Reladdr, NonOverlapping, InRange;
    var off, d := p.relocs3[k].offset, p.deps[p.relocs3[k].index];
    var rel := RelocRel(pmAddr, start, p.refabs);
    var out := RelocSpec(LinkedBlob(p, found), |p.blob|, LinkedRelocs(p), rel, |LinkedRelocs(p)|);
    LinkedWord(p, found, k);
    PlacedWord(p, found, pmAddr, start, k);
    var target := RelTarget(pmAddr, off, Word32(out.blob, off));
    DependentArithmetic(p.refabs, off, Word32(p.blob, off), d, found[d.sha1], sym, start, target);
  }

  lemma PlacedWord(p: Patch, found: map<Sha1, nat>, pmAddr: nat, start: nat, k: nat)
    requires Linkable(p, found) && k < |p.relocs3| && |p.blob| < W32 && RefOk(p, p.relocs3[k])
    requires InRange(|p.blob|, LinkedRelocs(p)) && NonOverlapping(LinkedRelocs(p))
    ensures var off, blob1 := p.relocs3[k].offset, LinkedBlob(p, found);
            var rel := RelocRel(pmAddr, start, p.refabs);
            var out := RelocSpec(blob1, |p.blob|, LinkedRelocs(p), rel, |LinkedRelocs(p)|);
            && out.Done?
            && Cong32(RelTarget(pmAddr, off, Word32(out.blob, off)),
                      RelTarget(p.refabs, off, Word32(blob1, off)) + (start - p.refabs))
  {
    hide Word32, RelTarget, Cong32, LinkedBlob, RelocSpec, RelocRel, LinkedRelocs, Bumped, NonOverlapping;
    LinkedAt(p, k);
    var blob1, offs := LinkedBlob(p, found), LinkedRelocs(p);
    RelocSpecBumps(blob1, offs, RelocRel(pmAddr, start, p.refabs), |offs|);
    WordMeaning(blob1, offs, pmAddr, start, p.refabs, |p.relocs| + k);
  }

  lemma LinkedWord(p: Patch, found: map<Sha1, nat>, k: nat)
    requires Linkable(p, found) && NonOverlapping(LinkedRelocs(p))
    requires k < |p.relocs3| && RefOk(p, p.relocs3[k])
    ensures var off, d := p.relocs3[k].offset, p.deps[p.relocs3[k].index];
            Word32(LinkedBlob(p, found), off) == (Word32(p.blob, off) + Reladdr(d, found[d.sha1])) % W32
  {
    Offsets3Apart(p);
    hide Word32;
    BumpedWord(p.blob, Offsets3(p), Deltas3(p, found), |p.relocs3|, k);
  }

  lemma Offsets3Apart(p: Patch)
    requires NonOverlapping(LinkedRelocs(p))
    ensures NonOverlapping(Offsets3(p))
  {
    var offs, n := LinkedRelocs(p), |p.relocs|;
    forall i, j | 0 <= i < j < |p.relocs3|
      ensures Clear(Offsets3(p)[i], Offsets3(p)[j])
    {
      assert Clear(offs[n + i], offs[n + j]);
    }
  }

  lemma DependentArithmetic(refabs: nat, off: nat, w: nat, d: Dependency, hv: nat, sym: int, start: nat, target: int)
    requires Cong32(RelTarget(refabs, off, w), d.refabs + sym)
    requires Cong32(target, RelTarget(refabs, off, (w + Reladdr(d, hv)) % W32) + (start - refabs))
    ensures Cong32(target, hv + sym + (start - refabs))
    ensures Cong32(target, hv + sym) <==> Cong32(start, refabs)
  {
    var delta := Reladdr(d, hv);
    var t0, w1 := RelTarget(refabs, off, w), (w + delta) % W32;
    ModMod(hv - d.refabs);
    CongTrunc(hv - d.refabs, delta);
    CongTrunc(w + delta, w1);
    hide Cong32;
    // t0 + delta ~ hv + sym, and the relocated word differs from it by multiples of 2^32
    CongSum(hv - d.refabs, delta, t0, d.refabs + sym);
    CongSum(w + delta, w1, refabs + off + 4, refabs + off + 4) by { CongRefl(refabs + off + 4); }
    assert RelTarget(refabs, off, w1) == w1 + (refabs + off + 4) && t0 + delta == w + delta + (refabs + off + 4);
    CongRefl(hv - d.refabs);
    CongSum(delta, hv - d.refabs, t0, d.refabs + sym);
    CongChain(RelTarget(refabs, off, w1), t0 + delta, hv + sym);
    CongRefl(start - refabs);
    CongSum(RelTarget(refabs, off, w1), hv + sym, start - refabs, start - refabs);
    CongChain(target, RelTarget(refabs, off, w1) + (start - refabs), hv + sym + (start - refabs));
    CongOffset(target, hv + sym, start, refabs);
  }

  lemma CongRefl(a: int)
    ensures Cong32(a, a)
  {
  }

  lemma CongOffset(t: int, x: int, start: int, refabs: int)
    requires Cong32(t, x + (start - refabs))
    ensures Cong32(t, x) <==> Cong32(start, refabs)
  {
    var p := (t - (x + (start - refabs))) / W32;
    assert t - x == p * W32 + (start - refabs);
  }

  // --- Serialising ------------------------------------------------------------------

  // strnlen: the tags string ends at its first NUL.
  function StrNLen(s: Bytes, max: nat): (n: nat)
    ensures n <= |s| && n <= max
    ensures forall i :: 0 <= i < n ==> s[i] != 0
    ensures n < |s| && n < max ==> s[n] == 0
  {
    if s == [] || max == 0 || s[0] == 0 then 0 else 1 + StrNLen(s[1..], max - 1)
  }

  function DepHashes(p: Patch): (hs: seq<Sha1>)
    ensures |hs| == |p.deps|
  {
    seq(|p.deps|, i requires 0 <= i < |p.deps| => p.deps[i].sha1)
  }

  function RequestOf(p: Patch, writes: seq<Write>): Request {
    Request(p.sha1, p.refabs, p.blob, p.relocs, writes, p.exctbl, p.preexctbl, DepHashes(p),
            p.tags[..StrNLen(p.tags, MAX_TAGS_LEN - 1)])
  }

  const SIZEOF_DEPENDENCY: nat := 40

  // The length computed when the buffer is NULL.
  function SizePass(p: Patch, numwrites: nat): nat {
    HEADER_SIZE + |p.blob| + 4 * |p.relocs| + 24 * numwrites + 8 * |p.exctbl| + 8 * |p.preexctbl| +
    SIZEOF_DEPENDENCY * |p.deps| + StrNLen(p.tags, MAX_TAGS_LEN - 1)
  }

  // It is never below what the second pass writes; the gap is 16 bytes for
  // each dependency and nothing else.
  lemma SizingGap(p: Patch, writes: seq<Write>)
    ensures SizePass(p, |writes|) == |Encode(RequestOf(p, writes))| + 16 * |p.deps|
  {
    JoinLengths(RequestOf(p, writes));
  }

  // A patch whose fields fit their C types.
  predicate PatchFits(p: Patch) {
    && p.refabs < W64 && |p.blob| < W32 && |p.relocs| < W16 && |p.funcs| < W16 && |p.deps| < W16
    && |p.exctbl| < W16 && |p.preexctbl| < W16
    && (forall i :: 0 <= i < |p.relocs| ==> p.relocs[i] < W32)
    && (forall i :: 0 <= i < |p.funcs| ==> p.funcs[i].oldabs < W64 && p.funcs[i].newrel < W32)
    && (forall i :: 0 <= i < |p.exctbl| ==> ExFits(p.exctbl[i]))
    && (forall i :: 0 <= i < |p.preexctbl| ==> ExFits(p.preexctbl[i]))
  }

  // The tags a request carries: the patch's up to its first NUL, and at most
  // 127 bytes of them.
  predicate TagsOf(tags: Bytes, sent: Bytes) {
    && sent <= tags && |sent| < MAX_TAGS_LEN && (forall i :: 0 <= i < |sent| ==> sent[i] != 0)
    && (|sent| < |tags| && |sent| < MAX_TAGS_LEN - 1 ==> tags[|sent|] == 0)
  }

  // Read by the documented layout, a payload says of the patch all that the
  // server is to know, each dependency by its own hash.
  ghost predicate Carries(e: Bytes, p: Patch, writes: seq<Write>) {
    match DecodeThreaded(e)
    case None => false
    case Some(r) =>
      && r.sha1 == p.sha1 && r.refabs == p.refabs && r.blob == p.blob && r.relocs == p.relocs && r.writes == writes
      && r.exctbl == p.exctbl && r.preexctbl == p.preexctbl
      && |r.deps| == |p.deps| && (forall i :: 0 <= i < |p.deps| ==> r.deps[i] == p.deps[i].sha1)
      && TagsOf(p.tags, r.tags)
  }

  lemma TagsSent(tags: Bytes)
    ensures TagsOf(tags, tags[..StrNLen(tags, MAX_TAGS_LEN - 1)])
  {
    hide StrNLen;
  }

  lemma RequestWithin(p: Patch, writes: seq<Write>)
    requires PatchFits(p) && |writes| < W32 && forall i :: 0 <= i < |writes| ==> WriteFits(writes[i])
    ensures RequestFits(RequestOf(p, writes))
  {
    hide StrNLen, WriteFits, ExFits;
  }

  lemma EncodedCarries(p: Patch, writes: seq<Write>)
    requires PatchFits(p) && |writes| < W32 && forall i :: 0 <= i < |writes| ==> WriteFits(writes[i])
    ensures Carries(Encode(RequestOf(p, writes)), p, writes)
  {
    hide Encode, DecodeThreaded, PatchFits, WriteFits, RequestFits, TagsOf, StrNLen;
    RequestWithin(p, writes);
    PayloadRoundTrip(RequestOf(p, writes));
    TagsSent(p.tags);
  }

  // `memcpy (ptr, d, s); ptr += s;`
  method Put(buf: array<Byte>, ptr: nat, d: Bytes) returns (ptr': nat)
    requires ptr + |d| <= buf.Length
    modifies buf
    ensures ptr' == ptr + |d| && buf[..ptr'] == old(buf[..ptr]) + d
  {
    for k := 0 to |d|
      invariant buf[..ptr] == old(buf[..ptr])
      invariant buf[ptr..ptr + k] == d[..k]
    {
      buf[ptr + k] := d[k];
    }
    ptr' := ptr + |d|;
    assert buf[..ptr'] == buf[..ptr] + buf[ptr..ptr'];
    assert d[..|d|] == d;
  }

  method HashTable(patch: Patch) returns (deps: array<Bytes>)
    ensures fresh(deps) && deps[..] == HashRecords(DepHashes(patch))
  {
    deps := new Bytes[|patch.deps|](_ => Zeros(24));
    for i := 0 to |patch.deps|
      invariant forall j :: 0 <= j < i ==> deps[j] == patch.deps[j].sha1 + Zeros(4)
      invariant forall j :: i <= j < deps.Length ==> deps[j] == Zeros(24)
    {
      deps[i] := patch.deps[i].sha1 + deps[i][20..];
      assert deps[i] == patch.deps[i].sha1 + Zeros(4);
    }
  }

  // First pass with a null buffer, second pass into one of that length.
  method FillPatchBuf4(buf: array?<Byte>, patch: Patch, writes: seq<Write>) returns (n: nat)
    requires buf != null ==> buf.Length >= SizePass(patch, |writes|)
    modifies if buf == null then {} else {buf}
    ensures buf == null ==> n == SizePass(patch, |writes|)
    ensures buf != null ==>
              var s := Encode(RequestOf(patch, writes));
              n == |s| <= buf.Length && buf[..n] == s
    ensures buf != null && PatchFits(patch) && |writes| < W32 &&
            (forall i :: 0 <= i < |writes| ==> WriteFits(writes[i])) ==>
              n <= buf.Length && Carries(buf[..n], patch, writes)
  {
    var taglen := StrNLen(patch.tags, MAX_TAGS_LEN - 1);
    if buf == null {
      return SizePass(patch, |writes|);
    }
    ghost var r := RequestOf(patch, writes);
    ghost var ps := Parts(r);
    SizingGap(patch, writes);
    JoinLengths(r);
    var apply := Header(patch.sha1, patch.refabs, |patch.blob|, |patch.relocs|, |writes|,
                        |patch.exctbl|, |patch.preexctbl|, |patch.deps|, taglen);
    assert Join(ps, 1) == [] + ps[0];
    hide Join, HeaderBytes, Cat, WordRecords, WriteRecords, ExRecords, HashRecords;
    var ptr := Put(buf, 0, HeaderBytes(apply));
    assert buf[..ptr] == Join(ps, 1);
    ptr := Put(buf, ptr, patch.blob);
    JoinStep(ps, 1);
    ptr := Put(buf, ptr, Cat(4, WordRecords(patch.relocs), |patch.relocs|));
    JoinStep(ps, 2);
    ptr := Put(buf, ptr, Cat(24, WriteRecords(writes), |writes|));
    JoinStep(ps, 3);
    ptr := Put(buf, ptr, Cat(8, ExRecords(patch.exctbl), |patch.exctbl|));
    JoinStep(ps, 4);
    ptr := Put(buf, ptr, Cat(8, ExRecords(patch.preexctbl), |patch.preexctbl|));
    JoinStep(ps, 5);
    var deps := HashTable(patch);
    ptr := Put(buf, ptr, Cat(24, deps[..], |patch.deps|));
    JoinStep(ps, 6);
    ptr := Put(buf, ptr, patch.tags[..taglen]);
    JoinStep(ps, 7);
    n := ptr;
    hide Carries, PatchFits, WriteFits;
    if PatchFits(patch) && |writes| < W32 && forall i :: 0 <= i < |writes| ==> WriteFits(writes[i]) {
      EncodedCarries(patch, writes);
    }
  }

  lemma JoinStep(ps: seq<Bytes>, i: nat)
    requires i < |ps|
    ensures Join(ps, i + 1) == Join(ps, i) + ps[i]
  {
  }
}
