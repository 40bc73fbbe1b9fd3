// The apply payload: what the client lays out (user/raxlpxs.c,
// fill_patch_buf4) and how its sections are read back (libsandbox.c,
// xenlp_apply4 and read_patch_data; layout in live_patch.h).
module Payload {
  import opened Words
  import opened Overlay
  import opened PatchData

  const HEADER_SIZE: nat := 64      // sizeof (struct xenlp_apply4)
  const MAX_TAGS_LEN: nat := 128
  const XENLP_RELOC_UINT64: Byte := 0
  const XENLP_RELOC_INT32: Byte := 1

  // struct xenlp_apply4 without its padding.
  datatype Header = Header(
    sha1: Sha1, refabs: nat, bloblen: nat, numrelocs: nat, numwrites: nat,
    numexctblents: nat, numpreexctblents: nat, numdeps: nat, taglen: nat)

  function HeaderBytes(h: Header): (s: Bytes)
    ensures |s| == HEADER_SIZE
  {
    h.sha1 + Zeros(4) + LE(8, h.refabs) + LE(4, h.bloblen) + LE(4, h.numrelocs) + LE(4, h.numwrites) +
    LE(4, h.numexctblents) + LE(4, h.numpreexctblents) + LE(4, h.numdeps) + LE(4, h.taglen) + Zeros(4)
  }

  function ReadHeader(p: Bytes): Header
    requires |p| >= HEADER_SIZE
  {
    Header(p[..20], Word64(p, 24), Word32(p, 32), Word32(p, 36), Word32(p, 40),
           Word32(p, 44), Word32(p, 48), Word32(p, 52), Word32(p, 56))
  }

  predicate HeaderFits(h: Header) {
    && h.refabs < W64 && h.bloblen < W32 && h.numrelocs < W32 && h.numwrites < W32
    && h.numexctblents < W32 && h.numpreexctblents < W32 && h.numdeps < W32 && h.taglen < W32
  }

  lemma HeaderRoundTrip(p: Bytes, h: Header)
    requires HeaderFits(h) && |p| >= HEADER_SIZE && p[..HEADER_SIZE] == HeaderBytes(h)
    ensures ReadHeader(p) == h
  {
    HeaderFields(p, h);
    hide LE, Word32, HeaderBytes;
    BaseValues();
    UnLELE(8, h.refabs);
    WordAt(p, 32, h.bloblen);
    WordAt(p, 36, h.numrelocs);
    WordAt(p, 40, h.numwrites);
    WordAt(p, 44, h.numexctblents);
    WordAt(p, 48, h.numpreexctblents);
    WordAt(p, 52, h.numdeps);
    WordAt(p, 56, h.taglen);
  }

  lemma HeaderFields(p: Bytes, h: Header)
    requires |p| >= HEADER_SIZE && p[..HEADER_SIZE] == HeaderBytes(h)
    ensures p[..20] == h.sha1 && p[24..32] == LE(8, h.refabs)
    ensures p[32..36] == LE(4, h.bloblen) && p[36..40] == LE(4, h.numrelocs) && p[40..44] == LE(4, h.numwrites)
    ensures p[44..48] == LE(4, h.numexctblents) && p[48..52] == LE(4, h.numpreexctblents)
    ensures p[52..56] == LE(4, h.numdeps) && p[56..60] == LE(4, h.taglen)
  {
    hide LE;
    var q := p[..HEADER_SIZE];
    assert p[..20] == q[..20] == h.sha1;
    assert p[24..32] == q[24..32] == LE(8, h.refabs);
    assert p[32..36] == q[32..36] == LE(4, h.bloblen);
    assert p[36..40] == q[36..40] == LE(4, h.numrelocs);
    assert p[40..44] == q[40..44] == LE(4, h.numwrites);
    assert p[44..48] == q[44..48] == LE(4, h.numexctblents);
    assert p[48..52] == q[48..52] == LE(4, h.numpreexctblents);
    assert p[52..56] == q[52..56] == LE(4, h.numdeps);
    assert p[56..60] == q[56..60] == LE(4, h.taglen);
  }

  lemma WordAt(p: Bytes, at: nat, v: nat)
    requires at + 4 <= |p| && p[at..at + 4] == LE(4, v) && v < W32
    ensures Word32(p, at) == v
  {
    BaseValues();
    UnLELE(4, v);
  }

  // --- Arrays of fixed-size records -----------------------------------------------

  // The first n records of k bytes each, back to back.
  function Cat(k: nat, xs: seq<Bytes>, n: nat): (s: Bytes)
    requires n <= |xs| && forall i :: 0 <= i < |xs| ==> |xs[i]| == k
    ensures |s| == k * n
  {
    if n == 0 then [] else Cat(k, xs, n - 1) + xs[n - 1]
  }

  lemma {:induction false} CatAt(k: nat, xs: seq<Bytes>, n: nat, i: nat)
    requires i < n <= |xs| && forall j :: 0 <= j < |xs| ==> |xs[j]| == k
    ensures k * i + k <= k * n && Cat(k, xs, n)[k * i..k * i + k] == xs[i]
  {
    assert k * n == k * (n - 1) + k;
    if i < n - 1 {
      CatAt(k, xs, n - 1, i);
      assert Cat(k, xs, n)[k * i..k * i + k] == Cat(k, xs, n - 1)[k * i..k * i + k];
    }
  }

  // The records xs lie back to back in p from `at` on.
  ghost predicate RecordsAt(p: Bytes, at: nat, k: nat, xs: seq<Bytes>) {
    && at + k * |xs| <= |p|
    && forall i :: 0 <= i < |xs| ==> RecordAt(p, at + k * i, k, xs[i])
  }

  ghost predicate RecordAt(p: Bytes, at: int, k: nat, x: Bytes) {
    0 <= at && at + k <= |p| && p[at..at + k] == x
  }

  lemma CatInside(k: nat, xs: seq<Bytes>, p: Bytes, at: nat)
    requires forall j :: 0 <= j < |xs| ==> |xs[j]| == k
    requires at + k * |xs| <= |p| && p[at..at + k * |xs|] == Cat(k, xs, |xs|)
    ensures RecordsAt(p, at, k, xs)
  {
    hide Cat;
    var c := Cat(k, xs, |xs|);
    forall i | 0 <= i < |xs|
      ensures RecordAt(p, at + k * i, k, xs[i])
    {
      CatAt(k, xs, |xs|, i);
      SubSlice(p, at, at + k * |xs|, k * i, k * i + k);
    }
  }

  function WordRecords(offs: seq<nat>): (xs: seq<Bytes>)
    ensures |xs| == |offs| && forall i {:trigger xs[i]} :: 0 <= i < |xs| ==> xs[i] == LE(4, offs[i]) && |xs[i]| == 4
  {
    seq(|offs|, i requires 0 <= i < |offs| => LE(4, offs[i]))
  }

  function WriteBytes(w: Write): (s: Bytes)
    ensures |s| == 24
  {
    LE(8, w.hvabs) + w.data + [w.reloctype, w.dataoff] + Zeros(6)
  }

  function WriteRecords(ws: seq<Write>): (xs: seq<Bytes>)
    ensures |xs| == |ws| && forall i {:trigger xs[i]} :: 0 <= i < |xs| ==> xs[i] == WriteBytes(ws[i]) && |xs[i]| == 24
  {
    seq(|ws|, i requires 0 <= i < |ws| => WriteBytes(ws[i]))
  }

  function ExRecords(es: seq<ExEntry>): (xs: seq<Bytes>)
    ensures |xs| == |es|
    ensures forall i {:trigger xs[i]} :: 0 <= i < |xs| ==>
              xs[i] == LE(4, es[i].addrrel) + LE(4, es[i].contrel) && |xs[i]| == 8
  {
    seq(|es|, i requires 0 <= i < |es| => LE(4, es[i].addrrel) + LE(4, es[i].contrel))
  }

  // struct xenlp_hash: the hash and four bytes of padding.
  function HashRecords(hs: seq<Sha1>): (xs: seq<Bytes>)
    ensures |xs| == |hs| && forall i {:trigger xs[i]} :: 0 <= i < |xs| ==> xs[i] == hs[i] + Zeros(4) && |xs[i]| == 24
  {
    seq(|hs|, i requires 0 <= i < |hs| => hs[i] + Zeros(4))
  }

  function ReadWords(p: Bytes, at: nat, n: nat): (offs: seq<nat>)
    requires at + 4 * n <= |p|
    ensures |offs| == n
  {
    seq(n, i requires 0 <= i < n => Word32(p, at + 4 * i))
  }

  function ReadWrite(p: Bytes, at: nat): Write
    requires at + 24 <= |p|
  {
    Write(Word64(p, at), p[at + 8..at + 16], p[at + 16], p[at + 17])
  }

  function ReadWrites(p: Bytes, at: nat, n: nat): (ws: seq<Write>)
    requires at + 24 * n <= |p|
    ensures |ws| == n
  {
    seq(n, i requires 0 <= i < n => ReadWrite(p, at + 24 * i))
  }

  function ReadExEntries(p: Bytes, at: nat, n: nat): (es: seq<ExEntry>)
    requires at + 8 * n <= |p|
    ensures |es| == n
  {
    seq(n, i requires 0 <= i < n => ExEntry(Word32(p, at + 8 * i), Word32(p, at + 8 * i + 4)))
  }

  function ReadHashes(p: Bytes, at: nat, n: nat): (hs: seq<Sha1>)
    requires at + 24 * n <= |p|
    ensures |hs| == n
  {
    seq(n, i requires 0 <= i < n =>
      var h: Sha1 := p[at + 24 * i..at + 24 * i + 20]; h)
  }

  predicate WriteFits(w: Write) {
    w.hvabs < W64
  }

  predicate ExFits(e: ExEntry) {
    e.addrrel < W32 && e.contrel < W32
  }

  lemma WordsRoundTrip(offs: seq<nat>, p: Bytes, at: nat)
    requires RecordsAt(p, at, 4, WordRecords(offs))
    requires forall i :: 0 <= i < |offs| ==> offs[i] < W32
    ensures ReadWords(p, at, |offs|) == offs
  {
    hide LE, Word32;
    forall i | 0 <= i < |offs|
      ensures Word32(p, at + 4 * i) == offs[i]
    {
      assert RecordAt(p, at + 4 * i, 4, WordRecords(offs)[i]);
      WordAt(p, at + 4 * i, offs[i]);
    }
  }

  lemma WriteRoundTrip(p: Bytes, at: nat, w: Write)
    requires RecordAt(p, at, 24, WriteBytes(w)) && WriteFits(w)
    ensures ReadWrite(p, at) == w
  {
    hide LE;
    BaseValues();
    UnLELE(8, w.hvabs);
    var r := p[at..at + 24];
    assert p[at..at + 8] == r[0..8] == LE(8, w.hvabs);
    SubSlice(p, at, at + 24, 8, 16);
    assert r[8..16] == w.data;
    assert p[at + 16] == r[16] == w.reloctype && p[at + 17] == r[17] == w.dataoff;
  }

  lemma WritesRoundTrip(ws: seq<Write>, p: Bytes, at: nat)
    requires RecordsAt(p, at, 24, WriteRecords(ws))
    requires forall i :: 0 <= i < |ws| ==> WriteFits(ws[i])
    ensures ReadWrites(p, at, |ws|) == ws
  {
    hide WriteBytes, ReadWrite;
    forall i | 0 <= i < |ws|
      ensures ReadWrite(p, at + 24 * i) == ws[i]
    {
      assert RecordAt(p, at + 24 * i, 24, WriteRecords(ws)[i]);
      WriteRoundTrip(p, at + 24 * i, ws[i]);
    }
  }

  lemma ExAt(p: Bytes, at: nat, e: ExEntry)
    requires RecordAt(p, at, 8, LE(4, e.addrrel) + LE(4, e.contrel)) && ExFits(e)
    ensures Word32(p, at) == e.addrrel && Word32(p, at + 4) == e.contrel
  {
    hide LE, Word32;
    assert p[at..at + 4] == p[at..at + 8][..4] == LE(4, e.addrrel);
    assert p[at + 4..at + 8] == p[at..at + 8][4..8] == LE(4, e.contrel);
    WordAt(p, at, e.addrrel);
    WordAt(p, at + 4, e.contrel);
  }

  lemma ExRoundTrip(es: seq<ExEntry>, p: Bytes, at: nat)
    requires RecordsAt(p, at, 8, ExRecords(es))
    requires forall i :: 0 <= i < |es| ==> ExFits(es[i])
    ensures ReadExEntries(p, at, |es|) == es
  {
    hide LE, Word32;
    forall i | 0 <= i < |es|
      ensures ExEntry(Word32(p, at + 8 * i), Word32(p, at + 8 * i + 4)) == es[i]
    {
      assert RecordAt(p, at + 8 * i, 8, ExRecords(es)[i]);
      ExAt(p, at + 8 * i, es[i]);
    }
  }

  lemma HashesRoundTrip(hs: seq<Sha1>, p: Bytes, at: nat)
    requires RecordsAt(p, at, 24, HashRecords(hs))
    ensures ReadHashes(p, at, |hs|) == hs
  {
    forall i | 0 <= i < |hs|
      ensures p[at + 24 * i..at + 24 * i + 20] == hs[i]
    {
      var o := at + 24 * i;
      assert RecordAt(p, o, 24, HashRecords(hs)[i]);
      assert p[o..o + 20] == p[o..o + 24][..20] == (hs[i] + Zeros(4))[..20];
    }
  }

  // --- The whole payload --------------------------------------------------------------

  // What an apply request carries.
  datatype Request = Request(
    sha1: Sha1, refabs: nat, blob: Bytes, relocs: seq<nat>, writes: seq<Write>,
    exctbl: seq<ExEntry>, preexctbl: seq<ExEntry>, deps: seq<Sha1>, tags: Bytes)

  function HeaderOf(r: Request): Header {
    Header(r.sha1, r.refabs, |r.blob|, |r.relocs|, |r.writes|, |r.exctbl|, |r.preexctbl|, |r.deps|, |r.tags|)
  }

  // The sections in the order of live_patch.h.
  function Parts(r: Request): (parts: seq<Bytes>)
    ensures |parts| == 8
  {
    [HeaderBytes(HeaderOf(r)),
     r.blob,
     Cat(4, WordRecords(r.relocs), |r.relocs|),
     Cat(24, WriteRecords(r.writes), |r.writes|),
     Cat(8, ExRecords(r.exctbl), |r.exctbl|),
     Cat(8, ExRecords(r.preexctbl), |r.preexctbl|),
     Cat(24, HashRecords(r.deps), |r.deps|),
     r.tags]
  }

  function Join(parts: seq<Bytes>, n: nat): Bytes
    requires n <= |parts|
  {
    if n == 0 then [] else Join(parts, n - 1) + parts[n - 1]
  }

  function Encode(r: Request): Bytes {
    Join(Parts(r), 8)
  }

  // Part i in its place.
  lemma {:induction false} JoinSplit(parts: seq<Bytes>, n: nat, i: nat) returns (post: Bytes)
    requires i < n <= |parts|
    ensures Join(parts, n) == Join(parts, i) + parts[i] + post
  {
    if i == n - 1 {
      post := [];
    } else {
      var q := JoinSplit(parts, n - 1, i);
      post := q + parts[n - 1];
    }
  }

  // Where each section starts and the last one ends, from the header alone.
  function RelocsOff(h: Header): nat { HEADER_SIZE + h.bloblen }
  function WritesOff(h: Header): nat { RelocsOff(h) + 4 * h.numrelocs }
  function ExctblOff(h: Header): nat { WritesOff(h) + 24 * h.numwrites }
  function PreexctblOff(h: Header): nat { ExctblOff(h) + 8 * h.numexctblents }
  function DepsOff(h: Header): nat { PreexctblOff(h) + 8 * h.numpreexctblents }
  function TagsOff(h: Header): nat { DepsOff(h) + 24 * h.numdeps }
  function EndOff(h: Header): nat { TagsOff(h) + h.taglen }

  lemma JoinLengths(r: Request)
    ensures var h, ps := HeaderOf(r), Parts(r);
            && |Join(ps, 1)| == HEADER_SIZE && |Join(ps, 2)| == RelocsOff(h) && |Join(ps, 3)| == WritesOff(h)
            && |Join(ps, 4)| == ExctblOff(h) && |Join(ps, 5)| == PreexctblOff(h)
            && |Join(ps, 6)| == DepsOff(h) && |Join(ps, 7)| == TagsOff(h) && |Encode(r)| == EndOff(h)
  {
    hide HeaderBytes, Cat, WordRecords, WriteRecords, ExRecords, HashRecords;
    var ps := Parts(r);
    assert |Join(ps, 2)| == |Join(ps, 1)| + |ps[1]|;
    assert |Join(ps, 3)| == |Join(ps, 2)| + |ps[2]|;
    assert |Join(ps, 4)| == |Join(ps, 3)| + |ps[3]|;
    assert |Join(ps, 5)| == |Join(ps, 4)| + |ps[4]|;
    assert |Join(ps, 6)| == |Join(ps, 5)| + |ps[5]|;
    assert |Join(ps, 7)| == |Join(ps, 6)| + |ps[6]|;
  }

  // Reading every section where the documented layout puts it, with one cursor
  // through all of them.
  function DecodeThreaded(p: Bytes): Option<Request> {
    if |p| < HEADER_SIZE then None
    else
      var h := ReadHeader(p);
      if |p| < EndOff(h) then None
      else
        Some(Request(
               h.sha1, h.refabs,
               p[HEADER_SIZE..RelocsOff(h)],
               ReadWords(p, RelocsOff(h), h.numrelocs),
               ReadWrites(p, WritesOff(h), h.numwrites),
               ReadExEntries(p, ExctblOff(h), h.numexctblents),
               ReadExEntries(p, PreexctblOff(h), h.numpreexctblents),
               ReadHashes(p, DepsOff(h), h.numdeps),
               p[TagsOff(h)..EndOff(h)]))
  }

  predicate RequestFits(r: Request) {
    && HeaderFits(HeaderOf(r))
    && (forall i :: 0 <= i < |r.relocs| ==> r.relocs[i] < W32)
    && (forall i :: 0 <= i < |r.writes| ==> WriteFits(r.writes[i]))
    && (forall i :: 0 <= i < |r.exctbl| ==> ExFits(r.exctbl[i]))
    && (forall i :: 0 <= i < |r.preexctbl| ==> ExFits(r.preexctbl[i]))
  }

  lemma PartBytes(r: Request, i: nat)
    requires i < 8
    ensures var at, k := |Join(Parts(r), i)|, |Parts(r)[i]|;
            at + k <= |Encode(r)| && Encode(r)[at..at + k] == Parts(r)[i]
  {
    hide Parts, Join;
    var post := JoinSplit(Parts(r), 8, i);
  }

  lemma HeaderAtStart(r: Request)
    ensures |Encode(r)| >= HEADER_SIZE && Encode(r)[..HEADER_SIZE] == HeaderBytes(HeaderOf(r))
  {
    PartBytes(r, 0);
    assert Join(Parts(r), 0) == [];
  }

  // The sections the server reads with its cursor in the right place.
  lemma HeadRoundTrip(r: Request)
    requires RequestFits(r)
    ensures var p, h := Encode(r), HeaderOf(r);
            && |p| == EndOff(h) && ReadHeader(p) == h
            && p[HEADER_SIZE..RelocsOff(h)] == r.blob
            && ReadWords(p, RelocsOff(h), h.numrelocs) == r.relocs
            && ReadWrites(p, WritesOff(h), h.numwrites) == r.writes
  {
    JoinLengths(r);
    HeaderAtStart(r);
    var p, h := Encode(r), HeaderOf(r);
    hide Encode, Join, ReadHeader, HeaderBytes, ReadWords, ReadWrites, Cat, WordRecords, WriteRecords;
    HeaderRoundTrip(p, h);
    PartBytes(r, 1);
    PartBytes(r, 2);
    CatInside(4, WordRecords(r.relocs), p, RelocsOff(h));
    WordsRoundTrip(r.relocs, p, RelocsOff(h));
    PartBytes(r, 3);
    CatInside(24, WriteRecords(r.writes), p, WritesOff(h));
    WritesRoundTrip(r.writes, p, WritesOff(h));
  }

  lemma TailRoundTrip(r: Request)
    requires RequestFits(r)
    ensures var p, h := Encode(r), HeaderOf(r);
            && |p| == EndOff(h)
            && ReadExEntries(p, ExctblOff(h), h.numexctblents) == r.exctbl
            && ReadExEntries(p, PreexctblOff(h), h.numpreexctblents) == r.preexctbl
            && ReadHashes(p, DepsOff(h), h.numdeps) == r.deps
            && p[TagsOff(h)..EndOff(h)] == r.tags
  {
    JoinLengths(r);
    var p, h := Encode(r), HeaderOf(r);
    hide Encode, Join, ReadExEntries, ReadHashes, Cat, ExRecords, HashRecords, RecordsAt;
    PartBytes(r, 4);
    CatInside(8, ExRecords(r.exctbl), p, ExctblOff(h));
    ExRoundTrip(r.exctbl, p, ExctblOff(h));
    PartBytes(r, 5);
    CatInside(8, ExRecords(r.preexctbl), p, PreexctblOff(h));
    ExRoundTrip(r.preexctbl, p, PreexctblOff(h));
    PartBytes(r, 6);
    CatInside(24, HashRecords(r.deps), p, DepsOff(h));
    HashesRoundTrip(r.deps, p, DepsOff(h));
    PartBytes(r, 7);
  }

  // Decoding what the client emits, with the cursor threaded through every
  // section, gives back the whole request.
  lemma PayloadRoundTrip(r: Request)
    requires RequestFits(r)
    ensures DecodeThreaded(Encode(r)) == Some(r)
  {
    hide Encode, ReadHeader, ReadWords, ReadWrites, ReadExEntries, ReadHashes;
    HeadRoundTrip(r);
    TailRoundTrip(r);
  }

  // --- The layout, byte by byte ---------------------------------------------------------

  ghost predicate WordLies(p: Bytes, at: nat, v: nat) {
    at + 4 <= |p| && p[at..at + 4] == LE(4, v)
  }

  // A write entry: address, data, kind and offset, six bytes of padding.
  ghost predicate WriteLies(p: Bytes, at: nat, w: Write) {
    && at + 24 <= |p|
    && p[at..at + 8] == LE(8, w.hvabs) && p[at + 8..at + 16] == w.data
    && p[at + 16] == w.reloctype && p[at + 17] == w.dataoff && p[at + 18..at + 24] == Zeros(6)
  }

  ghost predicate HashLies(p: Bytes, at: nat, h: Sha1) {
    at + 24 <= |p| && p[at..at + 20] == h && p[at + 20..at + 24] == Zeros(4)
  }

  lemma WriteShape(p: Bytes, at: nat, w: Write)
    requires RecordAt(p, at, 24, WriteBytes(w))
    ensures WriteLies(p, at, w)
  {
    hide LE;
    var r := p[at..at + 24];
    assert r[0..8] == LE(8, w.hvabs) && r[8..16] == w.data && r[18..24] == Zeros(6);
    SubSlice(p, at, at + 24, 0, 8);
    SubSlice(p, at, at + 24, 8, 16);
    SubSlice(p, at, at + 24, 18, 24);
    assert p[at + 16] == r[16] == w.reloctype && p[at + 17] == r[17] == w.dataoff;
  }

  lemma HashShape(p: Bytes, at: nat, h: Sha1)
    requires RecordAt(p, at, 24, h + Zeros(4))
    ensures HashLies(p, at, h)
  {
    var r := p[at..at + 24];
    assert r[0..20] == h && r[20..24] == Zeros(4);
    SubSlice(p, at, at + 24, 0, 20);
    SubSlice(p, at, at + 24, 20, 24);
  }

  // Where everything lies in the client's payload that HeaderRoundTrip and
  // the decoder do not already say, padding included.
  lemma PayloadLayout(r: Request)
    ensures var p := Encode(r);
            var relocs := 64 + |r.blob|;
            var writes := relocs + 4 * |r.relocs|;
            var deps := writes + 24 * |r.writes| + 8 * |r.exctbl| + 8 * |r.preexctbl|;
            var tags := deps + 24 * |r.deps|;
            && |p| == tags + |r.tags|
            && p[20..24] == p[60..64] == Zeros(4)
            && p[64..relocs] == r.blob
            && (forall i :: 0 <= i < |r.relocs| ==> WordLies(p, relocs + 4 * i, r.relocs[i]))
            && (forall i :: 0 <= i < |r.writes| ==> WriteLies(p, writes + 24 * i, r.writes[i]))
            && (forall i :: 0 <= i < |r.deps| ==> HashLies(p, deps + 24 * i, r.deps[i]))
            && p[tags..] == r.tags
  {
    JoinLengths(r);
    RelocsLie(r);
    WritesLie(r);
    HashesLie(r);
    HeaderPadding(r);
    var p, h := Encode(r), HeaderOf(r);
    hide Encode, Join, Cat, WordRecords, WriteRecords, HashRecords, WordLies, WriteLies, HashLies, HeaderBytes, LE;
    PartBytes(r, 1);
    PartBytes(r, 7);
  }

  lemma HeaderPadding(r: Request)
    ensures |Encode(r)| >= 64 && Encode(r)[20..24] == Encode(r)[60..64] == Zeros(4)
  {
    JoinLengths(r);
    var p, h := Encode(r), HeaderBytes(HeaderOf(r));
    assert h[20..24] == Zeros(4) && h[60..64] == Zeros(4) by { hide LE; }
    PartBytes(r, 0);
    hide Encode, HeaderBytes;
    assert p[..64] == h;
    assert p[20..24] == h[20..24] && p[60..64] == h[60..64];
  }

  lemma RelocsLie(r: Request)
    ensures forall i :: 0 <= i < |r.relocs| ==> WordLies(Encode(r), RelocsOff(HeaderOf(r)) + 4 * i, r.relocs[i])
  {
    JoinLengths(r);
    var p, at := Encode(r), RelocsOff(HeaderOf(r));
    hide Encode, Join, Cat, WordRecords, WordLies, RelocsOff, LE;
    PartBytes(r, 2);
    CatInside(4, WordRecords(r.relocs), p, at);
    forall i | 0 <= i < |r.relocs|
      ensures WordLies(p, at + 4 * i, r.relocs[i])
    {
      assert RecordAt(p, at + 4 * i, 4, WordRecords(r.relocs)[i]);
      WordShape(p, at + 4 * i, r.relocs[i]);
    }
  }

  lemma WritesLie(r: Request)
    ensures forall i :: 0 <= i < |r.writes| ==> WriteLies(Encode(r), WritesOff(HeaderOf(r)) + 24 * i, r.writes[i])
  {
    JoinLengths(r);
    var p, at := Encode(r), WritesOff(HeaderOf(r));
    hide Encode, Join, Cat, WriteRecords, WriteLies, WritesOff, LE, WriteBytes;
    PartBytes(r, 3);
    CatInside(24, WriteRecords(r.writes), p, at);
    forall i | 0 <= i < |r.writes|
      ensures WriteLies(p, at + 24 * i, r.writes[i])
    {
      assert RecordAt(p, at + 24 * i, 24, WriteRecords(r.writes)[i]);
      WriteShape(p, at + 24 * i, r.writes[i]);
    }
  }

  lemma HashesLie(r: Request)
    ensures forall i :: 0 <= i < |r.deps| ==> HashLies(Encode(r), DepsOff(HeaderOf(r)) + 24 * i, r.deps[i])
  {
    JoinLengths(r);
    var p, at := Encode(r), DepsOff(HeaderOf(r));
    hide Encode, Join, Cat, HashRecords, HashLies, DepsOff;
    PartBytes(r, 6);
    CatInside(24, HashRecords(r.deps), p, at);
    forall i | 0 <= i < |r.deps|
      ensures HashLies(p, at + 24 * i, r.deps[i])
    {
      assert RecordAt(p, at + 24 * i, 24, HashRecords(r.deps)[i]);
      HashShape(p, at + 24 * i, r.deps[i]);
    }
  }

  lemma WordShape(p: Bytes, at: nat, v: nat)
    requires RecordAt(p, at, 4, LE(4, v))
    ensures WordLies(p, at, v)
  {
  }
}
