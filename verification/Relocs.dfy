// 32-bit relocations inside a blob: what the client adds for references into
// dependencies (user/raxlpxs.c, _cmd_apply4) and what the server subtracts
// when it places the blob (libsandbox.c, read_patch_data).
module Relocs {
  import opened Words

  // `*(int32_t *)(s + off) += delta`, wrapping.
  function AddAt(s: Bytes, off: nat, delta: int): (r: Bytes)
    requires off + 4 <= |s|
    ensures |r| == |s|
  {
    Splice(s, off, LE(4, (Word32(s, off) + delta) % W32))
  }

  method AddWord(a: array<Byte>, off: nat, delta: int)
    requires off + 4 <= a.Length
    modifies a
    ensures a[..] == AddAt(old(a[..]), off, delta)
  {
    var d := LE(4, (Word32(a[..], off) + delta) % W32);
    a[off], a[off + 1], a[off + 2], a[off + 3] := d[0], d[1], d[2], d[3];
  }

  predicate InRange(len: nat, offs: seq<nat>) {
    forall i :: 0 <= i < |offs| ==> offs[i] + 4 <= len
  }

  predicate Clear(o: nat, p: nat) {
    o + 4 <= p || p + 4 <= o
  }

  predicate NonOverlapping(offs: seq<nat>) {
    forall i, j :: 0 <= i < j < |offs| ==> Clear(offs[i], offs[j])
  }

  // The buffer after the first n additions.
  function Bumped(s: Bytes, offs: seq<nat>, deltas: seq<int>, n: nat): (r: Bytes)
    requires n <= |offs| == |deltas| && forall i :: 0 <= i < n ==> offs[i] + 4 <= |s|
    ensures |r| == |s|
  {
    if n == 0 then s else AddAt(Bumped(s, offs, deltas, n - 1), offs[n - 1], deltas[n - 1])
  }

  lemma AddedWord(s: Bytes, off: nat, delta: int, o: nat)
    requires off + 4 <= |s| && o + 4 <= |s| && (o == off || Clear(o, off))
    ensures Word32(AddAt(s, off, delta), o) ==
            if o == off then (Word32(s, off) + delta) % W32 else Word32(s, o)
  {
    var r := AddAt(s, off, delta);
    if o == off {
      StoredWord(s, off, (Word32(s, off) + delta) % W32);
    } else {
      assert r[o..o + 4] == s[o..o + 4];
    }
  }

  // Every listed word changes by its own delta only.
  lemma {:induction false} BumpedWord(s: Bytes, offs: seq<nat>, deltas: seq<int>, n: nat, i: nat)
    requires n <= |offs| == |deltas| && i < |offs| && InRange(|s|, offs) && NonOverlapping(offs)
    ensures Word32(Bumped(s, offs, deltas, n), offs[i]) ==
            if i < n then (Word32(s, offs[i]) + deltas[i]) % W32 else Word32(s, offs[i])
  {
    if n > 0 {
      BumpedWord(s, offs, deltas, n - 1, i);
      assert i == n - 1 || Clear(offs[i], offs[n - 1]);
      AddedWord(Bumped(s, offs, deltas, n - 1), offs[n - 1], deltas[n - 1], offs[i]);
    }
  }

  // Every byte outside the listed words is unchanged.
  lemma {:induction false} BumpedOutside(s: Bytes, offs: seq<nat>, deltas: seq<int>, n: nat, p: nat)
    requires n <= |offs| == |deltas| && InRange(|s|, offs) && p < |s|
    requires forall i :: 0 <= i < n ==> !(offs[i] <= p < offs[i] + 4)
    ensures Bumped(s, offs, deltas, n)[p] == s[p]
  {
    if n > 0 {
      BumpedOutside(s, offs, deltas, n - 1, p);
    }
  }

  // --- The server's loop, with its guard as written ---------------------------------

  // `off > apply->bloblen - sizeof (int32_t)`, a 64-bit unsigned comparison.
  predicate Refused(bloblen: nat, off: nat) {
    off > (bloblen - 4) % W64
  }

  // For a blob of at least 4 bytes the guard admits exactly the offsets whose
  // word lies inside it; for a shorter one the subtraction wraps and the guard
  // admits every 32-bit offset.
  lemma GuardExact(bloblen: nat, off: nat)
    requires bloblen < W32
    ensures bloblen >= 4 ==> (!Refused(bloblen, off) <==> off + 4 <= bloblen)
    ensures bloblen < 4 && off < W32 ==> !Refused(bloblen, off)
  {
  }

  // Refuse: the offset check fails. Wild: the store would land outside the
  // blob, where the program's behaviour is not defined.
  datatype Relocated = Done(blob: Bytes) | Refuse | Wild

  function RelocSpec(blob: Bytes, bloblen: nat, offs: seq<nat>, relocrel: nat, n: nat): (r: Relocated)
    requires n <= |offs|
    ensures r.Done? ==> |r.blob| == |blob|
  {
    if n == 0 then Done(blob)
    else
      match RelocSpec(blob, bloblen, offs, relocrel, n - 1)
      case Done(b) =>
        if Refused(bloblen, offs[n - 1]) then Refuse
        else if offs[n - 1] + 4 > |b| then Wild
        else Done(AddAt(b, offs[n - 1], 0 - relocrel))
      case r => r
  }

  // For 32-bit offsets, a store leaves the blob exactly when the blob is
  // shorter than a word and there is any relocation at all.
  lemma {:induction false} WildExactly(blob: Bytes, offs: seq<nat>, relocrel: nat, n: nat)
    requires n <= |offs| && |blob| < W32 && forall i :: 0 <= i < |offs| ==> offs[i] < W32
    ensures RelocSpec(blob, |blob|, offs, relocrel, n) == Wild <==> |blob| < 4 && n > 0
  {
    hide AddAt;
    if n > 0 {
      WildExactly(blob, offs, relocrel, n - 1);
      GuardExact(|blob|, offs[n - 1]);
    }
  }

  lemma {:induction false} RelocSpecStops(blob: Bytes, bloblen: nat, offs: seq<nat>, relocrel: nat, m: nat, n: nat)
    requires m <= n <= |offs| && !RelocSpec(blob, bloblen, offs, relocrel, m).Done?
    ensures RelocSpec(blob, bloblen, offs, relocrel, n) == RelocSpec(blob, bloblen, offs, relocrel, m)
  {
    if m < n {
      RelocSpecStops(blob, bloblen, offs, relocrel, m, n - 1);
    }
  }

  // One turn of the loop: it goes on with one more addition, or stops for good.
  lemma RelocStep(blob: Bytes, bloblen: nat, offs: seq<nat>, relocrel: nat, i: nat)
    requires i < |offs| && RelocSpec(blob, bloblen, offs, relocrel, i).Done?
    ensures var b := RelocSpec(blob, bloblen, offs, relocrel, i).blob;
            if Refused(bloblen, offs[i]) then RelocSpec(blob, bloblen, offs, relocrel, |offs|) == Refuse
            else if offs[i] + 4 > |b| then RelocSpec(blob, bloblen, offs, relocrel, |offs|) == Wild
            else RelocSpec(blob, bloblen, offs, relocrel, i + 1) == Done(AddAt(b, offs[i], 0 - relocrel))
  {
    hide AddAt, Refused;
    if !RelocSpec(blob, bloblen, offs, relocrel, i + 1).Done? {
      RelocSpecStops(blob, bloblen, offs, relocrel, i + 1, |offs|);
    }
  }

  method RelocateBlob(blob: array<Byte>, bloblen: nat, offs: seq<nat>, relocrel: nat) returns (r: Relocated)
    modifies blob
    ensures r == RelocSpec(old(blob[..]), bloblen, offs, relocrel, |offs|)
    ensures r.Done? ==> blob[..] == r.blob
  {
    ghost var b0 := blob[..];
    assert RelocSpec(b0, bloblen, offs, relocrel, 0) == Done(b0);
    hide RelocSpec, AddAt, Refused;
    for i := 0 to |offs|
      invariant RelocSpec(b0, bloblen, offs, relocrel, i) == Done(blob[..])
    {
      RelocStep(b0, bloblen, offs, relocrel, i);
      var off := offs[i];
      if Refused(bloblen, off) {
        return Refuse;
      }
      if off + 4 > blob.Length {
        return Wild;
      }
      AddWord(blob, off, 0 - relocrel);
    }
    r := Done(blob[..]);
  }

  function Minus(relocrel: nat, n: nat): (ds: seq<int>)
    ensures |ds| == n && forall i :: 0 <= i < n ==> ds[i] == 0 - relocrel
  {
    seq(n, _ => 0 - relocrel)
  }

  // The loop completes exactly when every offset is in range ...
  lemma {:induction false} RelocSpecDone(blob: Bytes, offs: seq<nat>, relocrel: nat, n: nat)
    requires n <= |offs| && |blob| < W32
    ensures RelocSpec(blob, |blob|, offs, relocrel, n).Done? <==>
            forall i :: 0 <= i < n ==> offs[i] + 4 <= |blob|
  {
    hide AddAt;
    if n > 0 {
      RelocSpecDone(blob, offs, relocrel, n - 1);
      GuardExact(|blob|, offs[n - 1]);
    }
  }

  // ... and then it is the same addition at every offset.
  lemma {:induction false} RelocSpecBumps(blob: Bytes, offs: seq<nat>, relocrel: nat, n: nat)
    requires n <= |offs| && |blob| < W32 && InRange(|blob|, offs)
    ensures RelocSpec(blob, |blob|, offs, relocrel, n) ==
            Done(Bumped(blob, offs, Minus(relocrel, |offs|), n))
  {
    hide AddAt;
    if n > 0 {
      RelocSpecBumps(blob, offs, relocrel, n - 1);
      GuardExact(|blob|, offs[n - 1]);
    }
  }

  // --- What the displacements mean ----------------------------------------------------

  // Where the rel32 operand at `off` of code placed at `addr` points.
  function RelTarget(addr: int, off: int, word: int): int {
    addr + off + 4 + word
  }

  // A rel32 counted from the next instruction at `next` can lead to `target`.
  predicate InReach(next: int, target: int) {
    -0x8000_0000 <= target - next < 0x8000_0000
  }

  // relocrel as read_patch_data computes it: refabs is first advanced by the
  // 64-bit slide, then the difference is cut to 32 bits.
  function RelocRel(pmAddr: nat, start: nat, refabs: nat): (r: nat)
    ensures r < W32
  {
    var slide := (start - refabs) % W64;
    ((pmAddr - (refabs + slide) % W64) % W64) % W32
  }

  lemma RelocRelMeaning(pmAddr: nat, start: nat, refabs: nat)
    ensures Cong32(RelocRel(pmAddr, start, refabs), pmAddr - start)
  {
    var x := pmAddr - (refabs + (start - refabs) % W64) % W64;
    Slid(refabs, start, pmAddr);
    ModMod(x);
    CongTrunc(x, pmAddr - start);
    CongTrunc(x % W32, pmAddr - start);
  }

  // An address slid from refabs to start is start, up to the low words.
  lemma Slid(refabs: nat, start: nat, pm: int)
    ensures Cong32(pm - (refabs + (start - refabs) % W64) % W64, pm - start)
  {
    var slide := (start - refabs) % W64;
    var p, q := (start - refabs) / W64, (refabs + slide) / W64;
    var u := (refabs + slide) % W64;
    assert start - refabs == p * W64 + slide && refabs + slide == q * W64 + u;
    MultipleCong(pm - u, pm - start, (p + q) * W32);
  }

  lemma WordMeaning(blob: Bytes, offs: seq<nat>, pmAddr: nat, start: nat, refabs: nat, i: nat)
    requires InRange(|blob|, offs) && NonOverlapping(offs) && i < |offs|
    ensures var rel := RelocRel(pmAddr, start, refabs);
            var out := Bumped(blob, offs, Minus(rel, |offs|), |offs|);
            Cong32(RelTarget(pmAddr, offs[i], Word32(out, offs[i])),
                   RelTarget(refabs, offs[i], Word32(blob, offs[i])) + (start - refabs))
  {
    hide Word32, RelocRel, Bumped, Cong32;
    var rel := RelocRel(pmAddr, start, refabs);
    var off, w := offs[i], Word32(blob, offs[i]);
    BumpedWord(blob, offs, Minus(rel, |offs|), |offs|, i);
    assert Word32(Bumped(blob, offs, Minus(rel, |offs|), |offs|), off) == (w - rel) % W32;
    RelocRelMeaning(pmAddr, start, refabs);
    MovedTarget(pmAddr, start, off, w, rel);
    assert RelTarget(refabs, off, w) + (start - refabs) == start + off + 4 + w;
  }

  // After the loop every listed rel32 of the blob, now at pmAddr, resolves to
  // its link-time target (blob at refabs) plus the run-time slide of the
  // image; every other byte is what the patch file held.
  lemma BlobMeaning(blob: Bytes, offs: seq<nat>, pmAddr: nat, start: nat, refabs: nat)
    requires |blob| < W32 && InRange(|blob|, offs) && NonOverlapping(offs)
    ensures var rel := RelocRel(pmAddr, start, refabs);
            var out := RelocSpec(blob, |blob|, offs, rel, |offs|);
            && out.Done?
            && (forall i :: 0 <= i < |offs| ==>
                  Cong32(RelTarget(pmAddr, offs[i], Word32(out.blob, offs[i])),
                         RelTarget(refabs, offs[i], Word32(blob, offs[i])) + (start - refabs)))
            && (forall p :: 0 <= p < |blob| && (forall i :: 0 <= i < |offs| ==> !(offs[i] <= p < offs[i] + 4)) ==>
                  out.blob[p] == blob[p])
  {
    hide Word32, RelocRel, Bumped, Cong32;
    var rel := RelocRel(pmAddr, start, refabs);
    var ds := Minus(rel, |offs|);
    RelocSpecBumps(blob, offs, rel, |offs|);
    forall i | 0 <= i < |offs|
      ensures Cong32(RelTarget(pmAddr, offs[i], Word32(Bumped(blob, offs, ds, |offs|), offs[i])),
                     RelTarget(refabs, offs[i], Word32(blob, offs[i])) + (start - refabs))
    {
      WordMeaning(blob, offs, pmAddr, start, refabs, i);
    }
    forall p | 0 <= p < |blob| && (forall i :: 0 <= i < |offs| ==> !(offs[i] <= p < offs[i] + 4))
      ensures Bumped(blob, offs, ds, |offs|)[p] == blob[p]
    {
      BumpedOutside(blob, offs, ds, |offs|, p);
    }
  }

  // Moving code to pmAddr and subtracting rel keeps the target relative to start.
  lemma MovedTarget(pmAddr: nat, start: nat, off: nat, word: nat, rel: nat)
    requires Cong32(rel, pmAddr - start)
    ensures Cong32(RelTarget(pmAddr, off, (word - rel) % W32), start + off + 4 + word)
  {
    var w := (word - rel) % W32;
    CongTrunc(word - rel, 0);
    CongSum(word - rel, w, rel, pmAddr - start);
    CongSum(word, w + (pmAddr - start), 0, 0);
  }

  lemma CongChain(a: int, b: int, c: int)
    requires Cong32(a, b) && Cong32(b, c)
    ensures Cong32(a, c)
  {
    CongSum(a, b, b, c);
    assert (a + b) - (b + c) == a - c;
  }

  // As a real address: the processor's sign-extended addition lands exactly
  // there when, and only when, the distance from the operand to the target
  // fits a signed 32-bit displacement.
  lemma TargetExact(addr: nat, off: nat, word: nat, target: int)
    requires word < W32 && Cong32(RelTarget(addr, off, word), target)
    ensures RelTarget(addr, off, Signed32(word)) == target <==> InReach(addr + off + 4, target)
  {
    if InReach(addr + off + 4, target) {
      var s := Signed32(word);
      assert Cong32(s, word);
      CongSum(s, word, addr + off + 4, addr + off + 4);
      CongChain(s + (addr + off + 4), word + (addr + off + 4), target);
      CongExact(s + (addr + off + 4), target);
    }
  }
}
