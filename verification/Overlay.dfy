// The exchange of 8-byte windows between a patch's write list and program
// text (libsandbox.c, swap_trampolines), and the algebra of that exchange.
module Overlay {
  import opened Words

  // The payload of one window.
  type Data8 = d: Bytes | |d| == 8 witness [0, 0, 0, 0, 0, 0, 0, 0]

  // struct xenlp_patch_write without its padding. `dataoff` is the C `char`
  // as a byte; 0x80 and above are the negative values.
  datatype Write = Write(hvabs: nat, data: Data8, reloctype: Byte, dataoff: Byte)

  // Every window of the list lies in a text of n bytes, whose first byte has
  // address `start`.
  predicate Within(n: nat, start: nat, ws: seq<Write>) {
    forall i :: 0 <= i < |ws| ==> start <= ws[i].hvabs && ws[i].hvabs + 8 <= start + n
  }

  predicate Covers(w: Write, a: int) {
    w.hvabs <= a < w.hvabs + 8
  }

  predicate Apart(v: Write, w: Write) {
    v.hvabs + 8 <= w.hvabs || w.hvabs + 8 <= v.hvabs
  }

  // A patch whose own windows are pairwise disjoint.
  predicate OwnDisjoint(ws: seq<Write>) {
    forall i, j :: 0 <= i < j < |ws| ==> Apart(ws[i], ws[j])
  }

  // No window of one list meets a window of the other.
  predicate CrossDisjoint(vs: seq<Write>, ws: seq<Write>) {
    forall i, j :: 0 <= i < |vs| && 0 <= j < |ws| ==> Apart(vs[i], ws[j])
  }

  predicate SameWindows(vs: seq<Write>, ws: seq<Write>) {
    |vs| == |ws| && forall i :: 0 <= i < |vs| ==> vs[i].hvabs == ws[i].hvabs
  }

  // The byte at address a after the first n entries have been stored: the
  // last of them that covers it, or else the text.
  function ByteAfter(text: Bytes, start: nat, ws: seq<Write>, n: nat, a: int): Byte
    requires start <= a < start + |text| && n <= |ws|
  {
    if n == 0 then text[a - start]
    else if Covers(ws[n - 1], a) then ws[n - 1].data[a - ws[n - 1].hvabs]
    else ByteAfter(text, start, ws, n - 1, a)
  }

  function TextAfter(text: Bytes, start: nat, ws: seq<Write>, n: nat): (t: Bytes)
    requires n <= |ws|
    ensures |t| == |text|
    ensures forall p :: 0 <= p < |text| ==> t[p] == ByteAfter(text, start, ws, n, start + p)
  {
    seq(|text|, p requires 0 <= p < |text| => ByteAfter(text, start, ws, n, start + p))
  }

  // The text overlaid by the whole list.
  function Overlaid(text: Bytes, start: nat, ws: seq<Write>): (t: Bytes)
    ensures |t| == |text|
  {
    TextAfter(text, start, ws, |ws|)
  }

  // The 8 bytes at address h after n entries.
  function WindowAfter(text: Bytes, start: nat, ws: seq<Write>, n: nat, h: nat): (d: Data8)
    requires n <= |ws| && start <= h && h + 8 <= start + |text|
  {
    var d := seq(8, b requires 0 <= b < 8 => ByteAfter(text, start, ws, n, h + b));
    assert |d| == 8;
    d
  }

  // The entry with the bytes its window holds when its turn comes.
  function SavedEntry(text: Bytes, start: nat, ws: seq<Write>, i: nat): (w: Write)
    requires i < |ws| && Within(|text|, start, ws)
    ensures w.hvabs == ws[i].hvabs
  {
    ws[i].(data := WindowAfter(text, start, ws, i, ws[i].hvabs))
  }

  // The write list after the pass.
  function Saved(text: Bytes, start: nat, ws: seq<Write>): (s: seq<Write>)
    requires Within(|text|, start, ws)
    ensures SameWindows(s, ws)
  {
    seq(|ws|, i requires 0 <= i < |ws| => SavedEntry(text, start, ws, i))
  }

  // The 8-byte exchange: new bytes in, old bytes out.
  method Exchange(text: array<Byte>, off: nat, data: Data8) returns (oldData: Data8)
    requires off + 8 <= text.Length
    modifies text
    ensures oldData == old(text[off..off + 8])
    ensures text[..] == Splice(old(text[..]), off, data)
  {
    oldData := text[off..off + 8];
    for k := 0 to 8
      invariant text[off..off + k] == data[..k]
      invariant forall i :: 0 <= i < text.Length && !(off <= i < off + k) ==> text[i] == old(text[i])
    {
      text[off + k] := data[k];
    }
  }

  lemma SpliceIsStep(text: Bytes, start: nat, ws: seq<Write>, i: nat)
    requires i < |ws| && Within(|text|, start, ws)
    ensures var off := ws[i].hvabs - start;
            var t := TextAfter(text, start, ws, i);
            && Splice(t, off, ws[i].data) == TextAfter(text, start, ws, i + 1)
            && t[off..off + 8] == SavedEntry(text, start, ws, i).data
  {
    var off := ws[i].hvabs - start;
    var t, t' := TextAfter(text, start, ws, i), TextAfter(text, start, ws, i + 1);
    forall p | 0 <= p < |text|
      ensures Splice(t, off, ws[i].data)[p] == t'[p]
    {
      assert Covers(ws[i], start + p) <==> off <= p < off + 8;
    }
  }

  // swap_trampolines: one exchange per entry, in place in both arrays.
  method SwapTrampolines(text: array<Byte>, start: nat, writes: array<Write>)
    requires Within(text.Length, start, writes[..])
    modifies text, writes
    ensures text[..] == Overlaid(old(text[..]), start, old(writes[..]))
    ensures writes[..] == Saved(old(text[..]), start, old(writes[..]))
  {
    ghost var t0, ws := text[..], writes[..];
    assert forall p :: 0 <= p < |t0| ==> t0[p] == TextAfter(t0, start, ws, 0)[p];
    for i := 0 to writes.Length
      invariant text[..] == TextAfter(t0, start, ws, i)
      invariant forall j :: 0 <= j < i ==> writes[j] == SavedEntry(t0, start, ws, j)
      invariant forall j :: i <= j < writes.Length ==> writes[j] == ws[j]
    {
      SpliceIsStep(t0, start, ws, i);
      var oldData := Exchange(text, writes[i].hvabs - start, writes[i].data);
      writes[i] := writes[i].(data := oldData);
    }
  }

  // --- What a pass does to one byte ------------------------------------------

  lemma {:induction false} Uncovered(text: Bytes, start: nat, ws: seq<Write>, n: nat, a: int)
    requires start <= a < start + |text| && n <= |ws|
    requires forall i :: 0 <= i < n ==> !Covers(ws[i], a)
    ensures ByteAfter(text, start, ws, n, a) == text[a - start]
  {
    if n > 0 {
      Uncovered(text, start, ws, n - 1, a);
    }
  }

  // The last window over a byte decides it.
  lemma {:induction false} LastCover(text: Bytes, start: nat, ws: seq<Write>, n: nat, i: nat, a: int)
    requires start <= a < start + |text| && i < n <= |ws| && Covers(ws[i], a)
    requires forall j :: i < j < n ==> !Covers(ws[j], a)
    ensures ByteAfter(text, start, ws, n, a) == ws[i].data[a - ws[i].hvabs]
  {
    if i < n - 1 {
      LastCover(text, start, ws, n - 1, i, a);
    }
  }

  // Two texts that agree at a byte, or a byte the list covers, stay or become
  // equal there.
  lemma {:induction false} Determined(t: Bytes, u: Bytes, start: nat, ws: seq<Write>, n: nat, a: int)
    requires |t| == |u| && start <= a < start + |t| && n <= |ws|
    requires t[a - start] == u[a - start] || exists i :: 0 <= i < n && Covers(ws[i], a)
    ensures ByteAfter(t, start, ws, n, a) == ByteAfter(u, start, ws, n, a)
  {
    if n > 0 && !Covers(ws[n - 1], a) {
      Determined(t, u, start, ws, n - 1, a);
    }
  }

  // --- Swapping twice ----------------------------------------------------------

  lemma RestoredByte(text: Bytes, start: nat, ws: seq<Write>, a: int)
    requires Within(|text|, start, ws) && OwnDisjoint(ws) && start <= a < start + |text|
    ensures ByteAfter(Overlaid(text, start, ws), start, Saved(text, start, ws), |ws|, a) == text[a - start]
  {
    var t1, s1 := Overlaid(text, start, ws), Saved(text, start, ws);
    if i :| 0 <= i < |ws| && Covers(ws[i], a) {
      OnlyCover(ws, i, a);
      LastCover(t1, start, s1, |ws|, i, a);
      Uncovered(text, start, ws, i, a);
    } else {
      Uncovered(text, start, ws, |ws|, a);
      Uncovered(t1, start, s1, |ws|, a);
    }
  }

  lemma OnlyCover(ws: seq<Write>, i: nat, a: int)
    requires OwnDisjoint(ws) && i < |ws| && Covers(ws[i], a)
    ensures forall j :: 0 <= j < |ws| && j != i ==> !Covers(ws[j], a)
  {
    forall j | 0 <= j < |ws| && j != i
      ensures !Covers(ws[j], a)
    {
      assert if i < j then Apart(ws[i], ws[j]) else Apart(ws[j], ws[i]);
    }
  }

  // Two forward passes restore text and write list, for windows that do not
  // overlap one another.
  lemma DoubleSwap(text: Bytes, start: nat, ws: seq<Write>)
    requires Within(|text|, start, ws) && OwnDisjoint(ws)
    ensures Overlaid(Overlaid(text, start, ws), start, Saved(text, start, ws)) == text
    ensures Saved(Overlaid(text, start, ws), start, Saved(text, start, ws)) == ws
  {
    var t1, s1 := Overlaid(text, start, ws), Saved(text, start, ws);
    forall a | start <= a < start + |text|
      ensures ByteAfter(t1, start, s1, |s1|, a) == text[a - start]
    {
      RestoredByte(text, start, ws, a);
    }
    forall i | 0 <= i < |ws|
      ensures SavedEntry(t1, start, s1, i) == ws[i]
    {
      forall b | 0 <= b < 8
        ensures ByteAfter(t1, start, s1, i, ws[i].hvabs + b) == ws[i].data[b]
      {
        var a := ws[i].hvabs + b;
        OnlyCover(ws, i, a);
        Uncovered(t1, start, s1, i, a);
        LastCover(text, start, ws, |ws|, i, a);
      }
    }
  }

  function Filled(ws: seq<Write>, b: Byte): (vs: seq<Write>)
    ensures SameWindows(vs, ws)
    ensures forall i :: 0 <= i < |vs| ==> vs[i].data == [b, b, b, b, b, b, b, b]
  {
    seq(|ws|, i requires 0 <= i < |ws| => ws[i].(data := [b, b, b, b, b, b, b, b]))
  }

  // A pass that writes the same byte everywhere: a covered byte, or one that
  // already had that value, ends with it.
  lemma {:induction false} FilledPass(text: Bytes, start: nat, ws: seq<Write>, n: nat, b: Byte, a: int)
    requires start <= a < start + |text| && n <= |ws|
    requires forall i :: 0 <= i < |ws| ==> ws[i].data == [b, b, b, b, b, b, b, b]
    requires text[a - start] == b || exists i :: 0 <= i < n && Covers(ws[i], a)
    ensures ByteAfter(text, start, ws, n, a) == b
  {
    if n > 0 && !Covers(ws[n - 1], a) {
      FilledPass(text, start, ws, n - 1, b, a);
    }
  }

  lemma {:induction false} LastIndex(ws: seq<Write>, j: nat, a: int) returns (m: nat)
    requires j < |ws| && Covers(ws[j], a)
    ensures j <= m < |ws| && Covers(ws[m], a)
    ensures forall k :: m < k < |ws| ==> !Covers(ws[k], a)
    decreases |ws| - j
  {
    if k :| j < k < |ws| && Covers(ws[k], a) {
      m := LastIndex(ws, k, a);
    } else {
      m := j;
    }
  }

  ghost predicate Restores(text: Bytes, start: nat, ws: seq<Write>)
    requires Within(|text|, start, ws)
  {
    Overlaid(Overlaid(text, start, ws), start, Saved(text, start, ws)) == text
  }

  // Two overlapping windows, a text of zeros and patch data of ones.
  lemma OverlapWitness(n: nat, start: nat, ws: seq<Write>, i: nat, j: nat)
    requires Within(n, start, ws) && i < j < |ws| && !Apart(ws[i], ws[j])
    ensures !Restores(Zeros(n), start, Filled(ws, 1))
  {
    var vs, t := Filled(ws, 1), Zeros(n);
    var a := if ws[i].hvabs < ws[j].hvabs then ws[j].hvabs else ws[i].hvabs;
    assert Covers(vs[i], a) && Covers(vs[j], a);
    var m := LastIndex(vs, j, a);
    FilledPass(t, start, vs, m, 1, a);
    var t1, s1 := Overlaid(t, start, vs), Saved(t, start, vs);
    LastCover(t1, start, s1, |s1|, m, a);
    assert Overlaid(t1, start, s1)[a - start] == 1 != t[a - start];
  }

  // Exactly the layouts whose windows are pairwise disjoint are restored
  // whatever the text and the patch data are; an overlap always has a text
  // and data that a second pass leaves changed.
  lemma DoubleSwapExact(n: nat, start: nat, ws: seq<Write>)
    requires Within(n, start, ws)
    ensures OwnDisjoint(ws) <==>
            forall t: Bytes, vs | |t| == n && SameWindows(vs, ws) :: Restores(t, start, vs)
  {
    if OwnDisjoint(ws) {
      forall t: Bytes, vs | |t| == n && SameWindows(vs, ws)
        ensures Restores(t, start, vs)
      {
        assert forall i, j :: 0 <= i < j < |vs| ==> (Apart(ws[i], ws[j]) ==> Apart(vs[i], vs[j]));
        DoubleSwap(t, start, vs);
      }
    } else {
      var i, j :| 0 <= i < j < |ws| && !Apart(ws[i], ws[j]);
      OverlapWitness(n, start, ws, i, j);
      assert |Zeros(n)| == n && SameWindows(Filled(ws, 1), ws);
    }
  }

  // --- Two passes over disjoint lists commute ------------------------------------

  lemma CommuteByte(text: Bytes, start: nat, vs: seq<Write>, ws: seq<Write>, a: int)
    requires CrossDisjoint(vs, ws) && start <= a < start + |text|
    ensures ByteAfter(Overlaid(text, start, vs), start, ws, |ws|, a) ==
            ByteAfter(Overlaid(text, start, ws), start, vs, |vs|, a)
  {
    var v, w := Overlaid(text, start, vs), Overlaid(text, start, ws);
    if i :| 0 <= i < |vs| && Covers(vs[i], a) {
      assert forall j :: 0 <= j < |ws| ==> Apart(vs[i], ws[j]);
      Uncovered(v, start, ws, |ws|, a);
      Determined(text, w, start, vs, |vs|, a);
    } else {
      Uncovered(text, start, vs, |vs|, a);
      Uncovered(w, start, vs, |vs|, a);
      Determined(text, v, start, ws, |ws|, a);
    }
  }

  lemma Commute(text: Bytes, start: nat, vs: seq<Write>, ws: seq<Write>)
    requires Within(|text|, start, vs) && Within(|text|, start, ws) && CrossDisjoint(vs, ws)
    ensures Overlaid(Overlaid(text, start, vs), start, ws) ==
            Overlaid(Overlaid(text, start, ws), start, vs)
    ensures Saved(Overlaid(text, start, vs), start, ws) == Saved(text, start, ws)
  {
    var v := Overlaid(text, start, vs);
    forall a | start <= a < start + |text|
      ensures ByteAfter(v, start, ws, |ws|, a) ==
              ByteAfter(Overlaid(text, start, ws), start, vs, |vs|, a)
    {
      CommuteByte(text, start, vs, ws, a);
    }
    forall j | 0 <= j < |ws|
      ensures SavedEntry(v, start, ws, j) == SavedEntry(text, start, ws, j)
    {
      forall a | ws[j].hvabs <= a < ws[j].hvabs + 8
        ensures ByteAfter(v, start, ws, j, a) == ByteAfter(text, start, ws, j, a)
      {
        assert forall i :: 0 <= i < |vs| ==> Apart(vs[i], ws[j]);
        Uncovered(text, start, vs, |vs|, a);
        Determined(v, text, start, ws, j, a);
      }
    }
  }
}
