// The list of applied patches as an undo log (libsandbox.c, xenlp_apply4 and
// xenlp_undo4). Lists run from the newest patch (the list head) to the oldest.
module UndoLog {
  import opened Words
  import opened Overlay

  // A history: the write lists handed to apply by the patches still listed.
  type Hist = seq<seq<Write>>

  predicate AllWithin(n: nat, start: nat, hist: Hist) {
    forall k :: 0 <= k < |hist| ==> Within(n, start, hist[k])
  }

  // The text that lies under patch j - 1: the base overlaid, oldest first, by
  // patches |hist| - 1 down to j.
  function Layers(base: Bytes, start: nat, hist: Hist, j: nat): (t: Bytes)
    requires j <= |hist|
    ensures |t| == |base|
    decreases |hist| - j
  {
    if j == |hist| then base else Overlaid(Layers(base, start, hist, j + 1), start, hist[j])
  }

  // The write lists after their swaps: each holds what lay under its patch.
  function Logs(base: Bytes, start: nat, hist: Hist): (saved: Hist)
    requires AllWithin(|base|, start, hist)
    ensures |saved| == |hist|
    ensures forall k {:trigger saved[k]} :: 0 <= k < |hist| ==>
              saved[k] == Saved(Layers(base, start, hist, k + 1), start, hist[k])
  {
    seq(|hist|, k requires 0 <= k < |hist| => Saved(Layers(base, start, hist, k + 1), start, hist[k]))
  }

  // The undo-log invariant: text and saved data are those of a run that
  // installed exactly the patches of `hist`, oldest first.
  ghost predicate LogInv(base: Bytes, start: nat, text: Bytes, saved: Hist, hist: Hist) {
    && AllWithin(|base|, start, hist)
    && text == Layers(base, start, hist, 0)
    && saved == Logs(base, start, hist)
  }

  // --- Installing --------------------------------------------------------------

  lemma {:induction false} LayersUnder(base: Bytes, start: nat, hist: Hist, ws: seq<Write>, j: nat)
    requires j <= |hist|
    ensures Layers(base, start, [ws] + hist, j + 1) == Layers(base, start, hist, j)
    decreases |hist| - j
  {
    if j < |hist| {
      LayersUnder(base, start, hist, ws, j + 1);
    }
  }

  lemma LogPush(base: Bytes, start: nat, text: Bytes, saved: Hist, hist: Hist, ws: seq<Write>)
    requires LogInv(base, start, text, saved, hist) && Within(|base|, start, ws)
    ensures LogInv(base, start, Overlaid(text, start, ws), [Saved(text, start, ws)] + saved, [ws] + hist)
  {
    var hist', saved' := [ws] + hist, [Saved(text, start, ws)] + saved;
    forall k | 0 <= k < |hist'|
      ensures saved'[k] == Saved(Layers(base, start, hist', k + 1), start, hist'[k])
    {
      LayersUnder(base, start, hist, ws, k);
    }
    LayersUnder(base, start, hist, ws, 0);
    assert saved' == Logs(base, start, hist');
  }

  // --- Removing, from any position ------------------------------------------------

  // No window of patch k meets a window of a newer patch.
  predicate ClearAbove(hist: Hist, k: nat)
    requires k < |hist|
  {
    forall j :: 0 <= j < k ==> CrossDisjoint(hist[j], hist[k])
  }

  predicate Undoable(hist: Hist, k: nat) {
    k < |hist| && OwnDisjoint(hist[k]) && ClearAbove(hist, k)
  }

  lemma {:induction false} LayersBelow(base: Bytes, start: nat, hist: Hist, k: nat, j: nat)
    requires k <= j < |hist|
    ensures Layers(base, start, RemoveAt(hist, k), j) == Layers(base, start, hist, j + 1)
    decreases |hist| - j
  {
    if j < |hist| - 1 {
      LayersBelow(base, start, hist, k, j + 1);
    }
  }

  // One newer layer: swapping sk back below it or above it is the same.
  lemma LayerCommutes(base: Bytes, start: nat, hist: Hist, k: nat, j: nat)
    requires AllWithin(|base|, start, hist) && Undoable(hist, k) && j < k
    ensures var sk, under := Logs(base, start, hist)[k], Layers(base, start, hist, j + 1);
            && Overlaid(Overlaid(under, start, sk), start, hist[j]) ==
               Overlaid(Layers(base, start, hist, j), start, sk)
            && Saved(Overlaid(under, start, sk), start, hist[j]) == Logs(base, start, hist)[j]
  {
    hide Overlaid, Saved;
    var sk, under := Logs(base, start, hist)[k], Layers(base, start, hist, j + 1);
    forall i, m | 0 <= i < |sk| && 0 <= m < |hist[j]|
      ensures Apart(sk[i], hist[j][m])
    {
      assert CrossDisjoint(hist[j], hist[k]) && sk[i].hvabs == hist[k][i].hvabs;
      assert Apart(hist[j][m], hist[k][i]);
    }
    Commute(under, start, sk, hist[j]);
  }

  // Swapping patch k back commutes with every newer layer, one at a time.
  lemma {:induction false} LayersAbove(base: Bytes, start: nat, hist: Hist, k: nat, j: nat)
    requires AllWithin(|base|, start, hist) && Undoable(hist, k) && j <= k
    ensures Layers(base, start, RemoveAt(hist, k), j) ==
            Overlaid(Layers(base, start, hist, j), start, Logs(base, start, hist)[k])
    decreases k - j
  {
    if j == k {
      hide Overlaid, Saved;
      DoubleSwap(Layers(base, start, hist, k + 1), start, hist[k]);
      LayersBelow(base, start, hist, k, k);
    } else {
      hide Overlaid, Logs;
      LayersAbove(base, start, hist, k, j + 1);
      LayerCommutes(base, start, hist, k, j);
    }
  }

  lemma LogsAfterRemove(base: Bytes, start: nat, hist: Hist, k: nat, i: nat)
    requires AllWithin(|base|, start, hist) && Undoable(hist, k) && i < |hist| - 1
    ensures AllWithin(|base|, start, RemoveAt(hist, k))
    ensures Logs(base, start, RemoveAt(hist, k))[i] == RemoveAt(Logs(base, start, hist), k)[i]
  {
    hide Overlaid, Layers;
    if i < k {
      LayersAbove(base, start, hist, k, i + 1);
      LayerCommutes(base, start, hist, k, i);
    } else {
      LayersBelow(base, start, hist, k, i + 1);
    }
  }

  // Swapping patch k back leaves the text, the list and the saved data of the
  // run in which patch k was never installed.
  lemma LogRemove(base: Bytes, start: nat, text: Bytes, saved: Hist, hist: Hist, k: nat)
    requires LogInv(base, start, text, saved, hist) && Undoable(hist, k)
    ensures Within(|text|, start, saved[k])
    ensures LogInv(base, start, Overlaid(text, start, saved[k]), RemoveAt(saved, k), RemoveAt(hist, k))
  {
    hide Overlaid, Layers;
    LayersAbove(base, start, hist, k, 0);
    assert AllWithin(|base|, start, RemoveAt(hist, k));
    forall i | 0 <= i < |hist| - 1
      ensures Logs(base, start, RemoveAt(hist, k))[i] == RemoveAt(saved, k)[i]
    {
      LogsAfterRemove(base, start, hist, k, i);
    }
  }

  // --- Every run ------------------------------------------------------------------

  datatype Event = Install(ws: seq<Write>) | Remove(k: nat)
  datatype State = State(text: Bytes, saved: Hist)

  ghost predicate Enabled(s: State, start: nat, e: Event) {
    match e
    case Install(ws) => Within(|s.text|, start, ws)
    case Remove(k) => k < |s.saved| && Within(|s.text|, start, s.saved[k])
  }

  // What one apply or undo does to text and list.
  ghost function Step(s: State, start: nat, e: Event): State
    requires Enabled(s, start, e)
  {
    match e
    case Install(ws) => State(Overlaid(s.text, start, ws), [Saved(s.text, start, ws)] + s.saved)
    case Remove(k) => State(Overlaid(s.text, start, s.saved[k]), RemoveAt(s.saved, k))
  }

  // The same event on the history.
  ghost function HistStep(hist: Hist, e: Event): Hist {
    match e
    case Install(ws) => [ws] + hist
    case Remove(k) => if k < |hist| then RemoveAt(hist, k) else hist
  }

  ghost predicate GoodEvent(n: nat, start: nat, hist: Hist, e: Event) {
    match e
    case Install(ws) => Within(n, start, ws)
    case Remove(k) => Undoable(hist, k)
  }

  // A run whose removals are all undoable when they happen.
  ghost predicate GoodRun(n: nat, start: nat, hist: Hist, es: seq<Event>)
    decreases |es|
  {
    es == [] || (GoodEvent(n, start, hist, es[0]) && GoodRun(n, start, HistStep(hist, es[0]), es[1..]))
  }

  ghost function HistRun(hist: Hist, es: seq<Event>): Hist
    decreases |es|
  {
    if es == [] then hist else HistRun(HistStep(hist, es[0]), es[1..])
  }

  ghost function Run(s: State, start: nat, es: seq<Event>): Option<State>
    decreases |es|
  {
    if es == [] then Some(s)
    else if Enabled(s, start, es[0]) then Run(Step(s, start, es[0]), start, es[1..])
    else None
  }

  lemma StepKeepsLog(base: Bytes, start: nat, s: State, hist: Hist, e: Event)
    requires LogInv(base, start, s.text, s.saved, hist) && GoodEvent(|base|, start, hist, e)
    ensures Enabled(s, start, e)
    ensures LogInv(base, start, Step(s, start, e).text, Step(s, start, e).saved, HistStep(hist, e))
  {
    match e
    case Install(ws) => LogPush(base, start, s.text, s.saved, hist, ws);
    case Remove(k) => LogRemove(base, start, s.text, s.saved, hist, k);
  }

  // Over every run of installs and undoable removals, at any list position and
  // with any overlap between different patches, the text is the base overlaid
  // by the patches still listed and each patch's data is what lay under it.
  lemma {:induction false} RunKeepsLog(base: Bytes, start: nat, s: State, hist: Hist, es: seq<Event>)
    requires LogInv(base, start, s.text, s.saved, hist)
    requires GoodRun(|base|, start, hist, es)
    ensures Run(s, start, es).Some?
    ensures var r := Run(s, start, es).value;
            LogInv(base, start, r.text, r.saved, HistRun(hist, es))
    decreases |es|
  {
    if es != [] {
      StepKeepsLog(base, start, s, hist, es[0]);
      RunKeepsLog(base, start, Step(s, start, es[0]), HistStep(hist, es[0]), es[1..]);
    }
  }

  // Two runs that leave the same patches listed leave the same bytes and the
  // same saved data: an undone patch leaves no trace.
  lemma NoTrace(base: Bytes, start: nat, es: seq<Event>, fs: seq<Event>)
    requires GoodRun(|base|, start, [], es) && GoodRun(|base|, start, [], fs)
    requires HistRun([], es) == HistRun([], fs)
    ensures Run(State(base, []), start, es).Some?
    ensures Run(State(base, []), start, es) == Run(State(base, []), start, fs)
  {
    assert Logs(base, start, []) == [];
    RunKeepsLog(base, start, State(base, []), [], es);
    RunKeepsLog(base, start, State(base, []), [], fs);
  }

  // Undoing every listed patch, newest first.
  ghost function UndoFrom(text: Bytes, start: nat, saved: Hist, j: nat): Bytes
    requires j <= |saved|
    decreases |saved| - j
  {
    if j == |saved| then text else UndoFrom(Overlaid(text, start, saved[j]), start, saved, j + 1)
  }

  // It restores the base byte for byte, even when different patches overlap.
  lemma {:induction false} UndoAllRestores(base: Bytes, start: nat, hist: Hist, j: nat)
    requires AllWithin(|base|, start, hist) && j <= |hist|
    requires forall k :: j <= k < |hist| ==> OwnDisjoint(hist[k])
    ensures UndoFrom(Layers(base, start, hist, j), start, Logs(base, start, hist), j) == base
    decreases |hist| - j
  {
    if j < |hist| {
      var under, logs := Layers(base, start, hist, j + 1), Logs(base, start, hist);
      assert Layers(base, start, hist, j) == Overlaid(under, start, hist[j]);
      assert UndoFrom(Overlaid(under, start, hist[j]), start, logs, j) ==
             UndoFrom(Overlaid(Overlaid(under, start, hist[j]), start, logs[j]), start, logs, j + 1);
      hide Overlaid, Layers, UndoFrom;
      DoubleSwap(under, start, hist[j]);
      UndoAllRestores(base, start, hist, j + 1);
    }
  }

  // --- Undo from the middle, exactly ------------------------------------------------

  predicate SameLayout(gs: Hist, hs: Hist) {
    |gs| == |hs| && forall k :: 0 <= k < |gs| ==> SameWindows(gs[k], hs[k])
  }

  // Swapping patch k back gives the text of the run without it.
  ghost predicate RemovesCleanly(base: Bytes, start: nat, hist: Hist, k: nat)
    requires AllWithin(|base|, start, hist) && k < |hist|
  {
    Overlaid(Layers(base, start, hist, 0), start, Logs(base, start, hist)[k]) ==
    Layers(base, start, RemoveAt(hist, k), 0)
  }

  // Patches newer than k write ones; k and the older ones write zeros.
  function Contrast(hist: Hist, k: nat): (gs: Hist)
    ensures SameLayout(gs, hist)
    ensures forall i :: 0 <= i < |gs| ==> gs[i] == Filled(hist[i], if i < k then 1 else 0)
  {
    seq(|hist|, i requires 0 <= i < |hist| => Filled(hist[i], if i < k then 1 else 0))
  }

  lemma {:induction false} ZerosUnder(n: nat, start: nat, hist: Hist, k: nat, j: nat, a: int)
    requires k <= j <= |hist| && start <= a < start + n
    ensures Layers(Zeros(n), start, Contrast(hist, k), j)[a - start] == 0
    decreases |hist| - j
  {
    if j < |hist| {
      ZerosUnder(n, start, hist, k, j + 1, a);
      var gs := Contrast(hist, k);
      FilledPass(Layers(Zeros(n), start, gs, j + 1), start, gs[j], |gs[j]|, 0, a);
    }
  }

  // A byte that patch j < k covers is 1 in every layer from j up, with or
  // without patch k.
  lemma {:induction false} OnesAbove(n: nat, start: nat, hist: Hist, k: nat, i: nat, j: nat, m: nat, a: int)
    requires i <= j < k < |hist| && start <= a < start + n
    requires m < |hist[j]| && Covers(hist[j][m], a)
    ensures Layers(Zeros(n), start, RemoveAt(Contrast(hist, k), k), i)[a - start] == 1
    decreases j - i
  {
    var rs := RemoveAt(Contrast(hist, k), k);
    if i < j {
      OnesAbove(n, start, hist, k, i + 1, j, m, a);
    } else {
      assert Covers(rs[i][m], a);
    }
    FilledPass(Layers(Zeros(n), start, rs, i + 1), start, rs[i], |rs[i]|, 1, a);
  }

  // A window swapped over a list of zeros on zeros saves zeros.
  lemma ZerosSaved(text: Bytes, start: nat, ws: seq<Write>, i: nat)
    requires Within(|text|, start, ws) && i < |ws|
    requires forall p :: 0 <= p < |text| ==> text[p] == 0
    requires forall j :: 0 <= j < |ws| ==> ws[j].data == [0, 0, 0, 0, 0, 0, 0, 0]
    ensures Saved(text, start, ws)[i].data == [0, 0, 0, 0, 0, 0, 0, 0]
  {
    var d := Saved(text, start, ws)[i].data;
    forall b | 0 <= b < 8
      ensures d[b] == 0
    {
      SavedByte(text, start, ws, i, ws[i].hvabs + b);
      FilledPass(text, start, ws, i, 0, ws[i].hvabs + b);
    }
    assert d == [d[0], d[1], d[2], d[3], d[4], d[5], d[6], d[7]];
  }

  lemma SavedByte(text: Bytes, start: nat, ws: seq<Write>, i: nat, a: int)
    requires Within(|text|, start, ws) && i < |ws| && Covers(ws[i], a)
    ensures Saved(text, start, ws)[i].data[a - ws[i].hvabs] == ByteAfter(text, start, ws, i, a)
  {
  }

  // A window of patch k that meets one of a newer patch: the newer patch's
  // ones are lost with patch k.
  lemma MiddleWitness(n: nat, start: nat, hist: Hist, k: nat, j: nat, m: nat, i: nat)
    requires AllWithin(n, start, hist) && j < k < |hist|
    requires m < |hist[j]| && i < |hist[k]| && !Apart(hist[j][m], hist[k][i])
    ensures !RemovesCleanly(Zeros(n), start, Contrast(hist, k), k)
  {
    hide Layers, Logs, Saved, Overlaid;
    var base, gs := Zeros(n), Contrast(hist, k);
    var a := if hist[j][m].hvabs < hist[k][i].hvabs then hist[k][i].hvabs else hist[j][m].hvabs;
    var top, under := Layers(base, start, gs, 0), Layers(base, start, gs, k + 1);
    var sk := Logs(base, start, gs)[k];
    assert sk == Saved(under, start, gs[k]);
    assert Overlaid(top, start, sk)[a - start] == 0 by {
      forall p | 0 <= p < n
        ensures under[p] == 0
      {
        ZerosUnder(n, start, hist, k, k + 1, start + p);
      }
      forall q | 0 <= q < |sk|
        ensures sk[q].data == [0, 0, 0, 0, 0, 0, 0, 0]
      {
        ZerosSaved(under, start, gs[k], q);
      }
      OverlaidByte(top, start, sk, a);
      assert Covers(sk[i], a);
      FilledPass(top, start, sk, |sk|, 0, a);
    }
    OnesAbove(n, start, hist, k, 0, j, m, a);
  }

  lemma OverlaidByte(text: Bytes, start: nat, ws: seq<Write>, a: int)
    requires start <= a < start + |text|
    ensures Overlaid(text, start, ws)[a - start] == ByteAfter(text, start, ws, |ws|, a)
  {
  }

  // Patch k writes ones and every other patch zeros.
  function Alone(hist: Hist, k: nat): (gs: Hist)
    ensures SameLayout(gs, hist)
    ensures forall i :: 0 <= i < |gs| ==> gs[i] == Filled(hist[i], if i == k then 1 else 0)
  {
    seq(|hist|, i requires 0 <= i < |hist| => Filled(hist[i], if i == k then 1 else 0))
  }

  lemma {:induction false} ZeroLayers(n: nat, start: nat, hist: Hist, j: nat, a: int)
    requires j <= |hist| && start <= a < start + n
    requires forall k, i :: 0 <= k < |hist| && 0 <= i < |hist[k]| ==> hist[k][i].data == [0, 0, 0, 0, 0, 0, 0, 0]
    ensures Layers(Zeros(n), start, hist, j)[a - start] == 0
    decreases |hist| - j
  {
    if j < |hist| {
      ZeroLayers(n, start, hist, j + 1, a);
      FilledPass(Layers(Zeros(n), start, hist, j + 1), start, hist[j], |hist[j]|, 0, a);
    }
  }

  // Two windows of patch k that meet: the later one saved the earlier one's
  // ones and puts them back.
  lemma OverlapStays(n: nat, start: nat, hist: Hist, k: nat, i: nat, j: nat)
    requires AllWithin(n, start, hist) && k < |hist|
    requires i < j < |hist[k]| && !Apart(hist[k][i], hist[k][j])
    ensures !RemovesCleanly(Zeros(n), start, Alone(hist, k), k)
  {
    hide Layers, Logs, Overlaid, RemoveAt, Saved;
    var base, gs := Zeros(n), Alone(hist, k);
    var a := if hist[k][i].hvabs < hist[k][j].hvabs then hist[k][j].hvabs else hist[k][i].hvabs;
    var top, under := Layers(base, start, gs, 0), Layers(base, start, gs, k + 1);
    var sk := Logs(base, start, gs)[k];
    assert sk == Saved(under, start, gs[k]);
    assert Covers(gs[k][i], a) && Covers(gs[k][j], a);
    var m := LastIndex(gs[k], j, a);
    FilledPass(under, start, gs[k], m, 1, a);
    SavedByte(under, start, gs[k], m, a);
    assert forall q :: 0 <= q < |sk| ==> (Covers(sk[q], a) <==> Covers(gs[k][q], a));
    LastCover(top, start, sk, |sk|, m, a);
    OverlaidByte(top, start, sk, a);
    assert Overlaid(top, start, sk)[a - start] == 1;
    var rs: Hist := RemoveAt(gs, k);
    forall q, w | 0 <= q < |rs| && 0 <= w < |rs[q]|
      ensures rs[q][w].data == [0, 0, 0, 0, 0, 0, 0, 0]
    {
      assert rs[q] == gs[if q < k then q else q + 1];
    }
    ZeroLayers(n, start, rs, 0, a);
  }

  lemma UndoableLayout(hist: Hist, gs: Hist, k: nat)
    requires Undoable(hist, k) && SameLayout(gs, hist)
    ensures Undoable(gs, k)
  {
    forall j | 0 <= j < k
      ensures CrossDisjoint(gs[j], gs[k])
    {
      assert CrossDisjoint(hist[j], hist[k]);
    }
    assert forall i, j :: 0 <= i < j < |gs[k]| ==> (Apart(hist[k][i], hist[k][j]) ==> Apart(gs[k][i], gs[k][j]));
  }

  // The code lets any listed patch be undone. That is right for every text
  // and all patch data exactly when the patch's windows meet neither one
  // another nor those of any newer patch.
  lemma MiddleUndoExact(n: nat, start: nat, hist: Hist, k: nat)
    requires AllWithin(n, start, hist) && k < |hist|
    ensures Undoable(hist, k) <==>
            forall base: Bytes, gs | |base| == n && SameLayout(gs, hist) :: RemovesCleanly(base, start, gs, k)
  {
    if Undoable(hist, k) {
      forall base: Bytes, gs | |base| == n && SameLayout(gs, hist)
        ensures RemovesCleanly(base, start, gs, k)
      {
        UndoableLayout(hist, gs, k);
        LayersAbove(base, start, gs, k, 0);
      }
    } else if !OwnDisjoint(hist[k]) {
      var i, j :| 0 <= i < j < |hist[k]| && !Apart(hist[k][i], hist[k][j]);
      OverlapStays(n, start, hist, k, i, j);
      assert |Zeros(n)| == n && SameLayout(Alone(hist, k), hist);
    } else {
      var j :| 0 <= j < k && !CrossDisjoint(hist[j], hist[k]);
      var m, i :| 0 <= m < |hist[j]| && 0 <= i < |hist[k]| && !Apart(hist[j][m], hist[k][i]);
      MiddleWitness(n, start, hist, k, j, m, i);
      assert |Zeros(n)| == n && SameLayout(Contrast(hist, k), hist);
    }
  }
}
