// What every apply and undo keeps, and what holds after every run of them.
module Engine {
  import opened Codes
  import opened Words
  import opened Overlay
  import opened PatchData
  import opened Payload
  import opened Relocs
  import opened Mapper
  import opened Server
  import UndoLog

  // --- One apply -------------------------------------------------------------------

  ghost predicate Grew(s: State, s': State) {
    |s'.applied| == |s.applied| + 1 && s'.applied[1..] == s.applied
  }

  ghost predicate Untouched(s: State, s': State) {
    s'.text == s.text && s'.applied == s.applied
  }

  ghost predicate CoveredBy(ws: seq<Write>, a: int) {
    exists i :: 0 <= i < |ws| && Covers(ws[i], a)
  }

  ghost predicate ChangedOnlyInside(t: Bytes, u: Bytes, start: nat, ws: seq<Write>) {
    |t| == |u| && forall q :: 0 <= q < |t| && t[q] != u[q] ==> CoveredBy(ws, start + q)
  }

  lemma OverlaidChanges(text: Bytes, start: nat, ws: seq<Write>, vs: seq<Write>)
    requires SameWindows(vs, ws)
    ensures ChangedOnlyInside(text, Overlaid(text, start, ws), start, vs)
  {
    forall q | 0 <= q < |text| && !CoveredBy(vs, start + q)
      ensures Overlaid(text, start, ws)[q] == text[q]
    {
      assert forall i :: 0 <= i < |ws| ==> (Covers(ws[i], start + q) ==> Covers(vs[i], start + q));
      Uncovered(text, start, ws, |ws|, start + q);
    }
  }

  // Apply is all or nothing. Across every exit the text changes only if the
  // list grows by this patch, a negative return leaves both untouched, and
  // every changed byte lies in a window that starts in [_start, _end).
  lemma ApplyAllOrNothing(img: Image, s: State, p: Bytes, g: Grants)
    requires StateOk(img, s)
    ensures var (r, s') := ApplySpec(img, s, p, g);
            && (Untouched(s, s') || (Grew(s, s') && r == Returns(SANDBOX_OK)))
            && (r.Returns? ==> r.code == SANDBOX_OK || (r.code < 0 && Untouched(s, s')))
            && (Grew(s, s') ==>
                  var ws := s'.applied[0].writes;
                  && |p| >= HEADER_SIZE && s'.applied[0].sha1 == p[..20] && |ws| > 0
                  && (forall i :: 0 <= i < |ws| ==> img.start <= ws[i].hvabs < img.end)
                  && ChangedOnlyInside(s.text, s'.text, img.start, ws))
  {
    if |p| >= HEADER_SIZE {
      StageCode(img, s.alloc, p, ReadHeader(p), g);
      if StageSpec(img, s.alloc, p, ReadHeader(p), g).Ready? {
        StagedWithin(img, s, p, ReadHeader(p), g);
        var ws := StageSpec(img, s.alloc, p, ReadHeader(p), g).writes;
        OverlaidChanges(s.text, img.start, ws, Saved(s.text, img.start, ws));
      }
      hide StageSpec, Overlaid, Saved, UnmapSpec, ChangedOnlyInside, Word32, Word64;
      var s' := ApplySpec(img, s, p, g).1;
      if |s'.applied| != |s.applied| {
        assert s'.applied[1..] == s.applied;
      }
    }
  }

  lemma StageCode(img: Image, a: Alloc, p: Bytes, h: Header, g: Grants)
    ensures StageSpec(img, a, p, h, g).Failed? ==>
              StageSpec(img, a, p, h, g).code in {SANDBOX_ERR_NOMEM, SANDBOX_ERR_INVALID}
  {
    hide RelocSpec, FixWrite, ReadWords, ReadWrites, RelocRel;
  }

  // The codes an apply can return.
  lemma ApplyCodes(img: Image, s: State, p: Bytes, g: Grants)
    requires StateOk(img, s)
    ensures var r := ApplySpec(img, s, p, g).0;
            r.Returns? ==> r.code in {SANDBOX_OK, SANDBOX_ERR_NOMEM, SANDBOX_ERR_INVALID}
  {
    if |p| >= HEADER_SIZE {
      StageCode(img, s.alloc, p, ReadHeader(p), g);
      hide StageSpec, Overlaid, Saved, UnmapSpec, ReadHeader;
    }
  }

  // A request that passes every check but names dependencies is dropped, and
  // the caller is told SANDBOX_OK: after that code the list has grown exactly
  // when the request had no dependencies.
  lemma SilentDrop(img: Image, s: State, p: Bytes, g: Grants)
    requires StateOk(img, s) && ApplySpec(img, s, p, g).0 == Returns(SANDBOX_OK)
    ensures |p| >= HEADER_SIZE
    ensures Grew(s, ApplySpec(img, s, p, g).1) <==> ReadHeader(p).numdeps == 0
    ensures ReadHeader(p).numdeps > 0 ==> Untouched(s, ApplySpec(img, s, p, g).1)
  {
    var h := ReadHeader(p);
    StageCode(img, s.alloc, p, h, g);
    hide StageSpec, ReadHeader, Overlaid, Saved;
    var s' := ApplySpec(img, s, p, g).1;
    if h.numdeps == 0 {
      assert s'.applied[1..] == s.applied;
    }
  }

  // So no listed patch ever records a dependency.
  ghost predicate NoDeps(s: State) {
    forall k :: 0 <= k < |s.applied| ==> s.applied[k].deps == []
  }

  // Undoing the patch just applied gives back text and list.
  lemma ApplyThenUndo(img: Image, s: State, p: Bytes, g: Grants)
    requires StateOk(img, s) && NoDeps(s)
    requires var s' := ApplySpec(img, s, p, g).1; Grew(s, s') && OwnDisjoint(s'.applied[0].writes)
    ensures var s' := ApplySpec(img, s, p, g).1;
            && StateOk(img, s')
            && UndoSpec(img, s', s'.applied[0].sha1).0 == 0
            && Untouched(s, UndoSpec(img, s', s'.applied[0].sha1).1)
  {
    ApplyKeepsState(img, s, p, g);
    ApplyAllOrNothing(img, s, p, g);
    var s' := ApplySpec(img, s, p, g).1;
    var ws := StageSpec(img, s.alloc, p, ReadHeader(p), g).writes;
    StagedWithin(img, s, p, ReadHeader(p), g);
    assert s'.text == Overlaid(s.text, img.start, ws) && s'.applied[0].writes == Saved(s.text, img.start, ws);
    hide ApplySpec, Overlaid, Saved, StageSpec, ReadHeader;
    assert forall i, j :: 0 <= i < j < |ws| ==>
           (Apart(s'.applied[0].writes[i], s'.applied[0].writes[j]) ==> Apart(ws[i], ws[j]));
    DoubleSwap(s.text, img.start, ws);
    assert !HasDependents(s'.applied, 0) by {
      assert forall j :: 0 < j < |s'.applied| ==> s'.applied[j] == s.applied[j - 1];
    }
    assert RemoveAt(s'.applied, 0) == s'.applied[1..];
  }

  // --- Runs --------------------------------------------------------------------------

  datatype Op = Apply(payload: Bytes, grants: Grants) | Undo(sha1: Sha1)

  function Step(img: Image, s: State, op: Op): (Outcome, State)
    requires StateOk(img, s)
  {
    match op
    case Apply(p, g) => ApplySpec(img, s, p, g)
    case Undo(sha1) => var (r, s') := UndoSpec(img, s, sha1); (Returns(r), s')
  }

  lemma StepKeepsState(img: Image, s: State, op: Op)
    requires StateOk(img, s)
    ensures StateOk(img, Step(img, s, op).1)
    ensures NoDeps(s) ==> NoDeps(Step(img, s, op).1)
  {
    hide StageSpec, Overlaid, Saved, ReadHeader, UnmapSpec;
    match op
    case Apply(p, g) => ApplyKeepsState(img, s, p, g);
    case Undo(sha1) => UndoKeepsState(img, s, sha1);
  }

  // The write lists of the applied patches: the undo log.
  function WritesOf(applied: seq<Applied>): (saved: UndoLog.Hist)
    ensures |saved| == |applied|
    ensures forall k {:trigger saved[k]} :: 0 <= k < |saved| ==> saved[k] == applied[k].writes
  {
    seq(|applied|, k requires 0 <= k < |applied| => applied[k].writes)
  }

  // The write lists handed to apply by the patches listed after the step.
  function HistAfter(img: Image, s: State, hist: UndoLog.Hist, op: Op): UndoLog.Hist
    requires StateOk(img, s)
  {
    var s' := Step(img, s, op).1;
    if |s'.applied| == |s.applied| then hist
    else
      match op
      case Apply(p, g) =>
        if |p| < HEADER_SIZE then hist
        else
          var staged := StageSpec(img, s.alloc, p, ReadHeader(p), g);
          if staged.Ready? then [staged.writes] + hist else hist
      case Undo(sha1) =>
        var k := IndexOf(s.applied, sha1, 0);
        if k < |hist| then RemoveAt(hist, k) else hist
  }

  // A removal is clean if the removed patch's windows meet neither one another
  // nor those of any newer patch.
  ghost predicate CleanStep(img: Image, s: State, hist: UndoLog.Hist, op: Op)
    requires StateOk(img, s)
  {
    op.Undo? && Step(img, s, op).0 == Returns(0) ==> UndoLog.Undoable(hist, IndexOf(s.applied, op.sha1, 0))
  }

  ghost predicate LogOk(img: Image, base: Bytes, s: State, hist: UndoLog.Hist) {
    UndoLog.LogInv(base, img.start, s.text, WritesOf(s.applied), hist)
  }

  // An apply that grows the list stores one staged write list.
  lemma GrownWith(img: Image, s: State, p: Bytes, g: Grants) returns (ws: seq<Write>)
    requires StateOk(img, s) && |Step(img, s, Apply(p, g)).1.applied| != |s.applied|
    ensures |p| >= HEADER_SIZE && StageSpec(img, s.alloc, p, ReadHeader(p), g).Ready?
    ensures ws == StageSpec(img, s.alloc, p, ReadHeader(p), g).writes && Within(|s.text|, img.start, ws)
    ensures var s' := Step(img, s, Apply(p, g)).1;
            && s'.text == Overlaid(s.text, img.start, ws)
            && WritesOf(s'.applied) == [Saved(s.text, img.start, ws)] + WritesOf(s.applied)
  {
    var h := ReadHeader(p);
    StagedWithin(img, s, p, h, g);
    ws := StageSpec(img, s.alloc, p, h, g).writes;
    hide StageSpec, Overlaid, Saved, ReadHeader, UnmapSpec;
    var s' := Step(img, s, Apply(p, g)).1;
    assert WritesOf(s'.applied) == [Saved(s.text, img.start, ws)] + WritesOf(s.applied);
  }

  lemma ApplyKeepsLog(img: Image, base: Bytes, s: State, hist: UndoLog.Hist, p: Bytes, g: Grants)
    requires StateOk(img, s) && LogOk(img, base, s, hist)
    ensures LogOk(img, base, Step(img, s, Apply(p, g)).1, HistAfter(img, s, hist, Apply(p, g)))
  {
    var s' := Step(img, s, Apply(p, g)).1;
    if |s'.applied| == |s.applied| {
      hide StageSpec, Overlaid, Saved, ReadHeader, UnmapSpec;
      assert s'.text == s.text && s'.applied == s.applied;
    } else {
      var ws := GrownWith(img, s, p, g);
      hide Step, StageSpec, Overlaid, Saved, ReadHeader, UndoLog.LogInv;
      UndoLog.LogPush(base, img.start, s.text, WritesOf(s.applied), hist, ws);
    }
  }

  lemma UndoKeepsLog(img: Image, base: Bytes, s: State, hist: UndoLog.Hist, sha1: Sha1)
    requires StateOk(img, s) && LogOk(img, base, s, hist) && CleanStep(img, s, hist, Undo(sha1))
    ensures LogOk(img, base, Step(img, s, Undo(sha1)).1, HistAfter(img, s, hist, Undo(sha1)))
  {
    hide Overlaid, UnmapSpec;
    var s' := Step(img, s, Undo(sha1)).1;
    var k := IndexOf(s.applied, sha1, 0);
    if Step(img, s, Undo(sha1)).0 == Returns(0) {
      UndoLog.LogRemove(base, img.start, s.text, WritesOf(s.applied), hist, k);
      assert WritesOf(s'.applied) == RemoveAt(WritesOf(s.applied), k);
    }
  }

  // A run in which no step is undefined and every removal is clean.
  ghost predicate CleanRun(img: Image, s: State, hist: UndoLog.Hist, ops: seq<Op>)
    requires StateOk(img, s)
    decreases |ops|
  {
    ops == [] ||
    (&& Step(img, s, ops[0]).0.Returns?
     && CleanStep(img, s, hist, ops[0])
     && (StepKeepsState(img, s, ops[0]);
         CleanRun(img, Step(img, s, ops[0]).1, HistAfter(img, s, hist, ops[0]), ops[1..])))
  }

  ghost function AfterRun(img: Image, s: State, hist: UndoLog.Hist, ops: seq<Op>): (State, UndoLog.Hist)
    requires StateOk(img, s)
    decreases |ops|
  {
    if ops == [] then (s, hist)
    else
      StepKeepsState(img, s, ops[0]);
      AfterRun(img, Step(img, s, ops[0]).1, HistAfter(img, s, hist, ops[0]), ops[1..])
  }

  // The undo-log invariant over every run of the server: the text is the base
  // overlaid, oldest first, by the patches still listed, and each listed
  // patch's saved data is what lay under it.
  lemma {:induction false} RunKeepsLog(img: Image, base: Bytes, s: State, hist: UndoLog.Hist, ops: seq<Op>)
    requires StateOk(img, s) && LogOk(img, base, s, hist) && CleanRun(img, s, hist, ops)
    ensures var (s', hist') := AfterRun(img, s, hist, ops);
            StateOk(img, s') && LogOk(img, base, s', hist')
    decreases |ops|
  {
    hide Step, HistAfter, LogOk, StateOk, CleanStep;
    if ops != [] {
      StepKeepsState(img, s, ops[0]);
      match ops[0] {
        case Apply(p, g) => ApplyKeepsLog(img, base, s, hist, p, g);
        case Undo(sha1) => UndoKeepsLog(img, base, s, hist, sha1);
      }
      RunKeepsLog(img, base, Step(img, s, ops[0]).1, HistAfter(img, s, hist, ops[0]), ops[1..]);
    }
  }

  // From an unpatched image: once a run has removed every patch again, the
  // text is the original, byte for byte.
  lemma EmptyListMeansBase(img: Image, base: Bytes, ops: seq<Op>)
    requires ImageOk(img, |base|)
    requires CleanRun(img, State(base, [], FRESH), [], ops)
    ensures var (s', _) := AfterRun(img, State(base, [], FRESH), [], ops);
            s'.applied == [] ==> s'.text == base
  {
    var s := State(base, [], FRESH);
    assert WritesOf(s.applied) == [] == UndoLog.Logs(base, img.start, []);
    RunKeepsLog(img, base, s, [], ops);
  }

  // --- Undoing everything ---------------------------------------------------------------

  // Every listed patch has writes and records no dependency, as apply leaves it.
  ghost predicate Removable(s: State) {
    NoDeps(s) && forall k :: 0 <= k < |s.applied| ==> |s.applied[k].writes| > 0
  }

  lemma StepKeepsRemovable(img: Image, s: State, op: Op)
    requires StateOk(img, s) && Removable(s)
    ensures Removable(Step(img, s, op).1)
  {
    StepKeepsState(img, s, op);
    match op
    case Apply(p, g) =>
      ApplyAllOrNothing(img, s, p, g);
      var s' := Step(img, s, op).1;
      hide ApplySpec;
      if Grew(s, s') {
        assert forall k :: 0 < k < |s'.applied| ==> s'.applied[k] == s'.applied[1..][k - 1];
      }
    case Undo(sha1) =>
      hide Overlaid, UnmapSpec;
  }

  lemma {:induction false} RunKeepsRemovable(img: Image, s: State, hist: UndoLog.Hist, ops: seq<Op>)
    requires StateOk(img, s) && Removable(s)
    ensures StateOk(img, AfterRun(img, s, hist, ops).0) && Removable(AfterRun(img, s, hist, ops).0)
    decreases |ops|
  {
    hide Step, HistAfter, StateOk, Removable;
    if ops != [] {
      StepKeepsState(img, s, ops[0]);
      StepKeepsRemovable(img, s, ops[0]);
      RunKeepsRemovable(img, Step(img, s, ops[0]).1, HistAfter(img, s, hist, ops[0]), ops[1..]);
    }
  }

  // An undo of each listed patch, by its hash, from the list head on.
  function HeadUndos(applied: seq<Applied>): (ops: seq<Op>)
    ensures |ops| == |applied|
  {
    if applied == [] then [] else [Undo(applied[0].sha1)] + HeadUndos(applied[1..])
  }

  // Every request of the run is answered with 0.
  ghost predicate AllSucceed(img: Image, s: State, ops: seq<Op>)
    requires StateOk(img, s)
    decreases |ops|
  {
    ops == [] ||
    (&& Step(img, s, ops[0]).0 == Returns(0)
     && (StepKeepsState(img, s, ops[0]); AllSucceed(img, Step(img, s, ops[0]).1, ops[1..])))
  }

  // The patch at the head can always be undone: no entry before it carries its
  // hash, and none behind it records a dependency.
  lemma UndoHead(img: Image, s: State)
    requires StateOk(img, s) && Removable(s) && s.applied != []
    ensures var (r, s') := Step(img, s, Undo(s.applied[0].sha1));
            && r == Returns(0) && s'.applied == s.applied[1..]
            && IndexOf(s.applied, s.applied[0].sha1, 0) == 0
  {
    hide Overlaid, UnmapSpec;
    assert RemoveAt(s.applied, 0) == s.applied[1..];
  }

  // Undoing the listed patches one after another, newest first, succeeds each
  // time and ends with an empty list.
  lemma {:induction false} HeadsSucceed(img: Image, s: State, hist: UndoLog.Hist)
    requires StateOk(img, s) && Removable(s)
    ensures AllSucceed(img, s, HeadUndos(s.applied))
    ensures AfterRun(img, s, hist, HeadUndos(s.applied)).0.applied == []
    decreases |s.applied|
  {
    if s.applied != [] {
      var op, ops := Undo(s.applied[0].sha1), HeadUndos(s.applied);
      UndoHead(img, s);
      StepKeepsState(img, s, op);
      StepKeepsRemovable(img, s, op);
      hide UndoSpec, StateOk, Removable, HistAfter;
      var s' := Step(img, s, op).1;
      assert ops[0] == op && ops[1..] == HeadUndos(s'.applied);
      HeadsSucceed(img, s', HistAfter(img, s, hist, op));
    }
  }

  // It ends with the original text when no patch's windows overlap one another.
  lemma {:induction false} HeadsRestore(img: Image, base: Bytes, s: State, hist: UndoLog.Hist)
    requires StateOk(img, s) && LogOk(img, base, s, hist) && Removable(s)
    requires forall k :: 0 <= k < |hist| ==> OwnDisjoint(hist[k])
    ensures AfterRun(img, s, hist, HeadUndos(s.applied)).0.text == base
    decreases |s.applied|
  {
    if s.applied == [] {
      assert hist == [] by { assert |UndoLog.Logs(base, img.start, hist)| == |hist|; }
    } else {
      var op, ops := Undo(s.applied[0].sha1), HeadUndos(s.applied);
      assert |hist| == |s.applied|;
      assert UndoLog.Undoable(hist, 0);
      UndoHead(img, s);
      UndoKeepsLog(img, base, s, hist, s.applied[0].sha1);
      StepKeepsState(img, s, op);
      StepKeepsRemovable(img, s, op);
      hide UndoSpec, LogOk, StateOk, Removable, OwnDisjoint;
      var s', hist' := Step(img, s, op).1, HistAfter(img, s, hist, op);
      assert hist' == RemoveAt(hist, 0);
      assert ops[0] == op && ops[1..] == HeadUndos(s'.applied);
      HeadsRestore(img, base, s', hist');
    }
  }

  // After any clean run from an unpatched image every listed patch can be
  // undone in this order, and that brings the original text back when no
  // listed patch overlaps itself.
  lemma UndoEverything(img: Image, base: Bytes, ops: seq<Op>)
    requires ImageOk(img, |base|) && CleanRun(img, State(base, [], FRESH), [], ops)
    ensures var (s, hist) := AfterRun(img, State(base, [], FRESH), [], ops);
            && StateOk(img, s) && AllSucceed(img, s, HeadUndos(s.applied))
            && var end := AfterRun(img, s, hist, HeadUndos(s.applied)).0;
            && end.applied == []
            && ((forall k :: 0 <= k < |hist| ==> OwnDisjoint(hist[k])) ==> end.text == base)
  {
    var s0 := State(base, [], FRESH);
    assert WritesOf(s0.applied) == [] == UndoLog.Logs(base, img.start, []);
    RunKeepsLog(img, base, s0, [], ops);
    RunKeepsRemovable(img, s0, [], ops);
    hide AfterRun, CleanRun, AllSucceed, OwnDisjoint, LogOk, Removable, StateOk;
    var (s, hist) := AfterRun(img, s0, [], ops);
    HeadsSucceed(img, s, hist);
    if forall k :: 0 <= k < |hist| ==> OwnDisjoint(hist[k]) {
      HeadsRestore(img, base, s, hist);
    }
  }

  // --- Adding a step at the end -----------------------------------------------------------

  // No step of the run has undefined behaviour.
  ghost predicate Defined(img: Image, s: State, ops: seq<Op>)
    requires StateOk(img, s)
    decreases |ops|
  {
    ops == [] ||
    (&& Step(img, s, ops[0]).0.Returns?
     && (StepKeepsState(img, s, ops[0]); Defined(img, Step(img, s, ops[0]).1, ops[1..])))
  }

  ghost function StateAfter(img: Image, s: State, ops: seq<Op>): (s': State)
    requires StateOk(img, s)
    ensures StateOk(img, s')
    decreases |ops|
  {
    if ops == [] then s
    else
      StepKeepsState(img, s, ops[0]);
      StateAfter(img, Step(img, s, ops[0]).1, ops[1..])
  }

  // Which histories are kept along the way does not change the states.
  lemma {:induction false} AnyHistory(img: Image, s: State, hist: UndoLog.Hist, ops: seq<Op>)
    requires StateOk(img, s)
    ensures StateAfter(img, s, ops) == AfterRun(img, s, hist, ops).0
    decreases |ops|
  {
    hide Step, HistAfter, StateOk;
    if ops != [] {
      StepKeepsState(img, s, ops[0]);
      AnyHistory(img, Step(img, s, ops[0]).1, HistAfter(img, s, hist, ops[0]), ops[1..]);
    }
  }

  lemma {:induction false} OneMore(img: Image, s: State, ops: seq<Op>, op: Op)
    requires StateOk(img, s) && Defined(img, s, ops) && Step(img, StateAfter(img, s, ops), op).0.Returns?
    ensures Defined(img, s, ops + [op])
    ensures StateAfter(img, s, ops + [op]) == Step(img, StateAfter(img, s, ops), op).1
    decreases |ops|
  {
    hide Step, StateOk;
    StepKeepsState(img, StateAfter(img, s, ops), op);
    if ops == [] {
      assert ops + [op] == [op] && [op][1..] == [];
    } else {
      StepKeepsState(img, s, ops[0]);
      OneMore(img, Step(img, s, ops[0]).1, ops[1..], op);
      assert (ops + [op])[1..] == ops[1..] + [op];
    }
  }

  // A state the engine can come to from another by whole applies and undos.
  ghost predicate Reachable(img: Image, s: State, s': State)
    requires StateOk(img, s)
  {
    exists ops :: Defined(img, s, ops) && StateAfter(img, s, ops) == s'
  }

  // The engine did nothing, or one whole apply or undo.
  ghost predicate Moved(img: Image, s: State, s': State)
    requires StateOk(img, s)
  {
    s' == s || exists op :: Step(img, s, op).0.Returns? && Step(img, s, op).1 == s'
  }

  lemma MovedOn(img: Image, s0: State, s: State, s': State)
    requires StateOk(img, s0) && StateOk(img, s) && Reachable(img, s0, s) && Moved(img, s, s')
    ensures Reachable(img, s0, s')
  {
    hide Step, StateOk;
    if s' != s {
      var ops :| Defined(img, s0, ops) && StateAfter(img, s0, ops) == s;
      var op :| Step(img, s, op).0.Returns? && Step(img, s, op).1 == s';
      OneMore(img, s0, ops, op);
    }
  }
}
