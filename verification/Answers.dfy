// What every message is answered with: which headers are accepted, which
// requests are served, how a session ends, and what malformed messages come
// to (sandbox-listen.c, read_sandbox_message_header, the dispatchers and the
// loop of listen_thread).
module Answers {
  import opened Codes
  import opened Words
  import opened Mapper
  import Overlay
  import opened Server
  import opened Engine
  import opened Session
  import T = Transport

  // --- Headers ------------------------------------------------------------------------

  // Little-endian words of a header.
  function Half(s: Bytes, at: nat): nat
    requires at + 2 <= |s|
  {
    s[at] as nat + 0x100 * s[at + 1] as nat
  }

  function Long(s: Bytes, at: nat): nat
    requires at + 4 <= |s|
  {
    s[at] as nat + 0x100 * s[at + 1] as nat + 0x1_0000 * s[at + 2] as nat + 0x100_0000 * s[at + 3] as nat
  }

  lemma HalfIs(s: Bytes, at: nat)
    requires at + 2 <= |s|
    ensures UnLE(s[at..at + 2]) == Half(s, at)
  {
    var w := s[at..at + 2];
    assert w[1..] == [w[1]] && w[1..][1..] == [];
    assert UnLE(w[1..]) == w[1] as nat;
  }

  lemma LongIs(s: Bytes, at: nat)
    requires at + 4 <= |s|
    ensures Word32(s, at) == Long(s, at)
  {
    var w := s[at..at + 4];
    assert w[1..][1..] == w[2..] && w[2..][1..] == w[3..] && w[3..][1..] == [];
    assert UnLE(w[3..]) == w[3] as nat;
    assert UnLE(w[2..]) == w[2] as nat + 256 * UnLE(w[3..]);
    assert UnLE(w[1..]) == w[1] as nat + 256 * UnLE(w[2..]);
  }

  predicate StartsSand(s: Bytes)
    requires |s| >= 4
  {
    s[0] == 0x53 && s[1] == 0x41 && s[2] == 0x4e && s[3] == 0x44
  }

  // Sixteen bytes are a header exactly when they begin with the magic and
  // version 1, name a message from 1 to 10 and a length of at most 2^20; and
  // the first of these that fails names the error.
  lemma FramedExactly(s: Bytes)
    ensures ReadFrame(s) ==
            if |s| < 16 then Frame.Closed
            else if !StartsSand(s) then Rejected(SANDBOX_ERR_BAD_HDR)
            else if Half(s, 4) != 1 then Rejected(SANDBOX_ERR_BAD_VER)
            else if !(1 <= Half(s, 6) <= 10) then Rejected(SANDBOX_ERR_BAD_MSGID)
            else if Long(s, 8) > 0x10_0000 then Rejected(SANDBOX_ERR_BAD_LEN)
            else Framed(Half(s, 6), Long(s, 8), s[16..])
    ensures ReadFrame(s).Framed? <==>
            |s| >= 16 && StartsSand(s) && Half(s, 4) == 1 && 1 <= Half(s, 6) <= 10 && Long(s, 8) <= 0x10_0000
  {
    if |s| >= 16 {
      HalfIs(s, 4);
      HalfIs(s, 6);
      LongIs(s, 8);
      assert s[..4] == [s[0], s[1], s[2], s[3]];
      hide Word32, UnLE;
    }
  }

  // --- Requests -------------------------------------------------------------------------

  // A list fits a message as long as no more than 2978 patches are applied.
  lemma ListFits(applied: seq<Applied>)
    ensures Fitting(ListBytes(applied)) <==> |applied| <= 2978
  {
    assert |ListBytes(applied)| == 4 + LIST_ENTRY_SIZE * |applied|;
    hide ListBytes;
  }

  // The requests that are answered with a code that is not negative: an apply
  // that came to SANDBOX_OK, a list and build information that fit a message,
  // and every undo.
  predicate Answered(img: Image, st: State, c: Call, g: Grants, info: Bytes)
    requires StateOk(img, st)
  {
    match c
    case ApplyCall(payload) => g.buffer && ApplySpec(img, st, payload, g).0 == Returns(SANDBOX_OK)
    case ListCall => (st.applied == [] || g.buffer) && |st.applied| <= 2978
    case InfoCall => 16 + |info| <= 0x10_0000
    case UndoCall(_) => true
  }

  predicate Lost(img: Image, st: State, c: Call, g: Grants)
    requires StateOk(img, st)
  {
    c.ApplyCall? && g.buffer && ApplySpec(img, st, c.payload, g).0 == Undefined
  }

  // What the request does to the engine.
  function Effect(img: Image, st: State, c: Call, g: Grants): (st': State)
    requires StateOk(img, st)
    ensures StateOk(img, st')
  {
    match c
    case ApplyCall(payload) =>
      ApplyKeepsState(img, st, payload, g);
      if g.buffer then ApplySpec(img, st, payload, g).1 else st
    case UndoCall(sha1) =>
      UndoKeepsState(img, st, sha1);
      UndoSpec(img, st, sha1).1
    case _ => st
  }

  lemma CodeReplySent(id: nat, code: int)
    ensures Reply(id, CodeWord(code)).0 == SANDBOX_OK
  {
    FieldLength(CodeWord(code));
    hide T.LenField, T.Message, CodeWord;
  }

  lemma ServeAnswers(img: Image, st: State, c: Call, g: Grants, info: Bytes)
    requires StateOk(img, st) && |st.applied| <= FEW && |info| <= FEW
    ensures var a := Serve(img, st, c, g, info);
            && (a.NoAnswer? <==> Lost(img, st, c, g))
            && (a.Answer? ==>
                  && a.st == Effect(img, st, c, g)
                  && (a.code >= 0 <==> Answered(img, st, c, g, info))
                  && (a.code >= 0 ==> a.code == SANDBOX_OK))
  {
    ListFits(st.applied);
    ShortEnough(st, info);
    hide ApplySpec, UndoSpec, Reply, ListBytes, CodeWord;
    match c {
      case ApplyCall(payload) => ApplyCodes(img, st, payload, g);
      case ListCall => FittingReply(MSG_LISTRSP, ListBytes(st.applied));
      case InfoCall => FittingReply(MSG_GET_BLDRSP, info);
      case UndoCall(sha1) =>
    }
  }

  // Any one request at the front of any stream, from its bytes: when the code
  // that comes back is negative, and what it did to the engine.
  lemma RequestAnswered(img: Image, st: State, c: Call, rest: Bytes, g: Grants, info: Bytes)
    requires StateOk(img, st) && Sendable(c) && |st.applied| <= FEW && |info| <= FEW
    ensures var r := Receive(img, st, CallBytes(c) + rest, g, info);
            && (r == Crash <==> Lost(img, st, c, g))
            && (r.Served? ==>
                  && r.st == Effect(img, st, c, g)
                  && (r.code >= 0 <==> Answered(img, st, c, g, info))
                  && (r.code >= 0 ==> r.code == SANDBOX_OK && r.rest == if c.UndoCall? then Zeros(4) + rest else rest))
  {
    CallServed(img, st, c, rest, g, info);
    ServeAnswers(img, st, c, g, info);
    hide Receive, Serve, CallBytes, Answered, Lost, Effect;
  }

  // --- How a session ends -----------------------------------------------------------------

  // Requests i to n - 1 are all answered.
  ghost predicate AllAnswered(img: Image, st: State, cs: seq<Call>, i: nat, n: nat, gs: nat -> Grants, info: Bytes,
                              budget: nat)
    requires StateOk(img, st) && i <= n <= |cs|
    decreases n - i
  {
    i == n ||
    (budget > 0 && Answered(img, st, cs[i], gs(budget), info) &&
     AllAnswered(img, Effect(img, st, cs[i], gs(budget)), cs, i + 1, n, gs, info, budget - 1))
  }

  // An undo comes before the last of the requests i to n - 1.
  predicate EarlyUndo(cs: seq<Call>, i: nat, n: nat)
    requires n <= |cs|
  {
    exists k :: i <= k < n - 1 && cs[k].UndoCall?
  }

  lemma EffectGrows(img: Image, st: State, c: Call, g: Grants)
    requires StateOk(img, st)
    ensures |Effect(img, st, c, g).applied| <= |st.applied| + 1
  {
    match c
    case ApplyCall(payload) =>
      ApplyAllOrNothing(img, st, payload, g);
      hide ApplySpec;
    case UndoCall(sha1) => hide Overlay.Overlaid, UnmapSpec;
    case _ =>
  }

  lemma PlanStep(img: Image, st: State, cs: seq<Call>, i: nat, gs: nat -> Grants, info: Bytes, budget: nat)
    requires StateOk(img, st) && i < |cs| && budget > 0 && |st.applied| <= FEW && |info| <= FEW
    ensures var v, c, g := Plan(img, st, cs, i, gs, info, budget).0, cs[i], gs(budget);
            if !Answered(img, st, c, g, info) then v.Crashed? || (v.ThreadExit? && v.code < 0)
            else if c.UndoCall? then
              v == (if budget == 1 then LimitReached else if i + 1 == |cs| then ClientClosed
                    else ThreadExit(SANDBOX_ERR_BAD_HDR))
            else v == Plan(img, Effect(img, st, c, g), cs, i + 1, gs, info, budget - 1).0
  {
    ServeAnswers(img, st, cs[i], gs(budget), info);
    hide Serve, Answered, Lost, Effect, StateOk;
    LostNotAnswered(img, st, cs[i], gs(budget), info);
  }

  lemma LostNotAnswered(img: Image, st: State, c: Call, g: Grants, info: Bytes)
    requires StateOk(img, st)
    ensures Lost(img, st, c, g) ==> !Answered(img, st, c, g, info)
  {
    hide ApplySpec;
  }

  lemma {:induction false} PlanEnds(img: Image, st: State, cs: seq<Call>, i: nat, gs: nat -> Grants, info: Bytes,
                                    budget: nat)
    requires StateOk(img, st) && i <= |cs| && |st.applied| + budget <= FEW && |info| <= FEW
    ensures Plan(img, st, cs, i, gs, info, budget).0 == ClientClosed <==>
            |cs| - i < budget && AllAnswered(img, st, cs, i, |cs|, gs, info, budget) && !EarlyUndo(cs, i, |cs|)
    ensures Plan(img, st, cs, i, gs, info, budget).0 == LimitReached <==>
            i + budget <= |cs| && AllAnswered(img, st, cs, i, i + budget, gs, info, budget) &&
            !EarlyUndo(cs, i, i + budget)
    decreases budget
  {
    hide Answered, Effect, StateOk, Serve;
    if budget > 0 && i < |cs| {
      var c, g := cs[i], gs(budget);
      hide Plan;
      PlanStep(img, st, cs, i, gs, info, budget);
      EffectGrows(img, st, c, g);
      if Answered(img, st, c, g, info) {
        if c.UndoCall? {
          assert i + 1 < |cs| ==> EarlyUndo(cs, i, |cs|);
          assert i + budget <= |cs| && budget > 1 ==> EarlyUndo(cs, i, i + budget);
          assert AllAnswered(img, Effect(img, st, c, g), cs, i + 1, i + 1, gs, info, budget - 1);
        } else {
          PlanEnds(img, Effect(img, st, c, g), cs, i + 1, gs, info, budget - 1);
          assert EarlyUndo(cs, i, |cs|) <==> EarlyUndo(cs, i + 1, |cs|);
          if i + budget <= |cs| {
            assert EarlyUndo(cs, i, i + budget) <==> EarlyUndo(cs, i + 1, i + budget);
          }
        }
      }
    }
  }

  // A session ends with the client's close exactly when its requests stay
  // below the limit, every one is answered, and an undo, if any, comes last;
  // and at the limit exactly when that many were answered, the same way. All
  // others end the listener thread, or in undefined behaviour.
  lemma UndoEndsSession(img: Image, st: State, cs: seq<Call>, gs: nat -> Grants, info: Bytes, budget: nat)
    requires StateOk(img, st) && |st.applied| + budget <= FEW && |info| <= FEW
    requires forall k :: 0 <= k < |cs| ==> Sendable(cs[k])
    ensures var v := RunSession(img, st, Stream(cs, 0), gs, info, budget).0;
            && (v == ClientClosed <==>
                  |cs| < budget && AllAnswered(img, st, cs, 0, |cs|, gs, info, budget) && !EarlyUndo(cs, 0, |cs|))
            && (v == LimitReached <==>
                  budget <= |cs| && AllAnswered(img, st, cs, 0, budget, gs, info, budget) && !EarlyUndo(cs, 0, budget))
  {
    hide RunSession, Plan, AllAnswered, Stream;
    SessionFollowsPlan(img, st, cs, 0, gs, info, budget);
    PlanEnds(img, st, cs, 0, gs, info, budget);
  }

  // A client that only asks for the list and for build information closes the
  // session itself if it does so fewer than a hundred times, and is left
  // after the hundredth.
  lemma {:induction false} PollingAnswered(img: Image, st: State, cs: seq<Call>, i: nat, n: nat, gs: nat -> Grants,
                                           info: Bytes, budget: nat)
    requires StateOk(img, st) && i <= n <= |cs| && n - i <= budget
    requires |st.applied| <= 2978 && 16 + |info| <= 0x10_0000
    requires st.applied == [] || forall k: nat :: gs(k).buffer
    requires forall k :: 0 <= k < |cs| ==> cs[k] in {ListCall, InfoCall}
    ensures AllAnswered(img, st, cs, i, n, gs, info, budget)
    decreases n - i
  {
    hide StateOk;
    if i < n {
      assert cs[i] in {ListCall, InfoCall};
      PollingAnswered(img, st, cs, i + 1, n, gs, info, budget - 1);
    }
  }

  lemma PollingCloses(img: Image, st: State, cs: seq<Call>, gs: nat -> Grants, info: Bytes)
    requires StateOk(img, st)
    requires |st.applied| <= 2978 && 16 + |info| <= 0x10_0000
    requires st.applied == [] || forall k: nat :: gs(k).buffer
    requires forall k :: 0 <= k < |cs| ==> cs[k] in {ListCall, InfoCall}
    ensures RunSession(img, st, Stream(cs, 0), gs, info, SESSION_LIMIT).0 ==
            if |cs| < 100 then ClientClosed else LimitReached
  {
    hide RunSession, AllAnswered, Stream, StateOk;
    var n := if |cs| < SESSION_LIMIT then |cs| else SESSION_LIMIT;
    PollingAnswered(img, st, cs, 0, n, gs, info, SESSION_LIMIT);
    UndoEndsSession(img, st, cs, gs, info, SESSION_LIMIT);
  }

  // --- Malformed messages -----------------------------------------------------------------

  // The engine is left alone, `rest` is unread, the loop gets `code`, and the
  // client reads `told` from the reply whatever follows it.
  ghost predicate TurnedDown(img: Image, r: Served, st: State, rest: Bytes, code: int, told: int,
                             client: State, tail: Bytes, gc: Grants, local: Bytes)
    requires StateOk(img, client)
  {
    && r.Served? && r.code == code && r.st == st && r.rest == rest
    && Receive(img, client, r.reply + tail, gc, local) == Served(told, client, tail, [], None)
  }

  // An apply message shorter than a header or 2^20 bytes behind it, one for
  // which there is no memory, and one the stream ends in.
  lemma BadApply(img: Image, st: State, len: nat, rest: Bytes, g: Grants, info: Bytes,
                 client: State, tail: Bytes, gc: Grants, local: Bytes)
    requires StateOk(img, st) && StateOk(img, client) && len < W32
    ensures var r := Dispatch(img, st, MSG_APPLY, len, rest, g, info);
            && (!(16 <= len < 0x10_0010) ==>
                  TurnedDown(img, r, st, rest, SANDBOX_ERR_PARSE, SANDBOX_ERR_PARSE, client, tail, gc, local))
            && (16 <= len < 0x10_0010 && !g.buffer ==>
                  TurnedDown(img, r, st, rest, SANDBOX_ERR_NOMEM, SANDBOX_ERR_NOMEM, client, tail, gc, local))
            && (16 <= len < 0x10_0010 && g.buffer && |rest| < len - 16 ==>
                  TurnedDown(img, r, st, [], SANDBOX_ERR_RW, SANDBOX_ERR_RW, client, tail, gc, local))
  {
    hide Receive, Reply, CodeWord, ApplySpec;
    CodeReadBack(img, client, MSG_APPLYRSP, SANDBOX_ERR_PARSE, tail, gc, local);
    CodeReadBack(img, client, MSG_APPLYRSP, SANDBOX_ERR_NOMEM, tail, gc, local);
    CodeReadBack(img, client, MSG_APPLYRSP, SANDBOX_ERR_RW, tail, gc, local);
  }

  // An undo message of any length but 40, and one the stream ends in. Neither
  // ends the session by itself.
  lemma BadUndo(img: Image, st: State, len: nat, rest: Bytes, g: Grants, info: Bytes,
                client: State, tail: Bytes, gc: Grants, local: Bytes)
    requires StateOk(img, st) && StateOk(img, client)
    ensures var r := Dispatch(img, st, MSG_UNDO_REQ, len, rest, g, info);
            && (len != 40 ==> TurnedDown(img, r, st, rest, SANDBOX_OK, SANDBOX_ERR_PARSE, client, tail, gc, local))
            && (len == 40 && |rest| < 20 ==>
                  TurnedDown(img, r, st, [], SANDBOX_OK, SANDBOX_ERR_RW, client, tail, gc, local))
  {
    hide Receive, Reply, CodeWord, UndoSpec;
    CodeReadBack(img, client, MSG_UNDO_REP, SANDBOX_ERR_PARSE, tail, gc, local);
    CodeReadBack(img, client, MSG_UNDO_REP, SANDBOX_ERR_RW, tail, gc, local);
  }

  // Two identifiers in range have no dispatcher.
  lemma NoDispatcher(img: Image, st: State, id: nat, len: nat, rest: Bytes, g: Grants, info: Bytes)
    requires StateOk(img, st) && id in {7, 8}
    ensures Dispatch(img, st, id, len, rest, g, info) == Served(SANDBOX_ERR_BAD_MSGID, st, rest, [], None)
  {
  }

  // Bytes that are no message leave the engine alone, are not answered, and
  // at most a header of them is read.
  lemma NoMessage(img: Image, st: State, stream: Bytes, g: Grants, info: Bytes)
    requires StateOk(img, st) && !ReadFrame(stream).Framed?
    ensures var r := Receive(img, st, stream, g, info);
            && r.Served? && r.code < 0 && r.st == st && r.reply == [] && r.buf == None
            && r.rest == (if |stream| < 16 then [] else stream[16..])
            && (r.code == SANDBOX_ERR_CLOSED <==> |stream| < 16)
  {
    FramedExactly(stream);
    hide StateOk, Dispatch;
  }

  // A list or build information that cannot be sent: the client hears
  // nothing, and the session ends.
  lemma Unsent(img: Image, st: State, len: nat, rest: Bytes, g: Grants, info: Bytes)
    requires StateOk(img, st) && |st.applied| <= FEW && |info| <= FEW
    ensures st.applied != [] && !g.buffer ==>
              Dispatch(img, st, MSG_LIST, len, rest, g, info) == Served(SANDBOX_ERR_NOMEM, st, rest, [], None)
    ensures |st.applied| > 2978 && g.buffer ==>
              Dispatch(img, st, MSG_LIST, len, rest, g, info) == Served(SANDBOX_ERR_RW, st, rest, [], None)
    ensures 16 + |info| > 0x10_0000 ==>
              Dispatch(img, st, MSG_GET_BLD, len, rest, g, info) == Served(SANDBOX_ERR_RW, st, rest, [], None)
  {
    ListFits(st.applied);
    ShortEnough(st, info);
    FittingReply(MSG_LISTRSP, ListBytes(st.applied));
    FittingReply(MSG_GET_BLDRSP, info);
    hide Reply, ListBytes, StateOk;
  }

  // Replies the stream ends in, or for which the client has no memory.
  lemma BadReplies(img: Image, client: State, len: nat, rest: Bytes, g: Grants, info: Bytes)
    requires StateOk(img, client)
    ensures |rest| < 4 ==>
              && Dispatch(img, client, MSG_APPLYRSP, len, rest, g, info) ==
                 Served(SANDBOX_ERR_PARSE, client, [], [], None)
              && Dispatch(img, client, MSG_UNDO_REP, len, rest, g, info) == Served(SANDBOX_ERR_RW, client, [], [], None)
    ensures !g.buffer ==>
              && Dispatch(img, client, MSG_LISTRSP, len, rest, g, info) ==
                 Served(SANDBOX_ERR_NOMEM, client, rest, [], None)
              && Dispatch(img, client, MSG_GET_BLDRSP, len, rest, g, info) ==
                 Served(SANDBOX_ERR_NOMEM, client, rest, [], None)
    ensures g.buffer && len >= 16 && |rest| < len - 16 ==>
              && Dispatch(img, client, MSG_LISTRSP, len, rest, g, info) ==
                 Served(SANDBOX_ERR_PARSE, client, [], [], None)
              && Dispatch(img, client, MSG_GET_BLDRSP, len, rest, g, info) ==
                 Served(SANDBOX_ERR_RW, client, [], [], Some(rest + Zeros(len - 15 - |rest|)))
    ensures g.buffer && len < 16 ==>
              Dispatch(img, client, MSG_LISTRSP, len, rest, g, info) ==
              if |rest| > len + 340 then Crash else Served(SANDBOX_ERR_PARSE, client, [], [], None)
    ensures g.buffer && len < 16 ==>
              Dispatch(img, client, MSG_GET_BLDRSP, len, rest, g, info) ==
              if len < 15 then Served(SANDBOX_ERR_NOMEM, client, rest, [], None)
              else if rest == [] then Served(SANDBOX_ERR_RW, client, [], [], Some([]))
              else Crash
  {
  }
}
