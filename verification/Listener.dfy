// The listener thread at work on a socket and the engine (sandbox-listen.c).
// Over a steady connection each method does to them what its function in
// module Session says; over any connection the engine only ever does whole
// applies and undos.
module Listener {
  import opened Codes
  import opened Words
  import opened PatchData
  import opened Mapper
  import opened Server
  import opened Session
  import opened Engine
  import T = Transport
  import S = Sandbox
  import Payload

  class Listener {
    const sock: T.Socket
    const box: S.Sandbox
    const info: Bytes  // the build-information text

    constructor (sock: T.Socket, box: S.Sandbox, info: Bytes)
      requires box.Valid() && sock as object !in box.Repr
      ensures this.sock == sock && this.box == box && this.info == info && Valid()
    {
      this.sock, this.box, this.info := sock, box, info;
    }

    ghost predicate Valid()
      reads box, box.text, box.mapper, box.Repr
    {
      box.Valid() && sock as object !in box.Repr
    }

    method SendReply(id: nat, field: Bytes) returns (code: int)
      requires Valid() && id < W16
      modifies sock`outbox, sock`writePlan
      ensures Valid() && code in {SANDBOX_OK, SANDBOX_ERR_RW}
      ensures old(sock.Steady()) ==>
                sock.Steady() && code == Reply(id, field).0 && sock.outbox == old(sock.outbox) + Reply(id, field).1
    {
      hide T.Message, T.LenField;
      code := sock.SendRrBuf(id, [field]);
    }

    method DispatchApply(len: nat, g: Grants) returns (code: int, crashed: bool)
      requires Valid()
      modifies sock, box, box.text, box.mapper
      ensures Valid() && fresh(box.Repr - old(box.Repr))
      ensures !crashed ==> Moved(box.img, old(box.Abs()), box.Abs())
      ensures old(sock.Steady()) ==>
                sock.Steady() &&
                var r := ServeApply(box.img, old(box.Abs()), len, old(sock.inbox), g);
                if r.Crash? then crashed
                else !crashed && r == Served(code, box.Abs(), sock.inbox, r.reply, None) &&
                     sock.outbox == old(sock.outbox) + r.reply
    {
      hide ApplySpec, Reply, CodeWord, Moved;
      ghost var steady, s0 := sock.Steady(), box.Abs();
      crashed := false;
      StayedPut(box.img, s0);
      var remaining := (len - T.SANDBOX_MSG_HDRLEN) % W32;
      if remaining >= T.SANDBOX_ALLOC_SIZE {
        code := SANDBOX_ERR_PARSE;
      } else if !g.buffer {
        code := SANDBOX_ERR_NOMEM;
      } else {
        var patchBuf := new Byte[remaining](_ => 0);
        ghost var in0 := sock.inbox;
        var n := sock.Readn(patchBuf, 0, remaining);
        if n == remaining {
          assert patchBuf[..] == in0[..remaining];
          var r := box.Apply4(patchBuf[..], g);
          match r {
            case Undefined => return 0, true;
            case Returns(c) =>
              code := c;
              MovedByApply(box.img, s0, in0[..remaining], g);
          }
        } else {
          code := SANDBOX_ERR_RW;
        }
      }
      var _ := SendReply(MSG_APPLYRSP, CodeWord(code));
    }

    method DispatchList(g: Grants) returns (code: int)
      requires Valid()
      modifies sock`outbox, sock`writePlan
      ensures Valid()
      ensures old(sock.Steady()) ==>
                sock.Steady() &&
                var r := ServeList(box.Abs(), sock.inbox, g);
                r == Served(code, box.Abs(), sock.inbox, r.reply, None) &&
                sock.outbox == old(sock.outbox) + r.reply
    {
      hide Reply, LE;
      if |box.applied| > 0 && !g.buffer {
        return SANDBOX_ERR_NOMEM;
      }
      // count first, then one entry per patch, head first
      var rbuf := LE(4, |box.applied| % W32);
      ghost var entries := ListEntries(box.Abs().applied);
      for current := 0 to |box.applied|
        invariant rbuf == LE(4, |box.applied| % W32) + Payload.Cat(LIST_ENTRY_SIZE, entries, current)
      {
        var ap := box.applied[current];
        assert box.Views()[current] == box.View(ap);
        var entry := LE(8, ap.pm.addr) + ap.sha1 + Zeros(324);
        assert entry == ListEntry(box.Views()[current]) == entries[current];
        rbuf := rbuf + entry;
      }
      code := SendReply(MSG_LISTRSP, rbuf);
    }

    method DispatchUndoReq(len: nat) returns (code: int)
      requires Valid()
      modifies sock, box, box.text, box.mapper, box.Repr
      ensures Valid() && box.Repr == old(box.Repr)
      ensures Moved(box.img, old(box.Abs()), box.Abs())
      ensures old(sock.Steady()) ==>
                sock.Steady() &&
                var r := ServeUndo(box.img, old(box.Abs()), len, old(sock.inbox));
                r == Served(code, box.Abs(), sock.inbox, r.reply, None) &&
                sock.outbox == old(sock.outbox) + r.reply
    {
      hide UndoSpec, Reply, CodeWord, Moved;
      ghost var s0 := box.Abs();
      StayedPut(box.img, s0);
      var ccode;
      if len - T.SANDBOX_MSG_HDRLEN - 4 != 20 {
        ccode := SANDBOX_ERR_PARSE;
      } else {
        var sha1 := new Byte[20](_ => 0);
        ghost var in0 := sock.inbox;
        var n := sock.Readn(sha1, 0, 20);
        if n != 20 {
          ccode := SANDBOX_ERR_RW;
        } else {
          assert sha1[..] == in0[..20];
          ccode := box.Undo4(sha1[..]);
          MovedByUndo(box.img, s0, in0[..20]);
        }
      }
      code := SendReply(MSG_UNDO_REP, CodeWord(ccode));
      ShortReply(MSG_UNDO_REP, CodeWord(ccode));
    }

    // dispatch_apply_response and dispatch_undo_rep.
    method DispatchCode(short: int) returns (code: int)
      requires Valid()
      modifies sock
      ensures Valid() && sock.outbox == old(sock.outbox)
      ensures old(sock.Steady()) ==>
                sock.Steady() &&
                ReadCode(box.Abs(), old(sock.inbox), short) == Served(code, box.Abs(), sock.inbox, [], None)
    {
      var word := new Byte[4](_ => 0);
      ghost var in0 := sock.inbox;
      var n := sock.Readn(word, 0, 4);
      if n != 4 {
        return short;
      }
      assert word[..] == in0[..4] == in0[0..4];
      assert word[..][0..4] == word[..];
      code := Signed32(Word32(word[..], 0));
    }

    method DispatchListResponse(len: nat, g: Grants) returns (code: int, buf: Option<Bytes>, crashed: bool)
      requires Valid()
      modifies sock
      ensures Valid() && sock.outbox == old(sock.outbox)
      ensures old(sock.Steady()) ==>
                sock.Steady() &&
                var r := ReadListResponse(box.Abs(), len, old(sock.inbox), g);
                if r.Crash? then crashed else !crashed && r == Served(code, box.Abs(), sock.inbox, [], buf)
    {
      code, buf, crashed := SANDBOX_OK, None, false;
      ghost var steady := sock.Steady();
      var remaining := len - T.SANDBOX_MSG_HDRLEN;
      if !g.buffer {
        return SANDBOX_ERR_NOMEM, None, false;
      }
      var b := new Byte[remaining + LIST_ENTRY_SIZE + 4](_ => 0);
      ghost var in0 := sock.inbox;
      if remaining < 0 {
        if |sock.inbox| > b.Length {
          return 0, None, true;
        }
        var _ := sock.Readn(b, 0, b.Length);
        return SANDBOX_ERR_PARSE, None, false;
      }
      assert b[..] == Zeros(b.Length);
      var n := sock.Readn(b, 0, remaining);
      if n != remaining {
        return SANDBOX_ERR_PARSE, None, false;
      }
      assert b[..] == in0[..remaining] + Zeros(LIST_ENTRY_SIZE + 4);
      buf := Some(b[..]);
    }

    method DispatchGetbldRes(len: nat, g: Grants) returns (code: int, buf: Option<Bytes>, crashed: bool)
      requires Valid()
      modifies sock
      ensures Valid() && sock.outbox == old(sock.outbox)
      ensures old(sock.Steady()) ==>
                sock.Steady() &&
                var r := ReadInfoResponse(box.Abs(), len, old(sock.inbox), g);
                if r.Crash? then crashed else !crashed && r == Served(code, box.Abs(), sock.inbox, [], buf)
    {
      var remaining := len - T.SANDBOX_MSG_HDRLEN;
      ghost var steady := sock.Steady();
      if !g.buffer || remaining < -1 {
        return SANDBOX_ERR_NOMEM, None, false;
      }
      if remaining == -1 {
        return SANDBOX_ERR_RW, Some([]), |sock.inbox| > 0;
      }
      var b := new Byte[remaining + 1](_ => 0);
      assert b[..] == Zeros(b.Length);
      ghost var in0 := sock.inbox;
      var n := sock.Readn(b, 0, remaining);
      if n != remaining {
        assert steady ==> b[..] == in0 + Zeros(remaining + 1 - |in0|);
        return SANDBOX_ERR_RW, Some(b[..]), false;
      }
      assert b[..] == in0[..remaining] + [0];
      return SANDBOX_OK, Some(b[..]), false;
    }

    // The 16 header bytes, one read each: 1 when all are there, or the result
    // of the read that gave none.
    method ReadHeaderBytes() returns (hbuf: Bytes, status: int)
      requires Valid()
      modifies sock`inbox, sock`readPlan
      ensures Valid() && status in {1, 0, -1} && (status == 1 ==> |hbuf| == 16)
      ensures status == 1 ==>
                |old(sock.inbox)| >= 16 && hbuf == old(sock.inbox)[..16] && sock.inbox == old(sock.inbox)[16..]
      ensures old(sock.Steady()) ==>
                sock.Steady() && status == (if |old(sock.inbox)| < 16 then 0 else 1) &&
                  (status == 0 ==> sock.inbox == [])
    {
      hide T.Reliable;
      var b := new Byte[18](_ => 0);
      ghost var in0, steady := sock.inbox, sock.Steady();
      for i := 0 to 16
        invariant i <= |in0| && (steady ==> sock.Steady())
        invariant sock.inbox == in0[i..] && b[..i] == in0[..i]
      {
        ghost var b0 := b[..];
        var n := sock.Readn(b, i, 1);
        if n != 1 {
          return [], n;
        }
        assert in0[i..][..1] == [in0[i]];
        assert b[..i + 1] == b0[..i] + [in0[i]];
        assert in0[..i + 1] == in0[..i] + [in0[i]];
      }
      hbuf, status := b[..16], 1;
    }

    // The switch over message identifiers.
    method Dispatch(id: nat, len: nat, g: Grants) returns (code: int, buf: Option<Bytes>, crashed: bool)
      requires Valid()
      modifies sock, box, box.text, box.mapper, box.Repr
      ensures Valid() && fresh(box.Repr - old(box.Repr))
      ensures !crashed ==> Moved(box.img, old(box.Abs()), box.Abs())
      ensures old(sock.Steady()) ==>
                sock.Steady() &&
                var r := Session.Dispatch(box.img, old(box.Abs()), id, len, old(sock.inbox), g, info);
                if r.Crash? then crashed
                else !crashed && r == Served(code, box.Abs(), sock.inbox, r.reply, buf) &&
                     sock.outbox == old(sock.outbox) + r.reply
    {
      hide ServeApply, ServeList, ServeUndo, ReadCode, ReadListResponse, ReadInfoResponse, Reply, Moved, T.Reliable;
      buf, crashed := None, false;
      StayedPut(box.img, box.Abs());
      if id == MSG_APPLY {
        code, crashed := DispatchApply(len, g);
      } else if id == MSG_APPLYRSP {
        code := DispatchCode(SANDBOX_ERR_PARSE);
      } else if id == MSG_LIST {
        code := DispatchList(g);
      } else if id == MSG_LISTRSP {
        code, buf, crashed := DispatchListResponse(len, g);
      } else if id == MSG_GET_BLD {
        code := SendReply(MSG_GET_BLDRSP, info);
      } else if id == MSG_GET_BLDRSP {
        code, buf, crashed := DispatchGetbldRes(len, g);
      } else if id == MSG_UNDO_REQ {
        code := DispatchUndoReq(len);
      } else if id == MSG_UNDO_REP {
        code := DispatchCode(SANDBOX_ERR_RW);
      } else {
        code := SANDBOX_ERR_BAD_MSGID;
      }
    }

    // read_sandbox_message_header
    method ReadMessage(g: Grants) returns (code: int, buf: Option<Bytes>, crashed: bool)
      requires Valid()
      modifies sock, box, box.text, box.mapper, box.Repr
      ensures Valid() && fresh(box.Repr - old(box.Repr))
      ensures !crashed ==> Moved(box.img, old(box.Abs()), box.Abs())
      ensures old(sock.Steady()) ==>
                sock.Steady() &&
                var r := Receive(box.img, old(box.Abs()), old(sock.inbox), g, info);
                if r.Crash? then crashed
                else !crashed && r == Served(code, box.Abs(), sock.inbox, r.reply, buf) &&
                     sock.outbox == old(sock.outbox) + r.reply
    {
      hide Session.Dispatch, Word32, Moved, T.Reliable;
      buf, crashed := None, false;
      ghost var in0 := sock.inbox;
      StayedPut(box.img, box.Abs());
      var hbuf, status := ReadHeaderBytes();
      if status == 0 {
        return SANDBOX_ERR_CLOSED, None, false;
      }
      if status < 0 {
        return status, None, false;
      }
      HeaderWords(in0);
      if hbuf[..4] != T.SAND {
        return SANDBOX_ERR_BAD_HDR, None, false;
      }
      if UnLE(hbuf[4..6]) != T.SANDBOX_MSG_VERSION {
        return SANDBOX_ERR_BAD_VER, None, false;
      }
      var id := UnLE(hbuf[6..8]);
      if id < MSG_APPLY || id > MSG_UNDO_REP {
        return SANDBOX_ERR_BAD_MSGID, None, false;
      }
      var len := Word32(hbuf, 8);
      if len > T.SANDBOX_ALLOC_SIZE {
        return SANDBOX_ERR_BAD_LEN, None, false;
      }
      code, buf, crashed := Dispatch(id, len, g);
    }

    // The inner loop of listen_thread for one client. Whatever the connection
    // does, the engine ends where whole applies and undos can take it.
    method ServeClient(gs: nat -> Grants) returns (v: Verdict)
      requires Valid()
      modifies sock, box, box.text, box.mapper, box.Repr
      ensures Valid()
      ensures v != Crashed ==> Reachable(box.img, old(box.Abs()), box.Abs())
      ensures old(sock.Steady()) ==>
                var r := RunSession(box.img, old(box.Abs()), old(sock.inbox), gs, info, SESSION_LIMIT);
                v == r.0 && (v != Crashed ==> box.Abs() == r.1 && sock.outbox == old(sock.outbox) + r.2)
    {
      hide Receive, RunSession, Moved, Reachable, Follows, T.Reliable;
      ghost var st0, in0, out0, steady := box.Abs(), sock.inbox, sock.outbox, sock.Steady();
      ghost var sent: Bytes := [];
      var messages := 0;
      StartReached(box.img, st0);
      FollowsStart(box.img, st0, in0, gs, info);
      while messages < SESSION_LIMIT
        invariant messages <= SESSION_LIMIT && Valid() && fresh(box.Repr - old(box.Repr))
        invariant Reachable(box.img, st0, box.Abs())
        invariant steady ==>
                    && sock.Steady() && sock.outbox == out0 + sent
                    && Follows(box.img, st0, in0, gs, info, messages, box.Abs(), sock.inbox, sent)
      {
        ghost var st1, in1 := box.Abs(), sock.inbox;
        var quit, _, crashed := ReadMessage(gs(SESSION_LIMIT - messages));
        if steady {
          FollowsOn(box.img, st0, in0, gs, info, messages, st1, in1, sent);
        }
        if crashed {
          return Crashed;
        }
        MovedOn(box.img, st0, st1, box.Abs());
        if quit == SANDBOX_ERR_CLOSED {
          return ClientClosed;
        }
        if quit < 0 {
          return ThreadExit(quit);
        }
        if steady {
          sent := sent + Receive(box.img, st1, in1, gs(SESSION_LIMIT - messages), info).reply;
        }
        messages := messages + 1;
      }
      FollowsEnd(box.img, st0, in0, gs, info, box.Abs(), sock.inbox, sent);
      v := LimitReached;
    }
  }

  lemma StayedPut(img: Image, s: State)
    requires StateOk(img, s)
    ensures Moved(img, s, s)
  {
  }

  lemma StartReached(img: Image, s: State)
    requires StateOk(img, s)
    ensures Reachable(img, s, s)
  {
    assert Defined(img, s, []) && StateAfter(img, s, []) == s;
  }

  lemma MovedByApply(img: Image, s: State, p: Bytes, g: Grants)
    requires StateOk(img, s) && ApplySpec(img, s, p, g).0.Returns?
    ensures Moved(img, s, ApplySpec(img, s, p, g).1)
  {
    hide ApplySpec;
    assert Step(img, s, Apply(p, g)) == ApplySpec(img, s, p, g);
  }

  lemma MovedByUndo(img: Image, s: State, sha1: PatchData.Sha1)
    requires StateOk(img, s)
    ensures Moved(img, s, UndoSpec(img, s, sha1).1)
  {
    hide UndoSpec;
    assert Step(img, s, Undo(sha1)).1 == UndoSpec(img, s, sha1).1;
  }

  lemma ShortReply(id: nat, field: Bytes)
    requires |field| == 4
    ensures Reply(id, field).0 == SANDBOX_OK
  {
    FieldLength(field);
    hide T.LenField, T.Message;
  }

  // After some messages of a session, what is still to come completes what
  // has been sent.
  ghost predicate Follows(img: Image, st0: State, in0: Bytes, gs: nat -> Grants, info: Bytes, messages: nat, st: State,
                          stream: Bytes, sent: Bytes)
  {
    && messages <= SESSION_LIMIT && StateOk(img, st0) && StateOk(img, st)
    && var a := RunSession(img, st0, in0, gs, info, SESSION_LIMIT);
       var b := RunSession(img, st, stream, gs, info, SESSION_LIMIT - messages);
       a == (b.0, b.1, sent + b.2)
  }

  lemma FollowsStart(img: Image, st0: State, in0: Bytes, gs: nat -> Grants, info: Bytes)
    requires StateOk(img, st0)
    ensures Follows(img, st0, in0, gs, info, 0, st0, in0, [])
  {
    hide RunSession, StateOk;
    var a := RunSession(img, st0, in0, gs, info, SESSION_LIMIT);
    assert [] + a.2 == a.2;
  }

  // The next message either ends the session or is one more step of it.
  lemma FollowsOn(img: Image, st0: State, in0: Bytes, gs: nat -> Grants, info: Bytes, messages: nat, st: State,
                  stream: Bytes, sent: Bytes)
    requires messages < SESSION_LIMIT && Follows(img, st0, in0, gs, info, messages, st, stream, sent)
    ensures var a := RunSession(img, st0, in0, gs, info, SESSION_LIMIT);
            match Receive(img, st, stream, gs(SESSION_LIMIT - messages), info)
            case Crash => a.0 == Crashed
            case Served(code, st', rest, reply, _) =>
              if code == SANDBOX_ERR_CLOSED then a == (ClientClosed, st', sent + reply)
              else if code < 0 then a == (ThreadExit(code), st', sent + reply)
              else Follows(img, st0, in0, gs, info, messages + 1, st', rest, sent + reply)
  {
    hide Receive, StateOk;
    match Receive(img, st, stream, gs(SESSION_LIMIT - messages), info)
    case Crash =>
    case Served(code, st', rest, reply, _) =>
      ReceiveKeepsState(img, st, stream, gs(SESSION_LIMIT - messages), info);
      if code >= 0 {
        var b := RunSession(img, st', rest, gs, info, SESSION_LIMIT - messages - 1);
        assert sent + (reply + b.2) == (sent + reply) + b.2;
      }
  }

  lemma FollowsEnd(img: Image, st0: State, in0: Bytes, gs: nat -> Grants, info: Bytes, st: State, stream: Bytes,
                   sent: Bytes)
    ensures Follows(img, st0, in0, gs, info, SESSION_LIMIT, st, stream, sent) ==>
              RunSession(img, st0, in0, gs, info, SESSION_LIMIT) == (LimitReached, st, sent)
  {
    hide StateOk;
    assert sent + [] == sent;
  }

  lemma HeaderWords(s: Bytes)
    requires |s| >= 16
    ensures s[..16][..4] == s[..4] && s[..16][4..6] == s[4..6] && s[..16][6..8] == s[6..8]
    ensures Word32(s[..16], 8) == Word32(s, 8)
  {
    assert s[..16][8..12] == s[8..12];
  }
}
