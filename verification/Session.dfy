// Messages and sessions (sandbox-listen.c: read_sandbox_message_header, the
// dispatchers, and the inner loop of listen_thread), on byte streams.
module Session {
  import opened Codes
  import opened Words
  import opened PatchData
  import opened Payload
  import opened Mapper
  import opened Server
  import opened Engine
  import Overlay
  import T = Transport

  const MSG_APPLY: nat := 1
  const MSG_APPLYRSP: nat := 2
  const MSG_LIST: nat := 3
  const MSG_LISTRSP: nat := 4
  const MSG_GET_BLD: nat := 5
  const MSG_GET_BLDRSP: nat := 6
  const MSG_UNDO_REQ: nat := 9
  const MSG_UNDO_REP: nat := 10

  const SESSION_LIMIT: nat := 100
  const LIST_ENTRY_SIZE: nat := 352  // sizeof (struct xenlp_patch_info3)

  datatype Frame = Closed | Rejected(code: int) | Framed(id: nat, len: nat, rest: Bytes)

  // The header takes 16 bytes from the stream, the first field's length word
  // included; that word is not looked at.
  function ReadFrame(stream: Bytes): Frame {
    if |stream| < T.SANDBOX_MSG_HDRLEN then Closed
    else
      var id, len := UnLE(stream[6..8]), Word32(stream, 8);
      if stream[..4] != T.SAND then Rejected(SANDBOX_ERR_BAD_HDR)
      else if UnLE(stream[4..6]) != T.SANDBOX_MSG_VERSION then Rejected(SANDBOX_ERR_BAD_VER)
      else if id < MSG_APPLY || id > MSG_UNDO_REP then Rejected(SANDBOX_ERR_BAD_MSGID)
      else if len > T.SANDBOX_ALLOC_SIZE then Rejected(SANDBOX_ERR_BAD_LEN)
      else Framed(id, len, stream[16..])
  }

  function CodeWord(code: int): (s: Bytes)
    ensures |s| == 4
  {
    LE(4, code % W32)
  }

  // send_rr_buf with one field: result and bytes sent.
  function Reply(id: nat, field: Bytes): (int, Bytes) {
    if T.LenField([field]) > T.SANDBOX_ALLOC_SIZE then (SANDBOX_ERR_RW, [])
    else (SANDBOX_OK, T.Message(id, [field]))
  }

  // A list entry carries the hash and the blob's address, and zeros.
  function ListEntry(ap: Applied): (s: Bytes)
    ensures |s| == LIST_ENTRY_SIZE
  {
    LE(8, ap.pm.addr) + ap.sha1 + Zeros(324)
  }

  function ListEntries(applied: seq<Applied>): (xs: seq<Bytes>)
    ensures |xs| == |applied|
    ensures forall i {:trigger xs[i]} :: 0 <= i < |xs| ==> xs[i] == ListEntry(applied[i]) && |xs[i]| == LIST_ENTRY_SIZE
  {
    seq(|applied|, i requires 0 <= i < |applied| => ListEntry(applied[i]))
  }

  function ListBytes(applied: seq<Applied>): Bytes {
    LE(4, |applied| % W32) + Cat(LIST_ENTRY_SIZE, ListEntries(applied), |applied|)
  }

  // What handling one message gives: the code the header reader returns, the
  // server's state, the unread stream, the bytes sent back, and the buffer a
  // response leaves for the caller. Crash: behaviour is undefined.
  datatype Served =
    | Served(code: int, st: State, rest: Bytes, reply: Bytes, buf: Option<Bytes>)
    | Crash

  function ServeApply(img: Image, st: State, len: nat, rest: Bytes, g: Grants): Served
    requires StateOk(img, st)
  {
    var remaining := (len - T.SANDBOX_MSG_HDRLEN) % W32;
    if remaining >= T.SANDBOX_ALLOC_SIZE then
      Served(SANDBOX_ERR_PARSE, st, rest, Reply(MSG_APPLYRSP, CodeWord(SANDBOX_ERR_PARSE)).1, None)
    else if !g.buffer then
      Served(SANDBOX_ERR_NOMEM, st, rest, Reply(MSG_APPLYRSP, CodeWord(SANDBOX_ERR_NOMEM)).1, None)
    else if |rest| < remaining then
      Served(SANDBOX_ERR_RW, st, [], Reply(MSG_APPLYRSP, CodeWord(SANDBOX_ERR_RW)).1, None)
    else
      var (r, st') := ApplySpec(img, st, rest[..remaining], g);
      match r
      case Undefined => Crash
      case Returns(code) =>
        Served(code, st', rest[remaining..], Reply(MSG_APPLYRSP, CodeWord(code)).1, None)
  }

  function ServeList(st: State, rest: Bytes, g: Grants): (r: Served)
    ensures r.Served? ==> r.st == st
  {
    if st.applied != [] && !g.buffer then Served(SANDBOX_ERR_NOMEM, st, rest, [], None)
    else
      var (code, sent) := Reply(MSG_LISTRSP, ListBytes(st.applied));
      Served(code, st, rest, sent, None)
  }

  // The request holds a 20-byte hash; any other remaining length is refused
  // without reading further.
  function ServeUndo(img: Image, st: State, len: nat, rest: Bytes): Served
    requires StateOk(img, st)
  {
    if len != T.SANDBOX_MSG_HDRLEN + 4 + 20 then
      Served(SANDBOX_OK, st, rest, Reply(MSG_UNDO_REP, CodeWord(SANDBOX_ERR_PARSE)).1, None)
    else if |rest| < 20 then
      Served(SANDBOX_OK, st, [], Reply(MSG_UNDO_REP, CodeWord(SANDBOX_ERR_RW)).1, None)
    else
      var (code, st') := UndoSpec(img, st, rest[..20]);
      Served(SANDBOX_OK, st', rest[20..], Reply(MSG_UNDO_REP, CodeWord(code)).1, None)
  }

  // Both small responses read one word whatever the length says.
  function ReadCode(st: State, rest: Bytes, short: int): (r: Served)
    ensures r.Served? ==> r.st == st
  {
    if |rest| < 4 then Served(short, st, [], [], None)
    else Served(Signed32(Word32(rest, 0)), st, rest[4..], [], None)
  }

  // The buffer has room for one list entry and a count beyond the message; a
  // length below the header's makes the read run to the end of the stream.
  function ReadListResponse(st: State, len: nat, rest: Bytes, g: Grants): (r: Served)
    ensures r.Served? ==> r.st == st
  {
    var remaining := len - T.SANDBOX_MSG_HDRLEN;
    if !g.buffer then Served(SANDBOX_ERR_NOMEM, st, rest, [], None)
    else if remaining < 0 then
      if |rest| > remaining + LIST_ENTRY_SIZE + 4 then Crash else Served(SANDBOX_ERR_PARSE, st, [], [], None)
    else if |rest| < remaining then Served(SANDBOX_ERR_PARSE, st, [], [], None)
    else Served(SANDBOX_OK, st, rest[remaining..], [], Some(rest[..remaining] + Zeros(LIST_ENTRY_SIZE + 4)))
  }

  function ReadInfoResponse(st: State, len: nat, rest: Bytes, g: Grants): (r: Served)
    ensures r.Served? ==> r.st == st
  {
    var remaining := len - T.SANDBOX_MSG_HDRLEN;
    if !g.buffer || remaining < -1 then Served(SANDBOX_ERR_NOMEM, st, rest, [], None)
    else if remaining == -1 then if |rest| > 0 then Crash else Served(SANDBOX_ERR_RW, st, [], [], Some([]))
    else if |rest| < remaining then
      Served(SANDBOX_ERR_RW, st, [], [], Some(rest + Zeros(remaining + 1 - |rest|)))
    else Served(SANDBOX_OK, st, rest[remaining..], [], Some(rest[..remaining] + [0]))
  }

  // read_sandbox_message_header past its checks. The same code runs on both
  // ends; a client passes a state of its own that nothing reads.
  function Dispatch(img: Image, st: State, id: nat, len: nat, rest: Bytes, g: Grants, info: Bytes): Served
    requires StateOk(img, st)
  {
    if id == MSG_APPLY then ServeApply(img, st, len, rest, g)
    else if id == MSG_APPLYRSP then ReadCode(st, rest, SANDBOX_ERR_PARSE)
    else if id == MSG_LIST then ServeList(st, rest, g)
    else if id == MSG_LISTRSP then ReadListResponse(st, len, rest, g)
    else if id == MSG_GET_BLD then
      var (code, sent) := Reply(MSG_GET_BLDRSP, info);
      Served(code, st, rest, sent, None)
    else if id == MSG_GET_BLDRSP then ReadInfoResponse(st, len, rest, g)
    else if id == MSG_UNDO_REQ then ServeUndo(img, st, len, rest)
    else if id == MSG_UNDO_REP then ReadCode(st, rest, SANDBOX_ERR_RW)
    else Served(SANDBOX_ERR_BAD_MSGID, st, rest, [], None)
  }

  function Receive(img: Image, st: State, stream: Bytes, g: Grants, info: Bytes): Served
    requires StateOk(img, st)
  {
    match ReadFrame(stream)
    case Closed => Served(SANDBOX_ERR_CLOSED, st, [], [], None)
    case Rejected(code) => Served(code, st, stream[if |stream| < 16 then 0 else 16..], [], None)
    case Framed(id, len, rest) => Dispatch(img, st, id, len, rest, g, info)
  }

  lemma ServeKeepsOk(img: Image, st: State, len: nat, rest: Bytes, g: Grants)
    requires StateOk(img, st)
    ensures ServeApply(img, st, len, rest, g).Served? ==> StateOk(img, ServeApply(img, st, len, rest, g).st)
    ensures ServeUndo(img, st, len, rest).Served? ==> StateOk(img, ServeUndo(img, st, len, rest).st)
  {
    hide ApplySpec, UndoSpec, Reply, CodeWord, StateOk;
    var remaining := (len - T.SANDBOX_MSG_HDRLEN) % W32;
    if remaining <= |rest| {
      ApplyKeepsState(img, st, rest[..remaining], g);
    }
    if |rest| >= 20 {
      UndoKeepsState(img, st, rest[..20]);
    }
  }

  lemma ReceiveKeepsState(img: Image, st: State, stream: Bytes, g: Grants, info: Bytes)
    requires StateOk(img, st)
    ensures Receive(img, st, stream, g, info).Served? ==> StateOk(img, Receive(img, st, stream, g, info).st)
  {
    hide ReadFrame, ServeApply, ServeUndo, ServeList, ReadCode, ReadListResponse, ReadInfoResponse, Reply, StateOk;
    match ReadFrame(stream)
    case Framed(id, len, rest) => ServeKeepsOk(img, st, len, rest, g);
    case _ =>
  }

  // --- Sessions -----------------------------------------------------------------------

  // How the inner loop of the listener ends: the client closed, the message
  // limit was reached, or a negative code ended the listener thread.
  datatype Verdict = ClientClosed | LimitReached | ThreadExit(code: int) | Crashed

  function RunSession(img: Image, st: State, stream: Bytes, gs: nat -> Grants, info: Bytes, budget: nat)
    : (Verdict, State, Bytes)
    requires StateOk(img, st)
    decreases budget
  {
    if budget == 0 then (LimitReached, st, [])
    else
      match Receive(img, st, stream, gs(budget), info)
      case Crash => (Crashed, st, [])
      case Served(code, st', rest, reply, _) =>
        if code == SANDBOX_ERR_CLOSED then (ClientClosed, st', reply)
        else if code < 0 then (ThreadExit(code), st', reply)
        else
          ReceiveKeepsState(img, st, stream, gs(budget), info);
          var (v, st'', replies) := RunSession(img, st', rest, gs, info, budget - 1);
          (v, st'', reply + replies)
  }

  // --- What the client sends -------------------------------------------------------------

  datatype Call = ApplyCall(payload: Bytes) | ListCall | InfoCall | UndoCall(sha1: Sha1)

  // The undo request carries a whole xenlp_hash, four bytes more than the hash.
  function CallBytes(c: Call): Bytes {
    match c
    case ApplyCall(payload) => T.Message(MSG_APPLY, [payload])
    case ListCall => T.Message(MSG_LIST, [])
    case InfoCall => T.Message(MSG_GET_BLD, [])
    case UndoCall(sha1) => T.Message(MSG_UNDO_REQ, [sha1 + Zeros(4)])
  }

  // send_rr_buf refuses anything longer.
  predicate Sendable(c: Call) {
    c.ApplyCall? ==> T.SANDBOX_MSG_HDRLEN + |c.payload| <= T.SANDBOX_ALLOC_SIZE
  }

  function Stream(cs: seq<Call>, i: nat): Bytes
    requires i <= |cs|
    decreases |cs| - i
  {
    if i == |cs| then [] else CallBytes(cs[i]) + Stream(cs, i + 1)
  }

  // A one-field or empty message is framed as sent: the reader accepts it,
  // recovers its field and knows where it ends.
  lemma FramedAsSent(id: nat, fields: seq<Bytes>, rest: Bytes)
    requires MSG_APPLY <= id <= MSG_UNDO_REP && |fields| <= 1
    requires T.SANDBOX_MSG_HDRLEN + (if fields == [] then 0 else |fields[0]|) <= T.SANDBOX_ALLOC_SIZE
    ensures var field := if fields == [] then [] else fields[0];
            ReadFrame(T.Message(id, fields) + rest) == Framed(id, T.SANDBOX_MSG_HDRLEN + |field|, field + rest)
    ensures T.LenField(fields) <= T.SANDBOX_ALLOC_SIZE
  {
    var field := if fields == [] then [] else fields[0];
    var m := T.Message(id, fields);
    MessageParts(id, fields);
    hide T.Message, LE, ReadFrame, T.LenField;
    var s := m + rest;
    AppendSlices(m, rest);
    ReadFrameIs(s, id, T.SANDBOX_MSG_HDRLEN + |field|);
  }

  lemma AppendSlices(m: Bytes, rest: Bytes)
    requires |m| >= 16
    ensures var s := m + rest;
            && s[..4] == m[..4] && s[4..6] == m[4..6] && s[6..8] == m[6..8] && s[8..12] == m[8..12]
            && s[16..] == m[16..] + rest
  {
  }

  lemma ReadFrameIs(s: Bytes, id: nat, len: nat)
    requires |s| >= 16 && s[..4] == T.SAND && s[4..6] == LE(2, T.SANDBOX_MSG_VERSION)
    requires s[6..8] == LE(2, id) && s[8..12] == LE(4, len)
    requires MSG_APPLY <= id <= MSG_UNDO_REP && len <= T.SANDBOX_ALLOC_SIZE
    ensures ReadFrame(s) == Framed(id, len, s[16..])
  {
    hide LE;
    BaseValues();
    UnLELE(2, T.SANDBOX_MSG_VERSION);
    UnLELE(2, id);
    WordAt(s, 8, len);
  }

  lemma MessageParts(id: nat, fields: seq<Bytes>)
    requires |fields| <= 1
    requires T.SANDBOX_MSG_HDRLEN + (if fields == [] then 0 else |fields[0]|) <= T.SANDBOX_ALLOC_SIZE
    ensures var field := if fields == [] then [] else fields[0];
            var m := T.Message(id, fields);
            && T.LenField(fields) == T.SANDBOX_MSG_HDRLEN + |field| == |m|
            && m[..4] == T.SAND && m[4..6] == LE(2, T.SANDBOX_MSG_VERSION) && m[6..8] == LE(2, id)
            && m[8..12] == LE(4, T.SANDBOX_MSG_HDRLEN + |field|) && m[16..] == field
  {
    hide LE;
    var field := if fields == [] then [] else fields[0];
    if fields != [] {
      assert T.LenAfter(fields, 1) == ((T.LenAfter(fields, 0) + 0) % W32 + |field|) % W32;
      assert T.FieldBytes(fields, 1) == T.FieldBytes(fields, 0) + LE(4, |field|) + field;
      assert T.FieldBytes(fields, 0) == [] && T.AllFields(fields) == LE(4, |field|) + field;
    }
    var len := T.SANDBOX_MSG_HDRLEN + |field|;
    assert T.LenField(fields) == len;
    HeadParts(id, len, T.AllFields(fields));
    var m := T.Message(id, fields);
    assert m == T.MessageHead(id, len) + T.AllFields(fields);
    hide T.Message, T.MessageHead, T.LenField;
    var word := if fields == [] then Zeros(4) else LE(4, |field|);
    assert T.AllFields(fields) == word + field;
    assert m[16..] == T.AllFields(fields)[4..] == field;
  }

  lemma HeadParts(id: nat, len: nat, tail: Bytes)
    ensures var m := T.MessageHead(id, len) + tail;
            && m[..4] == T.SAND && m[4..6] == LE(2, T.SANDBOX_MSG_VERSION) && m[6..8] == LE(2, id)
            && m[8..12] == LE(4, len) && m[12..] == tail
  {
    hide LE;
    var h := T.MessageHead(id, len);
    assert h[..4] == T.SAND && h[4..6] == LE(2, T.SANDBOX_MSG_VERSION) && h[6..8] == LE(2, id)
        && h[8..12] == LE(4, len);
  }

  // --- A session of well-formed requests ----------------------------------------------------

  datatype Answer = Answer(code: int, st: State, reply: Bytes) | NoAnswer

  // What the server does for one request.
  function Serve(img: Image, st: State, c: Call, g: Grants, info: Bytes): Answer
    requires StateOk(img, st)
  {
    match c
    case ApplyCall(payload) =>
      if !g.buffer then Answer(SANDBOX_ERR_NOMEM, st, Reply(MSG_APPLYRSP, CodeWord(SANDBOX_ERR_NOMEM)).1)
      else
        var (r, st') := ApplySpec(img, st, payload, g);
        if r == Undefined then NoAnswer else Answer(r.code, st', Reply(MSG_APPLYRSP, CodeWord(r.code)).1)
    case ListCall =>
      var r := ServeList(st, [], g);
      Answer(r.code, st, r.reply)
    case InfoCall =>
      var (code, sent) := Reply(MSG_GET_BLDRSP, info);
      Answer(code, st, sent)
    case UndoCall(sha1) =>
      var (code, st') := UndoSpec(img, st, sha1);
      Answer(SANDBOX_OK, st', Reply(MSG_UNDO_REP, CodeWord(code)).1)
  }

  lemma ServeKeepsState(img: Image, st: State, c: Call, g: Grants, info: Bytes)
    requires StateOk(img, st)
    ensures Serve(img, st, c, g, info).Answer? ==> StateOk(img, Serve(img, st, c, g, info).st)
    ensures Serve(img, st, c, g, info).Answer? ==> Serve(img, st, c, g, info).code != SANDBOX_ERR_CLOSED
  {
    hide ApplySpec, UndoSpec, Reply, ListBytes, CodeWord;
    match c
    case ApplyCall(payload) =>
      ApplyKeepsState(img, st, payload, g);
      ApplyCodes(img, st, payload, g);
    case UndoCall(sha1) => UndoKeepsState(img, st, sha1);
    case _ => ReplyCodes();
  }

  lemma ReplyCodes()
    ensures forall id, field :: Reply(id, field).0 in {SANDBOX_OK, SANDBOX_ERR_RW}
  {
  }

  // The requests one after another. A negative code ends the listener thread.
  // So does anything sent after an undo, because that request's last four
  // bytes are still unread when the next header is expected; an undo sent last
  // only leaves bytes that end with the stream.
  function Plan(img: Image, st: State, cs: seq<Call>, i: nat, gs: nat -> Grants, info: Bytes, budget: nat)
    : (Verdict, State, Bytes)
    requires StateOk(img, st) && i <= |cs|
    decreases budget
  {
    if budget == 0 then (LimitReached, st, [])
    else if i == |cs| then (ClientClosed, st, [])
    else
      match Serve(img, st, cs[i], gs(budget), info)
      case NoAnswer => (Crashed, st, [])
      case Answer(code, st', reply) =>
        if code < 0 then (ThreadExit(code), st', reply)
        else if cs[i].UndoCall? then
          (if budget == 1 then LimitReached
           else if i + 1 == |cs| then ClientClosed
           else ThreadExit(SANDBOX_ERR_BAD_HDR), st', reply)
        else
          ServeKeepsState(img, st, cs[i], gs(budget), info);
          var (v, st'', replies) := Plan(img, st', cs, i + 1, gs, info, budget - 1);
          (v, st'', reply + replies)
  }

  // One request at the front of the stream: it is served, and the reader stops
  // on the next boundary, or four bytes short of it after an undo.
  lemma CallServed(img: Image, st: State, c: Call, rest: Bytes, g: Grants, info: Bytes)
    requires StateOk(img, st) && Sendable(c)
    ensures var r, a := Receive(img, st, CallBytes(c) + rest, g, info), Serve(img, st, c, g, info);
            match a
            case NoAnswer => r == Crash
            case Answer(code, st', reply) =>
              && r.Served? && r.code == code && r.st == st' && r.reply == reply
              && (code >= 0 ==> r.rest == if c.UndoCall? then Zeros(4) + rest else rest)
  {
    hide ApplySpec, UndoSpec, Reply, ListBytes, CodeWord, Word32, T.Message, ReadFrame;
    match c {
      case ApplyCall(payload) =>
        FramedAsSent(MSG_APPLY, [payload], rest);
        assert (payload + rest)[..|payload|] == payload && (payload + rest)[|payload|..] == rest;
      case ListCall =>
        FramedAsSent(MSG_LIST, [], rest);
        assert [] + rest == rest;
      case InfoCall =>
        FramedAsSent(MSG_GET_BLD, [], rest);
        assert [] + rest == rest;
      case UndoCall(sha1) =>
        FramedAsSent(MSG_UNDO_REQ, [sha1 + Zeros(4)], rest);
        var s := sha1 + Zeros(4) + rest;
        assert s[..20] == sha1 && s[20..] == Zeros(4) + rest;
    }
  }

  // Four zero bytes, then nothing or another request: no header is found.
  lemma AfterUndo(cs: seq<Call>, i: nat)
    requires i <= |cs|
    ensures ReadFrame(Zeros(4) + Stream(cs, i)) == if i == |cs| then Frame.Closed else Rejected(SANDBOX_ERR_BAD_HDR)
  {
    hide LE, T.LenField;
    var s := Zeros(4) + Stream(cs, i);
    if i < |cs| {
      assert |s| >= 16 && s[..4] == Zeros(4);
      assert Zeros(4)[0] != T.SAND[0];
    }
  }

  // For every sequence of requests, every grant of memory and every message
  // limit, what the listener does with the bytes is what it does with the
  // requests: same verdict, same state, same replies.
  lemma {:induction false} SessionFollowsPlan(img: Image, st: State, cs: seq<Call>, i: nat, gs: nat -> Grants,
                                              info: Bytes, budget: nat)
    requires StateOk(img, st) && i <= |cs| && forall k :: 0 <= k < |cs| ==> Sendable(cs[k])
    ensures RunSession(img, st, Stream(cs, i), gs, info, budget) == Plan(img, st, cs, i, gs, info, budget)
    decreases budget
  {
    hide Receive, Serve, ReadFrame, CallBytes, StateOk;
    if budget > 0 {
      if i == |cs| {
        EmptyStream(img, st, gs(budget), info);
      } else {
        var c, rest, g := cs[i], Stream(cs, i + 1), gs(budget);
        CallServed(img, st, c, rest, g, info);
        ServeKeepsState(img, st, c, g, info);
        var a := Serve(img, st, c, g, info);
        if a.Answer? && a.code >= 0 {
          if c.UndoCall? {
            assert a.reply + [] == a.reply;
            if budget > 1 {
              LeftoverRead(img, a.st, cs, i + 1, gs(budget - 1), info);
              assert RunSession(img, a.st, Zeros(4) + rest, gs, info, budget - 1) ==
                     (if i + 1 == |cs| then ClientClosed else ThreadExit(SANDBOX_ERR_BAD_HDR), a.st, []);
            }
          } else {
            SessionFollowsPlan(img, a.st, cs, i + 1, gs, info, budget - 1);
          }
        }
      }
    }
  }

  lemma EmptyStream(img: Image, st: State, g: Grants, info: Bytes)
    requires StateOk(img, st)
    ensures Receive(img, st, [], g, info) == Served(SANDBOX_ERR_CLOSED, st, [], [], None)
  {
  }

  lemma LeftoverRead(img: Image, st: State, cs: seq<Call>, i: nat, g: Grants, info: Bytes)
    requires StateOk(img, st) && i <= |cs|
    ensures var r := Receive(img, st, Zeros(4) + Stream(cs, i), g, info);
            r.Served? && r.code == (if i == |cs| then SANDBOX_ERR_CLOSED else SANDBOX_ERR_BAD_HDR) && r.st == st &&
              r.reply == []
  {
    AfterUndo(cs, i);
    hide ReadFrame, Dispatch;
  }

  // --- What the client reads back --------------------------------------------------------

  // A code sent by the server is the code the client's reader returns.
  lemma CodeReadBack(img: Image, st: State, id: nat, code: int, rest: Bytes, g: Grants, info: Bytes)
    requires StateOk(img, st) && id in {MSG_APPLYRSP, MSG_UNDO_REP} && -0x8000_0000 <= code < 0x8000_0000
    ensures Receive(img, st, Reply(id, CodeWord(code)).1 + rest, g, info) == Served(code, st, rest, [], None)
  {
    var field := CodeWord(code);
    FramedAsSent(id, [field], rest);
    WordAt(field + rest, 0, code % W32) by { assert (field + rest)[0..4] == field; }
    hide CodeWord, Word32, T.Message, ReadFrame, T.LenField;
    assert (field + rest)[4..] == rest;
    SignedBack(code);
  }

  lemma SignedBack(code: int)
    requires -0x8000_0000 <= code < 0x8000_0000
    ensures Signed32(code % W32) == code
  {
  }

  // The list reply, when it fits a message, gives the client the number of
  // applied patches and, in list order, each one's hash and address.
  lemma ListReadBack(img: Image, st: State, client: State, rest: Bytes, g: Grants, info: Bytes)
    requires StateOk(img, client) && g.buffer
    requires T.SANDBOX_MSG_HDRLEN + |ListBytes(st.applied)| <= T.SANDBOX_ALLOC_SIZE
    requires forall k :: 0 <= k < |st.applied| ==> st.applied[k].pm.addr < W64
    ensures var r := Receive(img, client, ServeList(st, [], g).reply + rest, g, info);
            && r.Served? && r.code == SANDBOX_OK && r.rest == rest && r.buf.Some?
            && ListMatches(r.buf.value, st.applied)
  {
    hide ListBytes, Word32, T.Message, ReadFrame, T.LenField, ListMatches, StateOk, ServeApply, ServeUndo,
      ReadInfoResponse, ReadCode;
    var field := ListBytes(st.applied);
    FramedAsSent(MSG_LISTRSP, [field], rest);
    ListFields(st.applied, Zeros(LIST_ENTRY_SIZE + 4));
    assert (field + rest)[..|field|] == field && (field + rest)[|field|..] == rest;
  }

  predicate Fitting(field: Bytes) {
    T.SANDBOX_MSG_HDRLEN + |field| <= T.SANDBOX_ALLOC_SIZE
  }

  // A build-information reply, when it fits a message, gives the client the
  // text and a NUL behind it.
  lemma InfoReadBack(img: Image, client: State, text: Bytes, rest: Bytes, g: Grants, info: Bytes)
    requires StateOk(img, client) && g.buffer && Fitting(text)
    ensures Receive(img, client, Reply(MSG_GET_BLDRSP, text).1 + rest, g, info) ==
            Served(SANDBOX_OK, client, rest, [], Some(text + [0]))
  {
    hide T.Message, ReadFrame, T.LenField, StateOk, ServeList, ServeApply, ServeUndo, ReadListResponse, ReadCode;
    FramedAsSent(MSG_GET_BLDRSP, [text], rest);
    assert (text + rest)[..|text|] == text && (text + rest)[|text|..] == rest;
  }

  // What the reply to one request tells the client: a code, and for a list or
  // build information a buffer. Some answers are too long to be sent.
  datatype Heard = Heard(code: int, buf: Option<Bytes>)

  function Hears(img: Image, st: State, c: Call, g: Grants, info: Bytes): seq<Heard>
    requires StateOk(img, st)
  {
    match c
    case ApplyCall(payload) =>
      if !g.buffer then [Heard(SANDBOX_ERR_NOMEM, None)]
      else
        var r := ApplySpec(img, st, payload, g).0;
        if r == Undefined then [] else [Heard(r.code, None)]
    case ListCall =>
      if (st.applied == [] || g.buffer) && Fitting(ListBytes(st.applied))
      then [Heard(SANDBOX_OK, Some(ListBytes(st.applied) + Zeros(LIST_ENTRY_SIZE + 4)))] else []
    case InfoCall => if Fitting(info) then [Heard(SANDBOX_OK, Some(info + [0]))] else []
    case UndoCall(sha1) => [Heard(UndoSpec(img, st, sha1).0, None)]
  }

  // The same for a whole session.
  function AllHeard(img: Image, st: State, cs: seq<Call>, i: nat, gs: nat -> Grants, info: Bytes, budget: nat)
    : seq<Heard>
    requires StateOk(img, st) && i <= |cs|
    decreases budget
  {
    if budget == 0 || i == |cs| then []
    else
      match Serve(img, st, cs[i], gs(budget), info)
      case NoAnswer => []
      case Answer(code, st', _) =>
        var heard := Hears(img, st, cs[i], gs(budget), info);
        if code < 0 || cs[i].UndoCall? then heard
        else
          ServeKeepsState(img, st, cs[i], gs(budget), info);
          heard + AllHeard(img, st', cs, i + 1, gs, info, budget - 1)
  }

  // A client that reads n replies from the front of a stream.
  function ReadReplies(img: Image, client: State, stream: Bytes, n: nat, g: Grants, info: Bytes)
    : Option<(seq<Heard>, Bytes)>
    requires StateOk(img, client)
    decreases n
  {
    if n == 0 then Some(([], stream))
    else
      match Receive(img, client, stream, g, info)
      case Crash => None
      case Served(code, _, rest, _, buf) =>
        match ReadReplies(img, client, rest, n - 1, g, info)
        case None => None
        case Some((hs, rest')) => Some(([Heard(code, buf)] + hs, rest'))
  }

  lemma FittingReply(id: nat, field: Bytes)
    ensures if Fitting(field) then Reply(id, field) == (SANDBOX_OK, T.Message(id, [field]))
            else |field| < W32 - 16 ==> Reply(id, field) == (SANDBOX_ERR_RW, [])
  {
    FieldLength(field);
    hide T.Message, T.LenField;
  }

  lemma FieldLength(field: Bytes)
    ensures T.LenField([field]) == (T.SANDBOX_MSG_HDRLEN + |field|) % W32
  {
    assert T.LenAfter([field], 1) == ((T.LenAfter([field], 0) + 0) % W32 + |field|) % W32;
  }

  // The reply to one request, at the front of any stream, is read as a whole
  // and says what the request came to.
  lemma ReplyHeard(img: Image, st: State, client: State, c: Call, rest: Bytes, g: Grants, gc: Grants, info: Bytes,
                   local: Bytes)
    requires StateOk(img, st) && StateOk(img, client) && gc.buffer
    requires Serve(img, st, c, g, info).Answer? && Lengths(st, info)
    ensures var heard, reply := Hears(img, st, c, g, info), Serve(img, st, c, g, info).reply;
            if heard == [] then reply == []
            else |heard| == 1 &&
                 Receive(img, client, reply + rest, gc, local) == Served(heard[0].code, client, rest, [], heard[0].buf)
  {
    hide ApplySpec, UndoSpec, Reply, ListBytes, CodeWord, Receive, Fitting;
    match c {
      case ApplyCall(payload) =>
        ApplyCodes(img, st, payload, g);
        var code := if g.buffer then ApplySpec(img, st, payload, g).0.code else SANDBOX_ERR_NOMEM;
        CodeReadBack(img, client, MSG_APPLYRSP, code, rest, gc, local);
      case ListCall =>
        var field := ListBytes(st.applied);
        FittingReply(MSG_LISTRSP, field);
        if Fitting(field) {
          ListHeard(img, client, field, rest, gc, local);
        }
      case InfoCall =>
        FittingReply(MSG_GET_BLDRSP, info);
        if Fitting(info) {
          InfoReadBack(img, client, info, rest, gc, local);
        }
      case UndoCall(sha1) =>
        UndoCodes(img, st, sha1);
        CodeReadBack(img, client, MSG_UNDO_REP, UndoSpec(img, st, sha1).0, rest, gc, local);
    }
  }

  // No reply field is so long that its length wraps.
  predicate Lengths(st: State, info: Bytes) {
    |ListBytes(st.applied)| < W32 - 16 && |info| < W32 - 16
  }

  lemma UndoCodes(img: Image, st: State, sha1: Sha1)
    requires StateOk(img, st)
    ensures UndoSpec(img, st, sha1).0 in {0, -ENOENT, -ENXIO}
  {
    hide Overlay.Overlaid, UnmapSpec;
  }

  lemma ListHeard(img: Image, client: State, field: Bytes, rest: Bytes, g: Grants, info: Bytes)
    requires StateOk(img, client) && g.buffer && Fitting(field)
    ensures Receive(img, client, Reply(MSG_LISTRSP, field).1 + rest, g, info) ==
            Served(SANDBOX_OK, client, rest, [], Some(field + Zeros(LIST_ENTRY_SIZE + 4)))
  {
    hide T.Message, ReadFrame, T.LenField, StateOk, ServeList, ServeApply, ServeUndo, ReadInfoResponse, ReadCode;
    FramedAsSent(MSG_LISTRSP, [field], rest);
    assert (field + rest)[..|field|] == field && (field + rest)[|field|..] == rest;
  }

  lemma StepGrows(img: Image, st: State, c: Call, g: Grants, info: Bytes)
    requires StateOk(img, st) && Serve(img, st, c, g, info).Answer?
    ensures |Serve(img, st, c, g, info).st.applied| <= |st.applied| + 1
  {
    match c
    case ApplyCall(payload) =>
      ApplyAllOrNothing(img, st, payload, g);
      hide ApplySpec, Reply, CodeWord;
    case UndoCall(sha1) => hide Overlay.Overlaid, UnmapSpec, Reply, CodeWord;
    case _ => hide Reply, ListBytes;
  }

  // Ten million listed patches are far from making a list's length wrap.
  const FEW := 10_000_000

  lemma ShortEnough(st: State, info: Bytes)
    requires |st.applied| <= FEW && |info| <= FEW
    ensures Lengths(st, info)
  {
  }

  // The replies of a whole session, whatever stream they are at the front of:
  // the client reads exactly as many as were sent, each says what its request
  // came to, and reading stops where they end.
  lemma {:induction false} SessionHeard(img: Image, st: State, client: State, cs: seq<Call>, i: nat, rest: Bytes,
                                        gs: nat -> Grants, gc: Grants, info: Bytes, local: Bytes, budget: nat)
    requires StateOk(img, st) && StateOk(img, client) && gc.buffer && i <= |cs|
    requires |st.applied| + budget <= FEW && |info| <= FEW
    ensures var heard := AllHeard(img, st, cs, i, gs, info, budget);
            ReadReplies(img, client, Plan(img, st, cs, i, gs, info, budget).2 + rest, |heard|, gc, local) ==
            Some((heard, rest))
    decreases budget
  {
    hide Serve, StateOk, Hears, Receive, Plan, AllHeard, ReadReplies;
    SessionParts(img, st, cs, i, gs, info, budget);
    if budget > 0 && i < |cs| && Serve(img, st, cs[i], gs(budget), info).Answer? {
      var c, a := cs[i], Serve(img, st, cs[i], gs(budget), info);
      StepGrows(img, st, c, gs(budget), info);
      ShortEnough(st, info);
      if GoesOn(a, c) {
        ServeKeepsState(img, st, c, gs(budget), info);
        var more := AllHeard(img, a.st, cs, i + 1, gs, info, budget - 1);
        var tail := Plan(img, a.st, cs, i + 1, gs, info, budget - 1).2 + rest;
        SessionHeard(img, a.st, client, cs, i + 1, rest, gs, gc, info, local, budget - 1);
        ReplyHeard(img, st, client, c, tail, gs(budget), gc, info, local);
        HeardFirst(img, client, Hears(img, st, c, gs(budget), info), a.reply, tail, more, rest, gc, local);
        assert Plan(img, st, cs, i, gs, info, budget).2 + rest == a.reply + tail;
      } else {
        NoReplies(img, client, rest, gc, local);
        ReplyHeard(img, st, client, c, rest, gs(budget), gc, info, local);
        HeardFirst(img, client, Hears(img, st, c, gs(budget), info), a.reply, rest, [], rest, gc, local);
      }
    } else {
      assert [] + rest == rest;
      NoReplies(img, client, rest, gc, local);
    }
  }

  lemma NoReplies(img: Image, client: State, stream: Bytes, g: Grants, info: Bytes)
    requires StateOk(img, client)
    ensures ReadReplies(img, client, stream, 0, g, info) == Some(([], stream))
  {
  }

  predicate GoesOn(a: Answer, c: Call)
    requires a.Answer?
  {
    a.code >= 0 && !c.UndoCall?
  }

  // Replies and what they say, split after the first request.
  lemma SessionParts(img: Image, st: State, cs: seq<Call>, i: nat, gs: nat -> Grants, info: Bytes, budget: nat)
    requires StateOk(img, st) && i <= |cs|
    ensures var replies, heard := Plan(img, st, cs, i, gs, info, budget).2, AllHeard(img, st, cs, i, gs, info, budget);
            if budget > 0 && i < |cs| && Serve(img, st, cs[i], gs(budget), info).Answer? then
              var a, first := Serve(img, st, cs[i], gs(budget), info), Hears(img, st, cs[i], gs(budget), info);
              if GoesOn(a, cs[i]) then
                && StateOk(img, a.st)
                && replies == a.reply + Plan(img, a.st, cs, i + 1, gs, info, budget - 1).2
                && heard == first + AllHeard(img, a.st, cs, i + 1, gs, info, budget - 1)
              else replies == a.reply && heard == first + []
            else replies == [] && heard == []
  {
    hide Serve, StateOk, Hears;
    if budget > 0 && i < |cs| && Serve(img, st, cs[i], gs(budget), info).Answer? {
      ServeKeepsState(img, st, cs[i], gs(budget), info);
      var first := Hears(img, st, cs[i], gs(budget), info);
      assert first + [] == first;
    }
  }

  lemma HeardFirst(img: Image, client: State, heard: seq<Heard>, reply: Bytes, stream: Bytes, more: seq<Heard>,
                   rest: Bytes, g: Grants, info: Bytes)
    requires StateOk(img, client) && ReadReplies(img, client, stream, |more|, g, info) == Some((more, rest))
    requires if heard == [] then reply == []
             else |heard| == 1 &&
                  Receive(img, client, reply + stream, g, info) ==
                    Served(heard[0].code, client, stream, [], heard[0].buf)
    ensures ReadReplies(img, client, reply + stream, |heard + more|, g, info) == Some((heard + more, rest))
  {
    hide Receive, StateOk, ReadReplies;
    if heard == [] {
      assert reply + stream == stream && heard + more == more;
    } else {
      var h := heard[0];
      var n := |more| + 1;
      assert heard == [h] == [Heard(h.code, h.buf)] && |heard + more| == n;
      ReadOne(img, client, reply + stream, n, g, info);
    }
  }

  lemma ReadOne(img: Image, client: State, stream: Bytes, n: nat, g: Grants, info: Bytes)
    requires StateOk(img, client) && n > 0 && Receive(img, client, stream, g, info).Served?
    ensures var r := Receive(img, client, stream, g, info);
            var more := ReadReplies(img, client, r.rest, n - 1, g, info);
            ReadReplies(img, client, stream, n, g, info) ==
            if more.None? then None else Some(([Heard(r.code, r.buf)] + more.value.0, more.value.1))
  {
    hide Receive, StateOk;
  }

  // Requests out, replies back: what a client reads from the bytes the
  // listener sends in answer to its own bytes is what its requests came to.
  lemma ConversationAgrees(img: Image, st: State, client: State, cs: seq<Call>, gs: nat -> Grants, gc: Grants,
                           info: Bytes, local: Bytes, budget: nat)
    requires StateOk(img, st) && StateOk(img, client) && gc.buffer && forall k :: 0 <= k < |cs| ==> Sendable(cs[k])
    requires |st.applied| + budget <= FEW && |info| <= FEW
    ensures var heard := AllHeard(img, st, cs, 0, gs, info, budget);
            ReadReplies(img, client, RunSession(img, st, Stream(cs, 0), gs, info, budget).2, |heard|, gc, local) ==
            Some((heard, []))
  {
    hide RunSession, Plan, AllHeard, ReadReplies, Stream, StateOk;
    SessionFollowsPlan(img, st, cs, 0, gs, info, budget);
    var replies := Plan(img, st, cs, 0, gs, info, budget).2;
    SessionHeard(img, st, client, cs, 0, [], gs, gc, info, local, budget);
    assert replies + [] == replies;
  }

  ghost predicate ListMatches(buf: Bytes, applied: seq<Applied>) {
    && |buf| >= 4 + LIST_ENTRY_SIZE * |applied|
    && Word32(buf, 0) == |applied|
    && forall k :: 0 <= k < |applied| ==> EntryMatches(buf, 4 + LIST_ENTRY_SIZE * k, applied[k])
  }

  ghost predicate EntryMatches(buf: Bytes, at: nat, ap: Applied) {
    && at + LIST_ENTRY_SIZE <= |buf|
    && Word64(buf, at) == ap.pm.addr && buf[at + 8..at + 28] == ap.sha1
    && buf[at + 28..at + LIST_ENTRY_SIZE] == Zeros(324)
  }

  lemma ListFields(applied: seq<Applied>, pad: Bytes)
    requires |ListBytes(applied)| <= T.SANDBOX_ALLOC_SIZE
    requires forall k :: 0 <= k < |applied| ==> applied[k].pm.addr < W64
    ensures ListMatches(ListBytes(applied) + pad, applied)
  {
    var buf, n := ListBytes(applied) + pad, LIST_ENTRY_SIZE * |applied|;
    hide LE, Cat, Word32, ListEntry;
    assert buf[0..4] == LE(4, |applied|);
    WordAt(buf, 0, |applied|);
    assert buf[4..4 + n] == Cat(LIST_ENTRY_SIZE, ListEntries(applied), |applied|);
    CatInside(LIST_ENTRY_SIZE, ListEntries(applied), buf, 4);
    forall k | 0 <= k < |applied|
      ensures EntryMatches(buf, 4 + LIST_ENTRY_SIZE * k, applied[k])
    {
      assert RecordAt(buf, 4 + LIST_ENTRY_SIZE * k, LIST_ENTRY_SIZE, ListEntries(applied)[k]);
      EntryFields(buf, 4 + LIST_ENTRY_SIZE * k, applied[k]);
    }
  }

  lemma EntryFields(buf: Bytes, at: nat, ap: Applied)
    requires RecordAt(buf, at, LIST_ENTRY_SIZE, ListEntry(ap)) && ap.pm.addr < W64
    ensures EntryMatches(buf, at, ap)
  {
    hide LE;
    var r := buf[at..at + LIST_ENTRY_SIZE];
    assert buf[at..at + 8] == r[0..8] == LE(8, ap.pm.addr);
    SubSlice(buf, at, at + LIST_ENTRY_SIZE, 8, 28);
    assert r[8..28] == ap.sha1;
    SubSlice(buf, at, at + LIST_ENTRY_SIZE, 28, LIST_ENTRY_SIZE);
    assert r[28..LIST_ENTRY_SIZE] == Zeros(324);
    BaseValues();
    UnLELE(8, ap.pm.addr);
  }
}
