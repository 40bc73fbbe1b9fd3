// Byte transfer over the socket (sandbox-listen.c: readn, writen and
// send_rr_buf).
module Transport {
  import opened Codes
  import opened Words

  // How the next read or write call behaves: it moves at most n + 1 bytes, is
  // interrupted (EINTR or EAGAIN), or fails. Past the end of the plan each
  // call moves all it can.
  datatype IoStep = Chunk(n: nat) | Retry | Fail

  predicate Reliable(plan: seq<IoStep>) {
    forall i :: 0 <= i < |plan| ==> plan[i] != Fail
  }

  lemma ReliableTail(plan: seq<IoStep>)
    ensures Reliable([])
    ensures plan != [] && Reliable(plan) ==> plan[0] != Fail && Reliable(plan[1..])
  {
  }

  function Min(a: nat, b: nat): nat {
    if a <= b then a else b
  }

  lemma MinIs(n: nat, a: nat, k: nat)
    requires k <= n && k <= a && (k == n || k == a)
    ensures k == Min(n, a)
  {
  }

  // One end of the connection: what the peer will send before it closes, and
  // what this end has sent.
  class Socket {
    var inbox: Bytes
    var outbox: Bytes
    var readPlan: seq<IoStep>
    var writePlan: seq<IoStep>

    constructor (inbox: Bytes, readPlan: seq<IoStep>, writePlan: seq<IoStep>)
      ensures this.inbox == inbox && outbox == [] && this.readPlan == readPlan && this.writePlan == writePlan
    {
      this.inbox, outbox, this.readPlan, this.writePlan := inbox, [], readPlan, writePlan;
    }

    predicate Steady()
      reads this
    {
      Reliable(readPlan) && Reliable(writePlan)
    }

    // read(2): -1 with errno, 0 at end of stream, else at least one byte.
    method Read(buf: array<Byte>, at: nat, n: nat) returns (nread: int, again: bool)
      requires n > 0 && at + n <= buf.Length
      modifies this`inbox, this`readPlan, buf
      ensures readPlan == if old(readPlan) == [] then [] else old(readPlan)[1..]
      ensures nread < 0 ==> old(readPlan) != [] && old(readPlan)[0] == (if again then Retry else Fail)
      ensures nread < 0 ==> inbox == old(inbox) && buf[..] == old(buf[..])
      ensures nread >= 0 ==> nread <= n && nread <= |old(inbox)| && (nread == 0 <==> old(inbox) == [])
      ensures nread >= 0 ==> inbox == old(inbox)[nread..]
      ensures nread >= 0 ==> buf[..] == Splice(old(buf[..]), at, old(inbox)[..nread])
      ensures old(readPlan) == [] ==> nread == Min(n, |old(inbox)|)
    {
      var k := Min(n, |inbox|);
      again := false;
      if readPlan != [] {
        var step := readPlan[0];
        readPlan := readPlan[1..];
        match step {
          case Chunk(c) => k := Min(k, c + 1);
          case Retry => return -1, true;
          case Fail => return -1, false;
        }
      }
      ghost var old_ := buf[..];
      forall i | 0 <= i < k {
        buf[at + i] := inbox[i];
      }
      assert buf[..] == old_[..at] + inbox[..k] + old_[at + k..];
      nread := k;
      inbox := inbox[k..];
    }

    // write(2): an error, or the number of bytes taken, at least one.
    method Write(data: Bytes) returns (nwritten: int, again: bool)
      requires data != []
      modifies this`outbox, this`writePlan
      ensures writePlan == if old(writePlan) == [] then [] else old(writePlan)[1..]
      ensures nwritten <= 0 ==> old(writePlan) != [] && outbox == old(outbox)
      ensures nwritten <= 0 ==> old(writePlan)[0] == (if nwritten < 0 && again then Retry else Fail)
      ensures nwritten > 0 ==> nwritten <= |data| && outbox == old(outbox) + data[..nwritten]
      ensures old(writePlan) == [] ==> nwritten == |data|
    {
      var k := |data|;
      again := false;
      if writePlan != [] {
        var step := writePlan[0];
        writePlan := writePlan[1..];
        match step {
          case Chunk(c) => k := Min(k, c + 1);
          case Retry => return -1, true;
          case Fail => return 0, false;
        }
      }
      nwritten := k;
      outbox := outbox + data[..k];
    }

    // One pass of readn's loop, seen from the copy so far.
    method ReadStep(buf: array<Byte>, ptr: nat, nleft: nat, ghost buf0: Bytes, ghost in0: Bytes, ghost at: nat)
      returns (nread: int, again: bool)
      requires nleft > 0 && at <= ptr && ptr + nleft <= buf.Length
      requires Copied(buf0, in0, at, ptr - at, buf[..], inbox)
      modifies this`inbox, this`readPlan, buf
      ensures nread < 0 ==> Copied(buf0, in0, at, ptr - at, buf[..], inbox)
      ensures nread >= 0 ==> nread <= nleft && Copied(buf0, in0, at, ptr - at + nread, buf[..], inbox)
      ensures nread == 0 ==> ptr - at == |in0|
      ensures Reliable(old(readPlan)) ==> Reliable(readPlan) && (nread >= 0 || again)
      ensures |readPlan| < |old(readPlan)| || (readPlan == old(readPlan) == [] && nread >= 0)
    {
      CopiedSizes(buf0, in0, at, ptr - at, buf[..], inbox);
      ReliableTail(readPlan);
      hide Copied, Splice, Reliable;
      ghost var buf1, in1 := buf[..], inbox;
      nread, again := Read(buf, ptr, nleft);
      if nread >= 0 {
        CopiedMore(buf0, in0, at, ptr - at, buf1, in1, nread);
      } else {
        assert buf[..] == buf1 && inbox == in1;
      }
    }

    // Collects n bytes however the reads are cut up or interrupted. Without a
    // hard error it is one atomic copy of min(n, available) bytes.
    method Readn(buf: array<Byte>, at: nat, n: nat) returns (r: int)
      requires at + n <= buf.Length
      modifies this`inbox, this`readPlan, buf
      ensures Reliable(old(readPlan)) ==> r >= 0 && Reliable(readPlan)
      ensures r >= 0 ==> r == Min(n, |old(inbox)|)
      ensures r >= 0 ==> Copied(old(buf[..]), old(inbox), at, r, buf[..], inbox)
      ensures r < 0 ==> r == -1 && exists k: nat :: k < n && Copied(old(buf[..]), old(inbox), at, k, buf[..], inbox)
    {
      ghost var in0, buf0 := inbox, buf[..];
      hide Copied, Splice, Reliable, Min;
      CopiedStart(buf0, in0, at);
      var nleft: nat, ptr: nat := n, at;
      while nleft > 0
        invariant nleft <= n && ptr == at + (n - nleft)
        invariant Copied(buf0, in0, at, n - nleft, buf[..], inbox)
        invariant Reliable(old(readPlan)) ==> Reliable(readPlan)
        decreases |readPlan|, nleft
      {
        var nread, again := ReadStep(buf, ptr, nleft, buf0, in0, at);
        if nread < 0 {
          if again {
            nread := 0;
          } else {
            return -1;
          }
        } else if nread == 0 {
          break;
        }
        nleft := nleft - nread;
        ptr := ptr + nread;
      }
      r := n - nleft;
      CopiedSizes(buf0, in0, at, r, buf[..], inbox);
      MinIs(n, |in0|, r);
    }

    // Sends all n bytes in order, or reports an error.
    method Writen(data: Bytes) returns (r: int)
      modifies this`outbox, this`writePlan
      ensures Reliable(old(writePlan)) ==> r >= 0 && Reliable(writePlan)
      ensures r >= 0 ==> r == |data| && outbox == old(outbox) + data
      ensures r < 0 ==> r == -1 && BrokenOff(data, old(outbox), outbox)
    {
      var nleft: nat, ptr: nat := |data|, 0;
      assert outbox == old(outbox) + data[..0];
      while nleft > 0
        invariant nleft + ptr == |data| && outbox == old(outbox) + data[..ptr]
        invariant Reliable(old(writePlan)) ==> Reliable(writePlan)
        decreases |writePlan|, nleft
      {
        var nwritten, again := Write(data[ptr..]);
        if nwritten <= 0 {
          if nwritten < 0 && again {
            nwritten := 0;
          } else {
            return -1;
          }
        }
        assert data[..ptr] + data[ptr..][..nwritten] == data[..ptr + nwritten];
        nleft := nleft - nwritten;
        ptr := ptr + nwritten;
      }
      assert data[..ptr] == data;
      r := |data|;
    }

    // The length field: the header counts the first field's length word.
    static method MessageLength(fields: seq<Bytes>) returns (len: nat)
      ensures len == LenField(fields)
    {
      len := SANDBOX_MSG_HDRLEN;
      for index := 0 to |fields|
        invariant len == LenAfter(fields, index)
      {
        if index > 0 {
          len := (len + 4) % W32;
        }
        len := (len + |fields[index]|) % W32;
      }
    }

    // send_rr_buf: header and fields. Only errors on the header are reported;
    // a field that cannot be written is cut short and the next one is tried.
    method SendRrBuf(id: nat, fields: seq<Bytes>) returns (r: int)
      requires id < W16 && |fields| <= SANDBOX_MAX_ARG
      modifies this`outbox, this`writePlan
      ensures Reliable(old(writePlan)) ==> Reliable(writePlan)
      ensures LenField(fields) > SANDBOX_ALLOC_SIZE ==> r == SANDBOX_ERR_RW && outbox == old(outbox)
      ensures LenField(fields) <= SANDBOX_ALLOC_SIZE ==>
                if r == SANDBOX_OK then
                  CutShort(fields, old(outbox) + MessageHead(id, LenField(fields)), outbox)
                else r == SANDBOX_ERR_RW && BrokenOff(MessageHead(id, LenField(fields)), old(outbox), outbox)
      ensures LenField(fields) <= SANDBOX_ALLOC_SIZE && Reliable(old(writePlan)) ==>
                r == SANDBOX_OK && outbox == old(outbox) + Message(id, fields)
    {
      hide CutShort, LenAfter, MessageHead, AllFields, BrokenOff, Reliable;
      var len := MessageLength(fields);
      if len > SANDBOX_ALLOC_SIZE {
        return SANDBOX_ERR_RW;
      }
      ghost var out0, ok := outbox, Reliable(writePlan);
      var sent := SendHead(id, len);
      if !sent {
        return SANDBOX_ERR_RW;
      }
      SendFields(fields);
      assert ok ==> outbox == out0 + Message(id, fields);
      r := SANDBOX_OK;
    }

    method SendHead(id: nat, len: nat) returns (ok: bool)
      modifies this`outbox, this`writePlan
      ensures Reliable(old(writePlan)) ==> ok && Reliable(writePlan)
      ensures if ok then outbox == old(outbox) + MessageHead(id, len)
              else BrokenOff(MessageHead(id, len), old(outbox), outbox)
    {
      hide LE;
      ghost var out0, head := outbox, MessageHead(id, len);
      assert head[..4] == SAND && head[..6] == SAND + LE(2, SANDBOX_MSG_VERSION);
      assert head[..8] == SAND + LE(2, SANDBOX_MSG_VERSION) + LE(2, id);
      var n := Writen(SAND);
      if n != 4 {
        BreaksOff(head, out0, outbox, [], SAND);
        return false;
      }
      n := Writen(LE(2, SANDBOX_MSG_VERSION));
      if n != 2 {
        BreaksOff(head, out0, outbox, head[..4], LE(2, SANDBOX_MSG_VERSION));
        return false;
      }
      n := Writen(LE(2, id));
      if n != 2 {
        BreaksOff(head, out0, outbox, head[..6], LE(2, id));
        return false;
      }
      n := Writen(LE(4, len));
      if n != 4 {
        BreaksOff(head, out0, outbox, head[..8], LE(4, len));
        return false;
      }
      ok := true;
    }

    // The results of these writes are not looked at.
    method SendFields(fields: seq<Bytes>)
      modifies this`outbox, this`writePlan
      ensures CutShort(fields, old(outbox), outbox)
      ensures Reliable(old(writePlan)) ==> Reliable(writePlan) && outbox == old(outbox) + AllFields(fields)
    {
      hide LE, LastCut, FieldCut, AllFields;
      ghost var out0, ok := outbox, Reliable(writePlan);
      ghost var sent: Bytes := [];
      if |fields| == 0 {
        var n := Writen(Zeros(4));
        sent := Took(Zeros(4), out0, outbox, n);
        NoFields(fields);
        return;
      }
      NothingCut(fields);
      assert outbox == out0 + FieldBytes(fields, 0);
      for index := 0 to |fields|
        invariant outbox == out0 + sent && FieldsCut(fields, index, sent)
        invariant ok ==> Reliable(writePlan) && outbox == out0 + FieldBytes(fields, index)
      {
        ghost var out1 := outbox;
        var n := Writen(LE(4, |fields[index]|));
        ghost var a := Took(LE(4, |fields[index]|), out1, outbox, n);
        ghost var out2 := outbox;
        n := Writen(fields[index]);
        ghost var b := Took(fields[index], out2, outbox, n);
        sent := FieldSent(fields, index, out0, sent, a, b);
        Regroup(out0, FieldBytes(fields, index), LE(4, |fields[index]|), fields[index]);
      }
      NoFields(fields);
    }
  }

  lemma NoFields(fields: seq<Bytes>)
    ensures AllFields(fields) == if fields == [] then Zeros(4) else FieldBytes(fields, |fields|)
  {
  }

  lemma NothingCut(fields: seq<Bytes>)
    ensures FieldsCut(fields, 0, [])
  {
  }

  lemma FieldSent(fields: seq<Bytes>, n: nat, out0: Bytes, sent: Bytes, a: Bytes, b: Bytes) returns (sent': Bytes)
    requires n < |fields| && FieldsCut(fields, n, sent) && a <= LE(4, |fields[n]|) && b <= fields[n]
    ensures out0 + sent + a + b == out0 + sent' && FieldsCut(fields, n + 1, sent')
  {
    sent' := sent + a + b;
    assert FieldCut(fields[n], sent, a, b, sent');
    Regroup(out0, sent, a, b);
  }

  // What a failed write leaves: the output ends within `data`.
  ghost predicate BrokenOff(data: Bytes, out0: Bytes, out: Bytes) {
    exists k :: 0 <= k < |data| && out == out0 + data[..k]
  }

  lemma BreaksOff(head: Bytes, out0: Bytes, out: Bytes, done: Bytes, piece: Bytes)
    requires BrokenOff(piece, out0 + done, out) && |done| + |piece| <= |head|
    requires head[..|done|] == done && head[|done|..|done| + |piece|] == piece
    ensures BrokenOff(head, out0, out)
  {
    var k :| 0 <= k < |piece| && out == out0 + done + piece[..k];
    assert head[..|done| + k] == done + piece[..k];
    assert out == out0 + head[..|done| + k];
  }

  // A field behind `before`, its length and its bytes each whole or cut short.
  ghost predicate FieldCut(field: Bytes, before: Bytes, a: Bytes, b: Bytes, sent: Bytes) {
    sent == before + a + b && a <= LE(4, |field|) && b <= field
  }

  // The first n fields.
  ghost predicate FieldsCut(fields: seq<Bytes>, n: nat, sent: Bytes)
    requires n <= |fields|
    decreases n, 0
  {
    if n == 0 then sent == [] else LastCut(fields, n - 1, sent)
  }

  ghost predicate LastCut(fields: seq<Bytes>, m: nat, sent: Bytes)
    requires m < |fields|
    decreases m, 1
  {
    exists before, a, b :: FieldCut(fields[m], before, a, b, sent) && FieldsCut(fields, m, before)
  }

  // The output grew by the fields, each whole or cut short.
  ghost predicate CutShort(fields: seq<Bytes>, out0: Bytes, out: Bytes) {
    exists sent :: out == out0 + sent && (if fields == [] then sent <= Zeros(4) else FieldsCut(fields, |fields|, sent))
  }

  // What one write, with whatever result, added to the output.
  lemma Took(data: Bytes, out0: Bytes, out: Bytes, r: int) returns (a: Bytes)
    requires if r >= 0 then out == out0 + data else BrokenOff(data, out0, out)
    ensures out == out0 + a && a <= data
  {
    a := data;
    if r < 0 {
      var k :| 0 <= k < |data| && out == out0 + data[..k];
      a := data[..k];
    }
  }

  lemma Regroup(a: Bytes, b: Bytes, c: Bytes, d: Bytes)
    ensures a + b + c + d == a + (b + c + d)
  {
  }

  // k bytes of the stream have gone into the buffer.
  ghost predicate Copied(buf0: Bytes, in0: Bytes, at: nat, k: nat, buf: Bytes, inbox: Bytes) {
    && k <= |in0| && at + k <= |buf0|
    && inbox == in0[k..] && buf == Splice(buf0, at, in0[..k])
  }

  lemma CopiedSizes(buf0: Bytes, in0: Bytes, at: nat, k: nat, buf: Bytes, inbox: Bytes)
    requires Copied(buf0, in0, at, k, buf, inbox)
    ensures k <= |in0| && |inbox| == |in0| - k && |buf| == |buf0|
  {
  }

  lemma CopiedStart(buf0: Bytes, in0: Bytes, at: nat)
    requires at <= |buf0|
    ensures Copied(buf0, in0, at, 0, buf0, in0)
  {
  }

  lemma CopiedMore(buf0: Bytes, in0: Bytes, at: nat, k: nat, buf: Bytes, inbox: Bytes, j: nat)
    requires Copied(buf0, in0, at, k, buf, inbox) && at + k + j <= |buf0| && j <= |inbox|
    ensures Copied(buf0, in0, at, k + j, Splice(buf, at + k, inbox[..j]), inbox[j..])
  {
    assert in0[..k + j] == in0[..k] + in0[k..][..j];
    SpliceMore(buf0, at, in0[..k], inbox[..j]);
  }

  lemma SpliceMore(b: Bytes, at: nat, x: Bytes, y: Bytes)
    requires at + |x| + |y| <= |b|
    ensures Splice(Splice(b, at, x), at + |x|, y) == Splice(b, at, x + y)
  {
  }

  // --- Messages ------------------------------------------------------------------------

  const SANDBOX_ALLOC_SIZE: nat := 0x100000
  const SANDBOX_MSG_HDRLEN: nat := 0x10
  const SANDBOX_MSG_VERSION: nat := 1
  const SANDBOX_MAX_ARG: nat := 0xff
  const SAND: Bytes := [0x53, 0x41, 0x4e, 0x44]

  // The running total, a uint32_t: 16 bytes of header already count the first
  // field's length word.
  function LenAfter(fields: seq<Bytes>, n: nat): (len: nat)
    requires n <= |fields|
    ensures len < W32
  {
    if n == 0 then SANDBOX_MSG_HDRLEN
    else ((LenAfter(fields, n - 1) + if n > 1 then 4 else 0) % W32 + |fields[n - 1]|) % W32
  }

  function LenField(fields: seq<Bytes>): nat {
    LenAfter(fields, |fields|)
  }

  function FieldBytes(fields: seq<Bytes>, n: nat): Bytes
    requires n <= |fields|
  {
    if n == 0 then [] else FieldBytes(fields, n - 1) + LE(4, |fields[n - 1]|) + fields[n - 1]
  }

  function MessageHead(id: nat, len: nat): (s: Bytes)
    ensures |s| == 12
  {
    SAND + LE(2, SANDBOX_MSG_VERSION) + LE(2, id) + LE(4, len)
  }

  // With no field, four zero bytes complete the header.
  function AllFields(fields: seq<Bytes>): Bytes {
    if |fields| == 0 then Zeros(4) else FieldBytes(fields, |fields|)
  }

  function Message(id: nat, fields: seq<Bytes>): Bytes {
    MessageHead(id, LenField(fields)) + AllFields(fields)
  }

  lemma {:induction false} LenCounts(fields: seq<Bytes>, n: nat)
    requires n <= |fields|
    ensures LenAfter(fields, n) == (12 + (if n == 0 then 4 else |FieldBytes(fields, n)|)) % W32
  {
    if n > 0 {
      LenCounts(fields, n - 1);
      hide LE;
      var before, size := 12 + (if n == 1 then 4 else |FieldBytes(fields, n - 1)|), |fields[n - 1]|;
      var word := if n > 1 then 4 else 0;
      ModAdd(before, word);
      ModAdd(before + word, size);
      assert |FieldBytes(fields, n)| == |FieldBytes(fields, n - 1)| + 4 + size;
    }
  }

  lemma ModAdd(x: nat, y: nat)
    ensures (x % W32 + y) % W32 == (x + y) % W32
  {
    var q := x / W32;
    assert x + y == q * W32 + (x % W32 + y);
  }

  lemma SmallMod(m: nat)
    ensures m % W32 == m <==> m < W32
  {
  }

  // The bytes sent number exactly the length put in the header as long as that
  // number fits its 32 bits, and not otherwise.
  lemma LengthExact(id: nat, fields: seq<Bytes>)
    ensures LenField(fields) == |Message(id, fields)| <==> |Message(id, fields)| < W32
  {
    LenCounts(fields, |fields|);
    hide LE, LenAfter, FieldBytes, MessageHead;
    SmallMod(12 + |AllFields(fields)|);
  }
}
