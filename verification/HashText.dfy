// Hashes as text (libsandbox.c, bin2hex; user/util.c, string2sha1).
module HashText {
  import opened Words
  import opened PatchData

  function Digit(n: nat): Byte
    requires n < 16
  {
    if n < 10 then (0x30 + n) as Byte else (0x61 + n - 10) as Byte
  }

  predicate IsHex(c: Byte) {
    0x30 <= c <= 0x39 || 0x41 <= c <= 0x46 || 0x61 <= c <= 0x66
  }

  function HexValue(c: Byte): (n: nat)
    requires IsHex(c)
    ensures n < 16
  {
    if c <= 0x39 then c as nat - 0x30 else if c <= 0x46 then c as nat - 0x41 + 10 else c as nat - 0x61 + 10
  }

  // Two lower-case digits for each byte, the high half first.
  function HexChar(b: Bytes, j: nat): Byte
    requires j < 2 * |b|
  {
    if j % 2 == 0 then Digit(b[j / 2] as nat / 16) else Digit(b[j / 2] as nat % 16)
  }

  function Hex(b: Bytes): (s: Bytes)
    ensures |s| == 2 * |b|
  {
    seq(2 * |b|, j requires 0 <= j < 2 * |b| => HexChar(b, j))
  }

  // How many bytes fit as pairs of digits with room for the final NUL.
  function PairsThatFit(binlen: nat, buflen: nat): nat {
    var room := if buflen == 0 then 0 else (buflen - 1) / 2;
    if binlen <= room then binlen else room
  }

  method Bin2Hex(bin: Bytes, buf: array<Byte>, buflen: nat)
    requires buflen <= buf.Length
    modifies buf
    ensures var k := PairsThatFit(|bin|, buflen);
            && 2 * k <= buflen && (buflen > 0 ==> 2 * k < buflen)
            && buf[..2 * k] == Hex(bin[..k])
            && (buflen > 0 ==> buf[2 * k] == 0)
            && forall j :: (if buflen > 0 then 2 * k + 1 else 0) <= j < buf.Length ==> buf[j] == old(buf[j])
  {
    var left, out: nat := buflen, 0;
    for i := 0 to |bin|
      invariant out == 2 * PairsThatFit(i, buflen) && left == buflen - out
      invariant out <= buflen && (buflen > 0 ==> out < buflen)
      invariant buf[..out] == Hex(bin[..PairsThatFit(i, buflen)])
      invariant forall j :: out <= j < buf.Length ==> buf[j] == old(buf[j])
    {
      if left >= 3 {
        ghost var before, k := buf[..out], PairsThatFit(i, buflen);
        buf[out] := Digit(bin[i] as nat / 16);
        buf[out + 1] := Digit(bin[i] as nat % 16);
        HexMore(bin, i);
        assert buf[..out + 2] == before + [buf[out], buf[out + 1]];
        out := out + 2;
        left := left - 2;
      }
    }
    if left > 0 {
      buf[out] := 0;
    }
    assert buf[..out] == Hex(bin[..PairsThatFit(|bin|, buflen)]);
  }

  lemma HexMore(bin: Bytes, i: nat)
    requires i < |bin|
    ensures Hex(bin[..i + 1]) == Hex(bin[..i]) + [Digit(bin[i] as nat / 16), Digit(bin[i] as nat % 16)]
  {
    var l, r := Hex(bin[..i + 1]), Hex(bin[..i]) + [Digit(bin[i] as nat / 16), Digit(bin[i] as nat % 16)];
    forall j | 0 <= j < 2 * (i + 1)
      ensures l[j] == r[j]
    {
      assert l[j] == HexChar(bin[..i + 1], j);
      if j < 2 * i {
        assert r[j] == HexChar(bin[..i], j);
      }
    }
    assert |l| == |r|;
  }

  // --- Reading -------------------------------------------------------------------------

  predicate IsSpace(c: Byte) {
    0x09 <= c <= 0x0d || c == 0x20
  }

  predicate IsSign(c: Byte) {
    c == 0x2b || c == 0x2d
  }

  predicate HexAt(s: Bytes, i: nat) {
    i < |s| && IsHex(s[i])
  }

  // A 0x that fills the two characters of the field.
  predicate BareAt(s: Bytes, i: nat) {
    i + 1 < |s| && s[i] == 0x30 && s[i + 1] in {0x58, 0x78}
  }

  function SkipSpace(s: Bytes, i: nat): nat
    decreases |s| - i
  {
    if i < |s| && IsSpace(s[i]) then SkipSpace(s, i + 1) else i
  }

  // What `%02x` stores for the text at i, whose end acts as its NUL: white
  // space is skipped, then at most two characters are used, a sign among
  // them. C libraries differ on a bare 0x; `bare` says whether it reads as 0.
  function ScanPair(s: Bytes, i: nat, bare: bool): (v: Option<nat>)
    ensures v.Some? ==> v.value < W32
  {
    var p := SkipSpace(s, i);
    if p < |s| && IsSign(s[p]) then
      if HexAt(s, p + 1) then
        Some(if s[p] == 0x2d then (W32 - HexValue(s[p + 1])) % W32 else HexValue(s[p + 1]))
      else None
    else if BareAt(s, p) then
      if bare then Some(0) else None
    else if HexAt(s, p) then
      Some(if HexAt(s, p + 1) then 16 * HexValue(s[p]) + HexValue(s[p + 1]) else HexValue(s[p]))
    else None
  }

  // PastEnd: a scan was started beyond the text's NUL.
  datatype HashScan = Accepted | NotHex | PastEnd

  // The first n pairs.
  function Scan(s: Bytes, n: nat, bare: bool): HashScan {
    if n == 0 then Accepted
    else if Scan(s, n - 1, bare) != Accepted then Scan(s, n - 1, bare)
    else if 2 * (n - 1) > |s| then PastEnd
    else if ScanPair(s, 2 * (n - 1), bare).None? then NotHex
    else Accepted
  }

  // Memory at the output after the first n pairs: every store is a whole
  // `int`, so each overwrites the upper three bytes of the one before.
  function Stores(s: Bytes, n: nat, bare: bool, mem: Bytes): (r: Bytes)
    requires n + 3 <= |mem|
    ensures |r| == |mem|
  {
    if n == 0 then mem
    else if Scan(s, n, bare) != Accepted then Stores(s, n - 1, bare, mem)
    else Splice(Stores(s, n - 1, bare, mem), n - 1, LE(4, ScanPair(s, 2 * (n - 1), bare).value))
  }

  lemma {:induction false} ScanStops(s: Bytes, m: nat, n: nat, bare: bool, mem: Bytes)
    requires m <= n && n + 3 <= |mem| && Scan(s, m, bare) != Accepted
    ensures Scan(s, n, bare) == Scan(s, m, bare)
    ensures Stores(s, n, bare, mem) == Stores(s, m, bare, mem)
    decreases n
  {
    if m < n {
      ScanStops(s, m, n - 1, bare, mem);
    }
  }

  lemma {:induction false} ScanAccepts(s: Bytes, n: nat, bare: bool)
    ensures Scan(s, n, bare) == Accepted <==> forall j: nat :: j < n ==> ScanPair(s, 2 * j, bare).Some?
    decreases n
  {
    if n > 0 {
      ScanAccepts(s, n - 1, bare);
      var v := ScanPair(s, 2 * (n - 1), bare);
      SkipSpaceStops(s, 2 * (n - 1));
      assert v.Some? ==> 2 * (n - 1) <= |s|;
    }
  }

  // White space ends at or after where the scan began, at something else.
  lemma {:induction false} SkipSpaceStops(s: Bytes, i: nat)
    ensures var p := SkipSpace(s, i);
            && i <= p && (i <= |s| ==> p <= |s|) && (p < |s| ==> !IsSpace(s[p]))
            && forall k :: i <= k < p ==> k < |s| && IsSpace(s[k])
    decreases |s| - i
  {
    if i < |s| && IsSpace(s[i]) {
      SkipSpaceStops(s, i + 1);
    }
  }

  // One turn of the loop: it goes on with one more store, or stops for good.
  lemma ScanStep(s: Bytes, j: nat, bare: bool, mem: Bytes)
    requires j < 20 && 23 <= |mem| && Scan(s, j, bare) == Accepted
    ensures var v := ScanPair(s, 2 * j, bare);
            if 2 * j > |s| || v.None? then
              && Scan(s, 20, bare) == (if 2 * j > |s| then PastEnd else NotHex)
              && Stores(s, 20, bare, mem) == Stores(s, j, bare, mem)
            else
              && Scan(s, j + 1, bare) == Accepted
              && Stores(s, j + 1, bare, mem) == Splice(Stores(s, j, bare, mem), j, LE(4, v.value))
  {
    hide ScanPair;
    if Scan(s, j + 1, bare) != Accepted {
      ScanStops(s, j + 1, 20, bare, mem);
    }
  }

  method String2Sha1(s: Bytes, sha1: array<Byte>, bare: bool) returns (r: HashScan)
    requires sha1.Length >= 23
    modifies sha1
    ensures r == Scan(s, 20, bare)
    ensures sha1[..] == Stores(s, 20, bare, old(sha1[..]))
  {
    hide ScanPair, Scan, Stores;
    ghost var mem := sha1[..];
    ScanNothing(s, bare, mem);
    for j := 0 to 20
      invariant Scan(s, j, bare) == Accepted
      invariant sha1[..] == Stores(s, j, bare, mem)
    {
      ScanStep(s, j, bare, mem);
      if 2 * j > |s| {
        return PastEnd;
      }
      var v := ScanPair(s, 2 * j, bare);
      if v.None? {
        return NotHex;
      }
      var d := LE(4, v.value);
      ghost var before := sha1[..];
      sha1[j], sha1[j + 1], sha1[j + 2], sha1[j + 3] := d[0], d[1], d[2], d[3];
      SpliceFour(before, j, d);
      assert sha1[..] == before[j := d[0]][j + 1 := d[1]][j + 2 := d[2]][j + 3 := d[3]];
    }
    r := Accepted;
  }

  lemma SpliceFour(m: Bytes, j: nat, d: Bytes)
    requires j + 4 <= |m| && |d| == 4
    ensures Splice(m, j, d) == m[j := d[0]][j + 1 := d[1]][j + 2 := d[2]][j + 3 := d[3]]
  {
  }

  lemma ScanNothing(s: Bytes, bare: bool, mem: Bytes)
    requires |mem| >= 23
    ensures Scan(s, 0, bare) == Accepted && Stores(s, 0, bare, mem) == mem
  {
  }

  // After n accepted pairs, byte j is the low byte of the j-th value, three
  // more bytes hold what is left of the last store, and nothing else changed.
  lemma {:induction false} StoresOverlap(s: Bytes, n: nat, bare: bool, mem: Bytes)
    requires n + 3 <= |mem| && Scan(s, n, bare) == Accepted
    ensures forall j: nat :: j < n ==>
              ScanPair(s, 2 * j, bare).Some? &&
              Stores(s, n, bare, mem)[j] as nat == ScanPair(s, 2 * j, bare).value % 256
    ensures n > 0 ==> Stores(s, n, bare, mem)[n..n + 3] == LE(4, ScanPair(s, 2 * (n - 1), bare).value)[1..]
    ensures forall k :: (if n == 0 then 0 else n + 3) <= k < |mem| ==> Stores(s, n, bare, mem)[k] == mem[k]
    decreases n
  {
    hide ScanPair;
    if n > 0 {
      StoresOverlap(s, n - 1, bare, mem);
      var v := ScanPair(s, 2 * (n - 1), bare).value;
      assert LE(4, v)[0] as nat == v % 256;
    }
  }

  // The two digits of one byte read back as the byte.
  lemma PairReadsBack(b: Sha1, rest: Bytes, j: nat, bare: bool)
    requires j < 20
    ensures ScanPair(Hex(b) + rest, 2 * j, bare) == Some(b[j] as nat)
  {
    var s := Hex(b) + rest;
    assert s[2 * j] == HexChar(b, 2 * j) && s[2 * j + 1] == HexChar(b, 2 * j + 1);
    assert SkipSpace(s, 2 * j) == 2 * j;
  }

  // The text of a hash reads back as the hash, whatever follows it and
  // whatever the output held; the three bytes after the hash come out zero.
  lemma HashRoundTrip(b: Sha1, rest: Bytes, mem: Bytes, bare: bool)
    requires |mem| >= 23
    ensures Scan(Hex(b) + rest, 20, bare) == Accepted
    ensures Stores(Hex(b) + rest, 20, bare, mem) == b + [0, 0, 0] + mem[23..]
  {
    hide Hex, ScanPair, Scan, Stores;
    var s := Hex(b) + rest;
    forall j: nat | j < 20
      ensures ScanPair(s, 2 * j, bare) == Some(b[j] as nat)
    {
      PairReadsBack(b, rest, j, bare);
    }
    ScanAccepts(s, 20, bare);
    StoresOverlap(s, 20, bare, mem);
    var m, r := Stores(s, 20, bare, mem), b + [0, 0, 0] + mem[23..];
    SmallWord(b[19]);
    forall k | 0 <= k < |mem|
      ensures m[k] == r[k]
    {
      if k < 20 {
        assert ScanPair(s, 2 * k, bare) == Some(b[k] as nat);
      } else if k < 23 {
        assert m[k] == m[20..23][k - 20];
        assert ScanPair(s, 2 * 19, bare) == Some(b[19] as nat);
      }
    }
  }

  lemma SmallWord(c: Byte)
    ensures LE(4, c as nat)[1..] == [0, 0, 0]
  {
    assert LE(4, c as nat) == [c] + LE(3, 0);
    assert LE(3, 0) == [0] + LE(2, 0) && LE(2, 0) == [0] + LE(1, 0) && LE(1, 0) == [0] + LE(0, 0);
  }

  // Text of forty characters or more without space, sign or 0x at the even
  // positions below 40 is accepted exactly when those characters are hex
  // digits; the odd positions are not looked at.
  predicate PlainAt(s: Bytes, i: nat) {
    i < |s| ==> !IsSpace(s[i]) && !IsSign(s[i]) && !BareAt(s, i)
  }

  lemma AcceptedExactly(s: Bytes, bare: bool)
    requires forall j: nat :: j < 20 ==> PlainAt(s, 2 * j)
    ensures Scan(s, 20, bare) == Accepted <==> forall j: nat :: j < 20 ==> HexAt(s, 2 * j)
  {
    ScanAccepts(s, 20, bare);
    forall j: nat | j < 20
      ensures ScanPair(s, 2 * j, bare).Some? <==> HexAt(s, 2 * j)
    {
      assert PlainAt(s, 2 * j) && SkipSpace(s, 2 * j) == 2 * j;
    }
  }

  // So forty characters that are not all hex digits can pass the check.
  lemma NonHexAccepted(bare: bool)
    ensures var s := seq(40, j => if j % 2 == 0 then 0x61 as Byte else 0x67);
            Scan(s, 20, bare) == Accepted && !IsHex(s[1])
  {
    hide Scan, ScanPair;
    var s := seq(40, j => if j % 2 == 0 then 0x61 as Byte else 0x67);
    forall j: nat | j < 20
      ensures PlainAt(s, 2 * j) && HexAt(s, 2 * j)
    {
      assert s[2 * j] == 0x61;
    }
    AcceptedExactly(s, bare);
  }

  // A minus sign passes too, and stores the complement of its digit.
  lemma MinusStored(bare: bool, mem: Bytes)
    requires |mem| >= 23
    ensures var s := seq(40, j => if j % 2 == 0 then 0x2d as Byte else 0x31);
            Scan(s, 20, bare) == Accepted && Stores(s, 20, bare, mem)[..23] == seq(23, _ => 0xff)
  {
    var s := seq(40, j => if j % 2 == 0 then 0x2d as Byte else 0x31);
    forall j: nat | j < 20
      ensures ScanPair(s, 2 * j, bare) == Some(0xffff_ffff)
    {
      assert s[2 * j] == 0x2d && s[2 * j + 1] == 0x31 && SkipSpace(s, 2 * j) == 2 * j;
    }
    hide Stores, Scan, ScanPair, LE;
    ScanAccepts(s, 20, bare);
    StoresOverlap(s, 20, bare, mem);
    assert ScanPair(s, 2 * 19, bare) == Some(0xffff_ffff);
    AllOnes();
    var m := Stores(s, 20, bare, mem);
    forall k | 0 <= k < 23
      ensures m[k] == 0xff
    {
      if k < 20 {
        assert ScanPair(s, 2 * k, bare) == Some(0xffff_ffff);
      } else {
        assert m[k] == m[20..23][k - 20];
      }
    }
  }

  lemma AllOnes()
    ensures LE(4, 0xffff_ffff)[1..] == [0xff, 0xff, 0xff]
  {
    assert LE(4, 0xffff_ffff) == [0xff] + LE(3, 0xff_ffff);
    assert LE(3, 0xff_ffff) == [0xff] + LE(2, 0xffff) && LE(2, 0xffff) == [0xff] + LE(1, 0xff);
    assert LE(1, 0xff) == [0xff] + LE(0, 0);
  }

  // --- Characters ------------------------------------------------------------------------

  const HEX_CHARS := "0123456789abcdef"

  // Every byte of a hash is written as two characters of that table, the one
  // for its high half first.
  lemma HexTable(b: Bytes, i: nat)
    requires i < |b|
    ensures Hex(b)[2 * i] == Ascii(HEX_CHARS)[b[i] as nat / 16]
    ensures Hex(b)[2 * i + 1] == Ascii(HEX_CHARS)[b[i] as nat % 16]
  {
    assert Hex(b)[2 * i] == HexChar(b, 2 * i) && Hex(b)[2 * i + 1] == HexChar(b, 2 * i + 1);
    DigitIs(b[i] as nat / 16);
    DigitIs(b[i] as nat % 16);
  }

  lemma DigitIs(n: nat)
    requires n < 16
    ensures Digit(n) == Ascii(HEX_CHARS)[n]
  {
    assert HEX_CHARS == ['0', '1', '2', '3', '4', '5', '6', '7', '8', '9', 'a', 'b', 'c', 'd', 'e', 'f'];
  }

  // Upper-case digits are read too.
  lemma CaseBlind(c: Byte)
    requires 0x61 <= c <= 0x66
    ensures IsHex(c) && IsHex(c - 0x20) && HexValue(c) == HexValue(c - 0x20) == c as nat - 0x57
  {
  }

  // What a field can look like: space before it, a sign and one digit, two
  // digits, one digit and something else; anything else is no number.
  lemma FieldForms(s: Bytes, i: nat, bare: bool)
    requires i < |s|
    ensures s[i] in [0x09, 0x0a, 0x0b, 0x0c, 0x0d, 0x20] ==> ScanPair(s, i, bare) == ScanPair(s, i + 1, bare)
    ensures s[i] == 0x2b && HexAt(s, i + 1) ==> ScanPair(s, i, bare) == Some(HexValue(s[i + 1]))
    ensures s[i] == 0x2d && HexAt(s, i + 1) ==> ScanPair(s, i, bare) == Some((W32 - HexValue(s[i + 1])) % W32)
    ensures IsSign(s[i]) && !HexAt(s, i + 1) ==> ScanPair(s, i, bare) == None
    ensures HexAt(s, i) && HexAt(s, i + 1) ==> ScanPair(s, i, bare) == Some(16 * HexValue(s[i]) + HexValue(s[i + 1]))
    ensures HexAt(s, i) && !HexAt(s, i + 1) && !BareAt(s, i) ==> ScanPair(s, i, bare) == Some(HexValue(s[i]))
    ensures i + 1 < |s| && s[i] == 0x30 && (s[i + 1] == 0x58 || s[i + 1] == 0x78) ==>
              ScanPair(s, i, bare) == if bare then Some(0) else None
    ensures s[i] !in [0x09, 0x0a, 0x0b, 0x0c, 0x0d, 0x20, 0x2b, 0x2d] && !HexAt(s, i) ==> ScanPair(s, i, bare) == None
  {
  }

  // Pair j is the first that stops the scan.
  ghost predicate StopsAt(s: Bytes, j: nat, bare: bool) {
    (2 * j > |s| || ScanPair(s, 2 * j, bare).None?) && forall i: nat :: i < j ==> ScanPair(s, 2 * i, bare).Some?
  }

  // The first pair that cannot be read decides how the scan of n pairs ends.
  lemma {:induction false} ScanVerdict(s: Bytes, n: nat, j: nat, bare: bool)
    requires j < n && StopsAt(s, j, bare)
    ensures Scan(s, n, bare) == if 2 * j > |s| then PastEnd else NotHex
    decreases n
  {
    hide ScanPair;
    ScanAccepts(s, j, bare);
    if j < n - 1 {
      ScanVerdict(s, n - 1, j, bare);
    }
  }
}
