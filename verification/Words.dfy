// Bytes, machine words and in-place stores, shared by every other module.
//
// Words are kept as non-negative integers below 2^16, 2^32 or 2^64; wherever
// the program's arithmetic wraps, the model writes the `%` out.
module Words {
  newtype Byte = b: int | 0 <= b < 256
  type Bytes = seq<Byte>

  const W16 := 0x1_0000
  const W32 := 0x1_0000_0000
  const W64 := 0x1_0000_0000_0000_0000

  datatype Option<+T> = None | Some(value: T)

  // 256^n
  function Base(n: nat): (b: nat)
    ensures b >= 1
  {
    if n == 0 then 1 else 256 * Base(n - 1)
  }

  lemma BaseValues()
    ensures Base(1) == 256 && Base(2) == W16 && Base(4) == W32 && Base(8) == W64
  {
    assert Base(4) == 256 * (256 * Base(2));
    assert Base(8) == 256 * (256 * (256 * (256 * Base(4))));
  }

  function Zeros(n: nat): (s: Bytes)
    ensures |s| == n
  {
    seq(n, _ => 0)
  }

  // Little-endian: what a store of an n-byte word leaves in memory.
  function LE(n: nat, v: nat): (s: Bytes)
    ensures |s| == n
  {
    if n == 0 then [] else [(v % 256) as Byte] + LE(n - 1, v / 256)
  }

  function UnLE(s: Bytes): nat {
    if s == [] then 0 else s[0] as nat + 256 * UnLE(s[1..])
  }

  // Big-endian: the byte order of the patch file.
  function BE(n: nat, v: nat): (s: Bytes)
    ensures |s| == n
  {
    if n == 0 then [] else BE(n - 1, v / 256) + [(v % 256) as Byte]
  }

  function UnBE(s: Bytes): nat {
    if s == [] then 0 else UnBE(s[..|s| - 1]) * 256 + s[|s| - 1] as nat
  }

  lemma {:induction false} UnLELE(n: nat, v: nat)
    requires v < Base(n)
    ensures UnLE(LE(n, v)) == v
  {
    if n > 0 {
      UnLELE(n - 1, v / 256);
      assert LE(n, v)[1..] == LE(n - 1, v / 256);
    }
  }

  lemma {:induction false} UnLEBound(s: Bytes)
    ensures UnLE(s) < Base(|s|)
  {
    if s != [] {
      UnLEBound(s[1..]);
    }
  }

  lemma {:induction false} LEUnLE(s: Bytes)
    ensures LE(|s|, UnLE(s)) == s
  {
    if s != [] {
      LEUnLE(s[1..]);
      var v := UnLE(s[1..]);
      assert UnLE(s) % 256 == s[0] as nat && UnLE(s) / 256 == v;
      assert s == [s[0]] + s[1..];
    }
  }

  lemma {:induction false} UnBEBE(n: nat, v: nat)
    requires v < Base(n)
    ensures UnBE(BE(n, v)) == v
  {
    if n > 0 {
      UnBEBE(n - 1, v / 256);
      assert BE(n, v)[..n - 1] == BE(n - 1, v / 256);
    }
  }

  lemma {:induction false} BEUnBE(s: Bytes)
    ensures UnBE(s) < Base(|s|) && BE(|s|, UnBE(s)) == s
  {
    if s != [] {
      BEUnBE(s[..|s| - 1]);
      var v, c := UnBE(s[..|s| - 1]), s[|s| - 1] as nat;
      assert UnBE(s) == v * 256 + c && (v * 256 + c) / 256 == v && (v * 256 + c) % 256 == c;
      assert s == s[..|s| - 1] + [s[|s| - 1]];
    }
  }

  // The 32-bit word stored at an offset, and the buffer after storing one.
  function Word32(s: Bytes, off: nat): (v: nat)
    requires off + 4 <= |s|
    ensures v < W32
  {
    UnLEBound(s[off..off + 4]);
    BaseValues();
    UnLE(s[off..off + 4])
  }

  function Word64(s: Bytes, off: nat): (v: nat)
    requires off + 8 <= |s|
    ensures v < W64
  {
    UnLEBound(s[off..off + 8]);
    BaseValues();
    UnLE(s[off..off + 8])
  }

  function Splice(s: Bytes, off: nat, d: Bytes): (r: Bytes)
    requires off + |d| <= |s|
    ensures |r| == |s|
  {
    s[..off] + d + s[off + |d|..]
  }

  lemma SubSlice<T>(p: seq<T>, a: nat, b: nat, c: nat, d: nat)
    requires a <= b <= |p| && c <= d <= b - a
    ensures p[a..b][c..d] == p[a + c..a + d]
  {
    var l, r := p[a..b][c..d], p[a + c..a + d];
    assert forall i :: 0 <= i < |l| ==> l[i] == r[i];
  }

  function RemoveAt<T>(s: seq<T>, k: nat): (r: seq<T>)
    requires k < |s|
    ensures |r| == |s| - 1
    ensures forall i {:trigger r[i]} :: 0 <= i < |r| ==> r[i] == if i < k then s[i] else s[i + 1]
  {
    s[..k] + s[k + 1..]
  }

  // Reading back a stored word.
  lemma StoredWord(s: Bytes, off: nat, v: nat)
    requires off + 4 <= |s| && v < W32
    ensures Word32(Splice(s, off, LE(4, v)), off) == v
  {
    BaseValues();
    UnLELE(4, v);
  }

  // The signed reading of a 32-bit word.
  function Signed32(v: int): (r: int)
    requires 0 <= v < W32
    ensures -0x8000_0000 <= r < 0x8000_0000 && r % W32 == v
  {
    if v < 0x8000_0000 then v else v - W32
  }

  // Congruence modulo 2^32, the only equality a chain of wrapping 32-bit
  // additions preserves.
  ghost predicate Cong32(a: int, b: int) {
    (a - b) % W32 == 0
  }

  lemma CongTrunc(a: int, b: int)
    ensures Cong32(a, a % W32)
    ensures Cong32(a, b) <==> a % W32 == b % W32
  {
  }

  lemma CongSum(a: int, b: int, c: int, d: int)
    requires Cong32(a, b) && Cong32(c, d)
    ensures Cong32(a + c, b + d) && Cong32(a - c, b - d) && Cong32(b, a)
  {
    var p, q := (a - b) / W32, (c - d) / W32;
    assert a - b == W32 * p && c - d == W32 * q;
    assert (a + c) - (b + d) == W32 * (p + q);
    assert (a - c) - (b - d) == W32 * (p - q);
    assert b - a == W32 * -p;
  }

  // Congruent values closer than 2^32 are equal.
  lemma CongExact(a: int, b: int)
    requires Cong32(a, b) && -W32 < a - b < W32
    ensures a == b
  {
  }

  // Cutting to 64 bits first does not change the low 32.
  lemma ModMod(x: int)
    ensures x % W64 % W32 == x % W32
  {
    var y := x % W64;
    var p, q, r := x / W64, y / W32, y % W32;
    assert x == p * W64 + y && y == q * W32 + r;
    assert x == (p * W32 + q) * W32 + r;
    QuotientUnique(x, p * W32 + q, r);
  }

  lemma QuotientUnique(x: int, k: int, r: int)
    requires x == k * W32 + r && 0 <= r < W32
    ensures x % W32 == r
  {
  }

  lemma MultipleCong(a: int, b: int, k: int)
    requires a - b == k * W32
    ensures Cong32(a, b)
  {
  }

  // Which byte of a word goes where.
  function ByteOf(v: nat, unit: nat): Byte
    requires unit > 0
  {
    (v / unit % 256) as Byte
  }

  lemma Quotients(v: nat)
    ensures v / 256 / 256 == v / 0x1_0000 && v / 256 / 256 / 256 == v / 0x100_0000
    ensures v / 256 / 256 / 256 / 256 == v / 0x1_0000_0000
  {
  }

  lemma LETwo(v: nat)
    ensures LE(2, v) == [ByteOf(v, 1), ByteOf(v / 256, 1)]
  {
    assert LE(2, v) == [(v % 256) as Byte] + LE(1, v / 256);
    assert LE(1, v / 256) == [(v / 256 % 256) as Byte] + LE(0, v / 256 / 256);
  }

  lemma LEMore(n: nat, v: nat)
    ensures LE(n + 2, v) == [ByteOf(v, 1), ByteOf(v / 256, 1)] + LE(n, v / 256 / 256)
  {
    assert LE(n + 2, v) == [(v % 256) as Byte] + LE(n + 1, v / 256);
    assert LE(n + 1, v / 256) == [(v / 256 % 256) as Byte] + LE(n, v / 256 / 256);
  }

  lemma LittleEndian(v: nat)
    ensures LE(2, v) == [ByteOf(v, 1), ByteOf(v, 256)]
    ensures LE(4, v) == [ByteOf(v, 1), ByteOf(v, 256), ByteOf(v, 0x1_0000), ByteOf(v, 0x100_0000)]
    ensures LE(8, v) == LE(4, v) + LE(4, v / 0x1_0000_0000)
  {
    hide LE;
    var c := v / 256 / 256;
    Quotients(v);
    LETwo(v);
    LEMore(2, v);
    LETwo(c);
    LEMore(6, v);
    LEMore(4, c);
  }

  lemma BETwo(v: nat)
    ensures BE(2, v) == [ByteOf(v / 256, 1), ByteOf(v, 1)]
  {
    assert BE(2, v) == BE(1, v / 256) + [(v % 256) as Byte];
    assert BE(1, v / 256) == BE(0, v / 256 / 256) + [(v / 256 % 256) as Byte];
  }

  lemma BEMore(n: nat, v: nat)
    ensures BE(n + 2, v) == BE(n, v / 256 / 256) + [ByteOf(v / 256, 1), ByteOf(v, 1)]
  {
    assert BE(n + 2, v) == BE(n + 1, v / 256) + [(v % 256) as Byte];
    assert BE(n + 1, v / 256) == BE(n, v / 256 / 256) + [(v / 256 % 256) as Byte];
  }

  lemma BigEndian(v: nat)
    ensures BE(2, v) == [ByteOf(v, 256), ByteOf(v, 1)]
    ensures BE(4, v) == [ByteOf(v, 0x100_0000), ByteOf(v, 0x1_0000), ByteOf(v, 256), ByteOf(v, 1)]
    ensures BE(8, v) == BE(4, v / 0x1_0000_0000) + BE(4, v)
  {
    var c := v / 256 / 256;
    hide BE;
    Quotients(v);
    BETwo(v);
    BEMore(2, v);
    BETwo(c);
    BEMore(6, v);
    BEMore(4, c);
  }

  // The bytes of an ASCII text.
  function Ascii(s: string): (b: Bytes)
    ensures |b| == |s|
  {
    seq(|s|, i requires 0 <= i < |s| => (s[i] as int % 256) as Byte)
  }
}
