// Readers of big-endian data as functions from the unread bytes, each with
// the layout it reads.
module Parsing {
  import opened Words

  // A reader takes unread bytes to a value and what is left unread.
  type Parser<!A> = Bytes -> Option<(A, Bytes)>
  type Printer<!A> = A -> Bytes
  type Domain<!A> = A -> bool

  // A reader is exact for a layout when it accepts just the bytes that begin
  // with the layout of a value in the domain, gives that value, and stops
  // right behind it.
  ghost predicate Exact<A(!new)>(p: Parser<A>, f: Printer<A>, ok: Domain<A>) {
    && (forall x: A, rest: Bytes :: ok(x) ==> ReadsBack(p, f, x, rest))
    && (forall s: Bytes :: Sound(p, f, ok, s))
  }

  ghost predicate ReadsBack<A>(p: Parser<A>, f: Printer<A>, x: A, rest: Bytes) {
    p(f(x) + rest) == Some((x, rest))
  }

  ghost predicate Sound<A>(p: Parser<A>, f: Printer<A>, ok: Domain<A>, s: Bytes) {
    match p(s)
    case None => true
    case Some((x, r)) => ok(x) && s == f(x) + r
  }

  // Bytes are laid out from one value at most.
  lemma Unambiguous<A(!new)>(p: Parser<A>, f: Printer<A>, ok: Domain<A>, x: A, s: Bytes, y: A, t: Bytes)
    requires Exact(p, f, ok) && ok(x) && ok(y) && f(x) + s == f(y) + t
    ensures x == y && s == t
  {
    assert ReadsBack(p, f, x, s) && ReadsBack(p, f, y, t);
  }

  // Such a reader rejects every proper prefix of a layout.
  lemma PrefixRejected<A(!new)>(p: Parser<A>, f: Printer<A>, ok: Domain<A>, x: A, k: nat)
    requires Exact(p, f, ok) && ok(x) && k < |f(x)|
    ensures p(f(x)[..k]) == None
  {
    var s, t := f(x)[..k], f(x)[k..];
    if p(s).Some? {
      var (y, r) := p(s).value;
      assert Sound(p, f, ok, s);
      assert f(x) + [] == s + t == f(y) + (r + t);
      Unambiguous(p, f, ok, x, [], y, r + t);
    }
  }

  // --- Words and blocks ---------------------------------------------------------------

  function Word(n: nat): Parser<nat> {
    (s: Bytes) => if |s| < n then None else Some((UnBE(s[..n]), s[n..]))
  }

  function WordLayout(n: nat): Printer<nat> {
    (v: nat) => BE(n, v)
  }

  function Fits(n: nat): Domain<nat> {
    (v: nat) => v < Base(n)
  }

  lemma WordExact(n: nat)
    ensures Exact(Word(n), WordLayout(n), Fits(n))
  {
    forall v: nat, rest: Bytes | v < Base(n)
      ensures ReadsBack(Word(n), WordLayout(n), v, rest)
    {
      UnBEBE(n, v);
      assert (BE(n, v) + rest)[..n] == BE(n, v) && (BE(n, v) + rest)[n..] == rest;
    }
    forall s: Bytes
      ensures Sound(Word(n), WordLayout(n), Fits(n), s)
    {
      if |s| >= n {
        BEUnBE(s[..n]);
      }
    }
  }

  function Block(n: nat): Parser<Bytes> {
    (s: Bytes) => if |s| < n then None else Some((s[..n], s[n..]))
  }

  function BlockLayout(): Printer<Bytes> {
    (b: Bytes) => b
  }

  function OfLength(n: nat): Domain<Bytes> {
    (b: Bytes) => |b| == n
  }

  lemma BlockExact(n: nat)
    ensures Exact(Block(n), BlockLayout(), OfLength(n))
  {
    forall b: Bytes, rest: Bytes | |b| == n
      ensures ReadsBack(Block(n), BlockLayout(), b, rest)
    {
      assert (b + rest)[..n] == b && (b + rest)[n..] == rest;
    }
  }

  // --- One after the other --------------------------------------------------------------

  function Pair<A, B>(p: Parser<A>, q: Parser<B>): Parser<(A, B)> {
    (s: Bytes) =>
      match p(s)
      case None => None
      case Some((a, r)) =>
        match q(r)
        case None => None
        case Some((b, r')) => Some(((a, b), r'))
  }

  function PairLayout<A, B>(f: Printer<A>, g: Printer<B>): Printer<(A, B)> {
    (x: (A, B)) => f(x.0) + g(x.1)
  }

  function Both<A, B>(ok: Domain<A>, ok': Domain<B>): Domain<(A, B)> {
    (x: (A, B)) => ok(x.0) && ok'(x.1)
  }

  lemma PairExact<A(!new), B(!new)>(p: Parser<A>, f: Printer<A>, ok: Domain<A>,
                                    q: Parser<B>, g: Printer<B>, ok': Domain<B>)
    requires Exact(p, f, ok) && Exact(q, g, ok')
    ensures Exact(Pair(p, q), PairLayout(f, g), Both(ok, ok'))
  {
    forall x: (A, B), rest: Bytes | Both(ok, ok')(x)
      ensures ReadsBack(Pair(p, q), PairLayout(f, g), x, rest)
    {
      assert f(x.0) + g(x.1) + rest == f(x.0) + (g(x.1) + rest);
      assert ReadsBack(p, f, x.0, g(x.1) + rest) && ReadsBack(q, g, x.1, rest);
    }
    forall s: Bytes
      ensures Sound(Pair(p, q), PairLayout(f, g), Both(ok, ok'), s)
    {
      assert Sound(p, f, ok, s);
      if p(s).Some? {
        assert Sound(q, g, ok', p(s).value.1);
      }
    }
  }

  // The same bytes, seen as another type.
  function Mapped<A, B>(p: Parser<A>, to: A -> B): Parser<B> {
    (s: Bytes) =>
      match p(s)
      case None => None
      case Some((a, r)) => Some((to(a), r))
  }

  function MappedLayout<A, B>(f: Printer<A>, from: B -> A): Printer<B> {
    (b: B) => f(from(b))
  }

  // `to` and `from` are inverse to each other between the two domains.
  ghost predicate Converts<A(!new), B(!new)>(ok: Domain<A>, to: A -> B, from: B -> A, ok': Domain<B>) {
    && (forall a: A :: ok(a) ==> ok'(to(a)) && from(to(a)) == a)
    && (forall b: B :: ok'(b) ==> ok(from(b)) && to(from(b)) == b)
  }

  lemma MappedExact<A(!new), B(!new)>(p: Parser<A>, f: Printer<A>, ok: Domain<A>,
                                      to: A -> B, from: B -> A, ok': Domain<B>)
    requires Exact(p, f, ok) && Converts(ok, to, from, ok')
    ensures Exact(Mapped(p, to), MappedLayout(f, from), ok')
  {
    forall b: B, rest: Bytes | ok'(b)
      ensures ReadsBack(Mapped(p, to), MappedLayout(f, from), b, rest)
    {
      assert ReadsBack(p, f, from(b), rest);
    }
    forall s: Bytes
      ensures Sound(Mapped(p, to), MappedLayout(f, from), ok', s)
    {
      assert Sound(p, f, ok, s);
    }
  }

  // --- A length, then that much -------------------------------------------------------------

  // A block behind its own n-byte length.
  function Sized(n: nat): Parser<Bytes> {
    (s: Bytes) =>
      match Word(n)(s)
      case None => None
      case Some((size, r)) => Block(size)(r)
  }

  function SizedLayout(n: nat): Printer<Bytes> {
    (b: Bytes) => BE(n, |b|) + b
  }

  function Below(n: nat): Domain<Bytes> {
    (b: Bytes) => |b| < Base(n)
  }

  lemma SizedExact(n: nat)
    ensures Exact(Sized(n), SizedLayout(n), Below(n))
  {
    WordExact(n);
    forall b: Bytes, rest: Bytes | |b| < Base(n)
      ensures ReadsBack(Sized(n), SizedLayout(n), b, rest)
    {
      BlockExact(|b|);
      assert BE(n, |b|) + b + rest == WordLayout(n)(|b|) + (b + rest);
      assert ReadsBack<nat>(Word(n), WordLayout(n), |b|, b + rest) && ReadsBack(Block(|b|), BlockLayout(), b, rest);
    }
    forall s: Bytes
      ensures Sound(Sized(n), SizedLayout(n), Below(n), s)
    {
      assert Sound(Word(n), WordLayout(n), Fits(n), s);
      if Word(n)(s).Some? {
        var (size, r) := Word(n)(s).value;
        BlockExact(size);
        assert Sound(Block(size), BlockLayout(), OfLength(size), r);
      }
    }
  }

  // n items in a row.
  function Many<A>(n: nat, p: Parser<A>, s: Bytes): Option<(seq<A>, Bytes)> {
    if n == 0 then Some(([], s))
    else
      match p(s)
      case None => None
      case Some((x, r)) => Prepend([x], Many(n - 1, p, r))
  }

  function Prepend<A>(xs: seq<A>, o: Option<(seq<A>, Bytes)>): Option<(seq<A>, Bytes)> {
    match o
    case None => None
    case Some((ys, r)) => Some((xs + ys, r))
  }

  function ManyLayout<A>(xs: seq<A>, f: Printer<A>): Bytes {
    if xs == [] then [] else f(xs[0]) + ManyLayout(xs[1..], f)
  }

  // A 16-bit count, then that many items.
  function Counted<A>(p: Parser<A>): Parser<seq<A>> {
    (s: Bytes) =>
      match Word(2)(s)
      case None => None
      case Some((n, r)) => Many(n, p, r)
  }

  function CountedLayout<A>(f: Printer<A>): Printer<seq<A>> {
    (xs: seq<A>) => BE(2, |xs|) + ManyLayout(xs, f)
  }

  function Each<A>(ok: Domain<A>): Domain<seq<A>> {
    (xs: seq<A>) => |xs| < W16 && forall i :: 0 <= i < |xs| ==> ok(xs[i])
  }

  lemma {:induction false} ManyReadsBack<A(!new)>(p: Parser<A>, f: Printer<A>, ok: Domain<A>, xs: seq<A>, rest: Bytes)
    requires Exact(p, f, ok) && forall i :: 0 <= i < |xs| ==> ok(xs[i])
    ensures Many(|xs|, p, ManyLayout(xs, f) + rest) == Some((xs, rest))
  {
    if xs == [] {
      assert ManyLayout(xs, f) + rest == rest;
    } else {
      var tail := ManyLayout(xs[1..], f) + rest;
      assert ManyLayout(xs, f) + rest == f(xs[0]) + tail;
      assert ReadsBack(p, f, xs[0], tail);
      ManyReadsBack(p, f, ok, xs[1..], rest);
      assert [xs[0]] + xs[1..] == xs;
    }
  }

  lemma {:induction false} ManySound<A(!new)>(n: nat, p: Parser<A>, f: Printer<A>, ok: Domain<A>, s: Bytes)
    requires Exact(p, f, ok) && Many(n, p, s).Some?
    ensures var (xs, r) := Many(n, p, s).value;
            |xs| == n && s == ManyLayout(xs, f) + r && forall i :: 0 <= i < n ==> ok(xs[i])
  {
    if n > 0 {
      assert Sound(p, f, ok, s);
      var (x, r) := p(s).value;
      ManySound(n - 1, p, f, ok, r);
      var (xs, r') := Many(n - 1, p, r).value;
      assert ([x] + xs)[1..] == xs;
      assert s == f(x) + (ManyLayout(xs, f) + r') == ManyLayout([x] + xs, f) + r';
    }
  }

  lemma CountedReadsBack<A(!new)>(p: Parser<A>, f: Printer<A>, ok: Domain<A>, xs: seq<A>, rest: Bytes)
    requires Exact(p, f, ok) && Each(ok)(xs)
    ensures ReadsBack(Counted(p), CountedLayout(f), xs, rest)
  {
    hide Exact, Word;
    var tail := ManyLayout(xs, f) + rest;
    assert BE(2, |xs|) + ManyLayout(xs, f) + rest == WordLayout(2)(|xs|) + tail;
    WordReadsBack(2, |xs|, tail);
    ManyReadsBack(p, f, ok, xs, rest);
  }

  lemma WordReadsBack(n: nat, v: nat, rest: Bytes)
    requires v < Base(n) || (n == 2 && v < W16)
    ensures Word(n)(BE(n, v) + rest) == Some((v, rest))
  {
    BaseValues();
    WordExact(n);
    assert ReadsBack(Word(n), WordLayout(n), v, rest);
  }

  lemma CountedSound<A(!new)>(p: Parser<A>, f: Printer<A>, ok: Domain<A>, s: Bytes)
    requires Exact(p, f, ok)
    ensures Sound(Counted(p), CountedLayout(f), Each(ok), s)
  {
    hide Exact, Word;
    if Counted(p)(s).Some? {
      WordSound(2, s);
      BaseValues();
      var (n, r) := Word(2)(s).value;
      ManySound(n, p, f, ok, r);
      var (xs, r') := Many(n, p, r).value;
      assert s == BE(2, n) + (ManyLayout(xs, f) + r') == CountedLayout(f)(xs) + r';
    }
  }

  lemma WordSound(n: nat, s: Bytes)
    requires Word(n)(s).Some?
    ensures var (v, r) := Word(n)(s).value; v < Base(n) && s == BE(n, v) + r
  {
    WordExact(n);
    assert Sound(Word(n), WordLayout(n), Fits(n), s);
  }

  lemma CountedExact<A(!new)>(p: Parser<A>, f: Printer<A>, ok: Domain<A>)
    requires Exact(p, f, ok)
    ensures Exact(Counted(p), CountedLayout(f), Each(ok))
  {
    hide Counted, CountedLayout, Each, ReadsBack, Sound;
    forall xs: seq<A>, rest: Bytes | Each(ok)(xs)
      ensures ReadsBack(Counted(p), CountedLayout(f), xs, rest)
    {
      CountedReadsBack(p, f, ok, xs, rest);
    }
    forall s: Bytes
      ensures Sound(Counted(p), CountedLayout(f), Each(ok), s)
    {
      CountedSound(p, f, ok, s);
    }
  }

  // One step of a loop that reads items: what it still has to read, put
  // behind what it has.
  lemma ManyStep<A>(n: nat, p: Parser<A>, s: Bytes, xs: seq<A>)
    requires n > 0
    ensures p(s).None? ==> Prepend(xs, Many(n, p, s)) == None
    ensures p(s).Some? ==>
              Prepend(xs, Many(n, p, s)) == Prepend(xs + [p(s).value.0], Many(n - 1, p, p(s).value.1))
  {
    if p(s).Some? {
      var (x, r) := p(s).value;
      match Many(n - 1, p, r) {
        case None =>
        case Some((ys, r')) => assert xs + ([x] + ys) == xs + [x] + ys;
      }
    }
  }
}
