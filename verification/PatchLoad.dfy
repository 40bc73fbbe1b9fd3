// Loading a whole patch file (user/patch_file.c, load_patch_file): the
// record each version makes of its sections, the cookie and the hash.
module PatchLoad {
  import opened Words
  import opened Parsing
  import opened PatchData
  import opened PatchFormat
  import HashText

  // --- Records --------------------------------------------------------------------

  function Record2(sha1: Sha1): Body2 -> Patch {
    (x: Body2) => Earlier(sha1, x.0, x.1.0, x.1.1.0, x.1.1.1.0, x.1.1.1.1)
  }

  function Earlier(sha1: Sha1, info: Refxen, crowbar: nat, refabs: nat, blob: Bytes, e: Ending2): Patch {
    Patch(2, sha1, info.0, info.1, crowbar, refabs, blob, e.0, e.1.0, e.1.1.0, e.1.1.1, [], [], [], [], [], [], [])
  }

  function Sections2(): Patch -> Body2 {
    (p: Patch) =>
      ((p.xenversion, p.xencompiledate),
       (p.crowbarabs, (p.refabs, (p.blob, (p.relocs, (p.checks, (p.funcs, p.tables)))))))
  }

  function Later(v: nat, sha1: Sha1, h: Head, crowbar: nat, m: Middle, ex: Exceptions, conflicts: seq<Sha1>): Patch {
    LaterRecord(v, sha1, h, crowbar, m.0, m.1.0, m.1.1.0, m.1.1.1, ex, conflicts)
  }

  function LaterRecord(v: nat, sha1: Sha1, h: Head, crowbar: nat, refabs: nat, blob: Bytes,
                       rel: (seq<Reloc3>, seq<nat>), e: Ending, ex: Exceptions, conflicts: seq<Sha1>): Patch
  {
    Patch(v, sha1, h.1.0.0, h.1.0.1, crowbar, refabs, blob, rel.1, e.0, e.1.0.1, e.1.1, h.0, rel.0, e.1.0.0, h.1.1,
          ex.0, ex.1, conflicts)
  }

  function HeadOf(p: Patch): Head {
    (p.tags, ((p.xenversion, p.xencompiledate), p.deps))
  }

  function MiddleOf(p: Patch): Middle {
    (p.refabs, (p.blob, ((p.relocs3, p.relocs), (p.checks, ((p.symbols, p.funcs), p.tables)))))
  }

  function Body4Of(p: Patch): Body4 {
    (HeadOf(p), (MiddleOf(p), (p.exctbl, p.preexctbl)))
  }

  function Record3(sha1: Sha1): Body3 -> Patch {
    (x: Body3) => Later(3, sha1, x.0, x.1.0, x.1.1, ([], []), [])
  }

  function Sections3(): Patch -> Body3 {
    (p: Patch) => (HeadOf(p), (p.crowbarabs, MiddleOf(p)))
  }

  function Record4(sha1: Sha1): Body4 -> Patch {
    (x: Body4) => Later(4, sha1, x.0, 0, x.1.0, x.1.1, [])
  }

  function Sections4(): Patch -> Body4 {
    (p: Patch) => Body4Of(p)
  }

  function Record5(sha1: Sha1): Body5 -> Patch {
    (x: Body5) => Later(5, sha1, x.0.0, 0, x.0.1.0, x.0.1.1, x.1)
  }

  function Sections5(): Patch -> Body5 {
    (p: Patch) => (Body4Of(p), p.conflicts)
  }

  // What a file of the record's version has room for.
  predicate Storable(p: Patch) {
    && 2 <= p.version <= 5
    && p.crowbarabs < Base(8) && p.refabs < Base(8) && |p.blob| < Base(4)
    && Each(Fits(4))(p.relocs) && Each(CheckOk)(p.checks) && Each(FuncOk)(p.funcs) && Each(TableOk)(p.tables)
    && |p.tags| < Base(2) && Each(Reloc3Ok)(p.relocs3) && Each(SymbolOk)(p.symbols) && Each(DepOk)(p.deps)
    && Each(ExOk)(p.exctbl) && Each(ExOk)(p.preexctbl) && Each(Any<Sha1>())(p.conflicts)
    && (p.version < 3 ==> p.tags == [] && p.relocs3 == [] && p.symbols == [] && p.deps == [])
    && (p.version < 4 ==> p.exctbl == [] && p.preexctbl == [])
    && (p.version >= 4 ==> p.crowbarabs == 0)
    && (p.version < 5 ==> p.conflicts == [])
  }

  function Of(v: nat, sha1: Sha1): Domain<Patch> {
    (p: Patch) => p.version == v && p.sha1 == sha1 && Storable(p)
  }

  function Load(v: nat, sha1: Sha1): Parser<Patch> {
    if v == 2 then Mapped(Body2Item(), Record2(sha1))
    else if v == 3 then Mapped(Body3Item(), Record3(sha1))
    else if v == 4 then Mapped(Body4Item(), Record4(sha1))
    else Mapped(Body5Item(), Record5(sha1))
  }

  function Layout(v: nat): Printer<Patch> {
    if v == 2 then MappedLayout(Body2Layout(), Sections2())
    else if v == 3 then MappedLayout(Body3Layout(), Sections3())
    else if v == 4 then MappedLayout(Body4Layout(), Sections4())
    else MappedLayout(Body5Layout(), Sections5())
  }

  // What a version does not store is empty.
  lemma NothingStored()
    ensures Each(Reloc3Ok)([]) && Each(SymbolOk)([]) && Each(DepOk)([]) && Each(ExOk)([]) && Each(Any<Sha1>())([])
    ensures 0 < Base(2) && 0 < Base(8)
  {
  }

  lemma Converts2(sha1: Sha1)
    ensures Converts(Body2Ok(), Record2(sha1), Sections2(), Of(2, sha1))
  {
    hide Each, Base;
    NothingStored();
    forall x: Body2 | Body2Ok()(x)
      ensures Of(2, sha1)(Record2(sha1)(x)) && Sections2()(Record2(sha1)(x)) == x
    {
    }
    forall p: Patch | Of(2, sha1)(p)
      ensures Body2Ok()(Sections2()(p)) && Record2(sha1)(Sections2()(p)) == p
    {
    }
  }

  lemma Converts3(sha1: Sha1)
    ensures Converts(Body3Ok(), Record3(sha1), Sections3(), Of(3, sha1))
  {
    hide Each, Base;
    NothingStored();
    forall x: Body3 | Body3Ok()(x)
      ensures Of(3, sha1)(Record3(sha1)(x)) && Sections3()(Record3(sha1)(x)) == x
    {
    }
    forall p: Patch | Of(3, sha1)(p)
      ensures Body3Ok()(Sections3()(p)) && Record3(sha1)(Sections3()(p)) == p
    {
    }
  }

  lemma Converts4(sha1: Sha1)
    ensures Converts(Body4Ok(), Record4(sha1), Sections4(), Of(4, sha1))
  {
    hide Each, Base;
    NothingStored();
    forall x: Body4 | Body4Ok()(x)
      ensures Of(4, sha1)(Record4(sha1)(x)) && Sections4()(Record4(sha1)(x)) == x
    {
    }
    forall p: Patch | Of(4, sha1)(p)
      ensures Body4Ok()(Sections4()(p)) && Record4(sha1)(Sections4()(p)) == p
    {
    }
  }

  lemma Converts5(sha1: Sha1)
    ensures Converts(Body5Ok(), Record5(sha1), Sections5(), Of(5, sha1))
  {
    hide Each, Base;
    NothingStored();
    forall x: Body5 | Body5Ok()(x)
      ensures Of(5, sha1)(Record5(sha1)(x)) && Sections5()(Record5(sha1)(x)) == x
    {
    }
    forall p: Patch | Of(5, sha1)(p)
      ensures Body5Ok()(Sections5()(p)) && Record5(sha1)(Sections5()(p)) == p
    {
    }
  }

  // The loader of each version accepts just the bytes that begin with the
  // sections of a record of that version, and stops right behind them.
  lemma LoadExact(v: nat, sha1: Sha1)
    requires 2 <= v <= 5
    ensures Exact(Load(v, sha1), Layout(v), Of(v, sha1))
  {
    hide Body2Item, Body2Layout, Body2Ok, Body3Item, Body3Layout, Body3Ok, Body4Item, Body4Layout, Body4Ok;
    hide Body5Item, Body5Layout, Body5Ok, Record2, Record3, Record4, Record5, Sections2, Sections3, Sections4,
      Sections5;
    hide Converts, Exact, Of, Mapped, MappedLayout;
    if v == 2 {
      Body2Exact();
      Converts2(sha1);
      MappedExact(Body2Item(), Body2Layout(), Body2Ok(), Record2(sha1), Sections2(), Of(2, sha1));
    } else if v == 3 {
      Body3Exact();
      Converts3(sha1);
      MappedExact(Body3Item(), Body3Layout(), Body3Ok(), Record3(sha1), Sections3(), Of(3, sha1));
    } else if v == 4 {
      Body4Exact();
      Converts4(sha1);
      MappedExact(Body4Item(), Body4Layout(), Body4Ok(), Record4(sha1), Sections4(), Of(4, sha1));
    } else {
      Body5Exact();
      Converts5(sha1);
      MappedExact(Body5Item(), Body5Layout(), Body5Ok(), Record5(sha1), Sections5(), Of(5, sha1));
    }
  }

  // Laying a record out and loading it gives it back, with just those bytes read.
  lemma RecordRoundTrip(p: Patch, rest: Bytes)
    requires Storable(p)
    ensures Load(p.version, p.sha1)(Layout(p.version)(p) + rest) == Some((p, rest))
  {
    hide Load, Layout, Storable;
    LoadExact(p.version, p.sha1) by {
      assert 2 <= p.version <= 5 by { StorableVersion(p); }
    }
    assert ReadsBack(Load(p.version, p.sha1), Layout(p.version), p, rest);
  }

  lemma StorableVersion(p: Patch)
    requires Storable(p)
    ensures 2 <= p.version <= 5
  {
  }

  // Whatever loads is a record of its version laid out in the file.
  lemma LoadedIsLaidOut(v: nat, sha1: Sha1, s: Bytes)
    requires 2 <= v <= 5 && Load(v, sha1)(s).Some?
    ensures var (p, r) := Load(v, sha1)(s).value;
            p.version == v && p.sha1 == sha1 && Storable(p) && s == Layout(v)(p) + r
  {
    hide Load, Layout, Storable;
    LoadExact(v, sha1);
    assert Sound(Load(v, sha1), Layout(v), Of(v, sha1), s);
  }

  // No record loads from a proper prefix of its sections.
  lemma RecordPrefixRejected(p: Patch, k: nat)
    requires Storable(p) && k < |Layout(p.version)(p)|
    ensures Load(p.version, p.sha1)(Layout(p.version)(p)[..k]) == None
  {
    hide Load, Layout;
    LoadExact(p.version, p.sha1);
    PrefixRejected(Load(p.version, p.sha1), Layout(p.version), Of(p.version, p.sha1), p, k);
  }

  // --- Room for the relocations ------------------------------------------------------

  // The array is allocated for the sum of the two counts cut to 16 bits; the
  // loader stores past its end once it reads more words than that.
  predicate RelocsOverrun(s: Bytes) {
    match Pair(Counted(Reloc3Item()), Word(2))(s)
    case None => false
    case Some(((relocs3, n), r)) => |relocs3| + n >= W16 && |r| >= 4 * (|relocs3| + n - W16 + 1)
  }

  predicate MiddleOverruns(s: Bytes) {
    match Pair(Word(8), Sized(4))(s)
    case None => false
    case Some((_, r)) => RelocsOverrun(r)
  }

  predicate Overruns(v: nat, s: Bytes) {
    v > 2 &&
    match HeadItem()(s)
    case None => false
    case Some((_, r)) =>
      if v > 3 then MiddleOverruns(r)
      else
        match Word(8)(r)
        case None => false
        case Some((_, r')) => MiddleOverruns(r')
  }

  datatype LoadResult = Loaded(patch: Patch) | Refused | Overrun

  function LoadSections(v: nat, sha1: Sha1, s: Bytes): LoadResult {
    if Overruns(v, s) then Overrun
    else
      match Load(v, sha1)(s)
      case None => Refused
      case Some((p, _)) => Loaded(p)
  }

  // Reading n words takes their four bytes each.
  lemma {:induction false} WordsTakeRoom(n: nat, s: Bytes)
    requires Many(n, Word(4), s).Some?
    ensures |Many(n, Word(4), s).value.0| == n && 4 * n <= |s|
  {
    if n > 0 {
      WordsTakeRoom(n - 1, Word(4)(s).value.1);
    }
  }

  lemma {:induction false} WordsThere(n: nat, s: Bytes)
    ensures Many(n, Word(4), s).Some? <==> 4 * n <= |s|
  {
    if n > 0 && |s| >= 4 {
      WordsThere(n - 1, s[4..]);
    }
  }

  // The store past the end, for files that load and files that do not: it
  // happens exactly when the section holds one word more than the array has
  // room for, and the count asks for it.
  lemma OverrunWhen(s: Bytes)
    ensures RelocsOverrun(s) <==>
            match Pair(Counted(Reloc3Item()), Word(2))(s)
            case None => false
            case Some(((relocs3, n), r)) =>
              var room := (|relocs3| + n) % W16;
              room < n && Many(room + 1, Word(4), r).Some?
  {
    hide Reloc3Item, Counted, Word, Many;
    if Pair(Counted(Reloc3Item()), Word(2))(s).Some? {
      var ((relocs3, n), r) := Pair(Counted(Reloc3Item()), Word(2))(s).value;
      CountBelow(Reloc3Item(), s);
      WordBelow(Counted(Reloc3Item())(s).value.1);
      WordsThere((|relocs3| + n) % W16 + 1, r);
    }
  }

  lemma WordBelow(s: Bytes)
    requires Word(2)(s).Some?
    ensures Word(2)(s).value.0 < W16
  {
    BaseValues();
    WordExact(2);
    assert Sound(Word(2), WordLayout(2), Fits(2), s);
  }

  lemma CountBelow<A>(p: Parser<A>, s: Bytes)
    requires Counted(p)(s).Some?
    ensures |Counted(p)(s).value.0| < W16
  {
    WordBelow(s);
    var (n, r) := Word(2)(s).value;
    hide Word;
    ManyCounts(n, p, r);
  }

  lemma {:induction false} ManyCounts<A>(n: nat, p: Parser<A>, s: Bytes)
    requires Many(n, p, s).Some?
    ensures |Many(n, p, s).value.0| == n
  {
    if n > 0 {
      ManyCounts(n - 1, p, p(s).value.1);
    }
  }

  lemma RelocsFit(s: Bytes)
    requires RelocsItem()(s).Some?
    ensures var (relocs3, relocs) := RelocsItem()(s).value.0;
            |relocs3| < W16 && |relocs| < W16 ==> (RelocsOverrun(s) <==> |relocs3| + |relocs| >= W16)
  {
    hide Reloc3Item, Word;
    var r := Counted(Reloc3Item())(s).value.1;
    var (n, r') := Word(2)(r).value;
    assert Counted(Word(4))(r) == Many(n, Word(4), r');
    hide Counted;
    WordsTakeRoom(n, r');
  }

  lemma MiddleRelocs(s: Bytes)
    requires MiddleItem()(s).Some?
    ensures var m := MiddleItem()(s).value.0;
            |m.1.1.0.0| < W16 && |m.1.1.0.1| < W16 ==> (MiddleOverruns(s) <==> |m.1.1.0.0| + |m.1.1.0.1| >= W16)
  {
    hide RelocsItem, EndingItem, Sized, Word, RelocsOverrun;
    RelocsFit(Sized(4)(Word(8)(s).value.1).value.1);
  }

  // Of the patches that load, the ones whose two counts reach 2^16 together
  // have overrun the array on the way.
  lemma OverrunExact(v: nat, sha1: Sha1, s: Bytes)
    requires 2 <= v <= 5 && Load(v, sha1)(s).Some?
    ensures var p := Load(v, sha1)(s).value.0;
            Overruns(v, s) <==> |p.relocs| + |p.relocs3| >= W16
  {
    hide HeadItem, MiddleItem, ExceptionsItem, HashItem, MiddleOverruns, Word, Storable, Body2Item;
    var p := Load(v, sha1)(s).value.0;
    if v > 2 {
      var r := HeadItem()(s).value.1;
      var r' := if v == 3 then Word(8)(r).value.1 else r;
      MiddleRelocs(r');
      var m := MiddleItem()(r').value.0;
      assert p.relocs3 == m.1.1.0.0 && p.relocs == m.1.1.0.1;
    }
    CountsBounded(v, sha1, s);
  }

  lemma FewRelocs(p: Patch)
    requires Storable(p)
    ensures |p.relocs| < W16 && |p.relocs3| < W16 && (p.version == 2 ==> p.relocs3 == [])
  {
  }

  lemma CountsBounded(v: nat, sha1: Sha1, s: Bytes)
    requires 2 <= v <= 5 && Load(v, sha1)(s).Some?
    ensures var p := Load(v, sha1)(s).value.0;
            |p.relocs| < W16 && |p.relocs3| < W16 && (v == 2 ==> p.relocs3 == [])
  {
    hide Load, Storable;
    LoadedIsLaidOut(v, sha1, s);
    FewRelocs(Load(v, sha1)(s).value.0);
  }

  // --- Files --------------------------------------------------------------------------

  // XSPATCH and the digit of the version.
  function Cookie(v: nat): (c: Bytes)
    requires v < 10
    ensures |c| == 8
  {
    [0x58, 0x53, 0x50, 0x41, 0x54, 0x43, 0x48, (0x30 + v) as Byte]
  }

  function Version(file: Bytes): Option<nat> {
    if |file| < 8 then None
    else if file[..8] == Cookie(2) then Some(2)
    else if file[..8] == Cookie(3) then Some(3)
    else if file[..8] == Cookie(4) then Some(4)
    else if file[..8] == Cookie(5) then Some(5)
    else None
  }

  // .raxlpxs
  const EXTENSION: Bytes := [0x2e, 0x72, 0x61, 0x78, 0x6c, 0x70, 0x78, 0x73]

  predicate ExtensionAt(name: Bytes, k: nat) {
    k + 8 <= |name| && name[k..k + 8] == EXTENSION
  }

  predicate HasExtension(name: Bytes) {
    exists k: nat :: k <= |name| && ExtensionAt(name, k)
  }

  // The hash a version 2 file must have, from its name.
  function NameHash(name: Bytes, bare: bool): Option<Sha1> {
    if !HasExtension(name) || |name| != 48 || HashText.Scan(name, 20, bare) != HashText.Accepted then None
    else Some(HashText.Stores(name, 20, bare, Zeros(23))[..20])
  }

  // The hash a later file must have, from its last 20 bytes, and the bytes hashed.
  function StoredHash(file: Bytes): Option<(Sha1, Bytes)> {
    if |file| < 20 then None else Some((file[|file| - 20..], file[..|file| - 20]))
  }

  function Expected(v: nat, file: Bytes, name: Bytes, bare: bool): Option<(Sha1, Bytes)> {
    if v > 2 then StoredHash(file)
    else
      match NameHash(name, bare)
      case None => None
      case Some(h) => Some((h, file))
  }

  // `hash` is SHA-1. The sections are read from behind the cookie; nothing
  // checks that they end where the hash begins.
  function LoadFile(hash: Bytes -> Sha1, file: Bytes, name: Bytes, bare: bool): LoadResult {
    match Version(file)
    case None => Refused
    case Some(v) =>
      match Expected(v, file, name, bare)
      case None => Refused
      case Some((sha1, covered)) =>
        if hash(covered) != sha1 then Refused
        else LoadSections(v, sha1, file[8..])
  }

  // The file of a record, whose hash it must carry.
  function FileBody(p: Patch): Bytes
    requires Storable(p)
  {
    Cookie(p.version) + Layout(p.version)(p)
  }

  function FileOf(p: Patch): Bytes
    requires Storable(p)
  {
    FileBody(p) + if p.version == 2 then [] else p.sha1
  }

  function NameOf(p: Patch): Bytes {
    HashText.Hex(p.sha1) + EXTENSION
  }

  lemma VersionOfCookie(v: nat, rest: Bytes)
    requires 2 <= v <= 5
    ensures Version(Cookie(v) + rest) == Some(v)
  {
    assert (Cookie(v) + rest)[..8] == Cookie(v);
    assert Cookie(v)[7] == (0x30 + v) as Byte;
    assert Cookie(2)[7] == 0x32 && Cookie(3)[7] == 0x33 && Cookie(4)[7] == 0x34 && Cookie(5)[7] == 0x35;
  }

  // A name made from a hash gives the hash back.
  lemma NameRoundTrip(p: Patch, bare: bool)
    ensures NameHash(NameOf(p), bare) == Some(p.sha1)
  {
    hide HashText.Hex, HashText.Scan, HashText.Stores;
    var name := NameOf(p);
    assert |name| == 48;
    assert name[40..48] == EXTENSION;
    assert ExtensionAt(name, 40);
    assert HasExtension(name);
    HashText.HashRoundTrip(p.sha1, EXTENSION, Zeros(23), bare);
    assert HashText.Stores(name, 20, bare, Zeros(23))[..20] == p.sha1;
  }

  // A file written for a record loads as that record, under any hash function
  // that gives the record's hash for the bytes it covers, exactly when its two
  // relocation counts together stay below 2^16.
  lemma FileRoundTrip(hash: Bytes -> Sha1, p: Patch, bare: bool)
    requires Storable(p) && hash(FileBody(p)) == p.sha1
    ensures LoadFile(hash, FileOf(p), NameOf(p), bare) ==
            if |p.relocs| + |p.relocs3| < W16 then Loaded(p) else Overrun
  {
    hide Load, Layout, Storable, Overruns, Version, NameHash, NameOf, HashText.Hex;
    assert 2 <= p.version <= 5 by { StorableVersion(p); }
    var v, l := p.version, Layout(p.version)(p);
    var tail: Bytes := if v == 2 then [] else p.sha1;
    var file := FileOf(p);
    assert file == Cookie(v) + (l + tail) && file[8..] == l + tail;
    VersionOfCookie(v, l + tail);
    RecordRoundTrip(p, tail);
    OverrunExact(v, p.sha1, l + tail);
    if v == 2 {
      NameRoundTrip(p, bare);
      assert file == FileBody(p);
    } else {
      assert file[..|file| - 20] == FileBody(p) && file[|file| - 20..] == p.sha1;
    }
  }

  // Every accepted file begins with the cookie and the sections of the record
  // it loads as, and the bytes that version covers hash to the record's hash.
  lemma AcceptedFile(hash: Bytes -> Sha1, file: Bytes, name: Bytes, bare: bool)
    requires LoadFile(hash, file, name, bare).Loaded?
    ensures var p := LoadFile(hash, file, name, bare).patch;
            && Storable(p) && |p.relocs| + |p.relocs3| < W16 && FileBody(p) <= file
            && (if p.version == 2 then hash(file) == p.sha1 && NameHash(name, bare) == Some(p.sha1)
                else 20 <= |file| && hash(file[..|file| - 20]) == p.sha1 && file[|file| - 20..] == p.sha1)
  {
    hide Load, Layout, Storable, NameHash, Overruns, Version, Cookie;
    var v := Version(file).value;
    var (sha1, covered) := Expected(v, file, name, bare).value;
    VersionIsCookie(file);
    SectionsLaidOut(v, sha1, file);
  }

  lemma VersionIsCookie(file: Bytes)
    requires Version(file).Some?
    ensures 2 <= Version(file).value <= 5 && |file| >= 8 && file[..8] == Cookie(Version(file).value)
  {
  }

  lemma SectionsLaidOut(v: nat, sha1: Sha1, file: Bytes)
    requires 2 <= v <= 5 && |file| >= 8 && file[..8] == Cookie(v)
    requires LoadSections(v, sha1, file[8..]).Loaded?
    ensures var p := LoadSections(v, sha1, file[8..]).patch;
            && Storable(p) && p.version == v && p.sha1 == sha1
            && |p.relocs| + |p.relocs3| < W16 && FileBody(p) <= file
  {
    hide Load, Layout, Storable, Overruns, Cookie;
    LoadedIsLaidOut(v, sha1, file[8..]);
    OverrunExact(v, sha1, file[8..]);
    var (p, r) := Load(v, sha1)(file[8..]).value;
    assert file == file[..8] + file[8..] == FileBody(p) + r;
  }

  // --- What is accepted, exactly -----------------------------------------------------------

  // The version of a file is that of the cookie it begins with, from 2 to 5.
  lemma VersionExactly(file: Bytes, v: nat)
    ensures Version(file) == Some(v) <==> 2 <= v <= 5 && Ascii("XSPATCH") + [(0x30 + v) as Byte] <= file
  {
    assert Ascii("XSPATCH") == [0x58, 0x53, 0x50, 0x41, 0x54, 0x43, 0x48] by { CookieText(); }
    if 2 <= v <= 5 && Ascii("XSPATCH") + [(0x30 + v) as Byte] <= file {
      assert file[..8] == Cookie(v);
      assert file == Cookie(v) + file[8..];
      VersionOfCookie(v, file[8..]);
    }
    if Version(file) == Some(v) {
      assert file == file[..8] + file[8..];
    }
  }

  lemma CookieText()
    ensures Ascii("XSPATCH") == [0x58, 0x53, 0x50, 0x41, 0x54, 0x43, 0x48]
    ensures Ascii(".raxlpxs") == EXTENSION
  {
    var c, x := "XSPATCH", ".raxlpxs";
    assert c == ['X', 'S', 'P', 'A', 'T', 'C', 'H'];
    assert x == ['.', 'r', 'a', 'x', 'l', 'p', 'x', 's'];
  }

  // Names of version 2 files: 48 characters, the extension somewhere in them,
  // and twenty fields that read as numbers, whose low bytes are the hash.
  lemma NameExactly(name: Bytes, bare: bool)
    ensures NameHash(name, bare).Some? <==>
            && |name| == 48 && (exists k: nat :: k <= 40 && ExtensionAt(name, k))
            && forall j: nat :: j < 20 ==> HashText.ScanPair(name, 2 * j, bare).Some?
    ensures NameHash(name, bare).Some? ==>
              forall j: nat :: j < 20 ==>
                NameHash(name, bare).value[j] as nat == HashText.ScanPair(name, 2 * j, bare).value % 256
    ensures EXTENSION == Ascii(".raxlpxs")
  {
    CookieText();
    HashText.ScanAccepts(name, 20, bare);
    hide HashText.ScanPair, HashText.Scan, HashText.Stores;
    if NameHash(name, bare).Some? {
      var k: nat :| k <= |name| && ExtensionAt(name, k);
      HashText.StoresOverlap(name, 20, bare, Zeros(23));
    }
  }

  // A name that begins with forty hex digits must go on with the extension.
  lemma PlainName(name: Bytes, bare: bool)
    requires |name| >= 40 && forall i :: 0 <= i < 40 ==> HashText.IsHex(name[i])
    ensures NameHash(name, bare).Some? <==> name[40..] == EXTENSION
  {
    NameExactly(name, bare);
    forall j: nat | j < 20
      ensures HashText.ScanPair(name, 2 * j, bare).Some?
    {
      assert HashText.IsHex(name[2 * j]) && HashText.IsHex(name[2 * j + 1]);
      assert HashText.SkipSpace(name, 2 * j) == 2 * j;
    }
    hide NameHash, HashText.ScanPair;
    if name[40..] == EXTENSION {
      assert name[40..48] == EXTENSION;
      assert ExtensionAt(name, 40);
    }
    if |name| == 48 {
      if k: nat :| k <= 40 && ExtensionAt(name, k) {
        assert name[k] == name[k..k + 8][0] == 0x2e;
        assert k == 40;
        assert name[40..48] == name[40..];
      }
    }
  }

  // A file loads as a record exactly when it begins with the record's cookie
  // and sections, the bytes its version covers hash to the record's hash, and
  // the two relocation counts stay below 2^16 together. What comes behind the
  // sections does not matter.
  lemma LoadedExactly(hash: Bytes -> Sha1, file: Bytes, name: Bytes, bare: bool, p: Patch)
    ensures LoadFile(hash, file, name, bare) == Loaded(p) <==>
            && Storable(p) && |p.relocs| + |p.relocs3| < W16 && FileBody(p) <= file
            && (if p.version == 2 then hash(file) == p.sha1 && NameHash(name, bare) == Some(p.sha1)
                else 20 <= |file| && hash(file[..|file| - 20]) == p.sha1 && file[|file| - 20..] == p.sha1)
  {
    hide Load, Layout, Storable, NameHash, Overruns, Version, Cookie;
    if LoadFile(hash, file, name, bare) == Loaded(p) {
      AcceptedFile(hash, file, name, bare);
    }
    if Storable(p) && FileBody(p) <= file {
      assert 2 <= p.version <= 5 by { StorableVersion(p); }
      var rest := file[|FileBody(p)|..];
      var l := Layout(p.version)(p);
      assert file == FileBody(p) + rest == Cookie(p.version) + (l + rest);
      assert file[8..] == l + rest;
      VersionOfCookie(p.version, l + rest);
      RecordRoundTrip(p, rest);
      OverrunExact(p.version, p.sha1, l + rest);
    }
  }

  // --- The layout, section by section -------------------------------------------------------

  lemma PairIs<A, B>(f: Printer<A>, g: Printer<B>, a: A, b: B)
    ensures PairLayout(f, g)((a, b)) == f(a) + g(b)
  {
  }

  lemma MappedIs<A, B>(f: Printer<A>, from: B -> A, b: B)
    ensures MappedLayout(f, from)(b) == f(from(b))
  {
  }

  function Array<A>(f: Printer<A>, xs: seq<A>): Bytes {
    BE(2, |xs|) + ManyLayout(xs, f)
  }

  // Items field by field.
  lemma CheckLayoutIs(c: Check)
    ensures CheckLayout()(c) == BE(8, c.hvabs) + (BE(2, |c.data|) + c.data)
  {
    hide BE, MappedLayout, PairLayout;
    MappedIs(PairLayout(WordLayout(8), SizedLayout(2)), FromCheck, c);
    PairIs(WordLayout(8), SizedLayout(2), c.hvabs, c.data);
  }

  lemma FuncLayoutIs(f: Func)
    ensures FuncLayout()(f) == (BE(2, |f.name|) + f.name) + (BE(8, f.oldabs) + BE(4, f.newrel))
  {
    hide BE, MappedLayout, PairLayout;
    var words := PairLayout(WordLayout(8), WordLayout(4));
    MappedIs(PairLayout(SizedLayout(2), words), FromFunc, f);
    PairIs(SizedLayout(2), words, f.name, (f.oldabs, f.newrel));
    PairIs(WordLayout(8), WordLayout(4), f.oldabs, f.newrel);
  }

  lemma TableLayoutIs(t: Table)
    ensures TableLayout()(t) == (BE(2, |t.name|) + t.name) + (BE(8, t.hvabs) + (BE(2, |t.data|) + t.data))
  {
    hide BE, MappedLayout, PairLayout;
    var data := PairLayout(WordLayout(8), SizedLayout(2));
    MappedIs(PairLayout(SizedLayout(2), data), FromTable, t);
    PairIs(SizedLayout(2), data, t.name, (t.hvabs, t.data));
    PairIs(WordLayout(8), SizedLayout(2), t.hvabs, t.data);
  }

  lemma Reloc3LayoutIs(r: Reloc3)
    ensures Reloc3Layout()(r) == BE(2, r.index) + BE(4, r.offset)
  {
    hide BE, MappedLayout, PairLayout;
    MappedIs(PairLayout(WordLayout(2), WordLayout(4)), FromReloc3, r);
    PairIs(WordLayout(2), WordLayout(4), r.index, r.offset);
  }

  lemma SymbolLayoutIs(s: Symbol)
    ensures SymbolLayout()(s) ==
            (BE(2, |s.name|) + s.name) + ((BE(2, |s.section|) + s.section) + (BE(4, s.secOff) + BE(4, s.symOff)))
  {
    hide BE, MappedLayout, PairLayout;
    var words := PairLayout(WordLayout(4), WordLayout(4));
    MappedIs(PairLayout(SizedLayout(2), PairLayout(SizedLayout(2), words)), FromSymbol, s);
    PairIs(SizedLayout(2), PairLayout(SizedLayout(2), words), s.name, (s.section, (s.secOff, s.symOff)));
    PairIs(SizedLayout(2), words, s.section, (s.secOff, s.symOff));
    PairIs(WordLayout(4), WordLayout(4), s.secOff, s.symOff);
  }

  lemma DepLayoutIs(d: Dependency)
    ensures DepLayout()(d) == d.sha1 + BE(8, d.refabs)
  {
    hide BE, MappedLayout, PairLayout;
    MappedIs(PairLayout(HashLayout(), WordLayout(8)), FromDep, d);
    PairIs(HashLayout(), WordLayout(8), d.sha1, d.refabs);
    MappedIs(BlockLayout(), FromSha1, d.sha1);
  }

  lemma ExLayoutIs(e: ExEntry)
    ensures ExLayout()(e) == BE(4, e.addrrel) + BE(4, e.contrel)
  {
    hide BE, MappedLayout, PairLayout;
    MappedIs(PairLayout(WordLayout(4), WordLayout(4)), FromEx, e);
    PairIs(WordLayout(4), WordLayout(4), e.addrrel, e.contrel);
  }

  // Tags, version and date, dependencies.
  function Before(p: Patch): Bytes {
    (BE(2, |p.tags|) + p.tags) + ((p.xenversion + p.xencompiledate) + Array(DepLayout(), p.deps))
  }

  // From the base address to the tables: references into dependencies before
  // the relocations, symbols before the functions.
  function Behind(p: Patch): Bytes {
    BE(8, p.refabs) + ((BE(4, |p.blob|) + p.blob) +
    ((Array(Reloc3Layout(), p.relocs3) + Array(WordLayout(4), p.relocs)) + (Array(CheckLayout(), p.checks) +
    ((Array(SymbolLayout(), p.symbols) + Array(FuncLayout(), p.funcs)) + Array(TableLayout(), p.tables)))))
  }

  // The same without what version 2 has not.
  function Behind2(p: Patch): Bytes {
    BE(8, p.refabs) + ((BE(4, |p.blob|) + p.blob) +
    (Array(WordLayout(4), p.relocs) + (Array(CheckLayout(), p.checks) +
    (Array(FuncLayout(), p.funcs) + Array(TableLayout(), p.tables)))))
  }

  lemma InfoIs(version: Info, date: Info)
    ensures RefxenLayout()((version, date)) == version + date
  {
    hide MappedLayout, PairLayout;
    PairIs(InfoLayout(), InfoLayout(), version, date);
    MappedIs(BlockLayout(), FromInfo, version);
    MappedIs(BlockLayout(), FromInfo, date);
  }

  lemma BeforeIs(p: Patch)
    ensures HeadLayout()(HeadOf(p)) == Before(p)
  {
    hide BE, ManyLayout, PairLayout, RefxenLayout, DepLayout;
    var info := (p.xenversion, p.xencompiledate);
    InfoIs(p.xenversion, p.xencompiledate);
    PairIs(SizedLayout(2), PairLayout(RefxenLayout(), CountedLayout(DepLayout())), p.tags, (info, p.deps));
    PairIs(RefxenLayout(), CountedLayout(DepLayout()), info, p.deps);
  }

  lemma BehindIs(p: Patch)
    ensures MiddleLayout()(MiddleOf(p)) == Behind(p)
  {
    hide BE, ManyLayout, PairLayout, CheckLayout, FuncLayout, TableLayout, Reloc3Layout, SymbolLayout;
    var names, e := (p.symbols, p.funcs), (p.checks, ((p.symbols, p.funcs), p.tables));
    var rel := (p.relocs3, p.relocs);
    PairIs(CountedLayout(SymbolLayout()), CountedLayout(FuncLayout()), p.symbols, p.funcs);
    PairIs(NamesLayout(), CountedLayout(TableLayout()), names, p.tables);
    PairIs(CountedLayout(CheckLayout()), PairLayout(NamesLayout(), CountedLayout(TableLayout())), p.checks,
           (names, p.tables));
    PairIs(CountedLayout(Reloc3Layout()), CountedLayout(WordLayout(4)), p.relocs3, p.relocs);
    PairIs(RelocsLayout(), EndingLayout(), rel, e);
    PairIs(SizedLayout(4), PairLayout(RelocsLayout(), EndingLayout()), p.blob, (rel, e));
    PairIs(WordLayout(8), PairLayout(SizedLayout(4), PairLayout(RelocsLayout(), EndingLayout())), p.refabs,
           (p.blob, (rel, e)));
  }

  lemma Behind2Is(p: Patch)
    ensures PairLayout(WordLayout(8), PairLayout(SizedLayout(4), Ending2Layout()))
              ((p.refabs, (p.blob, (p.relocs, (p.checks, (p.funcs, p.tables)))))) == Behind2(p)
  {
    hide BE, ManyLayout, PairLayout, CheckLayout, FuncLayout, TableLayout;
    var c, f, t := CountedLayout(CheckLayout()), CountedLayout(FuncLayout()), CountedLayout(TableLayout());
    var e := (p.relocs, (p.checks, (p.funcs, p.tables)));
    PairIs(f, t, p.funcs, p.tables);
    PairIs(c, PairLayout(f, t), p.checks, (p.funcs, p.tables));
    PairIs(CountedLayout(WordLayout(4)), PairLayout(c, PairLayout(f, t)), p.relocs, (p.checks, (p.funcs, p.tables)));
    PairIs(SizedLayout(4), Ending2Layout(), p.blob, e);
    PairIs(WordLayout(8), PairLayout(SizedLayout(4), Ending2Layout()), p.refabs, (p.blob, e));
  }

  // The sections of each version in file order: a counted array is a 16-bit
  // count and its items.
  lemma VersionLayouts(p: Patch)
    ensures Layout(2)(p) == (p.xenversion + p.xencompiledate) + (BE(8, p.crowbarabs) + Behind2(p))
    ensures Layout(3)(p) == Before(p) + (BE(8, p.crowbarabs) + Behind(p))
    ensures Layout(4)(p) == Before(p) + (Behind(p) + (Array(ExLayout(), p.exctbl) + Array(ExLayout(), p.preexctbl)))
    ensures Layout(5)(p) == Layout(4)(p) + Array(HashLayout(), p.conflicts)
  {
    hide BE, ManyLayout, PairLayout, MappedLayout, RefxenLayout, Ending2Layout, HeadLayout, MiddleLayout, ExLayout,
      HashLayout, Before, Behind, Behind2;
    var info, h, m, ex := (p.xenversion, p.xencompiledate), HeadOf(p), MiddleOf(p), (p.exctbl, p.preexctbl);
    var behind2 := (p.refabs, (p.blob, (p.relocs, (p.checks, (p.funcs, p.tables)))));
    var b := PairLayout(WordLayout(8), PairLayout(SizedLayout(4), Ending2Layout()));
    InfoIs(p.xenversion, p.xencompiledate);
    BeforeIs(p);
    BehindIs(p);
    Behind2Is(p);
    MappedIs(Body2Layout(), Sections2(), p);
    PairIs(RefxenLayout(), PairLayout(WordLayout(8), b), info, (p.crowbarabs, behind2));
    PairIs(WordLayout(8), b, p.crowbarabs, behind2);
    MappedIs(Body3Layout(), Sections3(), p);
    PairIs(HeadLayout(), PairLayout(WordLayout(8), MiddleLayout()), h, (p.crowbarabs, m));
    PairIs(WordLayout(8), MiddleLayout(), p.crowbarabs, m);
    MappedIs(Body4Layout(), Sections4(), p);
    PairIs(HeadLayout(), PairLayout(MiddleLayout(), ExceptionsLayout()), h, (m, ex));
    PairIs(MiddleLayout(), ExceptionsLayout(), m, ex);
    PairIs(CountedLayout(ExLayout()), CountedLayout(ExLayout()), p.exctbl, p.preexctbl);
    MappedIs(Body5Layout(), Sections5(), p);
    PairIs(Body4Layout(), CountedLayout(HashLayout()), Body4Of(p), p.conflicts);
  }
}
