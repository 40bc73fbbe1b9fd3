// The XSPATCH file (user/patch_file.c): its sections in the order the loader
// reads them, for each of the versions 2 to 5.
module PatchFormat {
  import opened Words
  import opened Parsing
  import opened PatchData

  // --- Items ------------------------------------------------------------------------

  function CheckItem(): Parser<Check> { Mapped(Pair(Word(8), Sized(2)), ToCheck) }
  function CheckLayout(): Printer<Check> { MappedLayout(PairLayout(WordLayout(8), SizedLayout(2)), FromCheck) }
  function ToCheck(x: (nat, Bytes)): Check { Check(x.0, x.1) }
  function FromCheck(c: Check): (nat, Bytes) { (c.hvabs, c.data) }
  predicate CheckOk(c: Check) { c.hvabs < Base(8) && |c.data| < Base(2) }

  lemma CheckExact()
    ensures Exact(CheckItem(), CheckLayout(), CheckOk)
  {
    WordExact(8);
    SizedExact(2);
    PairExact(Word(8), WordLayout(8), Fits(8), Sized(2), SizedLayout(2), Below(2));
    MappedExact(Pair(Word(8), Sized(2)), PairLayout(WordLayout(8), SizedLayout(2)), Both(Fits(8), Below(2)),
                ToCheck, FromCheck, CheckOk);
  }

  function FuncItem(): Parser<Func> { Mapped(Pair(Sized(2), Pair(Word(8), Word(4))), ToFunc) }
  function FuncLayout(): Printer<Func> {
    MappedLayout(PairLayout(SizedLayout(2), PairLayout(WordLayout(8), WordLayout(4))), FromFunc)
  }
  function ToFunc(x: (Bytes, (nat, nat))): Func { Func(x.0, x.1.0, x.1.1) }
  function FromFunc(f: Func): (Bytes, (nat, nat)) { (f.name, (f.oldabs, f.newrel)) }
  predicate FuncOk(f: Func) { |f.name| < Base(2) && f.oldabs < Base(8) && f.newrel < Base(4) }

  lemma FuncExact()
    ensures Exact(FuncItem(), FuncLayout(), FuncOk)
  {
    WordExact(8);
    WordExact(4);
    SizedExact(2);
    PairExact(Word(8), WordLayout(8), Fits(8), Word(4), WordLayout(4), Fits(4));
    PairExact(Sized(2), SizedLayout(2), Below(2),
              Pair(Word(8), Word(4)), PairLayout(WordLayout(8), WordLayout(4)), Both(Fits(8), Fits(4)));
    MappedExact(Pair(Sized(2), Pair(Word(8), Word(4))),
                PairLayout(SizedLayout(2), PairLayout(WordLayout(8), WordLayout(4))),
                Both(Below(2), Both(Fits(8), Fits(4))), ToFunc, FromFunc, FuncOk);
  }

  function TableItem(): Parser<Table> { Mapped(Pair(Sized(2), Pair(Word(8), Sized(2))), ToTable) }
  function TableLayout(): Printer<Table> {
    MappedLayout(PairLayout(SizedLayout(2), PairLayout(WordLayout(8), SizedLayout(2))), FromTable)
  }
  function ToTable(x: (Bytes, (nat, Bytes))): Table { Table(x.0, x.1.0, x.1.1) }
  function FromTable(t: Table): (Bytes, (nat, Bytes)) { (t.name, (t.hvabs, t.data)) }
  predicate TableOk(t: Table) { |t.name| < Base(2) && t.hvabs < Base(8) && |t.data| < Base(2) }

  lemma TableExact()
    ensures Exact(TableItem(), TableLayout(), TableOk)
  {
    WordExact(8);
    SizedExact(2);
    PairExact(Word(8), WordLayout(8), Fits(8), Sized(2), SizedLayout(2), Below(2));
    PairExact(Sized(2), SizedLayout(2), Below(2),
              Pair(Word(8), Sized(2)), PairLayout(WordLayout(8), SizedLayout(2)), Both(Fits(8), Below(2)));
    MappedExact(Pair(Sized(2), Pair(Word(8), Sized(2))),
                PairLayout(SizedLayout(2), PairLayout(WordLayout(8), SizedLayout(2))),
                Both(Below(2), Both(Fits(8), Below(2))), ToTable, FromTable, TableOk);
  }

  function Reloc3Item(): Parser<Reloc3> { Mapped(Pair(Word(2), Word(4)), ToReloc3) }
  function Reloc3Layout(): Printer<Reloc3> { MappedLayout(PairLayout(WordLayout(2), WordLayout(4)), FromReloc3) }
  function ToReloc3(x: (nat, nat)): Reloc3 { Reloc3(x.0, x.1) }
  function FromReloc3(r: Reloc3): (nat, nat) { (r.index, r.offset) }
  predicate Reloc3Ok(r: Reloc3) { r.index < Base(2) && r.offset < Base(4) }

  lemma Reloc3Exact()
    ensures Exact(Reloc3Item(), Reloc3Layout(), Reloc3Ok)
  {
    WordExact(2);
    WordExact(4);
    PairExact(Word(2), WordLayout(2), Fits(2), Word(4), WordLayout(4), Fits(4));
    MappedExact(Pair(Word(2), Word(4)), PairLayout(WordLayout(2), WordLayout(4)), Both(Fits(2), Fits(4)),
                ToReloc3, FromReloc3, Reloc3Ok);
  }

  function ExItem(): Parser<ExEntry> { Mapped(Pair(Word(4), Word(4)), ToEx) }
  function ExLayout(): Printer<ExEntry> { MappedLayout(PairLayout(WordLayout(4), WordLayout(4)), FromEx) }
  function ToEx(x: (nat, nat)): ExEntry { ExEntry(x.0, x.1) }
  function FromEx(e: ExEntry): (nat, nat) { (e.addrrel, e.contrel) }
  predicate ExOk(e: ExEntry) { e.addrrel < Base(4) && e.contrel < Base(4) }

  lemma ExExact()
    ensures Exact(ExItem(), ExLayout(), ExOk)
  {
    WordExact(4);
    PairExact(Word(4), WordLayout(4), Fits(4), Word(4), WordLayout(4), Fits(4));
    MappedExact(Pair(Word(4), Word(4)), PairLayout(WordLayout(4), WordLayout(4)), Both(Fits(4), Fits(4)),
                ToEx, FromEx, ExOk);
  }

  function Any<A>(): Domain<A> { (x: A) => true }

  // A hash is a block of 20 bytes.
  function HashItem(): Parser<Sha1> { Mapped(Block(20), ToSha1) }
  function HashLayout(): Printer<Sha1> { MappedLayout(BlockLayout(), FromSha1) }
  function ToSha1(b: Bytes): Sha1 { if |b| == 20 then b else Zeros(20) }
  function FromSha1(h: Sha1): Bytes { h }

  lemma HashExact()
    ensures Exact(HashItem(), HashLayout(), Any<Sha1>())
  {
    BlockExact(20);
    MappedExact(Block(20), BlockLayout(), OfLength(20), ToSha1, FromSha1, Any<Sha1>());
  }

  function DepItem(): Parser<Dependency> { Mapped(Pair(HashItem(), Word(8)), ToDep) }
  function DepLayout(): Printer<Dependency> { MappedLayout(PairLayout(HashLayout(), WordLayout(8)), FromDep) }
  function ToDep(x: (Sha1, nat)): Dependency { Dependency(x.0, x.1) }
  function FromDep(d: Dependency): (Sha1, nat) { (d.sha1, d.refabs) }
  predicate DepOk(d: Dependency) { d.refabs < Base(8) }

  lemma DepExact()
    ensures Exact(DepItem(), DepLayout(), DepOk)
  {
    HashExact();
    WordExact(8);
    PairExact(HashItem(), HashLayout(), Any<Sha1>(), Word(8), WordLayout(8), Fits(8));
    MappedExact(Pair(HashItem(), Word(8)), PairLayout(HashLayout(), WordLayout(8)), Both(Any<Sha1>(), Fits(8)),
                ToDep, FromDep, DepOk);
  }

  function InfoItem(): Parser<Info> { Mapped(Block(32), ToInfo) }
  function InfoLayout(): Printer<Info> { MappedLayout(BlockLayout(), FromInfo) }
  function ToInfo(b: Bytes): Info { if |b| == 32 then b else Zeros(32) }
  function FromInfo(h: Info): Bytes { h }

  lemma InfoExact()
    ensures Exact(InfoItem(), InfoLayout(), Any<Info>())
  {
    BlockExact(32);
    MappedExact(Block(32), BlockLayout(), OfLength(32), ToInfo, FromInfo, Any<Info>());
  }

  function SymbolItem(): Parser<Symbol> {
    Mapped(Pair(Sized(2), Pair(Sized(2), Pair(Word(4), Word(4)))), ToSymbol)
  }
  function SymbolLayout(): Printer<Symbol> {
    MappedLayout(PairLayout(SizedLayout(2), PairLayout(SizedLayout(2), PairLayout(WordLayout(4), WordLayout(4)))),
                 FromSymbol)
  }
  function ToSymbol(x: (Bytes, (Bytes, (nat, nat)))): Symbol { Symbol(x.0, x.1.0, x.1.1.0, x.1.1.1) }
  function FromSymbol(s: Symbol): (Bytes, (Bytes, (nat, nat))) { (s.name, (s.section, (s.secOff, s.symOff))) }
  predicate SymbolOk(s: Symbol) {
    |s.name| < Base(2) && |s.section| < Base(2) && s.secOff < Base(4) && s.symOff < Base(4)
  }

  lemma SymbolExact()
    ensures Exact(SymbolItem(), SymbolLayout(), SymbolOk)
  {
    var w, wl := Pair(Word(4), Word(4)), PairLayout(WordLayout(4), WordLayout(4));
    WordExact(4);
    SizedExact(2);
    PairExact(Word(4), WordLayout(4), Fits(4), Word(4), WordLayout(4), Fits(4));
    PairExact(Sized(2), SizedLayout(2), Below(2), w, wl, Both(Fits(4), Fits(4)));
    PairExact(Sized(2), SizedLayout(2), Below(2),
              Pair(Sized(2), w), PairLayout(SizedLayout(2), wl), Both(Below(2), Both(Fits(4), Fits(4))));
    MappedExact(Pair(Sized(2), Pair(Sized(2), w)), PairLayout(SizedLayout(2), PairLayout(SizedLayout(2), wl)),
                Both(Below(2), Both(Below(2), Both(Fits(4), Fits(4)))), ToSymbol, FromSymbol, SymbolOk);
  }

  // --- Symbols, which succeed on a short read -----------------------------------------

  // Fewer bytes left than the text's own length says.
  predicate ShortText(s: Bytes) {
    |s| >= 2 && |s| - 2 < UnBE(s[..2])
  }

  // The read of a name, or of a section name behind a whole name, comes up short.
  predicate ShortSymbol(s: Bytes) {
    ShortText(s) || (Sized(2)(s).Some? && ShortText(Sized(2)(s).value.1))
  }

  // A short symbol ends the section with success at the end of the file; what
  // was read is abandoned with the patch by the section that comes next.
  function SymbolLoop(n: nat, s: Bytes): Option<(seq<Symbol>, Bytes)> {
    if n == 0 then Some(([], s))
    else
      match SymbolItem()(s)
      case Some((x, r)) => Prepend([x], SymbolLoop(n - 1, r))
      case None => if ShortSymbol(s) then Some(([], [])) else None
  }

  function Symbols(): Parser<seq<Symbol>> {
    (s: Bytes) =>
      match Word(2)(s)
      case None => None
      case Some((n, r)) => SymbolLoop(n, r)
  }

  // Any bytes left over show that no symbol was short.
  lemma {:induction false} LoopIsMany(n: nat, s: Bytes)
    ensures Many(n, SymbolItem(), s).Some? ==> SymbolLoop(n, s) == Many(n, SymbolItem(), s)
    ensures SymbolLoop(n, s).Some? && SymbolLoop(n, s).value.1 != [] ==> Many(n, SymbolItem(), s).Some?
  {
    hide SymbolItem;
    if n > 0 && SymbolItem()(s).Some? {
      LoopIsMany(n - 1, SymbolItem()(s).value.1);
    }
  }

  // So the short read accepts something only as long as nothing follows it:
  // with the functions behind them, which need two bytes, symbols are exact.
  lemma SymbolsThenFuncs(s: Bytes)
    ensures Pair(Symbols(), Counted(FuncItem()))(s) == Pair(Counted(SymbolItem()), Counted(FuncItem()))(s)
  {
    hide SymbolItem, FuncItem, ShortSymbol;
    if Word(2)(s).Some? {
      var (n, r) := Word(2)(s).value;
      LoopIsMany(n, r);
    }
  }

  // One symbol whose name is missing: a success by itself, and none with the
  // functions that must follow.
  lemma ShortReadSucceeds()
    ensures var s: Bytes := [0, 1, 0, 5];
            && Symbols()(s) == Some(([], []))
            && Counted(SymbolItem())(s) == None
            && Pair(Symbols(), Counted(FuncItem()))(s) == None
  {
    var s: Bytes := [0, 1, 0, 5];
    assert s[..2] == [0, 1] && s[2..] == [0, 5];
    assert UnBE([0 as Byte]) == 0 && UnBE([0 as Byte, 1]) == 1 && UnBE([0 as Byte, 5]) == 5;
    assert Word(2)(s) == Some((1, [0, 5]));
    var r: Bytes := [0, 5];
    assert r[..2] == r;
    assert Sized(2)(r) == None;
    assert ShortText(r);
    assert SymbolLoop(1, r) == Some(([], []));
    assert Many(1, SymbolItem(), r) == None;
  }

  // So does one whose name is whole and whose section's name is missing.
  lemma ShortSectionSucceeds(name: Bytes)
    requires |name| < W16
    ensures var s := [0, 1] + (SizedLayout(2)(name) + [0, 5]);
            && Symbols()(s) == Some(([], []))
            && Counted(SymbolItem())(s) == None
  {
    var r: Bytes := [0, 5];
    var s1 := SizedLayout(2)(name) + r;
    var s := [0, 1] + s1;
    ShortFive(r);
    assert Sized(2)(s1) == Some((name, r)) by {
      SizedExact(2);
      BaseValues();
      assert ReadsBack(Sized(2), SizedLayout(2), name, r);
    }
    assert Word(2)(s) == Some((1, s1)) by {
      assert s[..2] == [0, 1] && s[2..] == s1;
      assert UnBE([0 as Byte]) == 0 && UnBE([0 as Byte, 1]) == 1;
    }
    hide Sized, SizedLayout, Word, ShortText;
    assert SymbolItem()(s1) == None;
    assert SymbolLoop(1, s1) == Some(([], []));
    assert Many(1, SymbolItem(), s1) == None;
  }

  lemma ShortFive(r: Bytes)
    requires r == [0, 5]
    ensures Sized(2)(r) == None && ShortText(r)
  {
    assert r[..2] == r && r[2..] == [];
    assert r[1..] == [5] && UnBE([0 as Byte]) == 0;
    assert UnBE([0 as Byte, 5]) == 5;
    assert Word(2)(r) == Some((5, []));
  }

  // --- Sections -------------------------------------------------------------------------

  type Refxen = (Info, Info)
  type Head = (Bytes, (Refxen, seq<Dependency>))
  type Ending = (seq<Check>, ((seq<Symbol>, seq<Func>), seq<Table>))
  type Middle = (nat, (Bytes, ((seq<Reloc3>, seq<nat>), Ending)))
  type Exceptions = (seq<ExEntry>, seq<ExEntry>)
  type Ending2 = (seq<nat>, (seq<Check>, (seq<Func>, seq<Table>)))
  type Body2 = (Refxen, (nat, (nat, (Bytes, Ending2))))
  type Body3 = (Head, (nat, Middle))
  type Body4 = (Head, (Middle, Exceptions))
  type Body5 = (Body4, seq<Sha1>)

  function RefxenItem(): Parser<Refxen> { Pair(InfoItem(), InfoItem()) }
  function RefxenLayout(): Printer<Refxen> { PairLayout(InfoLayout(), InfoLayout()) }
  function RefxenOk(): Domain<Refxen> { Both(Any<Info>(), Any<Info>()) }

  function HeadItem(): Parser<Head> { Pair(Sized(2), Pair(RefxenItem(), Counted(DepItem()))) }
  function HeadLayout(): Printer<Head> {
    PairLayout(SizedLayout(2), PairLayout(RefxenLayout(), CountedLayout(DepLayout())))
  }
  function HeadOk(): Domain<Head> { Both(Below(2), Both(RefxenOk(), Each(DepOk))) }

  lemma HeadExact()
    ensures Exact(RefxenItem(), RefxenLayout(), RefxenOk())
    ensures Exact(HeadItem(), HeadLayout(), HeadOk())
  {
    hide InfoItem, InfoLayout, DepItem, DepLayout, Pair, PairLayout, Counted, CountedLayout, Sized, SizedLayout, Exact;
    InfoExact();
    PairExact(InfoItem(), InfoLayout(), Any<Info>(), InfoItem(), InfoLayout(), Any<Info>());
    SizedExact(2);
    DepExact();
    CountedExact(DepItem(), DepLayout(), DepOk);
    PairExact(RefxenItem(), RefxenLayout(), RefxenOk(), Counted(DepItem()), CountedLayout(DepLayout()), Each(DepOk));
    PairExact(Sized(2), SizedLayout(2), Below(2),
              Pair(RefxenItem(), Counted(DepItem())), PairLayout(RefxenLayout(), CountedLayout(DepLayout())),
              Both(RefxenOk(), Each(DepOk)));
  }

  function NamesItem(): Parser<(seq<Symbol>, seq<Func>)> { Pair(Symbols(), Counted(FuncItem())) }
  function NamesLayout(): Printer<(seq<Symbol>, seq<Func>)> {
    PairLayout(CountedLayout(SymbolLayout()), CountedLayout(FuncLayout()))
  }
  function NamesOk(): Domain<(seq<Symbol>, seq<Func>)> { Both(Each(SymbolOk), Each(FuncOk)) }

  lemma ExactSame<A(!new)>(p: Parser<A>, q: Parser<A>, f: Printer<A>, ok: Domain<A>)
    requires Exact(q, f, ok) && forall s: Bytes :: p(s) == q(s)
    ensures Exact(p, f, ok)
  {
    forall x: A, rest: Bytes | ok(x)
      ensures ReadsBack(p, f, x, rest)
    {
      assert ReadsBack(q, f, x, rest);
    }
    forall s: Bytes
      ensures Sound(p, f, ok, s)
    {
      assert Sound(q, f, ok, s);
    }
  }

  lemma NamesExact()
    ensures Exact(NamesItem(), NamesLayout(), NamesOk())
  {
    hide FuncItem, FuncLayout, SymbolItem, SymbolLayout, Symbols, Pair, PairLayout, Counted, CountedLayout, Exact;
    SymbolExact();
    FuncExact();
    CountedExact(SymbolItem(), SymbolLayout(), SymbolOk);
    CountedExact(FuncItem(), FuncLayout(), FuncOk);
    PairExact(Counted(SymbolItem()), CountedLayout(SymbolLayout()), Each(SymbolOk),
              Counted(FuncItem()), CountedLayout(FuncLayout()), Each(FuncOk));
    forall s: Bytes
      ensures NamesItem()(s) == Pair(Counted(SymbolItem()), Counted(FuncItem()))(s)
    {
      SymbolsThenFuncs(s);
    }
    ExactSame(NamesItem(), Pair(Counted(SymbolItem()), Counted(FuncItem())), NamesLayout(), NamesOk());
  }

  function EndingItem(): Parser<Ending> { Pair(Counted(CheckItem()), Pair(NamesItem(), Counted(TableItem()))) }
  function EndingLayout(): Printer<Ending> {
    PairLayout(CountedLayout(CheckLayout()), PairLayout(NamesLayout(), CountedLayout(TableLayout())))
  }
  function EndingOk(): Domain<Ending> { Both(Each(CheckOk), Both(NamesOk(), Each(TableOk))) }

  lemma EndingExact()
    ensures Exact(EndingItem(), EndingLayout(), EndingOk())
  {
    hide CheckItem, CheckLayout, TableItem, TableLayout, NamesItem, NamesLayout, NamesOk, Pair, PairLayout, Counted,
      CountedLayout, Exact;
    CheckExact();
    TableExact();
    NamesExact();
    CountedExact(CheckItem(), CheckLayout(), CheckOk);
    CountedExact(TableItem(), TableLayout(), TableOk);
    PairExact(NamesItem(), NamesLayout(), NamesOk(), Counted(TableItem()), CountedLayout(TableLayout()), Each(TableOk));
    PairExact(Counted(CheckItem()), CountedLayout(CheckLayout()), Each(CheckOk),
              Pair(NamesItem(), Counted(TableItem())), PairLayout(NamesLayout(), CountedLayout(TableLayout())),
              Both(NamesOk(), Each(TableOk)));
  }

  function RelocsItem(): Parser<(seq<Reloc3>, seq<nat>)> { Pair(Counted(Reloc3Item()), Counted(Word(4))) }
  function RelocsLayout(): Printer<(seq<Reloc3>, seq<nat>)> {
    PairLayout(CountedLayout(Reloc3Layout()), CountedLayout(WordLayout(4)))
  }
  function RelocsOk(): Domain<(seq<Reloc3>, seq<nat>)> { Both(Each(Reloc3Ok), Each(Fits(4))) }

  function MiddleItem(): Parser<Middle> { Pair(Word(8), Pair(Sized(4), Pair(RelocsItem(), EndingItem()))) }
  function MiddleLayout(): Printer<Middle> {
    PairLayout(WordLayout(8), PairLayout(SizedLayout(4), PairLayout(RelocsLayout(), EndingLayout())))
  }
  function MiddleOk(): Domain<Middle> { Both(Fits(8), Both(Below(4), Both(RelocsOk(), EndingOk()))) }

  lemma MiddleExact()
    ensures Exact(MiddleItem(), MiddleLayout(), MiddleOk())
  {
    hide Reloc3Item, Reloc3Layout, EndingItem, EndingLayout, EndingOk, Pair, PairLayout, Counted, CountedLayout,
      Sized, SizedLayout, Exact;
    Reloc3Exact();
    WordExact(4);
    WordExact(8);
    SizedExact(4);
    EndingExact();
    CountedExact(Reloc3Item(), Reloc3Layout(), Reloc3Ok);
    CountedExact(Word(4), WordLayout(4), Fits(4));
    PairExact(Counted(Reloc3Item()), CountedLayout(Reloc3Layout()), Each(Reloc3Ok),
              Counted(Word(4)), CountedLayout(WordLayout(4)), Each(Fits(4)));
    PairExact(RelocsItem(), RelocsLayout(), RelocsOk(), EndingItem(), EndingLayout(), EndingOk());
    PairExact(Sized(4), SizedLayout(4), Below(4), Pair(RelocsItem(), EndingItem()),
              PairLayout(RelocsLayout(), EndingLayout()), Both(RelocsOk(), EndingOk()));
    PairExact(Word(8), WordLayout(8), Fits(8), Pair(Sized(4), Pair(RelocsItem(), EndingItem())),
              PairLayout(SizedLayout(4), PairLayout(RelocsLayout(), EndingLayout())),
              Both(Below(4), Both(RelocsOk(), EndingOk())));
  }

  function ExceptionsItem(): Parser<Exceptions> { Pair(Counted(ExItem()), Counted(ExItem())) }
  function ExceptionsLayout(): Printer<Exceptions> { PairLayout(CountedLayout(ExLayout()), CountedLayout(ExLayout())) }
  function ExceptionsOk(): Domain<Exceptions> { Both(Each(ExOk), Each(ExOk)) }

  // --- The four versions ------------------------------------------------------------------

  function Ending2Item(): Parser<Ending2> {
    Pair(Counted(Word(4)), Pair(Counted(CheckItem()), Pair(Counted(FuncItem()), Counted(TableItem()))))
  }
  function Ending2Layout(): Printer<Ending2> {
    PairLayout(CountedLayout(WordLayout(4)),
               PairLayout(CountedLayout(CheckLayout()),
                          PairLayout(CountedLayout(FuncLayout()), CountedLayout(TableLayout()))))
  }
  function Ending2Ok(): Domain<Ending2> { Both(Each(Fits(4)), Both(Each(CheckOk), Both(Each(FuncOk), Each(TableOk)))) }

  function Body2Item(): Parser<Body2> {
    Pair(RefxenItem(), Pair(Word(8), Pair(Word(8), Pair(Sized(4), Ending2Item()))))
  }
  function Body2Layout(): Printer<Body2> {
    PairLayout(RefxenLayout(),
               PairLayout(WordLayout(8), PairLayout(WordLayout(8), PairLayout(SizedLayout(4), Ending2Layout()))))
  }
  function Body2Ok(): Domain<Body2> { Both(RefxenOk(), Both(Fits(8), Both(Fits(8), Both(Below(4), Ending2Ok())))) }

  lemma Ending2Exact()
    ensures Exact(Ending2Item(), Ending2Layout(), Ending2Ok())
  {
    hide CheckItem, CheckLayout, TableItem, TableLayout, FuncItem, FuncLayout, Pair, PairLayout, Counted,
      CountedLayout, Exact;
    WordExact(4);
    CheckExact();
    FuncExact();
    TableExact();
    CountedExact(Word(4), WordLayout(4), Fits(4));
    CountedExact(CheckItem(), CheckLayout(), CheckOk);
    CountedExact(FuncItem(), FuncLayout(), FuncOk);
    CountedExact(TableItem(), TableLayout(), TableOk);
    var c, cl, co := Counted(CheckItem()), CountedLayout(CheckLayout()), Each(CheckOk);
    var f, fl, fo := Counted(FuncItem()), CountedLayout(FuncLayout()), Each(FuncOk);
    var t, tl, to := Counted(TableItem()), CountedLayout(TableLayout()), Each(TableOk);
    PairExact(f, fl, fo, t, tl, to);
    PairExact(c, cl, co, Pair(f, t), PairLayout(fl, tl), Both(fo, to));
    PairExact(Counted(Word(4)), CountedLayout(WordLayout(4)), Each(Fits(4)),
              Pair(c, Pair(f, t)), PairLayout(cl, PairLayout(fl, tl)), Both(co, Both(fo, to)));
  }

  lemma Body2Exact()
    ensures Exact(Body2Item(), Body2Layout(), Body2Ok())
  {
    hide RefxenItem, RefxenLayout, RefxenOk, Ending2Item, Ending2Layout, Ending2Ok, Pair, PairLayout, Sized,
      SizedLayout, Exact;
    HeadExact();
    WordExact(8);
    SizedExact(4);
    Ending2Exact();
    var b, bl := Pair(Sized(4), Ending2Item()), PairLayout(SizedLayout(4), Ending2Layout());
    var bo := Both(Below(4), Ending2Ok());
    PairExact(Sized(4), SizedLayout(4), Below(4), Ending2Item(), Ending2Layout(), Ending2Ok());
    PairExact(Word(8), WordLayout(8), Fits(8), b, bl, bo);
    PairExact(Word(8), WordLayout(8), Fits(8), Pair(Word(8), b), PairLayout(WordLayout(8), bl), Both(Fits(8), bo));
    PairExact(RefxenItem(), RefxenLayout(), RefxenOk(), Pair(Word(8), Pair(Word(8), b)),
              PairLayout(WordLayout(8), PairLayout(WordLayout(8), bl)), Both(Fits(8), Both(Fits(8), bo)));
  }

  function Body3Item(): Parser<Body3> { Pair(HeadItem(), Pair(Word(8), MiddleItem())) }
  function Body3Layout(): Printer<Body3> { PairLayout(HeadLayout(), PairLayout(WordLayout(8), MiddleLayout())) }
  function Body3Ok(): Domain<Body3> { Both(HeadOk(), Both(Fits(8), MiddleOk())) }

  function Body4Item(): Parser<Body4> { Pair(HeadItem(), Pair(MiddleItem(), ExceptionsItem())) }
  function Body4Layout(): Printer<Body4> { PairLayout(HeadLayout(), PairLayout(MiddleLayout(), ExceptionsLayout())) }
  function Body4Ok(): Domain<Body4> { Both(HeadOk(), Both(MiddleOk(), ExceptionsOk())) }

  function Body5Item(): Parser<Body5> { Pair(Body4Item(), Counted(HashItem())) }
  function Body5Layout(): Printer<Body5> { PairLayout(Body4Layout(), CountedLayout(HashLayout())) }
  function Body5Ok(): Domain<Body5> { Both(Body4Ok(), Each(Any<Sha1>())) }

  lemma Body3Exact()
    ensures Exact(Body3Item(), Body3Layout(), Body3Ok())
  {
    hide HeadItem, HeadLayout, HeadOk, MiddleItem, MiddleLayout, MiddleOk, Pair, PairLayout, Exact;
    HeadExact();
    WordExact(8);
    MiddleExact();
    PairExact(Word(8), WordLayout(8), Fits(8), MiddleItem(), MiddleLayout(), MiddleOk());
    PairExact(HeadItem(), HeadLayout(), HeadOk(), Pair(Word(8), MiddleItem()),
              PairLayout(WordLayout(8), MiddleLayout()), Both(Fits(8), MiddleOk()));
  }

  lemma Body4Exact()
    ensures Exact(Body4Item(), Body4Layout(), Body4Ok())
  {
    hide HeadItem, HeadLayout, HeadOk, MiddleItem, MiddleLayout, MiddleOk, ExItem, ExLayout, Pair, PairLayout,
      Counted, CountedLayout, Exact;
    HeadExact();
    MiddleExact();
    ExExact();
    CountedExact(ExItem(), ExLayout(), ExOk);
    PairExact(Counted(ExItem()), CountedLayout(ExLayout()), Each(ExOk), Counted(ExItem()), CountedLayout(ExLayout()),
              Each(ExOk));
    PairExact(MiddleItem(), MiddleLayout(), MiddleOk(), ExceptionsItem(), ExceptionsLayout(), ExceptionsOk());
    PairExact(HeadItem(), HeadLayout(), HeadOk(), Pair(MiddleItem(), ExceptionsItem()),
              PairLayout(MiddleLayout(), ExceptionsLayout()), Both(MiddleOk(), ExceptionsOk()));
  }

  lemma Body5Exact()
    ensures Exact(Body5Item(), Body5Layout(), Body5Ok())
  {
    hide Body4Item, Body4Layout, Body4Ok, HashItem, HashLayout, Pair, PairLayout, Counted, CountedLayout, Exact;
    Body4Exact();
    HashExact();
    CountedExact(HashItem(), HashLayout(), Any<Sha1>());
    PairExact(Body4Item(), Body4Layout(), Body4Ok(), Counted(HashItem()), CountedLayout(HashLayout()),
              Each(Any<Sha1>()));
  }
}
