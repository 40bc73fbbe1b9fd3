// The patch file loader (user/patch_file.c) over a cursor in the file: every
// method does what the reader of its section in PatchFormat does.
module PatchFile {
  import opened Words
  import opened Parsing
  import opened PatchData
  import opened PatchFormat
  import opened PatchLoad
  import HashText

  // What reading past the relocation array comes to, besides a value or a
  // short read.
  datatype Reading<A> = Got(value: A) | Short | PastEnd

  lemma PrependNothing<A>(o: Option<(seq<A>, Bytes)>)
    ensures Prepend([], o) == o
  {
    match o {
      case None =>
      case Some((ys, r)) => assert [] + ys == ys;
    }
  }

  // One turn of the loop over symbols.
  lemma SymbolStep(n: nat, s: Bytes, xs: seq<Symbol>)
    requires n > 0
    ensures SymbolItem()(s).Some? ==>
              Prepend(xs, SymbolLoop(n, s)) ==
              Prepend(xs + [SymbolItem()(s).value.0], SymbolLoop(n - 1, SymbolItem()(s).value.1))
    ensures SymbolItem()(s).None? ==> SymbolLoop(n, s) == if ShortSymbol(s) then Some(([], [])) else None
  {
    hide SymbolItem, ShortSymbol;
    if SymbolItem()(s).Some? {
      var (x, r) := SymbolItem()(s).value;
      match SymbolLoop(n - 1, r) {
        case None =>
        case Some((ys, r')) => assert xs + ([x] + ys) == xs + [x] + ys;
      }
    }
  }

  class Reader {
    const file: Bytes
    var pos: nat

    ghost predicate Valid() reads this {
      pos <= |file|
    }

    ghost function Rest(): Bytes
      requires Valid()
      reads this
    {
      file[pos..]
    }

    // A read came to what a reader of the same bytes gives, and left the rest.
    ghost predicate Gives<A>(o: Option<(A, Bytes)>, got: Option<A>)
      requires Valid()
      reads this
    {
      match o
      case None => got == None
      case Some((x, r)) => got == Some(x) && Rest() == r
    }

    ghost predicate GivesInRoom<A>(overrun: bool, o: Option<(A, Bytes)>, got: Reading<A>)
      requires Valid()
      reads this
    {
      if overrun then got == PastEnd
      else got != PastEnd && Gives(o, if got.Got? then Some(got.value) else None)
    }

    constructor (file: Bytes)
      ensures Valid() && this.file == file && Rest() == file
    {
      this.file := file;
      pos := 0;
    }

    method Read(n: nat) returns (b: Option<Bytes>)
      requires Valid()
      modifies this`pos
      ensures Valid() && Gives(Block(n)(old(Rest())), b)
      ensures b.None? ==> Rest() == []
    {
      if |file| - pos < n {
        pos := |file|;
        return None;
      }
      b := Some(file[pos..pos + n]);
      assert file[pos..][..n] == file[pos..pos + n];
      pos := pos + n;
    }

    method ReadU16() returns (v: Option<nat>)
      requires Valid()
      modifies this`pos
      ensures Valid() && Gives(Word(2)(old(Rest())), v)
    {
      var b := Read(2);
      if b.None? {
        return None;
      }
      var w := b.value;
      v := Some(w[0] as nat * 0x100 + w[1] as nat);
      HighBytes(w);
      HighBytes(w[..1]);
    }

    method ReadU32() returns (v: Option<nat>)
      requires Valid()
      modifies this`pos
      ensures Valid() && Gives(Word(4)(old(Rest())), v)
    {
      var b := Read(4);
      if b.None? {
        return None;
      }
      var w := b.value;
      v := Some(w[0] as nat * 0x100_0000 + w[1] as nat * 0x1_0000 + w[2] as nat * 0x100 + w[3] as nat);
      HighBytes(w);
      HighBytes(w[..3]);
      HighBytes(w[..2]);
      HighBytes(w[..1]);
    }

    method ReadU64() returns (v: Option<nat>)
      requires Valid()
      modifies this`pos
      ensures Valid() && Gives(Word(8)(old(Rest())), v)
    {
      var b := Read(8);
      if b.None? {
        return None;
      }
      var w := b.value;
      v := Some(w[0] as nat * 0x100_0000_0000_0000 + w[1] as nat * 0x1_0000_0000_0000 +
                w[2] as nat * 0x100_0000_0000 + w[3] as nat * 0x1_0000_0000 +
                w[4] as nat * 0x100_0000 + w[5] as nat * 0x1_0000 + w[6] as nat * 0x100 + w[7] as nat);
      HighBytes(w);
      HighBytes(w[..7]);
      HighBytes(w[..6]);
      HighBytes(w[..5]);
      HighBytes(w[..4]);
      HighBytes(w[..3]);
      HighBytes(w[..2]);
      HighBytes(w[..1]);
    }

    static lemma HighBytes(w: Bytes)
      requires w != []
      ensures UnBE(w) == UnBE(w[..|w| - 1]) * 256 + w[|w| - 1] as nat && UnBE([]) == 0
      ensures forall k :: 0 <= k <= |w| - 1 ==> w[..|w| - 1][..k] == w[..k]
    {
    }

    // A 16-bit length, then that many bytes.
    method ReadText() returns (b: Option<Bytes>)
      requires Valid()
      modifies this`pos
      ensures Valid() && Gives(Sized(2)(old(Rest())), b)
      ensures old(ShortText(Rest())) ==> b.None? && Rest() == []
      ensures b.None? && |old(Rest())| >= 2 ==> old(ShortText(Rest()))
    {
      var n := ReadU16();
      if n.None? {
        return None;
      }
      b := Read(n.value);
    }

    method ReadTagData() returns (tags: Option<Bytes>)
      requires Valid()
      modifies this`pos
      ensures Valid() && Gives(Sized(2)(old(Rest())), tags)
    {
      tags := ReadText();
    }

    method ReadRefxenData() returns (info: Option<Refxen>)
      requires Valid()
      modifies this`pos
      ensures Valid() && Gives(RefxenItem()(old(Rest())), info)
    {
      var version := Read(32);
      if version.None? {
        return None;
      }
      var date := Read(32);
      if date.None? {
        return None;
      }
      info := Some((version.value, date.value));
    }

    method ReadBlobData() returns (blob: Option<Bytes>)
      requires Valid()
      modifies this`pos
      ensures Valid() && Gives(Sized(4)(old(Rest())), blob)
    {
      var n := ReadU32();
      if n.None? {
        return None;
      }
      blob := Read(n.value);
    }

    method ReadRelocData() returns (relocs: Option<seq<nat>>)
      requires Valid()
      modifies this`pos
      ensures Valid() && Gives(Counted(Word(4))(old(Rest())), relocs)
    {
      hide Word, Many;
      var n := ReadU16();
      if n.None? {
        return None;
      }
      var out := [];
      ghost var all := Many(n.value, Word(4), Rest());
      PrependNothing(all);
      for i := 0 to n.value
        invariant Valid() && Prepend(out, Many(n.value - i, Word(4), Rest())) == all
      {
        ManyStep(n.value - i, Word(4), Rest(), out);
        var v := ReadU32();
        if v.None? {
          return None;
        }
        out := out + [v.value];
      }
      NoneLeft(Word(4), Rest(), out);
      relocs := Some(out);
    }

    static lemma NoneLeft<A>(p: Parser<A>, s: Bytes, xs: seq<A>)
      ensures Prepend(xs, Many(0, p, s)) == Some((xs, s))
    {
      assert xs + [] == xs;
    }

    method ReadCheck() returns (c: Option<Check>)
      requires Valid()
      modifies this`pos
      ensures Valid() && Gives(CheckItem()(old(Rest())), c)
    {
      hide Word, Sized;
      ghost var start := Rest();
      var hvabs := ReadU64();
      if hvabs.None? {
        return None;
      }
      var data := ReadText();
      if data.None? {
        return None;
      }
      c := Some(Check(hvabs.value, data.value));
      assert Pair(Word(8), Sized(2))(start) == Some(((hvabs.value, data.value), Rest()));
    }

    method ReadCheckData() returns (checks: Option<seq<Check>>)
      requires Valid()
      modifies this`pos
      ensures Valid() && Gives(Counted(CheckItem())(old(Rest())), checks)
    {
      hide Word, Many, CheckItem;
      var n := ReadU16();
      if n.None? {
        return None;
      }
      var out := [];
      ghost var all := Many(n.value, CheckItem(), Rest());
      PrependNothing(all);
      for i := 0 to n.value
        invariant Valid() && Prepend(out, Many(n.value - i, CheckItem(), Rest())) == all
      {
        ManyStep(n.value - i, CheckItem(), Rest(), out);
        var c := ReadCheck();
        if c.None? {
          return None;
        }
        out := out + [c.value];
      }
      NoneLeft(CheckItem(), Rest(), out);
      checks := Some(out);
    }

    method ReadFunc() returns (f: Option<Func>)
      requires Valid()
      modifies this`pos
      ensures Valid() && Gives(FuncItem()(old(Rest())), f)
    {
      hide Word, Sized;
      ghost var start := Rest();
      var name := ReadText();
      if name.None? {
        return None;
      }
      ghost var mid := Rest();
      var oldabs := ReadU64();
      if oldabs.None? {
        return None;
      }
      var newrel := ReadU32();
      if newrel.None? {
        return None;
      }
      f := Some(Func(name.value, oldabs.value, newrel.value));
      assert Pair(Word(8), Word(4))(mid) == Some(((oldabs.value, newrel.value), Rest()));
      assert Pair(Sized(2), Pair(Word(8), Word(4)))(start) ==
             Some(((name.value, (oldabs.value, newrel.value)), Rest()));
    }

    method ReadFuncData() returns (funcs: Option<seq<Func>>)
      requires Valid()
      modifies this`pos
      ensures Valid() && Gives(Counted(FuncItem())(old(Rest())), funcs)
    {
      hide Word, Many, FuncItem;
      var n := ReadU16();
      if n.None? {
        return None;
      }
      var out := [];
      ghost var all := Many(n.value, FuncItem(), Rest());
      PrependNothing(all);
      for i := 0 to n.value
        invariant Valid() && Prepend(out, Many(n.value - i, FuncItem(), Rest())) == all
      {
        ManyStep(n.value - i, FuncItem(), Rest(), out);
        var f := ReadFunc();
        if f.None? {
          return None;
        }
        out := out + [f.value];
      }
      NoneLeft(FuncItem(), Rest(), out);
      funcs := Some(out);
    }

    method ReadTable() returns (t: Option<Table>)
      requires Valid()
      modifies this`pos
      ensures Valid() && Gives(TableItem()(old(Rest())), t)
    {
      hide Word, Sized;
      ghost var start := Rest();
      var name := ReadText();
      if name.None? {
        return None;
      }
      ghost var mid := Rest();
      var hvabs := ReadU64();
      if hvabs.None? {
        return None;
      }
      var data := ReadText();
      if data.None? {
        return None;
      }
      assert Pair(Word(8), Sized(2))(mid) == Some(((hvabs.value, data.value), Rest()));
      assert Pair(Sized(2), Pair(Word(8), Sized(2)))(start) == Some(((name.value, (hvabs.value, data.value)), Rest()));
      t := Some(Table(name.value, hvabs.value, data.value));
    }

    method ReadTableData() returns (tables: Option<seq<Table>>)
      requires Valid()
      modifies this`pos
      ensures Valid() && Gives(Counted(TableItem())(old(Rest())), tables)
    {
      hide Word, Many, TableItem;
      var n := ReadU16();
      if n.None? {
        return None;
      }
      var out := [];
      ghost var all := Many(n.value, TableItem(), Rest());
      PrependNothing(all);
      for i := 0 to n.value
        invariant Valid() && Prepend(out, Many(n.value - i, TableItem(), Rest())) == all
      {
        ManyStep(n.value - i, TableItem(), Rest(), out);
        var t := ReadTable();
        if t.None? {
          return None;
        }
        out := out + [t.value];
      }
      NoneLeft(TableItem(), Rest(), out);
      tables := Some(out);
    }

    method ReadDep() returns (d: Option<Dependency>)
      requires Valid()
      modifies this`pos
      ensures Valid() && Gives(DepItem()(old(Rest())), d)
    {
      hide Word;
      var sha1 := Read(20);
      if sha1.None? {
        return None;
      }
      var refabs := ReadU64();
      if refabs.None? {
        return None;
      }
      d := Some(Dependency(sha1.value, refabs.value));
    }

    method ReadDepsData() returns (deps: Option<seq<Dependency>>)
      requires Valid()
      modifies this`pos
      ensures Valid() && Gives(Counted(DepItem())(old(Rest())), deps)
    {
      hide Word, Many, DepItem;
      var n := ReadU16();
      if n.None? {
        return None;
      }
      var out := [];
      ghost var all := Many(n.value, DepItem(), Rest());
      PrependNothing(all);
      for i := 0 to n.value
        invariant Valid() && Prepend(out, Many(n.value - i, DepItem(), Rest())) == all
      {
        ManyStep(n.value - i, DepItem(), Rest(), out);
        var d := ReadDep();
        if d.None? {
          return None;
        }
        out := out + [d.value];
      }
      NoneLeft(DepItem(), Rest(), out);
      deps := Some(out);
    }

    method ReadConflictsData() returns (conflicts: Option<seq<Sha1>>)
      requires Valid()
      modifies this`pos
      ensures Valid() && Gives(Counted(HashItem())(old(Rest())), conflicts)
    {
      hide Word, Many;
      var n := ReadU16();
      if n.None? {
        return None;
      }
      var out: seq<Sha1> := [];
      ghost var all := Many(n.value, HashItem(), Rest());
      PrependNothing(all);
      for i := 0 to n.value
        invariant Valid() && Prepend(out, Many(n.value - i, HashItem(), Rest())) == all
      {
        ManyStep(n.value - i, HashItem(), Rest(), out);
        var c := Read(20);
        if c.None? {
          return None;
        }
        out := out + [c.value];
      }
      NoneLeft(HashItem(), Rest(), out);
      conflicts := Some(out);
    }

    method ReadExEntry() returns (e: Option<ExEntry>)
      requires Valid()
      modifies this`pos
      ensures Valid() && Gives(ExItem()(old(Rest())), e)
    {
      hide Word;
      ghost var start := Rest();
      var addrrel := ReadU32();
      if addrrel.None? {
        return None;
      }
      var contrel := ReadU32();
      if contrel.None? {
        return None;
      }
      e := Some(ExEntry(addrrel.value, contrel.value));
      assert Pair(Word(4), Word(4))(start) == Some(((addrrel.value, contrel.value), Rest()));
    }

    method ReadExTable() returns (table: Option<seq<ExEntry>>)
      requires Valid()
      modifies this`pos
      ensures Valid() && Gives(Counted(ExItem())(old(Rest())), table)
    {
      hide Word, Many, ExItem;
      var n := ReadU16();
      if n.None? {
        return None;
      }
      var out := [];
      ghost var all := Many(n.value, ExItem(), Rest());
      PrependNothing(all);
      for i := 0 to n.value
        invariant Valid() && Prepend(out, Many(n.value - i, ExItem(), Rest())) == all
      {
        ManyStep(n.value - i, ExItem(), Rest(), out);
        var e := ReadExEntry();
        if e.None? {
          return None;
        }
        out := out + [e.value];
      }
      NoneLeft(ExItem(), Rest(), out);
      table := Some(out);
    }

    method ReadExTableEntries() returns (tables: Option<Exceptions>)
      requires Valid()
      modifies this`pos
      ensures Valid() && Gives(ExceptionsItem()(old(Rest())), tables)
    {
      hide Counted, ExItem;
      var table := ReadExTable();
      if table.None? {
        return None;
      }
      var pre := ReadExTable();
      if pre.None? {
        return None;
      }
      tables := Some((table.value, pre.value));
    }

    // One symbol; a short name or section name is told from other failures.
    method ReadSymbol() returns (x: Option<Symbol>, short: bool)
      requires Valid()
      modifies this`pos
      ensures Valid() && Gives(SymbolItem()(old(Rest())), x)
      ensures x.None? ==> short == old(ShortSymbol(Rest()))
      ensures x.None? && short ==> Rest() == []
    {
      hide Word, Sized, ShortText;
      short := false;
      ghost var start := Rest();
      var size := ReadU16();
      if size.None? {
        TextBegins(start);
        return None, false;
      }
      var name := Read(size.value);
      TextBegins(start);
      if name.None? {
        return None, true;
      }
      ghost var middle := Rest();
      size := ReadU16();
      if size.None? {
        TextBegins(middle);
        return None, false;
      }
      var section := Read(size.value);
      TextBegins(middle);
      if section.None? {
        return None, true;
      }
      ghost var words := Rest();
      var secOff := ReadU32();
      if secOff.None? {
        return None, false;
      }
      var symOff := ReadU32();
      if symOff.None? {
        return None, false;
      }
      assert Pair(Word(4), Word(4))(words) == Some(((secOff.value, symOff.value), Rest()));
      assert Pair(Sized(2), Pair(Word(4), Word(4)))(middle) ==
             Some(((section.value, (secOff.value, symOff.value)), Rest()));
      assert Pair(Sized(2), Pair(Sized(2), Pair(Word(4), Word(4))))(start) ==
             Some(((name.value, (section.value, (secOff.value, symOff.value))), Rest()));
      x := Some(Symbol(name.value, section.value, secOff.value, symOff.value));
    }

    static lemma TextBegins(s: Bytes)
      ensures Word(2)(s).None? ==> !ShortText(s) && Sized(2)(s).None?
      ensures Word(2)(s).Some? ==>
                && Sized(2)(s) == Block(Word(2)(s).value.0)(Word(2)(s).value.1)
                && ShortText(s) == Sized(2)(s).None?
    {
    }

    method ReadSymbolsData() returns (symbols: Option<seq<Symbol>>)
      requires Valid()
      modifies this`pos
      ensures Valid() && Gives(Symbols()(old(Rest())), symbols)
    {
      hide Word, SymbolLoop, SymbolItem, ShortSymbol;
      var n := ReadU16();
      if n.None? {
        return None;
      }
      var out := [];
      ghost var all := SymbolLoop(n.value, Rest());
      PrependNothing(all);
      for i := 0 to n.value
        invariant Valid() && Prepend(out, SymbolLoop(n.value - i, Rest())) == all
      {
        SymbolStep(n.value - i, Rest(), out);
        var x, short := ReadSymbol();
        if x.None? {
          assert out + [] == out;
          return if short then Some(out) else None;
        }
        out := out + [x.value];
      }
      NoSymbolLeft(Rest(), out);
      symbols := Some(out);
    }

    static lemma NoSymbolLeft(s: Bytes, xs: seq<Symbol>)
      ensures Prepend(xs, SymbolLoop(0, s)) == Some((xs, s))
    {
      assert xs + [] == xs;
    }

    method ReadReloc3() returns (r: Option<Reloc3>)
      requires Valid()
      modifies this`pos
      ensures Valid() && Gives(Reloc3Item()(old(Rest())), r)
    {
      hide Word;
      ghost var start := Rest();
      var index := ReadU16();
      if index.None? {
        return None;
      }
      var offset := ReadU32();
      if offset.None? {
        return None;
      }
      r := Some(Reloc3(index.value, offset.value));
      assert Pair(Word(2), Word(4))(start) == Some(((index.value, offset.value), Rest()));
    }

    method ReadRelocs3() returns (relocs3: Option<seq<Reloc3>>)
      requires Valid()
      modifies this`pos
      ensures Valid() && Gives(Counted(Reloc3Item())(old(Rest())), relocs3)
    {
      hide Word, Many, Reloc3Item;
      var n := ReadU16();
      if n.None? {
        return None;
      }
      var out := [];
      ghost var all := Many(n.value, Reloc3Item(), Rest());
      PrependNothing(all);
      for i := 0 to n.value
        invariant Valid() && Prepend(out, Many(n.value - i, Reloc3Item(), Rest())) == all
      {
        ManyStep(n.value - i, Reloc3Item(), Rest(), out);
        var r := ReadReloc3();
        if r.None? {
          return None;
        }
        out := out + [r.value];
      }
      NoneLeft(Reloc3Item(), Rest(), out);
      relocs3 := Some(out);
    }

    // Fills an array of `room` words; PastEnd is the store that misses it.
    method FillRelocs(n: nat, room: nat) returns (r: Reading<seq<nat>>)
      requires Valid()
      modifies this`pos
      ensures Valid()
      ensures GivesInRoom(room < n && |old(Rest())| >= 4 * (room + 1), Many(n, Word(4), old(Rest())), r)
    {
      hide Many;
      var relocs := new nat[room];
      ghost var start := Rest();
      ghost var all := Many(n, Word(4), start);
      PrependNothing(all);
      for i := 0 to n
        invariant i <= room && Valid() && |Rest()| == |start| - 4 * i
        invariant Prepend(relocs[..i], Many(n - i, Word(4), Rest())) == all
      {
        ManyStep(n - i, Word(4), Rest(), relocs[..i]);
        var v := ReadU32();
        if v.None? {
          return Short;
        }
        if i == room {
          return PastEnd;
        }
        relocs[i] := v.value;
        assert relocs[..i + 1] == relocs[..i] + [v.value];
      }
      NoneLeft(Word(4), Rest(), relocs[..n]);
      r := Got(relocs[..n]);
    }

    method ReadRelocData3() returns (r: Reading<(seq<Reloc3>, seq<nat>)>)
      requires Valid()
      modifies this`pos
      ensures Valid() && GivesInRoom(RelocsOverrun(old(Rest())), RelocsItem()(old(Rest())), r)
    {
      hide Word, Many, Reloc3Item;
      ghost var start := Rest();
      var relocs3 := ReadRelocs3();
      if relocs3.None? {
        return Short;
      }
      CountFits(start);
      ghost var middle := Rest();
      var n := ReadU16();
      if n.None? {
        return Short;
      }
      CountFits(middle);
      var relCount := (n.value + |relocs3.value|) % W16;
      var relocs := FillRelocs(n.value, relCount);
      match relocs {
        case Short => r := Short;
        case PastEnd => r := PastEnd;
        case Got(words) => r := Got((relocs3.value, words));
      }
    }

    static lemma CountFits(s: Bytes)
      ensures Word(2)(s).Some? ==> Word(2)(s).value.0 < W16
      ensures Counted(Reloc3Item())(s).Some? ==> |Counted(Reloc3Item())(s).value.0| < W16
    {
      hide Reloc3Item;
      BaseValues();
      WordExact(2);
      assert Sound(Word(2), WordLayout(2), Fits(2), s);
      Reloc3Exact();
      if Counted(Reloc3Item())(s).Some? {
        ManySound(Word(2)(s).value.0, Reloc3Item(), Reloc3Layout(), Reloc3Ok, Word(2)(s).value.1);
      }
    }

    // The sections every version from 3 on has before the base address.
    method ReadHead() returns (h: Option<Head>)
      requires Valid()
      modifies this`pos
      ensures Valid() && Gives(HeadItem()(old(Rest())), h)
    {
      hide Sized, RefxenItem, Counted;
      var tags := ReadTagData();
      if tags.None? {
        return None;
      }
      var info := ReadRefxenData();
      if info.None? {
        return None;
      }
      var deps := ReadDepsData();
      if deps.None? {
        return None;
      }
      h := Some((tags.value, (info.value, deps.value)));
    }

    method ReadEnding() returns (e: Option<Ending>)
      requires Valid()
      modifies this`pos
      ensures Valid() && Gives(EndingItem()(old(Rest())), e)
    {
      hide Counted, Symbols;
      var checks := ReadCheckData();
      if checks.None? {
        return None;
      }
      var symbols := ReadSymbolsData();
      if symbols.None? {
        return None;
      }
      var funcs := ReadFuncData();
      if funcs.None? {
        return None;
      }
      var tables := ReadTableData();
      if tables.None? {
        return None;
      }
      e := Some((checks.value, ((symbols.value, funcs.value), tables.value)));
    }

    // From the base address to the tables.
    method ReadMiddle() returns (m: Reading<Middle>)
      requires Valid()
      modifies this`pos
      ensures Valid() && GivesInRoom(MiddleOverruns(old(Rest())), MiddleItem()(old(Rest())), m)
    {
      hide Word, Sized, RelocsItem, EndingItem, RelocsOverrun;
      var refabs := ReadU64();
      if refabs.None? {
        return Short;
      }
      var blob := ReadBlobData();
      if blob.None? {
        return Short;
      }
      var relocs := ReadRelocData3();
      match relocs {
        case Short => return Short;
        case PastEnd => return PastEnd;
        case Got(both) =>
          var e := ReadEnding();
          if e.None? {
            return Short;
          }
          m := Got((refabs.value, (blob.value, (both, e.value))));
      }
    }

    method ReadEnding2() returns (e: Option<Ending2>)
      requires Valid()
      modifies this`pos
      ensures Valid() && Gives(Ending2Item()(old(Rest())), e)
    {
      hide Word, Counted;
      var relocs := ReadRelocData();
      if relocs.None? {
        return None;
      }
      var checks := ReadCheckData();
      if checks.None? {
        return None;
      }
      var funcs := ReadFuncData();
      if funcs.None? {
        return None;
      }
      var tables := ReadTableData();
      if tables.None? {
        return None;
      }
      e := Some((relocs.value, (checks.value, (funcs.value, tables.value))));
    }

    method ReadBody2() returns (b: Option<Body2>)
      requires Valid()
      modifies this`pos
      ensures Valid() && Gives(Body2Item()(old(Rest())), b)
    {
      hide Word, Sized, RefxenItem, Ending2Item;
      var info := ReadRefxenData();
      if info.None? {
        return None;
      }
      ghost var s1 := Rest();
      var crowbar := ReadU64();
      if crowbar.None? {
        return None;
      }
      ghost var s2 := Rest();
      var refabs := ReadU64();
      if refabs.None? {
        return None;
      }
      ghost var s3 := Rest();
      var blob := ReadBlobData();
      if blob.None? {
        return None;
      }
      var e := ReadEnding2();
      if e.None? {
        return None;
      }
      var r3 := (blob.value, e.value);
      var r2 := (refabs.value, r3);
      var r1 := (crowbar.value, r2);
      assert Pair(Sized(4), Ending2Item())(s3) == Some((r3, Rest()));
      assert Pair(Word(8), Pair(Sized(4), Ending2Item()))(s2) == Some((r2, Rest()));
      assert Pair(Word(8), Pair(Word(8), Pair(Sized(4), Ending2Item())))(s1) == Some((r1, Rest()));
      b := Some((info.value, r1));
    }

    method LoadVersion2(sha1: Sha1) returns (r: LoadResult)
      requires Valid()
      modifies this`pos
      ensures r == LoadSections(2, sha1, old(Rest()))
    {
      hide Body2Item, Earlier;
      var b := ReadBody2();
      if b.None? {
        return Refused;
      }
      var (info, (crowbar, (refabs, (blob, e)))) := b.value;
      r := Loaded(Earlier(sha1, info, crowbar, refabs, blob, e));
    }

    method LoadVersion3(sha1: Sha1) returns (r: LoadResult)
      requires Valid()
      modifies this`pos
      ensures r == LoadSections(3, sha1, old(Rest()))
    {
      hide Word, HeadItem, MiddleItem, MiddleOverruns, Later;
      var h := ReadHead();
      if h.None? {
        return Refused;
      }
      var crowbar := ReadU64();
      if crowbar.None? {
        return Refused;
      }
      var m := ReadMiddle();
      match m {
        case Short => r := Refused;
        case PastEnd => r := Overrun;
        case Got(middle) => r := Loaded(Later(3, sha1, h.value, crowbar.value, middle, ([], []), []));
      }
    }

    method LoadVersion4(sha1: Sha1) returns (r: LoadResult)
      requires Valid()
      modifies this`pos
      ensures r == LoadSections(4, sha1, old(Rest()))
    {
      hide HeadItem, MiddleItem, MiddleOverruns, ExceptionsItem, Later;
      var h := ReadHead();
      if h.None? {
        return Refused;
      }
      var m := ReadMiddle();
      match m {
        case Short => r := Refused;
        case PastEnd => r := Overrun;
        case Got(middle) =>
          var ex := ReadExTableEntries();
          if ex.None? {
            return Refused;
          }
          r := Loaded(Later(4, sha1, h.value, 0, middle, ex.value, []));
      }
    }

    method LoadVersion5(sha1: Sha1) returns (r: LoadResult)
      requires Valid()
      modifies this`pos
      ensures r == LoadSections(5, sha1, old(Rest()))
    {
      hide HeadItem, MiddleItem, MiddleOverruns, ExceptionsItem, Counted, Later;
      var h := ReadHead();
      if h.None? {
        return Refused;
      }
      var m := ReadMiddle();
      match m {
        case Short => r := Refused;
        case PastEnd => r := Overrun;
        case Got(middle) =>
          var ex := ReadExTableEntries();
          if ex.None? {
            return Refused;
          }
          var conflicts := ReadConflictsData();
          if conflicts.None? {
            return Refused;
          }
          r := Loaded(Later(5, sha1, h.value, 0, middle, ex.value, conflicts.value));
      }
    }

    method GetPatchVersion() returns (v: Option<nat>)
      requires Valid()
      modifies this`pos
      ensures Valid() && v == Version(file) && (v.Some? ==> pos == old(pos))
    {
      var cur := pos;
      pos := 0;
      var signature := Read(8);
      if signature.None? {
        return None;
      }
      pos := cur;
      var c := signature.value;
      v := if c == Cookie(2) then Some(2)
           else if c == Cookie(3) then Some(3)
           else if c == Cookie(4) then Some(4)
           else if c == Cookie(5) then Some(5)
           else None;
    }

    method ExtractSha1FromFilename(name: Bytes, bare: bool) returns (sha1: Option<Sha1>)
      ensures sha1 == NameHash(name, bare)
    {
      if !HasExtension(name) || |name| != 48 {
        return None;
      }
      var out := new Byte[23](_ => 0);
      assert out[..] == Zeros(23);
      var r := HashText.String2Sha1(name, out, bare);
      sha1 := if r == HashText.Accepted then Some(out[..20]) else None;
    }

    method LoadPatchFile(hash: Bytes -> Sha1, name: Bytes, bare: bool) returns (r: LoadResult)
      requires Valid() && pos == 0
      modifies this`pos
      ensures r == LoadFile(hash, file, name, bare)
    {
      hide LoadSections, Cookie, NameHash;
      var v := GetPatchVersion();
      if v.None? {
        return Refused;
      }
      if v == Some(2) {
        var sha1 := ExtractSha1FromFilename(name, bare);
        if sha1.None? || hash(file) != sha1.value {
          return Refused;
        }
        pos := 8;
        r := LoadVersion2(sha1.value);
      } else {
        if |file| < 20 {
          return Refused;
        }
        var sha1 := file[|file| - 20..];
        if hash(file[..|file| - 20]) != sha1 {
          return Refused;
        }
        pos := 8;
        match v.value {
          case 3 => r := LoadVersion3(sha1);
          case 4 => r := LoadVersion4(sha1);
          case _ => r := LoadVersion5(sha1);
        }
      }
    }
  }
}
