// The client's record of a patch (user/patch_file.h), as loaded from a file.
module PatchData {
  import opened Words

  type Sha1 = s: Bytes | |s| == 20 witness seq(20, _ => 0)
  type Info = s: Bytes | |s| == 32 witness seq(32, _ => 0)

  datatype Func = Func(name: Bytes, oldabs: nat, newrel: nat)
  datatype Check = Check(hvabs: nat, data: Bytes)
  datatype Table = Table(name: Bytes, hvabs: nat, data: Bytes)
  datatype Reloc3 = Reloc3(index: nat, offset: nat)
  datatype Symbol = Symbol(name: Bytes, section: Bytes, secOff: nat, symOff: nat)
  datatype Dependency = Dependency(sha1: Sha1, refabs: nat)
  datatype ExEntry = ExEntry(addrrel: nat, contrel: nat)

  datatype Patch = Patch(
    version: nat,
    sha1: Sha1,
    xenversion: Info,
    xencompiledate: Info,
    crowbarabs: nat,
    refabs: nat,
    blob: Bytes,
    relocs: seq<nat>,
    checks: seq<Check>,
    funcs: seq<Func>,
    tables: seq<Table>,
    tags: Bytes,
    relocs3: seq<Reloc3>,
    symbols: seq<Symbol>,
    deps: seq<Dependency>,
    exctbl: seq<ExEntry>,
    preexctbl: seq<ExEntry>,
    conflicts: seq<Sha1>)
}
