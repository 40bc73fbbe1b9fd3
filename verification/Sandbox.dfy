// The engine as the process holds it: program text changed in place, a list of
// applied patches that own their write arrays, and the patch mapper
// (libsandbox.c). Every method is tied to its function in module Server.
module Sandbox {
  import opened Codes
  import opened Words
  import opened Overlay
  import opened PatchData
  import opened Payload
  import opened Relocs
  import opened Mapper
  import opened Server

  datatype AppliedPatch = AppliedPatch(
    pm: Region, blob: Bytes, sha1: Sha1, writes: array<Write>, deps: seq<Sha1>, tags: Bytes)

  // What read_patch_data hands back.
  datatype StageResult =
    | StageOk(pm: Region, blob: array<Byte>, writes: array<Write>)
    | StageError(code: int, pm: Region)
    | StageWild

  class Sandbox {
    const img: Image
    const text: array<Byte>
    const mapper: PatchMapper
    var applied: seq<AppliedPatch>  // head first
    ghost var Repr: set<object>  // the write arrays of the patches ever listed

    constructor (img: Image, text: array<Byte>)
      requires ImageOk(img, text.Length)
      ensures this.img == img && this.text == text && fresh(mapper) && Valid()
      ensures Abs() == State(text[..], [], FRESH)
    {
      this.img := img;
      this.text := text;
      mapper := new PatchMapper(img);
      applied := [];
      Repr := {};
    }

    ghost predicate Valid()
      reads this, text, mapper, Repr
    {
      && mapper.img == img
      && text !in Repr
      && (forall i :: 0 <= i < |applied| ==> applied[i].writes in Repr)
      && (forall i, j :: 0 <= i < j < |applied| ==> applied[i].writes != applied[j].writes)
      && ImageOk(img, text.Length)
      && forall i :: 0 <= i < |applied| ==> Within(text.Length, img.start, applied[i].writes[..])
    }

    ghost function View(ap: AppliedPatch): Applied
      reads ap.writes
    {
      Applied(ap.pm, ap.blob, ap.sha1, ap.writes[..], ap.deps, ap.tags)
    }

    ghost function Views(): (vs: seq<Applied>)
      requires forall i :: 0 <= i < |applied| ==> applied[i].writes in Repr
      reads this, Repr
      ensures |vs| == |applied| && forall i {:trigger vs[i]} :: 0 <= i < |vs| ==> vs[i] == View(applied[i])
    {
      seq(|applied|, i requires 0 <= i < |applied| && applied[i].writes in Repr reads this, Repr => View(applied[i]))
    }

    ghost function Abs(): State
      requires Valid()
      reads this, text, mapper, Repr
    {
      State(text[..], Views(), mapper.Abs())
    }

    // Slides, checks and relocates the entries, in place.
    method FixWrites(writes: array<Write>, slide: nat, relocrel: nat) returns (ok: bool)
      requires relocrel < W32
      modifies writes
      ensures ok <==> Fixable(old(writes[..]), slide, relocrel, img)
      ensures ok ==> writes[..] == Fixed(old(writes[..]), slide, relocrel, img)
    {
      hide FixWrite;
      ghost var ws := writes[..];
      for i := 0 to writes.Length
        invariant forall j :: 0 <= j < i ==> FixWrite(ws[j], slide, relocrel, img) == Some(writes[j])
        invariant forall j :: i <= j < writes.Length ==> writes[j] == ws[j]
      {
        match FixWrite(writes[i], slide, relocrel, img)
        case None => return false;
        case Some(w) => writes[i] := w;
      }
      ok := true;
    }

    method ReadPatchData(arg: Bytes, apply: Header, g: Grants) returns (r: StageResult)
      requires mapper.img == img
      modifies mapper
      ensures match StageSpec(img, old(mapper.Abs()), arg, apply, g)
              case Wild => r.StageWild?
              case Failed(code, pm, a) => r == StageError(code, pm) && mapper.Abs() == a
              case Ready(pm, blob, ws, a) =>
                && r.StageOk? && r.pm == pm && fresh(r.blob) && fresh(r.writes)
                && r.blob[..] == blob && r.writes[..] == ws && mapper.Abs() == a
    {
      hide MapSpec, UnmapSpec, RelocSpec, FixWrite, ReadWords, ReadWrites, RelocRel;
      var pm, blob := NO_MAP, new Byte[0];
      var at := HEADER_SIZE;
      var slide, relocrel := 0, 0;
      if HasBlob(apply) {
        var code;
        code, pm := mapper.MapPatchMap(apply.bloblen, g.mmap);
        if code != SANDBOX_OK {
          return StageError(code, pm);
        }
        if |arg| < RelocsOff(apply) {
          return StageWild;
        }
        var src := arg[HEADER_SIZE..RelocsOff(apply)];
        blob := new Byte[apply.bloblen](i requires 0 <= i < apply.bloblen => src[i]);
        assert blob[..] == src;
        at := RelocsOff(apply);
        slide := Slide(img, apply);
        relocrel := RelocRel(pm.addr, img.start, apply.refabs);
      }
      ghost var a1, blob1 := mapper.Abs(), blob[..];
      assert blob1 == [] || HasBlob(apply);
      assert StageSpec(img, old(mapper.Abs()), arg, apply, g) ==
             StageRelocs(img, a1, arg, apply, g, at, pm, blob1);
      if apply.numrelocs > 0 {
        if !g.relocs {
          pm := mapper.UnmapPatchMap(pm);
          return StageError(SANDBOX_ERR_NOMEM, pm);
        }
        if |arg| < at + 4 * apply.numrelocs {
          return StageWild;
        }
        var relocs := ReadWords(arg, at, apply.numrelocs);
        var done := RelocateBlob(blob, apply.bloblen, relocs, relocrel);
        match done {
          case Done(_) =>
          case Refuse =>
            pm := mapper.UnmapPatchMap(pm);
            return StageError(SANDBOX_ERR_INVALID, pm);
          case Wild => return StageWild;
        }
        at := at + 4 * apply.numrelocs;
      }
      assert StageRelocs(img, a1, arg, apply, g, at - 4 * apply.numrelocs, pm, blob1) ==
             StageWrites(img, a1, arg, apply, g, at, pm, blob[..]);
      if !g.writes {
        pm := mapper.UnmapPatchMap(pm);
        return StageError(SANDBOX_ERR_NOMEM, pm);
      }
      if |arg| < at + 24 * apply.numwrites {
        return StageWild;
      }
      var ws := ReadWrites(arg, at, apply.numwrites);
      var writes := new Write[apply.numwrites](i requires 0 <= i < apply.numwrites => ws[i]);
      assert writes[..] == ws;
      var ok := FixWrites(writes, slide, relocrel);
      if !ok {
        pm := mapper.UnmapPatchMap(pm);
        return StageError(SANDBOX_ERR_INVALID, pm);
      }
      r := StageOk(pm, blob, writes);
    }

    // LIST_INSERT_HEAD
    method Link(patch: AppliedPatch)
      requires Valid() && patch.writes !in Repr && patch.writes as object != text
      requires Within(text.Length, img.start, patch.writes[..])
      modifies this
      ensures Valid() && Repr == old(Repr) + {patch.writes}
      ensures Views() == [View(patch)] + old(Views())
    {
      ghost var vs := Views();
      applied := [patch] + applied;
      Repr := Repr + {patch.writes};
      assert forall i :: 0 < i < |applied| ==> applied[i] == old(applied)[i - 1];
      assert Views() == [View(patch)] + vs;
    }

    // LIST_REMOVE
    method Unlink(k: nat)
      requires Valid() && k < |applied|
      modifies this
      ensures Valid() && Repr == old(Repr)
      ensures Views() == RemoveAt(old(Views()), k)
    {
      hide RemoveAt;
      ghost var vs := Views();
      applied := RemoveAt(applied, k);
      assert forall i :: 0 <= i < |applied| ==> View(applied[i]) == RemoveAt(vs, k)[i];
      assert Views() == RemoveAt(vs, k);
    }

    // The writes and the insertion at the list head; nothing here can fail.
    method Install(patch: AppliedPatch)
      requires Valid() && patch.writes !in Repr && patch.writes as object != text
      requires Within(text.Length, img.start, patch.writes[..])
      modifies this, text, patch.writes
      ensures Valid() && Repr == old(Repr) + {patch.writes}
      ensures var s, ws := old(Abs()), old(patch.writes[..]);
              var ap := Applied(patch.pm, patch.blob, patch.sha1, Saved(s.text, img.start, ws), patch.deps, patch.tags);
              Abs() == State(Overlaid(s.text, img.start, ws), [ap] + s.applied, s.alloc)
    {
      hide Overlaid, Saved;
      ghost var vs := Views();
      SwapTrampolines(text, img.start, patch.writes);
      assert forall i :: 0 <= i < |applied| ==> View(applied[i]) == vs[i];
      assert Views() == vs;
      Link(patch);
    }

    method Apply4(arg: Bytes, g: Grants) returns (r: Outcome)
      requires Valid()
      modifies this, text, mapper
      ensures Valid() && fresh(Repr - old(Repr))
      ensures r == ApplySpec(img, old(Abs()), arg, g).0
      ensures r != Undefined ==> Abs() == ApplySpec(img, old(Abs()), arg, g).1
    {
      hide ReadHeader, StageSpec, UnmapSpec, Overlaid, Saved, Within;
      if |arg| < HEADER_SIZE {
        return Undefined;
      }
      var apply := ReadHeader(arg);
      if apply.bloblen > MAX_PATCH_SIZE {
        return Returns(SANDBOX_ERR_INVALID);
      }
      if apply.numwrites == 0 {
        return Returns(SANDBOX_ERR_INVALID);
      }
      if apply.numexctblents != 0 || apply.numpreexctblents != 0 {
        return Returns(SANDBOX_ERR_INVALID);
      }
      if !g.patch {
        return Returns(SANDBOX_ERR_NOMEM);
      }
      ghost var s0 := Abs();
      var staged := ReadPatchData(arg, apply, g);
      match staged {
        case StageWild =>
          return Undefined;
        case StageError(code, pm) =>
          var _ := mapper.UnmapPatchMap(pm);
          assert Views() == s0.applied;
          return Returns(code);
        case StageOk(pm, blob, writes) =>
          if apply.numdeps > 0 {
            if g.deps && |arg| < HEADER_SIZE + 24 * apply.numdeps {
              return Undefined;
            }
            var _ := mapper.UnmapPatchMap(pm);
            assert Views() == s0.applied;
            return Returns(SANDBOX_OK);
          }
          var tags: Bytes := [];
          if TagsWild(arg, apply) {
            return Undefined;
          }
          if apply.taglen < MAX_TAGS_LEN {
            tags := TagsAsRead(arg, apply);
          }
          StagedWithin(img, s0, arg, apply, g);
          Install(AppliedPatch(pm, blob[..], apply.sha1, writes, [], tags));
          r := Returns(SANDBOX_OK);
      }
    }

    // Scans the entries that LIST_NEXT reaches.
    method HasDependentPatches(k: nat) returns (r: bool)
      requires Valid() && k < |applied|
      ensures r <==> HasDependents(Views(), k)
    {
      assert forall j :: 0 <= j < |applied| ==>
               Views()[j].deps == applied[j].deps && Views()[j].sha1 == applied[j].sha1;
      for j := k + 1 to |applied|
        invariant forall i :: k < i < j ==> applied[k].sha1 !in applied[i].deps
      {
        var deps := applied[j].deps;
        for i := 0 to |deps|
          invariant forall m :: 0 <= m < i ==> deps[m] != applied[k].sha1
        {
          if deps[i] == applied[k].sha1 {
            return true;
          }
        }
      }
      r := false;
    }

    // Swap back, unlink, unmap.
    method RemovePatch(k: nat)
      requires Valid() && k < |applied|
      modifies this, text, mapper, Repr
      ensures Valid() && Repr == old(Repr)
      ensures var s := old(Abs());
              Abs() == State(Overlaid(s.text, img.start, s.applied[k].writes), RemoveAt(s.applied, k),
                             UnmapSpec(s.alloc, s.applied[k].pm))
    {
      hide Overlaid, Saved, UnmapSpec, RemoveAt;
      ghost var vs := Views();
      var ap := applied[k];
      assert vs[k] == View(ap);
      SwapTrampolines(text, img.start, ap.writes);
      assert forall i :: 0 <= i < |applied| && i != k ==> View(applied[i]) == vs[i];
      assert RemoveAt(Views(), k) == RemoveAt(vs, k);
      Unlink(k);
      var _ := mapper.UnmapPatchMap(ap.pm);
      assert Views() == RemoveAt(vs, k);
    }

    method Undo4(sha1: Sha1) returns (r: int)
      requires Valid()
      modifies this, text, mapper, Repr
      ensures Valid() && Repr == old(Repr)
      ensures (r, Abs()) == UndoSpec(img, old(Abs()), sha1)
    {
      hide Overlaid, UnmapSpec;
      ghost var s0 := Abs();
      for k := 0 to |applied|
        invariant Valid() && applied == old(applied) && Abs() == s0
        invariant IndexOf(s0.applied, sha1, 0) == IndexOf(s0.applied, sha1, k)
      {
        var ap := applied[k];
        assert s0.applied[k] == View(ap);
        if ap.sha1 == sha1 {
          var dependents := HasDependentPatches(k);
          if dependents || ap.writes.Length == 0 {
            return -ENXIO;
          }
          RemovePatch(k);
          return 0;
        }
      }
      r := -ENOENT;
    }
  }
}
