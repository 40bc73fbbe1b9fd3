// Dependencies between applied patches: the rule the client and the server
// mean to keep, and what the scan as written decides (libsandbox.c,
// has_dependent_patches; user/raxlpxs.c, _cmd_apply4).
module Closure {
  import opened Words
  import opened PatchData
  import opened Server

  predicate Lists(applied: seq<Applied>, from: nat, sha1: Sha1) {
    exists j :: from <= j < |applied| && applied[j].sha1 == sha1
  }

  // Each listed patch's dependencies are listed below it.
  predicate Closed(applied: seq<Applied>) {
    forall k :: 0 <= k < |applied| ==> DepsBelow(applied, k)
  }

  predicate DepsBelow(applied: seq<Applied>, k: nat)
    requires k < |applied|
  {
    forall d :: d in applied[k].deps ==> Lists(applied, k + 1, d)
  }

  predicate UniqueHashes(applied: seq<Applied>) {
    forall j, k :: 0 <= j < k < |applied| ==> applied[j].sha1 != applied[k].sha1
  }

  // A dependents scan over the newer entries.
  predicate NewerDependents(applied: seq<Applied>, k: nat)
    requires k < |applied|
  {
    exists j :: 0 <= j < k && applied[k].sha1 in applied[j].deps
  }

  // In every closed list the scan as written, which LIST_NEXT takes towards
  // older entries, finds nothing: it never refuses an undo.
  lemma ScanNeverRefuses(applied: seq<Applied>, k: nat)
    requires Closed(applied) && UniqueHashes(applied) && k < |applied|
    ensures !HasDependents(applied, k)
  {
    forall j | k < j < |applied|
      ensures applied[k].sha1 !in applied[j].deps
    {
      assert DepsBelow(applied, j);
    }
  }

  lemma ListsAfterRemove(applied: seq<Applied>, k: nat, from: nat, d: Sha1)
    requires k < |applied| && UniqueHashes(applied) && from <= |applied|
    ensures var r := RemoveAt(applied, k);
            Lists(r, if k < from then from - 1 else from, d) <==>
            Lists(applied, from, d) && !(from <= k && d == applied[k].sha1)
  {
    var r := RemoveAt(applied, k);
    var from' := if k < from then from - 1 else from;
    if j :| from' <= j < |r| && r[j].sha1 == d {
      var i := if j < k then j else j + 1;
      assert applied[i] == r[j] && from <= i && i != k;
      assert if i < k then applied[i].sha1 != applied[k].sha1 else applied[k].sha1 != applied[i].sha1;
    }
    if i :| from <= i < |applied| && applied[i].sha1 == d && i != k {
      assert r[if i < k then i else i - 1] == applied[i];
    }
  }

  // Removing entry k keeps the list closed exactly when no newer entry depends
  // on it: the scan has to look the other way.
  lemma RemoveKeepsClosed(applied: seq<Applied>, k: nat)
    requires Closed(applied) && UniqueHashes(applied) && k < |applied|
    ensures Closed(RemoveAt(applied, k)) <==> !NewerDependents(applied, k)
    ensures UniqueHashes(RemoveAt(applied, k))
  {
    var r := RemoveAt(applied, k);
    forall j | 0 <= j < |applied| && j != k
      ensures var j' := if j < k then j else j - 1;
              DepsBelow(r, j') <==> !(j < k && applied[k].sha1 in applied[j].deps)
    {
      var j' := if j < k then j else j - 1;
      assert r[j'] == applied[j] && DepsBelow(applied, j);
      forall d | d in applied[j].deps
        ensures Lists(r, j' + 1, d) <==> !(j < k && d == applied[k].sha1)
      {
        ListsAfterRemove(applied, k, j + 1, d);
      }
    }
    if Closed(r) {
      assert forall j :: 0 <= j < k ==> DepsBelow(r, j);
    }
    if !NewerDependents(applied, k) {
      forall j' | 0 <= j' < |r|
        ensures DepsBelow(r, j')
      {
        var j := if j' < k then j' else j' + 1;
        assert j != k;
      }
    }
  }

  // --- Runs of the rule as intended --------------------------------------------------

  datatype DepOp = Load(ap: Applied) | Unload(sha1: Sha1)

  // The client loads a patch only if it is not listed and its dependencies
  // are; an undo is refused when a newer patch depends on the target.
  function DepStep(applied: seq<Applied>, op: DepOp): seq<Applied> {
    match op
    case Load(ap) =>
      if Lists(applied, 0, ap.sha1) || exists d :: d in ap.deps && !Lists(applied, 0, d) then applied
      else [ap] + applied
    case Unload(sha1) =>
      var k := IndexOf(applied, sha1, 0);
      if k == |applied| || NewerDependents(applied, k) then applied else RemoveAt(applied, k)
  }

  function DepRun(applied: seq<Applied>, ops: seq<DepOp>): seq<Applied>
    decreases |ops|
  {
    if ops == [] then applied else DepRun(DepStep(applied, ops[0]), ops[1..])
  }

  lemma LoadKeepsClosed(applied: seq<Applied>, ap: Applied)
    requires Closed(applied) && UniqueHashes(applied)
    requires !Lists(applied, 0, ap.sha1) && forall d :: d in ap.deps ==> Lists(applied, 0, d)
    ensures Closed([ap] + applied) && UniqueHashes([ap] + applied)
  {
    var r := [ap] + applied;
    forall k | 0 <= k < |r|
      ensures DepsBelow(r, k)
    {
      forall d | d in r[k].deps
        ensures Lists(r, k + 1, d)
      {
        assert k == 0 || (r[k] == applied[k - 1] && DepsBelow(applied, k - 1));
        var j :| k <= j < |applied| && applied[j].sha1 == d;
        assert r[j + 1] == applied[j];
      }
    }
  }

  // Over every run, with a scan of the newer entries, every listed patch's
  // dependencies stay listed and hashes stay unique, so in every state it
  // reaches the scan as written would let any undo through.
  lemma {:induction false} RunKeepsClosed(applied: seq<Applied>, ops: seq<DepOp>)
    requires Closed(applied) && UniqueHashes(applied)
    ensures Closed(DepRun(applied, ops)) && UniqueHashes(DepRun(applied, ops))
    ensures forall k :: 0 <= k < |DepRun(applied, ops)| ==> !HasDependents(DepRun(applied, ops), k)
    decreases |ops|
  {
    hide Closed, UniqueHashes, HasDependents;
    if ops == [] {
      forall k | 0 <= k < |applied|
        ensures !HasDependents(applied, k)
      {
        ScanNeverRefuses(applied, k);
      }
    } else {
      match ops[0] {
        case Load(ap) =>
          if DepStep(applied, ops[0]) != applied {
            LoadKeepsClosed(applied, ap);
          }
        case Unload(sha1) =>
          var k := IndexOf(applied, sha1, 0);
          if k < |applied| {
            RemoveKeepsClosed(applied, k);
          }
      }
      RunKeepsClosed(DepStep(applied, ops[0]), ops[1..]);
    }
  }

  // A patch and its dependent: the scan as written lets the dependency go.
  lemma ScanMissesDependent(a: Applied, b: Applied)
    requires a.deps == [] && b.deps == [a.sha1] && a.sha1 != b.sha1
    ensures Closed([b, a]) && UniqueHashes([b, a])
    ensures !HasDependents([b, a], 1) && !Closed(RemoveAt([b, a], 1))
  {
    var l := [b, a];
    assert l[1].sha1 == a.sha1;
    assert Lists(l, 1, a.sha1);
    assert DepsBelow(l, 0) && DepsBelow(l, 1);
    assert a.sha1 in l[0].deps;
    RemoveKeepsClosed(l, 1);
  }
}
