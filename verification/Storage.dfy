/** The snapshot files of one instance in one directory, the atomic changes a store makes to
    them, and a disk on which such a change can fail. */
module Storage {
  import opened Values

  datatype Kind = Json | Hash

  datatype File = File(slot: nat, kind: Kind)

  type Files = map<File, Bytes>

  datatype Step = Rename(src: File, dst: File) | Write(file: File, data: Bytes)

  function Look(files: Files, f: File): Option<Bytes> {
    if f in files then Some(files[f]) else None
  }

  /** One family of files, slot by slot. */
  function Column(files: Files, kind: Kind, n: nat): (r: seq<Option<Bytes>>)
    ensures |r| == n
    ensures forall k {:trigger r[k]} :: 0 <= k < n ==> r[k] == Look(files, File(k, kind))
  {
    seq(n, k requires 0 <= k < n => Look(files, File(k, kind)))
  }

  function Apply(files: Files, step: Step): Files {
    match step
    case Rename(src, dst) => if src in files then (files - {src})[dst := files[src]] else files
    case Write(f, data) => files[f := data]
  }

  function Run(files: Files, steps: seq<Step>): Files
    decreases |steps|
  {
    if steps == [] then files else Run(Apply(files, steps[0]), steps[1..])
  }

  lemma {:induction false} RunConcat(files: Files, a: seq<Step>, b: seq<Step>)
    ensures Run(files, a + b) == Run(Run(files, a), b)
    decreases |a|
  {
    if a == [] {
      assert a + b == b;
    } else {
      assert (a + b)[1..] == a[1..] + b;
      RunConcat(Apply(files, a[0]), a[1..], b);
    }
  }

  lemma RunOne(files: Files, a: Step)
    ensures Run(files, [a]) == Apply(files, a)
  {
  }

  lemma RunTwo(files: Files, a: Step, b: Step)
    ensures Run(files, [a, b]) == Apply(Apply(files, a), b)
  {
    assert [a, b][1..] == [b];
    RunOne(Apply(files, a), b);
  }

  // ---------- Limited numbers of changes

  /** How many of n changes go through on a disk with this budget. */
  function Allowed(budget: Option<nat>, n: nat): (r: nat)
    ensures r <= n
  {
    match budget
    case None => n
    case Some(b) => if b < n then b else n
  }

  function Spend(budget: Option<nat>, n: nat): Option<nat>
    requires Allowed(budget, n) == n
  {
    match budget
    case None => None
    case Some(b) => Some(b - n)
  }

  /** Of the given steps, as many as the budget allows have been made, in order. */
  predicate Ran(files: Files, budget: Option<nat>, steps: seq<Step>, files': Files, budget': Option<nat>) {
    var n := Allowed(budget, |steps|);
    files' == Run(files, steps[..n]) && budget' == Spend(budget, n)
  }

  lemma RanConcat(files: Files, budget: Option<nat>, a: seq<Step>, b: seq<Step>,
                  files1: Files, budget1: Option<nat>, files2: Files, budget2: Option<nat>)
    requires Ran(files, budget, a, files1, budget1)
    requires if Allowed(budget, |a|) == |a| then Ran(files1, budget1, b, files2, budget2)
             else files2 == files1 && budget2 == budget1
    ensures Ran(files, budget, a + b, files2, budget2)
  {
    var n := Allowed(budget, |a + b|);
    if Allowed(budget, |a|) == |a| {
      assert a[..|a|] == a;
      assert (a + b)[..n] == a + b[..n - |a|];
      RunConcat(files, a, b[..n - |a|]);
    } else {
      assert (a + b)[..n] == a[..n];
    }
  }

  datatype IoResult = IoDone | IoMissing | IoError

  class Disk {
    var files: Files

    /** How many more changes go through before one fails; `None` on a disk that never fails. A
        caller that stops at its first failure leaves the same files as one that lost power just
        before that change. */
    var budget: Option<nat>

    constructor (files: Files, budget: Option<nat>)
      ensures this.files == files && this.budget == budget
    {
      this.files, this.budget := files, budget;
    }

    method Rename(src: File, dst: File) returns (r: IoResult)
      modifies this
      ensures src !in old(files) ==> r == IoMissing && files == old(files) && budget == old(budget)
      ensures src in old(files) && old(budget) == Some(0) ==>
                r == IoError && files == old(files) && budget == old(budget)
      ensures src in old(files) && old(budget) != Some(0) ==>
                r == IoDone && files == Apply(old(files), Step.Rename(src, dst)) && budget == Spend(old(budget), 1)
    {
      if src !in files {
        return IoMissing;
      }
      if budget == Some(0) {
        return IoError;
      }
      files := (files - {src})[dst := files[src]];
      budget := Spend(budget, 1);
      r := IoDone;
    }

    method Write(f: File, data: Bytes) returns (r: IoResult)
      modifies this
      ensures old(budget) == Some(0) ==> r == IoError && files == old(files) && budget == old(budget)
      ensures old(budget) != Some(0) ==>
                r == IoDone && files == Apply(old(files), Step.Write(f, data)) && budget == Spend(old(budget), 1)
    {
      if budget == Some(0) {
        return IoError;
      }
      files := files[f := data];
      budget := Spend(budget, 1);
      r := IoDone;
    }
  }
}
