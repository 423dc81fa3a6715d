/** Whole runs of the application model, and what one task can observe of the others. */
module AppRuns {
  import opened PageTables
  import opened CopyOnWrite
  import opened AppModel
  import opened AppWorld

  ghost predicate AllLegal(sys: System, ops: seq<Op>)
    decreases |ops|
  {
    ops == [] || (Legal(sys, ops[0]) && AllLegal(Step(sys, ops[0]).0, ops[1..]))
  }

  ghost function Final(sys: System, ops: seq<Op>): System
    requires AllLegal(sys, ops)
    decreases |ops|
  {
    if ops == [] then sys else Final(Step(sys, ops[0]).0, ops[1..])
  }

  ghost function Outcomes(sys: System, ops: seq<Op>): (r: seq<Outcome>)
    requires AllLegal(sys, ops)
    ensures |r| == |ops|
    decreases |ops|
  {
    if ops == [] then [] else [Step(sys, ops[0]).1] + Outcomes(Step(sys, ops[0]).0, ops[1..])
  }

  /** Every file that is started has been loaded before. */
  ghost predicate AllCached(sys: System, ops: seq<Op>) {
    forall i :: 0 <= i < |ops| && ops[i].Start? ==> ops[i].file in sys.images
  }

  /** The tasks that do something in a run. */
  ghost function Acting(ops: seq<Op>): set<nat> {
    set i | 0 <= i < |ops| :: ops[i].task
  }

  /** The address spaces of the acting tasks. */
  ghost function Actors(ops: seq<Op>): set<Space> {
    set i | 0 <= i < |ops| :: App(ops[i].task)
  }

  /** The images that a run caches. */
  ghost function NewImages(sys: System, ops: seq<Op>): set<Space> {
    set i | 0 <= i < |ops| && ops[i].Start? && ops[i].file !in sys.images :: Template(ops[i].file)
  }

  /** The operations of one task. */
  function Only(ops: seq<Op>, task: nat): seq<Op> {
    if ops == [] then [] else (if ops[0].task == task then [ops[0]] else []) + Only(ops[1..], task)
  }

  /** The outcomes of the operations of one task. */
  ghost function OutcomesFor(sys: System, ops: seq<Op>, task: nat): seq<Outcome>
    requires AllLegal(sys, ops)
    decreases |ops|
  {
    if ops == [] then []
    else (if ops[0].task == task then [Step(sys, ops[0]).1] else []) + OutcomesFor(Step(sys, ops[0]).0, ops[1..], task)
  }

  /** The files on disk: every start of a file that was not cached at the beginning, in `base`, brings the segments
      that the disk has for it. */
  ghost predicate FromDisk(base: System, ops: seq<Op>, disk: map<nat, seq<Segment>>) {
    && (forall f :: f in disk ==> ValidSegments(disk[f]))
    && forall i :: 0 <= i < |ops| && ops[i].Start? && ops[i].file !in base.images ==>
         ops[i].file in disk && ops[i].segments == disk[ops[i].file]
  }

  /** Every cached image is one of the beginning or was loaded from the disk. */
  ghost predicate Consistent(sys: System, base: System, disk: map<nat, seq<Segment>>)
    requires forall f :: f in disk ==> ValidSegments(disk[f])
  {
    && base.images.Keys <= sys.images.Keys
    && forall f :: f in sys.images ==>
         if f in base.images then sys.images[f] == base.images[f]
         else f in disk && sys.images[f] == Image(LoadSegments(disk[f]), EndOf(disk[f]))
  }

  /** The systems look the same to a task, now and when it starts a file. */
  ghost predicate Agree(sys: System, sys': System, task: nat, base: System, disk: map<nat, seq<Segment>>)
    requires forall f :: f in disk ==> ValidSegments(disk[f])
  {
    && Consistent(sys, base, disk) && Consistent(sys', base, disk)
    && (task in sys.apps <==> task in sys'.apps)
    && (task in sys.apps ==> sys.apps[task] == sys'.apps[task])
  }

  lemma ImageIs(sys: System, base: System, disk: map<nat, seq<Segment>>, op: Op)
    requires FromDisk(base, [op], disk) && Consistent(sys, base, disk) && op.Start?
    ensures op.file !in base.images ==> op.file in disk && op.segments == disk[op.file] && ValidSegments(op.segments)
    ensures op.file !in sys.images ==> op.file !in base.images
    ensures ImageFor(sys, op.file, op.segments) ==
      if op.file in base.images then base.images[op.file] else Image(LoadSegments(op.segments), EndOf(op.segments))
  {
    assert [op][0] == op;
  }

  lemma StepConsistent(sys: System, base: System, disk: map<nat, seq<Segment>>, op: Op)
    requires FromDisk(base, [op], disk) && Consistent(sys, base, disk) && Legal(sys, op)
    ensures Consistent(Step(sys, op).0, base, disk)
  {
    hide LoadSegments, EndOf;
    if op.Start? {
      assert [op][0] == op;
      ImageIs(sys, base, disk, op);
    }
  }

  lemma StepAgrees(sys: System, sys': System, op: Op, base: System, disk: map<nat, seq<Segment>>)
    requires FromDisk(base, [op], disk) && Legal(sys, op) && Agree(sys, sys', op.task, base, disk)
    ensures Legal(sys', op) && Step(sys, op).1 == Step(sys', op).1
    ensures Agree(Step(sys, op).0, Step(sys', op).0, op.task, base, disk)
  {
    hide LoadSegments, EndOf, Touched;
    if op.Start? {
      ImageIs(sys, base, disk, op);
      ImageIs(sys', base, disk, op);
    }
    StepConsistent(sys, base, disk, op);
    StepConsistent(sys', base, disk, op);
  }

  lemma StepOfOther(sys: System, sys': System, op: Op, task: nat, base: System, disk: map<nat, seq<Segment>>)
    requires FromDisk(base, [op], disk) && Legal(sys, op) && op.task != task && Agree(sys, sys', task, base, disk)
    ensures Agree(Step(sys, op).0, sys', task, base, disk)
  {
    hide LoadSegments, EndOf, Touched;
    StepConsistent(sys, base, disk, op);
  }

  /** Isolation: in any run in which a file's segments are those on disk, what a task observes and the memory it ends
      with are what they would be if no other task had done anything, loading files included. */
  lemma {:induction false} Isolation(sys: System, sys': System, ops: seq<Op>, task: nat, base: System, disk: map<nat, seq<Segment>>)
    requires FromDisk(base, ops, disk) && AllLegal(sys, ops) && Agree(sys, sys', task, base, disk)
    ensures AllLegal(sys', Only(ops, task))
    ensures OutcomesFor(sys, ops, task) == Outcomes(sys', Only(ops, task))
    ensures Agree(Final(sys, ops), Final(sys', Only(ops, task)), task, base, disk)
    decreases |ops|
  {
    hide Legal, Step, Agree;
    if ops != [] {
      var op, rest := ops[0], ops[1..];
      var next := Step(sys, op).0;
      assert FromDisk(base, [op], disk) && FromDisk(base, rest, disk);
      if op.task == task {
        StepAgrees(sys, sys', op, base, disk);
        Isolation(next, Step(sys', op).0, rest, task, base, disk);
        var mine := [op] + Only(rest, task);
        assert mine[1..] == Only(rest, task);
      } else {
        StepOfOther(sys, sys', op, task, base, disk);
        Isolation(next, sys', rest, task, base, disk);
        assert Only(ops, task) == Only(rest, task);
      }
    }
  }

  /** From one system on: the task alone, against the whole run. */
  lemma AloneOrNot(sys: System, ops: seq<Op>, task: nat, disk: map<nat, seq<Segment>>)
    requires FromDisk(sys, ops, disk) && AllLegal(sys, ops)
    ensures AllLegal(sys, Only(ops, task))
    ensures OutcomesFor(sys, ops, task) == Outcomes(sys, Only(ops, task))
    ensures task in Final(sys, ops).apps <==> task in Final(sys, Only(ops, task)).apps
    ensures task in Final(sys, ops).apps ==> Final(sys, ops).apps[task] == Final(sys, Only(ops, task)).apps[task]
  {
    Isolation(sys, sys, ops, task, sys, disk);
  }

  /** Images stay cached. */
  lemma ImagesStay(sys: System, op: Op)
    requires Legal(sys, op)
    ensures sys.images.Keys <= Step(sys, op).0.images.Keys
  {
    hide ImageFor, Touched;
  }

  /** A run is its first operation followed by the rest. */
  lemma RunStep(sys: System, ops: seq<Op>, i: nat, mid: System, outs: seq<Outcome>)
    requires AllLegal(sys, ops) && i < |ops| && AllLegal(mid, ops[i..])
    requires Final(mid, ops[i..]) == Final(sys, ops) && outs + Outcomes(mid, ops[i..]) == Outcomes(sys, ops)
    ensures Legal(mid, ops[i])
    ensures var (next, o) := Step(mid, ops[i]);
      && AllLegal(next, ops[i + 1..])
      && Final(next, ops[i + 1..]) == Final(sys, ops)
      && outs + [o] + Outcomes(next, ops[i + 1..]) == Outcomes(sys, ops)
  {
    assert ops[i..][1..] == ops[i + 1..] && ops[i..][0] == ops[i];
  }

  /** What takes part in a run. */
  lemma TakesPart(sys: System, ops: seq<Op>, i: nat)
    requires i < |ops|
    ensures App(ops[i].task) in Actors(ops)
    ensures ops[i].Start? && ops[i].file !in sys.images ==> Template(ops[i].file) in NewImages(sys, ops)
  {}

  lemma SpacesLeft(sys: System, sys': System, ops: seq<Op>)
    requires forall t :: t in Acting(ops) ==> t !in sys.apps && t !in sys'.apps
    ensures forall b :: b in Actors(ops) ==> !Has(sys, b) && !Has(sys', b)
    ensures forall b :: b in NewImages(sys, ops) ==> !Has(sys, b)
    ensures AllCached(sys, ops) ==> NewImages(sys, ops) == {}
  {}

  lemma RunStart(sys: System, ops: seq<Op>)
    requires AllLegal(sys, ops)
    ensures ops[0..] == ops
  {}

  lemma RunEnd(sys: System, ops: seq<Op>, outs: seq<Outcome>)
    requires AllLegal(sys, ops[|ops|..])
    ensures Final(sys, ops[|ops|..]) == sys && outs + Outcomes(sys, ops[|ops|..]) == outs
  {
    assert ops[|ops|..] == [];
  }
}
