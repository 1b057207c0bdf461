/**
 * The queue of Firehose operations on an intrusive circular list, executed in document order or
 * phase by phase.
 */
module OpQueue {
  import opened Answers
  import opened Bytes

  datatype Op = Erase(id: nat) | Program(id: nat, filename: Option<string>) | Read(id: nat, output: string)
              | Patch(id: nat, filename: Option<string>)

  // ---- The list ----

  class Node {
    var prev: Node?
    var next: Node?
    const op: Option<Op>

    constructor (op: Option<Op>)
      ensures this.op == op
    {
      this.op := op;
      prev, next := null, null;
    }
  }

  function After(i: nat, n: nat): nat
    requires i < n
  {
    if i + 1 < n then i + 1 else 0
  }

  /** Each node of the ring points to its neighbours, and no node occurs twice. */
  ghost predicate Linked(ring: seq<Node>)
    reads ring
  {
    && (forall i :: 0 <= i < |ring| ==> ring[i].next == ring[After(i, |ring|)] && ring[After(i, |ring|)].prev == ring[i])
    && Distinct(ring)
  }

  ghost predicate Distinct(ring: seq<Node>) {
    forall i, j :: 0 <= i < j < |ring| ==> ring[i] != ring[j]
  }

  class List {
    const head: Node
    ghost var spine: seq<Node>

    ghost predicate Valid()
      reads this, head, spine
    {
      Linked([head] + spine) && forall i :: 0 <= i < |spine| ==> spine[i].op.Some?
    }

    constructor ()
      ensures Valid() && spine == [] && fresh(head)
    {
      head := new Node(None);
      spine := [];
      new;
      head.prev, head.next := head, head;
    }

    /** Links a node in front of the head, which is behind the last one. */
    method Add(item: Node)
      requires Valid() && item != head && item !in spine && item.op.Some?
      modifies this, head, spine, item
      ensures Valid() && spine == old(spine) + [item]
    {
      ghost var ring := [head] + spine;
      ghost var n := |ring|;
      assert ring[n - 1].next == ring[After(n - 1, n)];
      var last := head.prev;
      assert last == ring[n - 1];
      item.next := head;
      item.prev := last;
      last.next := item;
      head.prev := item;
      spine := spine + [item];
      assert [head] + spine == ring + [item];
    }

    /** Unlinks the node at place `k`. */
    method Delete(item: Node, ghost k: nat)
      requires Valid() && k < |spine| && spine[k] == item
      modifies this, head, spine
      ensures Valid() && spine == old(spine[..k] + spine[k + 1..])
    {
      hide Linked;
      ghost var ring := [head] + spine;
      assert ring[k + 1] == item;
      LinkedAt(ring, k);
      LinkedAt(ring, k + 1);
      Unlink(item, ring, k);
      spine := spine[..k] + spine[k + 1..];
      assert [head] + spine == ring[..k + 1] + ring[k + 2..];
    }
  }

  /** Makes the neighbours of a node in a ring point to each other. */
  method Unlink(item: Node, ghost ring: seq<Node>, ghost k: nat)
    requires Linked(ring) && k + 1 < |ring| && ring[k + 1] == item
    requires item.prev == ring[k] && item.next == ring[After(k + 1, |ring|)]
    modifies ring
    ensures Linked(ring[..k + 1] + ring[k + 2..])
  {
    hide Distinct;
    DistinctRing(ring);
    var before, behind := item.prev, item.next;
    SetNext(before, behind, ring, k);
    SetPrev(behind, before, ring, After(k + 1, |ring|));
    AfterOnce(|ring|);
    RingWithout(ring, k);
  }

  method SetNext(node: Node, next: Node, ghost ring: seq<Node>, ghost k: nat)
    requires Distinct(ring) && k < |ring| && ring[k] == node
    modifies node`next
    ensures node.next == next
    ensures forall i :: 0 <= i < |ring| && i != k ==> ring[i].next == old(ring[i].next)
  {
    node.next := next;
  }

  method SetPrev(node: Node, prev: Node, ghost ring: seq<Node>, ghost k: nat)
    requires Distinct(ring) && k < |ring| && ring[k] == node
    modifies node`prev
    ensures node.prev == prev
    ensures forall i :: 0 <= i < |ring| && i != k ==> ring[i].prev == old(ring[i].prev)
  {
    node.prev := prev;
  }

  lemma AfterOnce(n: nat)
    ensures forall i, j :: 0 <= i < n && 0 <= j < n && i != j ==> After(i, n) != After(j, n)
  {
  }

  lemma DistinctRing(ring: seq<Node>)
    requires Linked(ring)
    ensures Distinct(ring)
  {
  }

  /** The links of a ring after one node was bypassed. */
  lemma RingWithout(ring: seq<Node>, k: nat)
    requires Distinct(ring) && k + 1 < |ring|
    requires ring[k].next == ring[After(k + 1, |ring|)] && ring[After(k + 1, |ring|)].prev == ring[k]
    requires forall i :: 0 <= i < |ring| && i != k ==> ring[i].next == ring[After(i, |ring|)]
    requires forall i :: 0 <= i < |ring| && i != k + 1 ==> ring[After(i, |ring|)].prev == ring[i]
    ensures Linked(ring[..k + 1] + ring[k + 2..])
  {
    hide Distinct;
    var rest, n := ring[..k + 1] + ring[k + 2..], |ring|;
    DistinctWithout(ring, k + 1);
    forall i | 0 <= i < n - 1
      ensures rest[i].next == rest[After(i, n - 1)] && rest[After(i, n - 1)].prev == rest[i]
    {
      var j := if i <= k then i else i + 1;
      assert ring[j] == rest[i];
    }
  }

  lemma LinkedAt(ring: seq<Node>, i: nat)
    requires Linked(ring) && i < |ring|
    ensures ring[i].next == ring[After(i, |ring|)] && ring[After(i, |ring|)].prev == ring[i]
  {
    hide Distinct;
  }

  lemma DistinctWithout(ring: seq<Node>, k: nat)
    requires Distinct(ring) && k < |ring|
    ensures Distinct(ring[..k] + ring[k + 1..])
  {
    var rest := ring[..k] + ring[k + 1..];
    assert forall i :: 0 <= i < |rest| ==> rest[i] == ring[if i < k then i else i + 1];
  }

  // ---- Execution ----

  datatype Step = Do(op: Op) | EraseAll

  datatype Kind = Erases | Programs | Reads | Patches

  function KindOf(op: Op): Kind {
    match op
    case Erase(_) => Erases
    case Program(_, _) => Programs
    case Read(_, _) => Reads
    case Patch(_, _) => Patches
  }

  /** Programs without a file and patches of anything but the disk are passed over. */
  predicate Runs(op: Op) {
    match op
    case Erase(_) => true
    case Program(_, filename) => filename.Some?
    case Read(_, _) => true
    case Patch(_, filename) => filename == Some("DISK")
  }

  function OpsOf(spine: seq<Node>): seq<Op> {
    if spine == [] then []
    else if spine[|spine| - 1].op.Some? then OpsOf(spine[..|spine| - 1]) + [spine[|spine| - 1].op.value]
    else OpsOf(spine[..|spine| - 1])
  }

  function DocumentOrder(ops: seq<Op>): seq<Step> {
    if ops == [] then [] else
      var op := ops[|ops| - 1];
      DocumentOrder(ops[..|ops| - 1]) + (if Runs(op) then [Do(op)] else [])
  }

  function Phase(ops: seq<Op>, kind: Kind): seq<Step> {
    if ops == [] then [] else
      var op := ops[|ops| - 1];
      Phase(ops[..|ops| - 1], kind) + (if Runs(op) && KindOf(op) == kind then [Do(op)] else [])
  }

  function Phased(ops: seq<Op>): seq<Step> {
    Phase(ops, Reads) + [EraseAll] + Phase(ops, Programs) + Phase(ops, Patches)
  }

  /** The answers behind the first `n`. */
  function Beyond(answers: seq<bool>, n: nat): seq<bool> {
    if n <= |answers| then answers[n..] else []
  }

  /** None of the first `n` steps is refused. */
  ghost predicate Granted(answers: seq<bool>, n: nat) {
    forall i :: 0 <= i < n && i < |answers| ==> answers[i]
  }

  /** The steps were done in order up to the first refusal, and all of them when there was none. */
  ghost predicate RunsUntil(all: seq<Step>, answers: seq<bool>, done: seq<Step>, ok: bool) {
    && done <= all && Granted(answers, |done|)
    && if ok then done == all else |done| < |all| && |done| < |answers| && !answers[|done|]
  }

  /** So a run succeeds exactly when none of its steps is refused. */
  lemma RunSucceeds(all: seq<Step>, answers: seq<bool>, done: seq<Step>, ok: bool)
    requires RunsUntil(all, answers, done, ok)
    ensures ok <==> Granted(answers, |all|)
  {
  }

  /** The device and the files, which answer one step after the other, and grant it behind the last answer. */
  class Device {
    var answers: seq<bool>

    constructor (answers: seq<bool>)
      ensures this.answers == answers
    {
      this.answers := answers;
    }

    method Apply(step: Step) returns (ok: bool)
      modifies this
      ensures ok == (old(answers) == [] || old(answers)[0]) && answers == Later(old(answers))
    {
      ok := answers == [] || answers[0];
      answers := Later(answers);
    }
  }

  lemma StepGranted(all: seq<Step>, answers: seq<bool>, done: seq<Step>, step: Step, granted: bool)
    requires done + [step] <= all && Granted(answers, |done|)
    requires granted == (Beyond(answers, |done|) == [] || Beyond(answers, |done|)[0])
    ensures Later(Beyond(answers, |done|)) == Beyond(answers, |done + [step]|)
    ensures if granted then Granted(answers, |done + [step]|) else RunsUntil(all, answers, done, false)
  {
  }

  lemma NothingGranted(answers: seq<bool>)
    ensures Granted(answers, 0) && Beyond(answers, 0) == answers
  {
  }

  /** Runs one behind the other are one run. */
  lemma RunsJoin(a: seq<Step>, b: seq<Step>, answers: seq<bool>, done: seq<Step>, ok: bool)
    requires Granted(answers, |a|) && RunsUntil(b, Beyond(answers, |a|), done, ok)
    ensures RunsUntil(a + b, answers, a + done, ok) && Beyond(answers, |a + b|) == Beyond(Beyond(answers, |a|), |b|)
  {
    var rest := Beyond(answers, |a|);
    assert forall i :: 0 <= i < |rest| ==> rest[i] == answers[|a| + i];
    forall i | 0 <= i < |a + done| && i < |answers|
      ensures answers[i]
    {
      if i >= |a| {
        assert rest[i - |a|] == answers[i];
      }
    }
  }

  /** A run that was stopped did nothing of what follows. */
  lemma RunStopped(a: seq<Step>, b: seq<Step>, answers: seq<bool>, done: seq<Step>)
    requires RunsUntil(a, answers, done, false)
    ensures RunsUntil(a + b, answers, done, false)
  {
  }

  lemma NextInRing(list: List, i: nat)
    requires list.Valid() && i <= |list.spine|
    ensures ([list.head] + list.spine)[i].next == if i < |list.spine| then list.spine[i] else list.head
    ensures i < |list.spine| ==> list.spine[i] != list.head && list.spine[i].op.Some?
  {
    var ring := [list.head] + list.spine;
    LinkedAt(ring, i);
    if i < |list.spine| {
      assert ring[i + 1] == list.spine[i] && ring[0] != ring[i + 1];
    }
  }

  lemma OneMore(spine: seq<Node>, i: nat)
    requires i < |spine| && spine[i].op.Some?
    ensures OpsOf(spine[..i + 1]) == OpsOf(spine[..i]) + [spine[i].op.value]
  {
    assert spine[..i + 1][..i] == spine[..i];
  }

  lemma OrderNext(ops: seq<Op>, op: Op)
    ensures DocumentOrder(ops + [op]) == DocumentOrder(ops) + if Runs(op) then [Do(op)] else []
  {
    assert (ops + [op])[..|ops|] == ops;
  }

  lemma PhaseNext(ops: seq<Op>, op: Op, kind: Kind)
    ensures Phase(ops + [op], kind) == Phase(ops, kind) + Extra(op, kind)
  {
    assert (ops + [op])[..|ops|] == ops;
  }

  /** Later operations only add steps behind those of earlier ones. */
  lemma {:induction false} OrderExtends(spine: seq<Node>, i: nat, kind: Kind)
    requires i <= |spine|
    ensures DocumentOrder(OpsOf(spine[..i])) <= DocumentOrder(OpsOf(spine))
    ensures Phase(OpsOf(spine[..i]), kind) <= Phase(OpsOf(spine), kind)
    decreases |spine| - i
  {
    hide DocumentOrder, Phase, Runs, KindOf, Extra;
    if i == |spine| {
      assert spine[..i] == spine;
    } else {
      OrderExtends(spine, i + 1, kind);
      assert spine[..i + 1][..i] == spine[..i];
      if spine[i].op.Some? {
        OneMore(spine, i);
        OrderNext(OpsOf(spine[..i]), spine[i].op.value);
        PhaseNext(OpsOf(spine[..i]), spine[i].op.value, kind);
      }
    }
  }

  /** Runs the queue in document order up to the first refusal. */
  method Execute(list: List, device: Device) returns (ok: bool, done: seq<Step>)
    requires list.Valid()
    modifies device
    ensures RunsUntil(DocumentOrder(OpsOf(list.spine)), old(device.answers), done, ok)
    ensures ok <==> Granted(old(device.answers), |DocumentOrder(OpsOf(list.spine))|)
    ensures ok ==> device.answers == Beyond(old(device.answers), |done|)
    ensures forall op :: Do(op) in done ==>
      op in OpsOf(list.spine) && (op.Program? ==> op.filename.Some?) && (op.Patch? ==> op.filename == Some("DISK"))
    ensures ok ==>
      forall op :: op in OpsOf(list.spine) && (op.Program? ==> op.filename.Some?) && (op.Patch? ==> op.filename == Some("DISK")) ==> Do(op) in done
    ensures EraseAll !in done
  {
    hide DocumentOrder, OpsOf, Linked, Runs, Granted, Beyond;
    ghost var answers, all := device.answers, DocumentOrder(OpsOf(list.spine));
    done := [];
    ghost var i := 0;
    NextInRing(list, 0);
    NoSteps(list.spine, Erases);
    NothingGranted(answers);
    var node := list.head.next;
    while node != list.head
      invariant i <= |list.spine| && node == (if i < |list.spine| then list.spine[i] else list.head)
      invariant done == DocumentOrder(OpsOf(list.spine[..i])) && Granted(answers, |done|) && device.answers == Beyond(answers, |done|)
      decreases |list.spine| - i
    {
      NextInRing(list, i);
      NextInRing(list, i + 1);
      OneMore(list.spine, i);
      OrderNext(OpsOf(list.spine[..i]), node.op.value);
      OrderExtends(list.spine, i + 1, Erases);
      var op := node.op.value;
      if Runs(op) {
        ok := device.Apply(Do(op));
        StepGranted(all, answers, done, Do(op), ok);
        if !ok {
          OrderRun(OpsOf(list.spine), answers, done, false);
          return;
        }
        done := done + [Do(op)];
      }
      i := i + 1;
      node := node.next;
    }
    NextInRing(list, i);
    assert list.spine[..|list.spine|] == list.spine;
    ok := true;
    OrderRun(OpsOf(list.spine), answers, done, true);
  }

  lemma NoSteps(spine: seq<Node>, kind: Kind)
    ensures DocumentOrder(OpsOf(spine[..0])) == [] && Phase(OpsOf(spine[..0]), kind) == []
  {
  }

  method ExecutePhase(list: List, kind: Kind, device: Device) returns (ok: bool, done: seq<Step>)
    requires list.Valid()
    modifies device
    ensures RunsUntil(Phase(OpsOf(list.spine), kind), old(device.answers), done, ok)
    ensures ok <==> Granted(old(device.answers), |Phase(OpsOf(list.spine), kind)|)
    ensures ok ==> device.answers == Beyond(old(device.answers), |done|)
  {
    hide Phase, OpsOf, Linked, Runs, KindOf, Granted, Beyond;
    ghost var answers, all := device.answers, Phase(OpsOf(list.spine), kind);
    done := [];
    ghost var i := 0;
    NextInRing(list, 0);
    NoSteps(list.spine, kind);
    NothingGranted(answers);
    var node := list.head.next;
    while node != list.head
      invariant i <= |list.spine| && node == (if i < |list.spine| then list.spine[i] else list.head)
      invariant done == Phase(OpsOf(list.spine[..i]), kind) && Granted(answers, |done|) && device.answers == Beyond(answers, |done|)
      decreases |list.spine| - i
    {
      NextInRing(list, i);
      NextInRing(list, i + 1);
      OneMore(list.spine, i);
      PhaseNext(OpsOf(list.spine[..i]), node.op.value, kind);
      OrderExtends(list.spine, i + 1, kind);
      var op := node.op.value;
      if KindOf(op) == kind && Runs(op) {
        ok := device.Apply(Do(op));
        StepGranted(all, answers, done, Do(op), ok);
        if !ok {
          RunSucceeds(all, answers, done, false);
          return;
        }
        done := done + [Do(op)];
      }
      i := i + 1;
      node := node.next;
    }
    NextInRing(list, i);
    assert list.spine[..|list.spine|] == list.spine;
    ok := true;
    RunSucceeds(all, answers, done, true);
  }

  /** Reads, then one erasure of everything, then programs, then disk patches, up to the first refusal. */
  method ExecutePhased(list: List, device: Device) returns (ok: bool, done: seq<Step>)
    requires list.Valid()
    modifies device
    ensures RunsUntil(Phased(OpsOf(list.spine)), old(device.answers), done, ok)
    ensures ok <==> Granted(old(device.answers), |Phased(OpsOf(list.spine))|)
    ensures forall i, j :: 0 <= i < j < |done| ==> Rank(done[i]) <= Rank(done[j])
    ensures forall op :: Do(op) in done ==>
      op in OpsOf(list.spine) && !op.Erase? && (op.Program? ==> op.filename.Some?) && (op.Patch? ==> op.filename == Some("DISK"))
    ensures ok ==>
      forall op :: op in OpsOf(list.spine) && !op.Erase? && (op.Program? ==> op.filename.Some?) && (op.Patch? ==> op.filename == Some("DISK")) ==> Do(op) in done
    ensures multiset(done)[EraseAll] == if EraseAll in done then 1 else 0
    ensures ok ==> EraseAll in done
    ensures forall step :: step in done && Rank(step) >= 1 ==> EraseAll in done
    ensures EraseAll in done ==> forall op :: op in OpsOf(list.spine) && op.Read? ==> Do(op) in done
  {
    hide Phased, RunsUntil, Rank, OpsOf;
    ghost var answers := device.answers;
    ok, done := RunPhases(list, device);
    PhasedRun(OpsOf(list.spine), answers, done, ok);
  }

  /** The four phases, one behind the other. */
  method RunPhases(list: List, device: Device) returns (ok: bool, done: seq<Step>)
    requires list.Valid()
    modifies device
    ensures RunsUntil(Phased(OpsOf(list.spine)), old(device.answers), done, ok)
  {
    hide Phase, OpsOf, Linked, Granted, Beyond, RunsUntil;
    ghost var ops, answers := OpsOf(list.spine), device.answers;
    ghost var first, second, third := Phase(ops, Reads), Phase(ops, Programs), Phase(ops, Patches);
    ok, done := ExecutePhase(list, Reads, device);
    if !ok {
      RunStopped(first, [EraseAll], answers, done);
      RunStopped(first + [EraseAll], second, answers, done);
      RunStopped(first + [EraseAll] + second, third, answers, done);
      return;
    }
    AllDone(first, answers, done);
    ok := device.Apply(EraseAll);
    OneStep(EraseAll, Beyond(answers, |first|), ok);
    RunsJoin(first, [EraseAll], answers, if ok then [EraseAll] else [], ok);
    if !ok {
      assert first + [] == done;
      RunStopped(first + [EraseAll], second, answers, done);
      RunStopped(first + [EraseAll] + second, third, answers, done);
      return;
    }
    done := done + [EraseAll];
    AllDone(first + [EraseAll], answers, done);
    var more;
    ok, more := ExecutePhase(list, Programs, device);
    RunsJoin(first + [EraseAll], second, answers, more, ok);
    done := done + more;
    if !ok {
      RunStopped(first + [EraseAll] + second, third, answers, done);
      return;
    }
    AllDone(first + [EraseAll] + second, answers, done);
    ok, more := ExecutePhase(list, Patches, device);
    RunsJoin(first + [EraseAll] + second, third, answers, more, ok);
    done := done + more;
  }

  // ---- What is done, and in which order ----

  /** Reads, the erasure of everything, programs, patches. */
  function Rank(step: Step): nat {
    match step
    case Do(Read(_, _)) => 0
    case EraseAll => 1
    case Do(Program(_, _)) => 2
    case Do(Patch(_, _)) => 3
    case Do(Erase(_)) => 4
  }

  lemma {:induction false} OrderTakes(ops: seq<Op>)
    ensures forall op :: Do(op) in DocumentOrder(ops) <==>
      op in ops && (op.Program? ==> op.filename.Some?) && (op.Patch? ==> op.filename == Some("DISK"))
    ensures EraseAll !in DocumentOrder(ops)
  {
    if ops != [] {
      OrderTakes(ops[..|ops| - 1]);
      assert ops == ops[..|ops| - 1] + [ops[|ops| - 1]];
    }
  }

  /** Every operation that is not passed over is run as often as it is queued. */
  lemma {:induction false} OrderCounts(ops: seq<Op>, op: Op)
    ensures multiset(DocumentOrder(ops))[Do(op)] ==
      if (op.Program? ==> op.filename.Some?) && (op.Patch? ==> op.filename == Some("DISK")) then multiset(ops)[op] else 0
  {
    if ops != [] {
      OrderCounts(ops[..|ops| - 1], op);
      assert ops == ops[..|ops| - 1] + [ops[|ops| - 1]];
    }
  }

  /** The operations run stand at ascending places of the document. */
  lemma {:induction false} DocumentPlaces(ops: seq<Op>) returns (at: seq<nat>)
    ensures |at| == |DocumentOrder(ops)|
    ensures forall i :: 0 <= i < |at| ==> at[i] < |ops| && DocumentOrder(ops)[i] == Do(ops[at[i]])
    ensures forall i, j :: 0 <= i < j < |at| ==> at[i] < at[j]
  {
    if ops == [] {
      at := [];
    } else {
      var n := |ops| - 1;
      at := DocumentPlaces(ops[..n]);
      if Runs(ops[n]) {
        at := at + [n];
      }
    }
  }

  lemma OrderRun(ops: seq<Op>, answers: seq<bool>, done: seq<Step>, ok: bool)
    requires RunsUntil(DocumentOrder(ops), answers, done, ok)
    ensures ok <==> Granted(answers, |DocumentOrder(ops)|)
    ensures forall op :: Do(op) in done ==>
      op in ops && (op.Program? ==> op.filename.Some?) && (op.Patch? ==> op.filename == Some("DISK"))
    ensures ok ==>
      forall op :: op in ops && (op.Program? ==> op.filename.Some?) && (op.Patch? ==> op.filename == Some("DISK")) ==> Do(op) in done
    ensures EraseAll !in done
  {
    hide DocumentOrder;
    RunSucceeds(DocumentOrder(ops), answers, done, ok);
    OrderTakes(ops);
  }

  /** What one phase takes. */
  lemma {:induction false} PhaseTakes(ops: seq<Op>, kind: Kind)
    ensures forall op :: Do(op) in Phase(ops, kind) <==>
      op in ops && KindOf(op) == kind && (op.Program? ==> op.filename.Some?) && (op.Patch? ==> op.filename == Some("DISK"))
    ensures EraseAll !in Phase(ops, kind)
  {
    if ops != [] {
      PhaseTakes(ops[..|ops| - 1], kind);
      assert ops == ops[..|ops| - 1] + [ops[|ops| - 1]];
    }
  }

  lemma PhasedTakes(ops: seq<Op>)
    ensures forall op :: Do(op) in Phased(ops) <==>
      op in ops && !op.Erase? && (op.Program? ==> op.filename.Some?) && (op.Patch? ==> op.filename == Some("DISK"))
  {
    hide Phase;
    PhaseTakes(ops, Reads);
    PhaseTakes(ops, Programs);
    PhaseTakes(ops, Patches);
  }

  /** The steps in front of the only erasure are all the reads; those behind are programs, then patches. */
  lemma PhasedShape(ops: seq<Op>) returns (k: nat)
    ensures k < |Phased(ops)| && Phased(ops)[k] == EraseAll
    ensures forall i :: 0 <= i < |Phased(ops)| ==> (Rank(Phased(ops)[i]) == 0 <==> i < k)
    ensures forall i :: 0 <= i < |Phased(ops)| ==> (Phased(ops)[i] == EraseAll <==> i == k)
    ensures forall i, j :: 0 <= i < j < |Phased(ops)| ==> Rank(Phased(ops)[i]) <= Rank(Phased(ops)[j])
  {
    var first, second, third := Phase(ops, Reads), Phase(ops, Programs), Phase(ops, Patches);
    PhaseRanked(ops, Reads);
    PhaseRanked(ops, Programs);
    PhaseRanked(ops, Patches);
    hide Phase;
    k := |first|;
    var all := Phased(ops);
    assert forall i :: 0 <= i < k ==> all[i] == first[i];
    assert forall i :: 0 <= i < |second| ==> all[k + 1 + i] == second[i];
    assert forall i :: k < i <= k + |second| ==> all[i] == second[i - k - 1];
    assert forall i :: k + |second| < i < |all| ==> all[i] == third[i - k - |second| - 1];
  }

  lemma PhaseRanked(ops: seq<Op>, kind: Kind)
    ensures var rank := if kind == Reads then 0 else if kind == Programs then 2 else if kind == Patches then 3 else 4;
      forall i :: 0 <= i < |Phase(ops, kind)| ==> Rank(Phase(ops, kind)[i]) == rank
  {
    hide Phase;
    PhaseTakes(ops, kind);
    forall i | 0 <= i < |Phase(ops, kind)|
      ensures Phase(ops, kind)[i].Do? && KindOf(Phase(ops, kind)[i].op) == kind
    {
      var step := Phase(ops, kind)[i];
      assert step in Phase(ops, kind);
      assert step == EraseAll || step == Do(step.op);
    }
  }

  /** A run of the phases: nothing is erased before every read is done, and nothing written before the erasure. */
  lemma PhasedRun(ops: seq<Op>, answers: seq<bool>, done: seq<Step>, ok: bool)
    requires RunsUntil(Phased(ops), answers, done, ok)
    ensures ok <==> Granted(answers, |Phased(ops)|)
    ensures forall i, j :: 0 <= i < j < |done| ==> Rank(done[i]) <= Rank(done[j])
    ensures forall op :: Do(op) in done ==>
      op in ops && !op.Erase? && (op.Program? ==> op.filename.Some?) && (op.Patch? ==> op.filename == Some("DISK"))
    ensures ok ==>
      forall op :: op in ops && !op.Erase? && (op.Program? ==> op.filename.Some?) && (op.Patch? ==> op.filename == Some("DISK")) ==> Do(op) in done
    ensures multiset(done)[EraseAll] == if EraseAll in done then 1 else 0
    ensures ok ==> EraseAll in done
    ensures forall step :: step in done && Rank(step) >= 1 ==> EraseAll in done
    ensures EraseAll in done ==> forall op :: op in ops && op.Read? ==> Do(op) in done
  {
    hide Phased, Rank;
    var all := Phased(ops);
    RunSucceeds(all, answers, done, ok);
    PhasedTakes(ops);
    var k := PhasedShape(ops);
    assert done == all[..|done|];
    if |done| <= k {
      NotThere(done);
    } else {
      Once(done, k);
      ReadsInFront(ops, all, done, k);
    }
  }

  lemma NotThere(steps: seq<Step>)
    requires forall i :: 0 <= i < |steps| ==> steps[i] != EraseAll
    ensures EraseAll !in steps && multiset(steps)[EraseAll] == 0
  {
    assert EraseAll !in steps;
  }

  lemma Once(steps: seq<Step>, k: nat)
    requires k < |steps| && forall i :: 0 <= i < |steps| ==> (steps[i] == EraseAll <==> i == k)
    ensures EraseAll in steps && multiset(steps)[EraseAll] == 1
  {
    assert steps == steps[..k] + [steps[k]] + steps[k + 1..];
    NotThere(steps[..k]);
    NotThere(steps[k + 1..]);
  }

  lemma ReadsInFront(ops: seq<Op>, all: seq<Step>, done: seq<Step>, k: nat)
    requires k <= |done| && done <= all
    requires forall i :: 0 <= i < |all| ==> (Rank(all[i]) == 0 <==> i < k)
    requires forall op :: Do(op) in all <==>
      op in ops && !op.Erase? && (op.Program? ==> op.filename.Some?) && (op.Patch? ==> op.filename == Some("DISK"))
    ensures forall op :: op in ops && op.Read? ==> Do(op) in done
  {
    forall op | op in ops && op.Read?
      ensures Do(op) in done
    {
      assert Do(op) in all;
      var i :| 0 <= i < |all| && all[i] == Do(op);
      assert Rank(all[i]) == 0;
      assert done[i] == all[i];
    }
  }

  lemma AllDone(all: seq<Step>, answers: seq<bool>, done: seq<Step>)
    requires RunsUntil(all, answers, done, true)
    ensures done == all && Granted(answers, |all|)
  {
  }

  lemma OneStep(step: Step, answers: seq<bool>, granted: bool)
    requires granted == (answers == [] || answers[0])
    ensures RunsUntil([step], answers, if granted then [step] else [], granted) && Later(answers) == Beyond(answers, 1)
  {
  }

  function Extra(op: Op, kind: Kind): seq<Step> {
    if Runs(op) && KindOf(op) == kind then [Do(op)] else []
  }

  lemma {:induction false} KindsPartition(ops: seq<Op>)
    ensures multiset(DocumentOrder(ops))
      == multiset(Phase(ops, Erases)) + multiset(Phase(ops, Reads)) + multiset(Phase(ops, Programs)) + multiset(Phase(ops, Patches))
  {
    hide DocumentOrder, Phase, Runs, KindOf, Extra;
    if ops == [] {
      NothingQueued();
    } else {
      var init, op := ops[..|ops| - 1], ops[|ops| - 1];
      KindsPartition(init);
      assert ops == init + [op];
      OrderNext(init, op);
      PhaseNext(init, op, Erases);
      PhaseNext(init, op, Reads);
      PhaseNext(init, op, Programs);
      PhaseNext(init, op, Patches);
      OneKind(op);
      AddUp(DocumentOrder(init), Phase(init, Erases), Phase(init, Reads), Phase(init, Programs), Phase(init, Patches),
            if Runs(op) then [Do(op)] else [], Extra(op, Erases), Extra(op, Reads), Extra(op, Programs), Extra(op, Patches));
    }
  }

  lemma NothingQueued()
    ensures DocumentOrder([]) == [] && forall kind :: Phase([], kind) == []
  {
  }

  lemma AddUp<T>(d: seq<T>, p: seq<T>, q: seq<T>, r: seq<T>, s: seq<T>, e: seq<T>, f: seq<T>, g: seq<T>, h: seq<T>, i: seq<T>)
    requires multiset(d) == multiset(p) + multiset(q) + multiset(r) + multiset(s)
    requires multiset(e) == multiset(f) + multiset(g) + multiset(h) + multiset(i)
    ensures multiset(d + e) == multiset(p + f) + multiset(q + g) + multiset(r + h) + multiset(s + i)
  {
  }

  lemma OneKind(op: Op)
    ensures multiset(if Runs(op) then [Do(op)] else [])
      == multiset(Extra(op, Erases)) + multiset(Extra(op, Reads)) + multiset(Extra(op, Programs)) + multiset(Extra(op, Patches))
  {
  }

  /** The phases reorder the operations other than erasures: nothing is lost or run twice. */
  lemma PhasedReorders(ops: seq<Op>)
    ensures multiset(DocumentOrder(ops)) + multiset{EraseAll} == multiset(Phased(ops)) + multiset(Phase(ops, Erases))
  {
    hide DocumentOrder, Phase;
    KindsPartition(ops);
    assert multiset([EraseAll]) == multiset{EraseAll};
  }

  /** Within one kind, the phases keep document order. */
  function OfKind(steps: seq<Step>, kind: Kind): seq<Step> {
    if steps == [] then [] else
      var last := steps[|steps| - 1];
      OfKind(steps[..|steps| - 1], kind) + (if last.Do? && KindOf(last.op) == kind then [last] else [])
  }

  lemma {:induction false} OfKindJoin(a: seq<Step>, b: seq<Step>, kind: Kind)
    ensures OfKind(a + b, kind) == OfKind(a, kind) + OfKind(b, kind)
    decreases |b|
  {
    if b == [] {
      assert a + b == a;
    } else {
      OfKindJoin(a, b[..|b| - 1], kind);
      assert (a + b)[..|a + b| - 1] == a + b[..|b| - 1];
    }
  }

  lemma {:induction false} PhaseOfKind(ops: seq<Op>, phase: Kind, kind: Kind)
    ensures OfKind(Phase(ops, phase), kind) == if phase == kind then Phase(ops, phase) else []
    ensures OfKind(DocumentOrder(ops), kind) == Phase(ops, kind)
  {
    hide OfKind, Phase, DocumentOrder;
    if ops == [] {
      NothingQueued();
      NothingOfKind(kind);
    } else {
      var init, op := ops[..|ops| - 1], ops[|ops| - 1];
      assert ops == init + [op];
      PhaseOfKind(init, phase, kind);
      OrderNext(init, op);
      PhaseNext(init, op, phase);
      PhaseNext(init, op, kind);
      OfKindJoin(Phase(init, phase), Extra(op, phase), kind);
      OfKindJoin(DocumentOrder(init), if Runs(op) then [Do(op)] else [], kind);
      OneOfKind(op, kind);
      NothingOfKind(kind);
      assert Phase(init, kind) + [] == Phase(init, kind);
    }
  }

  lemma NothingOfKind(kind: Kind)
    ensures OfKind([], kind) == []
  {
  }

  lemma OneOfKind(op: Op, kind: Kind)
    ensures OfKind([Do(op)], kind) == if KindOf(op) == kind then [Do(op)] else []
  {
    assert [Do(op)][..0] == [];
  }

  /** Both ways of running the queue agree on the order of the reads, of the programs and of the patches. */
  lemma PhasedIsStable(ops: seq<Op>, kind: Kind)
    ensures kind != Erases ==> OfKind(Phased(ops), kind) == OfKind(DocumentOrder(ops), kind)
  {
    hide OfKind, Phase, DocumentOrder;
    PhaseOfKind(ops, Reads, kind);
    PhaseOfKind(ops, Programs, kind);
    PhaseOfKind(ops, Patches, kind);
    NoKind(kind);
    OfKindJoin(Phase(ops, Reads), [EraseAll], kind);
    OfKindJoin(Phase(ops, Reads) + [EraseAll], Phase(ops, Programs), kind);
    OfKindJoin(Phase(ops, Reads) + [EraseAll] + Phase(ops, Programs), Phase(ops, Patches), kind);
  }

  lemma NoKind(kind: Kind)
    ensures OfKind([EraseAll], kind) == []
  {
  }
}
