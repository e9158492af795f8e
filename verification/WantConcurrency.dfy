/** FormWant operations on any number of shared objects, run by any number of threads under the
    reader/writer locks of the source. One operation takes four steps that other threads can
    interleave with: take all locks at once, read, write, release. */
module WantConcurrency {
  import opened SortedMaps
  import opened Ipc
  import opened FormWantModel

  // Objects and threads are numbered. GetWant stands for every getter; a copy construction
  // reads its source the same way.
  datatype Op =
    | SetParam(o: nat, key: string, value: Interface)
    | RemoveParam(o: nat, key: string)
    | MergeFrom(o: nat, params: map<string, Interface>)
    | Assign(o: nat, source: nat)
    | GetWant(o: nat)
    | GetFilteredWant(o: nat)
    | ExtractHostParams(o: nat, target: Want)

  datatype Outcome = Nothing | Answer(want: Want)

  datatype Phase = Idle | Locked | Snapshot(seen: Want) | Finished(outcome: Outcome)

  // `prog` starts with the operation in progress.
  datatype Thread = Thread(prog: seq<Op>, phase: Phase, results: seq<Outcome>)

  datatype Event = Event(t: nat, op: Op, outcome: Outcome)

  // `owner` and `readers` are the two sides of each object's shared_mutex; `log` records the
  // operations in the order of their write steps.
  datatype State = State(
    heap: seq<Want>,
    owner: seq<Option<nat>>,
    readers: seq<set<nat>>,
    threads: seq<Thread>,
    log: seq<Event>)

  datatype Action = Acquire | Read | Write | Release

  predicate IsSelfAssign(op: Op) { op.Assign? && op.o == op.source }

  function Exclusive(op: Op): set<nat>
  {
    match op
    case Assign(a, b) => if a == b then {} else {a, b}
    case SetParam(o, _, _) => {o}
    case RemoveParam(o, _) => {o}
    case MergeFrom(o, _) => {o}
    case _ => {}
  }

  function Shared(op: Op): set<nat>
  {
    if op.GetWant? || op.GetFilteredWant? || op.ExtractHostParams? then {op.o} else {}
  }

  function Source(op: Op): nat { if op.Assign? then op.source else op.o }

  predicate Writes(op: Op)
  {
    op.SetParam? || op.RemoveParam? || op.MergeFrom? || (op.Assign? && op.o != op.source)
  }

  /** The value to store, for operations that write, and the answer, for those that read. */
  function Compute(op: Op, seen: Want): (Want, Outcome)
  {
    match op
    case SetParam(_, k, v) => (seen.(params := seen.params[k := v]), Nothing)
    case RemoveParam(_, k) => (seen.(params := seen.params - {k}), Nothing)
    case MergeFrom(_, ps) => (seen.(params := Merge(seen.params, ps)), Nothing)
    case Assign(_, _) => (seen, Nothing)
    case GetWant(_) => (seen, Answer(seen))
    case GetFilteredWant(_) => (seen, Answer(Filtered(seen)))
    case ExtractHostParams(_, target) => (seen, Answer(target.(params := Extract(target.params, seen.params))))
  }

  /** The operation executed alone, in one go. */
  function Exec(heap: seq<Want>, op: Op): (seq<Want>, Outcome)
    requires Names(op, |heap|)
  {
    var (w, out) := Compute(op, heap[Source(op)]);
    (if Writes(op) then heap[op.o := w] else heap, out)
  }

  /** What each operation does to its object, executed alone: all other objects stay. */
  lemma WritersAlone(heap: seq<Want>, op: Op)
    requires Names(op, |heap|)
    ensures var after := Exec(heap, op).0;
            && |after| == |heap| && (forall i :: 0 <= i < |heap| && i != op.o ==> after[i] == heap[i])
            && after[op.o].element == (if op.Assign? then heap[op.source].element else heap[op.o].element)
            && after[op.o].params ==
                 match op
                 case SetParam(o, key, value) => heap[o].params[key := value]
                 case RemoveParam(o, key) => heap[o].params - {key}
                 case MergeFrom(o, params) => heap[o].params + params
                 case Assign(_, source) => heap[source].params
                 case _ => heap[op.o].params
  {
  }

  /** What each operation answers, executed alone. */
  lemma ReadersAlone(heap: seq<Want>, op: Op)
    requires Names(op, |heap|)
    ensures var out := Exec(heap, op).1;
            match op
            case GetWant(o) => out == Answer(heap[o])
            case GetFilteredWant(o) =>
              && out.Answer? && out.want.element == heap[o].element
              && out.want.params == heap[o].params - FILTER_INTERNAL_PARAMS
            case ExtractHostParams(o, target) =>
              && out.Answer? && out.want.element == target.element
              && (forall k :: k in out.want.params <==> k in target.params || Gives(heap[o].params, k))
              && (forall k :: k in out.want.params ==>
                    out.want.params[k] == if Gives(heap[o].params, k) then heap[o].params[k] else target.params[k])
            case _ => out == Nothing
  {
    hide FILTER_INTERNAL_PARAMS;
    if op.ExtractHostParams? { ExtractLookup(op.target.params, heap[op.o].params); }
  }

  predicate Names(op: Op, n: nat) { op.o < n && Source(op) < n }

  ghost function Wants(objects: seq<FormWant>): (r: seq<Want>)
    reads objects
    ensures |r| == |objects|
  {
    seq(|objects|, i requires 0 <= i < |objects| reads objects => objects[i].want)
  }

  /** The object methods, called one at a time, do what the steps below interleave. */
  method Perform(objects: seq<FormWant>, op: Op) returns (out: Outcome)
    requires Names(op, |objects|)
    requires forall i, j :: 0 <= i < j < |objects| ==> objects[i] != objects[j]
    modifies objects[op.o]
    ensures Exec(old(Wants(objects)), op) == (Wants(objects), out)
  {
    var x := objects[op.o];
    out := Nothing;
    match op {
      case SetParam(_, k, v) => x.SetParam(k, v);
      case RemoveParam(_, k) => x.RemoveParam(k);
      case MergeFrom(_, params) => x.MergeFrom(Want("", params));
      case Assign(_, source) => x.Assign(objects[source]);
      case GetWant(_) => var w := x.GetWant(); out := Answer(w);
      case GetFilteredWant(_) => var w := x.GetFilteredWant(); out := Answer(w);
      case ExtractHostParams(_, target) => var w := x.ExtractHostParamsToWant(target); out := Answer(w);
    }
    assert Wants(objects) == Exec(old(Wants(objects)), op).0;
  }

  predicate Free(s: State, op: Op)
  {
    && (forall o :: o in Exclusive(op) && o < |s.owner| && o < |s.readers| ==> s.owner[o] == None && s.readers[o] == {})
    && (forall o :: o in Shared(op) && o < |s.owner| ==> s.owner[o] == None)
  }

  predicate Enabled(s: State, t: nat, a: Action)
  {
    && t < |s.threads| && s.threads[t].prog != []
    && match a
       case Acquire => s.threads[t].phase.Idle? && Free(s, s.threads[t].prog[0])
       case Read => s.threads[t].phase.Locked?
       case Write => s.threads[t].phase.Snapshot?
       case Release => s.threads[t].phase.Finished?
  }

  predicate Shape(s: State)
  {
    && |s.owner| == |s.readers| == |s.heap|
    && forall t, i :: 0 <= t < |s.threads| && 0 <= i < |s.threads[t].prog| ==> Names(s.threads[t].prog[i], |s.heap|)
  }

  function SetOwners(owner: seq<Option<nat>>, os: set<nat>, v: Option<nat>): (r: seq<Option<nat>>)
    ensures |r| == |owner|
    ensures forall i :: 0 <= i < |owner| ==> r[i] == if i in os then v else owner[i]
  {
    seq(|owner|, i requires 0 <= i < |owner| => if i in os then v else owner[i])
  }

  function AddReader(readers: seq<set<nat>>, os: set<nat>, t: nat): (r: seq<set<nat>>)
    ensures |r| == |readers|
    ensures forall i :: 0 <= i < |readers| ==> r[i] == if i in os then readers[i] + {t} else readers[i]
  {
    seq(|readers|, i requires 0 <= i < |readers| => if i in os then readers[i] + {t} else readers[i])
  }

  function DropReader(readers: seq<set<nat>>, os: set<nat>, t: nat): (r: seq<set<nat>>)
    ensures |r| == |readers|
    ensures forall i :: 0 <= i < |readers| ==> r[i] == if i in os then readers[i] - {t} else readers[i]
  {
    seq(|readers|, i requires 0 <= i < |readers| => if i in os then readers[i] - {t} else readers[i])
  }

  function Step(s: State, t: nat, a: Action): State
    requires Shape(s) && Enabled(s, t, a)
  {
    var th := s.threads[t];
    var op := th.prog[0];
    match a
    case Acquire =>
      s.(owner := SetOwners(s.owner, Exclusive(op), Some(t)), readers := AddReader(s.readers, Shared(op), t),
         threads := s.threads[t := th.(phase := Locked)])
    case Read =>
      s.(threads := s.threads[t := th.(phase := Snapshot(s.heap[Source(op)]))])
    case Write =>
      var (w, out) := Compute(op, th.phase.seen);
      s.(heap := if Writes(op) then s.heap[op.o := w] else s.heap,
         threads := s.threads[t := th.(phase := Finished(out))],
         log := s.log + [Event(t, op, out)])
    case Release =>
      s.(owner := SetOwners(s.owner, Exclusive(op), None), readers := DropReader(s.readers, Shared(op), t),
         threads := s.threads[t := Thread(th.prog[1..], Idle, th.results + [th.phase.outcome])])
  }

  // ---- the serial counterpart ----

  predicate LogNames(log: seq<Event>, n: nat) { forall i :: 0 <= i < |log| ==> Names(log[i].op, n) }

  /** The objects after executing the logged operations one after the other. */
  function Replay(initial: seq<Want>, log: seq<Event>): (r: seq<Want>)
    requires LogNames(log, |initial|)
    ensures |r| == |initial|
  {
    if log == [] then initial else Exec(Replay(initial, log[..|log| - 1]), log[|log| - 1].op).0
  }

  /** Every logged outcome is the one the serial execution produces at that place. */
  predicate SameOutcomes(initial: seq<Want>, log: seq<Event>)
    requires LogNames(log, |initial|)
  {
    forall i :: 0 <= i < |log| ==> log[i].outcome == Exec(Replay(initial, log[..i]), log[i].op).1
  }

  function Mine(log: seq<Event>, t: nat): seq<Event>
  {
    if log == [] then []
    else
      var rest := Mine(log[..|log| - 1], t);
      if log[|log| - 1].t == t then rest + [log[|log| - 1]] else rest
  }

  function Ops(es: seq<Event>): (r: seq<Op>)
    ensures |r| == |es|
  {
    seq(|es|, i requires 0 <= i < |es| => es[i].op)
  }

  function Outcomes(es: seq<Event>): (r: seq<Outcome>)
    ensures |r| == |es|
  {
    seq(|es|, i requires 0 <= i < |es| => es[i].outcome)
  }

  // ---- invariants ----

  predicate Holds(th: Thread) { th.prog != [] && !th.phase.Idle? }

  predicate InsideExclusive(s: State, t: nat, o: nat)
  {
    t < |s.threads| && Holds(s.threads[t]) && o in Exclusive(s.threads[t].prog[0])
  }

  predicate InsideShared(s: State, t: nat, o: nat)
  {
    t < |s.threads| && Holds(s.threads[t]) && o in Shared(s.threads[t].prog[0])
  }

  /** The locks say exactly who is inside, and a writer is alone. */
  ghost predicate LocksAgree(s: State)
    requires |s.owner| == |s.readers|
  {
    && (forall o: nat, t: nat :: o < |s.owner| ==> (s.owner[o] == Some(t) <==> InsideExclusive(s, t, o)))
    && (forall o: nat, t: nat :: o < |s.owner| ==> (t in s.readers[o] <==> InsideShared(s, t, o)))
    && (forall o: nat :: o < |s.owner| && s.owner[o].Some? ==> s.readers[o] == {})
  }

  /** A value read inside the locks is still current. */
  predicate SnapshotsCurrent(s: State)
    requires Shape(s)
  {
    forall t :: 0 <= t < |s.threads| && s.threads[t].prog != [] && s.threads[t].phase.Snapshot?
                && !IsSelfAssign(s.threads[t].prog[0])
      ==> s.threads[t].phase.seen == s.heap[Source(s.threads[t].prog[0])]
  }

  predicate InProgressHasOp(s: State)
  {
    forall t :: 0 <= t < |s.threads| && !s.threads[t].phase.Idle? ==> s.threads[t].prog != []
  }

  /** What thread t has done so far is a prefix of its program, with the logged outcomes. */
  predicate Accounted(s: State, t: nat, program: seq<Op>)
    requires t < |s.threads|
  {
    var th := s.threads[t];
    var mine := Mine(s.log, t);
    if th.phase.Finished? then
      && th.prog != []
      && program == Ops(mine) + th.prog[1..]
      && Outcomes(mine) == th.results + [th.phase.outcome]
    else
      && program == Ops(mine) + th.prog
      && Outcomes(mine) == th.results
  }

  ghost predicate Inv(s: State, initial: seq<Want>, programs: seq<seq<Op>>)
  {
    && Shape(s) && |initial| == |s.heap| && |programs| == |s.threads|
    && InProgressHasOp(s) && LocksAgree(s) && SnapshotsCurrent(s)
    && LogNames(s.log, |initial|)
    && s.heap == Replay(initial, s.log) && SameOutcomes(initial, s.log)
    && forall t :: 0 <= t < |s.threads| ==> Accounted(s, t, programs[t])
  }

  function Start(initial: seq<Want>, programs: seq<seq<Op>>): State
  {
    State(initial, seq(|initial|, _ => None), seq(|initial|, _ => {}),
          seq(|programs|, t requires 0 <= t < |programs| => Thread(programs[t], Idle, [])), [])
  }

  predicate AllNamed(initial: seq<Want>, programs: seq<seq<Op>>)
  {
    forall t, i :: 0 <= t < |programs| && 0 <= i < |programs[t]| ==> Names(programs[t][i], |initial|)
  }

  lemma StartInv(initial: seq<Want>, programs: seq<seq<Op>>)
    requires AllNamed(initial, programs)
    ensures Inv(Start(initial, programs), initial, programs)
  {
  }

  // ---- what one more log entry does ----

  lemma ReplayAppend(initial: seq<Want>, log: seq<Event>, e: Event)
    requires LogNames(log, |initial|) && Names(e.op, |initial|)
    requires SameOutcomes(initial, log)
    ensures LogNames(log + [e], |initial|)
    ensures Replay(initial, log + [e]) == Exec(Replay(initial, log), e.op).0
    ensures SameOutcomes(initial, log + [e]) <==> e.outcome == Exec(Replay(initial, log), e.op).1
  {
    var next := log + [e];
    assert next[..|log|] == log;
    forall i | 0 <= i < |log|
      ensures next[i].outcome == Exec(Replay(initial, next[..i]), next[i].op).1
    {
      assert next[..i] == log[..i];
    }
  }

  // ---- every step keeps the invariant ----

  lemma AcquireLocks(s: State, t: nat)
    requires Shape(s) && Enabled(s, t, Acquire) && LocksAgree(s)
    ensures LocksAgree(Step(s, t, Acquire))
  {
    var n := Step(s, t, Acquire);
    var op := s.threads[t].prog[0];
    forall o: nat, u: nat | o < |s.owner|
      ensures n.owner[o] == Some(u) <==> InsideExclusive(n, u, o)
      ensures u in n.readers[o] <==> InsideShared(n, u, o)
    {
      assert s.owner[o] == Some(u) <==> InsideExclusive(s, u, o);
      assert u in s.readers[o] <==> InsideShared(s, u, o);
      assert u != t ==> (InsideExclusive(n, u, o) <==> InsideExclusive(s, u, o));
      assert u != t ==> (InsideShared(n, u, o) <==> InsideShared(s, u, o));
    }
  }

  lemma ReleaseLocks(s: State, t: nat)
    requires Shape(s) && Enabled(s, t, Release) && LocksAgree(s)
    ensures LocksAgree(Step(s, t, Release))
  {
    var n := Step(s, t, Release);
    var op := s.threads[t].prog[0];
    forall o: nat, u: nat | o < |s.owner|
      ensures n.owner[o] == Some(u) <==> InsideExclusive(n, u, o)
      ensures u in n.readers[o] <==> InsideShared(n, u, o)
    {
      assert s.owner[o] == Some(u) <==> InsideExclusive(s, u, o);
      assert s.owner[o] == Some(t) <==> InsideExclusive(s, t, o);
      assert u in s.readers[o] <==> InsideShared(s, u, o);
      assert u != t ==> (InsideExclusive(n, u, o) <==> InsideExclusive(s, u, o));
      assert u != t ==> (InsideShared(n, u, o) <==> InsideShared(s, u, o));
    }
  }

  lemma InnerStepLocks(s: State, t: nat, a: Action)
    requires Shape(s) && Enabled(s, t, a) && (a.Read? || a.Write?) && LocksAgree(s)
    ensures LocksAgree(Step(s, t, a))
  {
    var n := Step(s, t, a);
    assert forall u: nat, o: nat :: InsideExclusive(n, u, o) <==> InsideExclusive(s, u, o);
    assert forall u: nat, o: nat :: InsideShared(n, u, o) <==> InsideShared(s, u, o);
  }

  /** While a thread is inside, nobody else can be about to write what it has read. */
  lemma WriterIsAlone(s: State, t: nat, u: nat)
    requires Shape(s) && LocksAgree(s) && t != u && t < |s.threads| && u < |s.threads|
    requires Holds(s.threads[t]) && Writes(s.threads[t].prog[0])
    requires Holds(s.threads[u]) && !IsSelfAssign(s.threads[u].prog[0])
    ensures s.threads[t].prog[0].o != Source(s.threads[u].prog[0])
  {
    var (p, q) := (s.threads[t].prog[0], s.threads[u].prog[0]);
    assert InsideExclusive(s, t, p.o);
    assert p.o < |s.owner| && s.owner[p.o] == Some(t);
    assert InsideExclusive(s, u, p.o) <==> s.owner[p.o] == Some(u);
    assert InsideShared(s, u, p.o) <==> u in s.readers[p.o];
  }

  /** The objects an operation needs to itself, and those it shares with other readers. */
  predicate Claims(op: Op, o: nat)
  {
    match op
    case Assign(a, b) => a != b && (o == a || o == b)
    case SetParam(a, _, _) => o == a
    case RemoveParam(a, _) => o == a
    case MergeFrom(a, _) => o == a
    case _ => false
  }

  predicate Looks(op: Op, o: nat) { (op.GetWant? || op.GetFilteredWant? || op.ExtractHostParams?) && o == op.o }

  /** A waiting operation can enter exactly when nobody inside is in its way: readers of an object
      do not exclude each other, and an assignment of an object to itself waits for nobody. */
  lemma AcquireExactlyWhen(s: State, t: nat)
    requires Shape(s) && LocksAgree(s)
    requires t < |s.threads| && s.threads[t].prog != [] && s.threads[t].phase.Idle?
    ensures Enabled(s, t, Acquire) <==> forall o: nat, u: nat ::
      o < |s.heap| && u < |s.threads| && Holds(s.threads[u]) ==>
        && !(Claims(s.threads[t].prog[0], o) && (Claims(s.threads[u].prog[0], o) || Looks(s.threads[u].prog[0], o)))
        && !(Looks(s.threads[t].prog[0], o) && Claims(s.threads[u].prog[0], o))
  {
    var op := s.threads[t].prog[0];
    forall o: nat, u: nat | o < |s.owner| && u < |s.threads| && Holds(s.threads[u])
      ensures Claims(s.threads[u].prog[0], o) <==> s.owner[o] == Some(u)
      ensures Looks(s.threads[u].prog[0], o) <==> u in s.readers[o]
    {
      assert s.owner[o] == Some(u) <==> InsideExclusive(s, u, o);
      assert u in s.readers[o] <==> InsideShared(s, u, o);
    }
    forall o: nat | o < |s.owner|
      ensures s.owner[o].Some? ==> s.owner[o].value < |s.threads| && Holds(s.threads[s.owner[o].value])
      ensures forall u :: u in s.readers[o] ==> u < |s.threads| && Holds(s.threads[u])
    {
      assert s.owner[o].Some? ==> InsideExclusive(s, s.owner[o].value, o);
      forall u | u in s.readers[o] ensures u < |s.threads| && Holds(s.threads[u]) {
        assert InsideShared(s, u, o);
      }
    }
    ClaimsAreLocks(op);
    NamedInHeap(s, t);
  }

  lemma ClaimsAreLocks(op: Op)
    ensures forall o: nat :: (o in Exclusive(op) <==> Claims(op, o)) && (o in Shared(op) <==> Looks(op, o))
  {
  }

  lemma NamedInHeap(s: State, t: nat)
    requires Shape(s) && t < |s.threads| && s.threads[t].prog != []
    ensures forall o: nat :: Claims(s.threads[t].prog[0], o) || Looks(s.threads[t].prog[0], o) ==> o < |s.heap|
  {
    assert Names(s.threads[t].prog[0], |s.heap|);
  }

  lemma StepSnapshots(s: State, t: nat, a: Action)
    requires Shape(s) && Enabled(s, t, a) && LocksAgree(s) && SnapshotsCurrent(s) && InProgressHasOp(s)
    ensures Shape(Step(s, t, a)) && InProgressHasOp(Step(s, t, a))
    ensures SnapshotsCurrent(Step(s, t, a))
  {
    var n := Step(s, t, a);
    var op := s.threads[t].prog[0];
    forall u | 0 <= u < |n.threads| && n.threads[u].prog != [] && n.threads[u].phase.Snapshot?
               && !IsSelfAssign(n.threads[u].prog[0])
      ensures n.threads[u].phase.seen == n.heap[Source(n.threads[u].prog[0])]
    {
      if u != t && a.Write? && Writes(op) {
        WriterIsAlone(s, t, u);
      }
    }
  }

  /** A write step does what executing the whole operation at that moment would do. */
  lemma WriteIsAtomic(s: State, t: nat)
    requires Shape(s) && Enabled(s, t, Write) && SnapshotsCurrent(s)
    ensures var op := s.threads[t].prog[0];
            Exec(s.heap, op) == (Step(s, t, Write).heap, Compute(op, s.threads[t].phase.seen).1)
  {
  }

  lemma StepAccounts(s: State, t: nat, a: Action, u: nat, program: seq<Op>)
    requires Shape(s) && Enabled(s, t, a) && u < |s.threads| && Accounted(s, u, program)
    ensures Accounted(Step(s, t, a), u, program)
  {
  }

  lemma StepInv(s: State, t: nat, a: Action, initial: seq<Want>, programs: seq<seq<Op>>)
    requires Inv(s, initial, programs) && Enabled(s, t, a)
    ensures Inv(Step(s, t, a), initial, programs)
  {
    hide LocksAgree, SnapshotsCurrent, Accounted, SameOutcomes, Replay, Exec, Compute;
    var n := Step(s, t, a);
    match a {
      case Acquire => AcquireLocks(s, t);
      case Release => ReleaseLocks(s, t);
      case _ => InnerStepLocks(s, t, a);
    }
    StepSnapshots(s, t, a);
    if a.Write? {
      var op := s.threads[t].prog[0];
      WriteIsAtomic(s, t);
      ReplayAppend(initial, s.log, Event(t, op, Compute(op, s.threads[t].phase.seen).1));
    }
    forall u | 0 <= u < |n.threads| ensures Accounted(n, u, programs[u]) {
      StepAccounts(s, t, a, u, programs[u]);
    }
  }

  // ---- runs ----

  function TryStep(s: State, t: nat, a: Action): State
  {
    if Shape(s) && Enabled(s, t, a) then Step(s, t, a) else s
  }

  /** A schedule names threads and actions; a choice that is not possible is skipped. */
  function Run(s: State, schedule: seq<(nat, Action)>): State
    decreases schedule
  {
    if schedule == [] then s else Run(TryStep(s, schedule[0].0, schedule[0].1), schedule[1..])
  }

  lemma {:induction false} RunInv(s: State, schedule: seq<(nat, Action)>, initial: seq<Want>, programs: seq<seq<Op>>)
    requires Inv(s, initial, programs)
    ensures Inv(Run(s, schedule), initial, programs)
    decreases schedule
  {
    hide Inv, Step, Enabled;
    if schedule == [] {
    } else {
      var (t, a) := schedule[0];
      TryStepInv(s, t, a, initial, programs);
      RunInv(TryStep(s, t, a), schedule[1..], initial, programs);
    }
  }

  lemma TryStepInv(s: State, t: nat, a: Action, initial: seq<Want>, programs: seq<seq<Op>>)
    requires Inv(s, initial, programs)
    ensures Inv(TryStep(s, t, a), initial, programs)
  {
    if Enabled(s, t, a) { StepInv(s, t, a, initial, programs); }
  }

  predicate Complete(s: State) { forall t :: 0 <= t < |s.threads| ==> s.threads[t].prog == [] }

  /** Every run, however interleaved, is explained by one serial order: executing the logged
      operations one by one from the same start gives the same objects and the same answers,
      and each thread's operations appear there in program order. Once all threads are done the
      log holds each program completely. */
  lemma EveryRunIsSerial(initial: seq<Want>, programs: seq<seq<Op>>, schedule: seq<(nat, Action)>)
    requires AllNamed(initial, programs)
    ensures var s := Run(Start(initial, programs), schedule);
            && LogNames(s.log, |initial|) && |s.threads| == |programs|
            && s.heap == Replay(initial, s.log) && SameOutcomes(initial, s.log)
            && (forall t :: 0 <= t < |programs| ==>
                  && Ops(Mine(s.log, t)) <= programs[t]
                  && s.threads[t].results <= Outcomes(Mine(s.log, t)))
            && (Complete(s) ==> forall t :: 0 <= t < |programs| ==>
                  && Ops(Mine(s.log, t)) == programs[t]
                  && s.threads[t].results == Outcomes(Mine(s.log, t)))
  {
    StartInv(initial, programs);
    RunInv(Start(initial, programs), schedule, initial, programs);
    var s := Run(Start(initial, programs), schedule);
    forall t | 0 <= t < |programs|
      ensures Ops(Mine(s.log, t)) <= programs[t] && s.threads[t].results <= Outcomes(Mine(s.log, t))
      ensures Complete(s) ==> Ops(Mine(s.log, t)) == programs[t] && s.threads[t].results == Outcomes(Mine(s.log, t))
    {
      assert Accounted(s, t, programs[t]);
      if Complete(s) {
        assert s.threads[t].prog == [];
        assert Ops(Mine(s.log, t)) + [] == Ops(Mine(s.log, t));
      }
    }
  }

  // ---- the serial order and real time ----

  lemma {:induction false} LogGrows(s: State, schedule: seq<(nat, Action)>)
    ensures s.log <= Run(s, schedule).log
    decreases schedule
  {
    hide Enabled, Compute;
    if schedule == [] {
    } else {
      LogGrows(TryStep(s, schedule[0].0, schedule[0].1), schedule[1..]);
    }
  }

  lemma {:induction false} MineGrows(log: seq<Event>, t: nat, p: nat, q: nat)
    requires p <= q <= |log|
    ensures |Mine(log[..p], t)| <= |Mine(log[..q], t)|
    decreases q
  {
    if p == q {
    } else {
      MineGrows(log, t, p, q - 1);
      assert log[..q][..q - 1] == log[..q - 1];
    }
  }

  /** The event at `p` is the i-th operation of thread `t`. */
  predicate IsOperation(log: seq<Event>, t: nat, i: nat, p: nat)
  {
    p < |log| && log[p].t == t && |Mine(log[..p], t)| == i
  }

  /** Where an operation stands, given how many of its thread's came before some point. */
  lemma OperationSide(log: seq<Event>, m: nat, t: nat, i: nat, p: nat)
    requires m <= |log| && IsOperation(log, t, i, p)
    ensures p < m <==> i < |Mine(log[..m], t)|
  {
    if p < m {
      MineGrows(log, t, p + 1, m);
      assert log[..p + 1][..p] == log[..p];
    } else {
      MineGrows(log, t, m, p);
    }
  }

  /** The serial order respects real time: an operation whose locks were released before another
      one acquired its own stands before it. `early` is the schedule up to some moment between
      the two: thread t has then released its operation i, and thread u has not yet acquired
      the locks of its operation j. */
  lemma SerialOrderRespectsRealTime(
      initial: seq<Want>, programs: seq<seq<Op>>, early: seq<(nat, Action)>, late: seq<(nat, Action)>,
      t: nat, i: nat, p: nat, u: nat, j: nat, q: nat)
    requires AllNamed(initial, programs) && t < |programs| && u < |programs|
    requires var s := Run(Start(initial, programs), early);
             && |s.threads| == |programs|
             && i < |s.threads[t].results|
             && |s.threads[u].results| + (if s.threads[u].phase.Idle? then 0 else 1) <= j
    requires var log := Run(Start(initial, programs), early + late).log;
             IsOperation(log, t, i, p) && IsOperation(log, u, j, q)
    ensures p < q
  {
    hide Mine, Step, Enabled, LocksAgree, SnapshotsCurrent, Replay, SameOutcomes;
    var s0 := Start(initial, programs);
    var s := Run(s0, early);
    var log := Run(s0, early + late).log;
    StartInv(initial, programs);
    RunInv(s0, early, initial, programs);
    RunAppend(s0, early, late);
    LogGrows(s, late);
    assert log[..|s.log|] == s.log;
    assert Accounted(s, t, programs[t]) && Accounted(s, u, programs[u]);
    OperationSide(log, |s.log|, t, i, p);
    OperationSide(log, |s.log|, u, j, q);
  }

  // ---- no deadlock ----

  /** Steps a thread still has to take. */
  function ThreadWork(th: Thread): int
  {
    4 * |th.prog| - (match th.phase case Idle => 0 case Locked => 1 case Snapshot(_) => 2 case Finished(_) => 3)
  }

  function Work(ths: seq<Thread>): int
  {
    if ths == [] then 0 else ThreadWork(ths[0]) + Work(ths[1..])
  }

  lemma {:induction false} WorkUpdate(ths: seq<Thread>, t: nat, th: Thread)
    requires t < |ths|
    ensures Work(ths[t := th]) == Work(ths) - ThreadWork(ths[t]) + ThreadWork(th)
  {
    if t == 0 {
      assert ths[t := th][1..] == ths[1..];
    } else {
      assert ths[t := th][1..] == ths[1..][t - 1 := th];
      WorkUpdate(ths[1..], t - 1, th);
    }
  }

  lemma {:induction false} WorkIsNatural(s: State, k: nat)
    requires InProgressHasOp(s) && k <= |s.threads|
    ensures Work(s.threads[k..]) >= 0
    ensures Work(s.threads[k..]) == 0 ==> forall t :: k <= t < |s.threads| ==> s.threads[t].prog == []
    decreases |s.threads| - k
  {
    if k == |s.threads| {
    } else {
      WorkIsNatural(s, k + 1);
      assert s.threads[k..][1..] == s.threads[k + 1..];
      assert ThreadWork(s.threads[k]) >= 0;
      assert s.threads[k].prog != [] ==> ThreadWork(s.threads[k]) > 0;
    }
  }

  /** Every step brings the end one step nearer, so no run is longer than the work it starts with. */
  lemma StepReducesWork(s: State, t: nat, a: Action)
    requires Shape(s) && Enabled(s, t, a)
    ensures Work(Step(s, t, a).threads) == Work(s.threads) - 1
  {
    var n := Step(s, t, a);
    WorkUpdate(s.threads, t, n.threads[t]);
  }

  /** As long as some thread has something left to do, some thread can move. */
  lemma SomeThreadCanMove(s: State, t0: nat) returns (t: nat, a: Action)
    requires Shape(s) && InProgressHasOp(s) && LocksAgree(s)
    requires t0 < |s.threads| && s.threads[t0].prog != []
    ensures Enabled(s, t, a)
  {
    if u: nat :| u < |s.threads| && Holds(s.threads[u]) {
      t := u;
      a := match s.threads[u].phase case Locked => Read case Snapshot(_) => Write case _ => Release;
    } else {
      t := t0;
      a := Acquire;
      forall o: nat | o < |s.owner| ensures s.owner[o] == None && s.readers[o] == {} {
        assert forall u: nat :: !InsideExclusive(s, u, o) && !InsideShared(s, u, o);
        assert forall u: nat :: s.owner[o] != Some(u);
        assert forall u: nat :: u !in s.readers[o];
      }
    }
  }

  lemma {:induction false} RunAppend(s: State, a: seq<(nat, Action)>, b: seq<(nat, Action)>)
    ensures Run(s, a + b) == Run(Run(s, a), b)
    decreases a
  {
    if a == [] {
      assert a + b == b;
    } else {
      assert (a + b)[1..] == a[1..] + b;
      RunAppend(TryStep(s, a[0].0, a[0].1), a[1..], b);
    }
  }

  lemma {:induction false} CanFinish(s: State, initial: seq<Want>, programs: seq<seq<Op>>)
    returns (rest: seq<(nat, Action)>)
    requires Inv(s, initial, programs)
    ensures Complete(Run(s, rest))
    ensures |rest| == Work(s.threads)
    decreases Work(s.threads)
  {
    WorkIsNatural(s, 0);
    assert s.threads[0..] == s.threads;
    if t0: nat :| t0 < |s.threads| && s.threads[t0].prog != [] {
      var t, a := SomeThreadCanMove(s, t0);
      StepReducesWork(s, t, a);
      StepInv(s, t, a, initial, programs);
      var tail := CanFinish(Step(s, t, a), initial, programs);
      rest := [(t, a)] + tail;
      assert rest[1..] == tail;
    } else {
      rest := [];
      AllDoneNoWork(s.threads);
    }
  }

  lemma {:induction false} AllDoneNoWork(ths: seq<Thread>)
    requires forall t :: 0 <= t < |ths| ==> ths[t].prog == [] && ths[t].phase.Idle?
    ensures Work(ths) == 0
  {
    if ths == [] {
    } else {
      AllDoneNoWork(ths[1..]);
    }
  }

  /** No interleaving ever gets stuck: after any schedule at all, including ones with opposite
      assignments a = b and b = a under way, the remaining work can be done in exactly as many
      steps as are left, and all threads end. */
  lemma NoRunDeadlocks(initial: seq<Want>, programs: seq<seq<Op>>, schedule: seq<(nat, Action)>)
    returns (rest: seq<(nat, Action)>)
    requires AllNamed(initial, programs)
    ensures Complete(Run(Start(initial, programs), schedule + rest))
    ensures |rest| == Work(Run(Start(initial, programs), schedule).threads)
  {
    StartInv(initial, programs);
    RunInv(Start(initial, programs), schedule, initial, programs);
    rest := CanFinish(Run(Start(initial, programs), schedule), initial, programs);
    RunAppend(Start(initial, programs), schedule, rest);
  }
}
