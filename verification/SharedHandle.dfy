/** Tasks using one printer at the same time: what the shared mutex and the `printing` flag do for their operations. */
module SharedHandle {
  import opened Wrappers
  import opened Protocol

  /** How tasks reach the printer: each directly, or all through the shared mutex. */
  datatype Handle = Owned | Shared

  /** A print sets its device's flag around itself; a status or material query gives up while the flag is set; the rest do neither. */
  datatype Kind = Print | Query | Other

  datatype Operation = Operation(kind: Kind, events: seq<Event>)

  /** The device object a task uses, whose flag it shares, and the operations it asks for. */
  datatype Program = Program(device: nat, ops: seq<Operation>)

  /** Between operations, past the flag, or holding the printer with `sent` events out. */
  datatype Phase = Idle | Ready | Active(sent: nat)

  datatype Task = Task(next: nat, phase: Phase)

  /** Event `pos` of operation `op` of a task. */
  datatype Entry = Entry(task: nat, op: nat, pos: nat)

  datatype OpId = OpId(task: nat, op: nat)

  datatype State = State(holder: Option<nat>, flags: set<nat>, tasks: seq<Task>, wire: seq<Entry>, finished: seq<OpId>)

  function Start(programs: seq<Program>): State {
    State(None, {}, seq(|programs|, i => Task(0, Idle)), [], [])
  }

  predicate Busy(programs: seq<Program>, s: State, t: nat) {
    t < |s.tasks| && t < |programs| && s.tasks[t].next < |programs[t].ops|
  }

  function Current(programs: seq<Program>, s: State, t: nat): Operation
    requires Busy(programs, s, t)
  {
    programs[t].ops[s.tasks[t].next]
  }

  /** Look at the flag: a query gives up while it is set, a print sets it. */
  function Look(programs: seq<Program>, s: State, t: nat): State
    requires Busy(programs, s, t)
  {
    var device, kind := programs[t].device, Current(programs, s, t).kind;
    if kind.Query? && device in s.flags then
      s.(tasks := s.tasks[t := Task(s.tasks[t].next + 1, Idle)])
    else
      s.(flags := if kind.Print? then s.flags + {device} else s.flags, tasks := s.tasks[t := Task(s.tasks[t].next, Ready)])
  }

  /** Take the printer: a shared one only when its mutex is free. */
  function Begin(handle: Handle, programs: seq<Program>, s: State, t: nat): State
    requires Busy(programs, s, t)
  {
    if handle.Shared? && s.holder.Some? then s else
      s.(holder := if handle.Shared? then Some(t) else s.holder, tasks := s.tasks[t := Task(s.tasks[t].next, Active(0))])
  }

  /** Issue the next event of the operation under way. */
  function Emit(programs: seq<Program>, s: State, t: nat): State
    requires Busy(programs, s, t) && s.tasks[t].phase.Active?
  {
    var next, sent := s.tasks[t].next, s.tasks[t].phase.sent;
    s.(tasks := s.tasks[t := Task(next, Active(sent + 1))], wire := s.wire + [Entry(t, next, sent)])
  }

  /** The operation is complete: let go of the printer, and clear the flag a print set. */
  function End(handle: Handle, programs: seq<Program>, s: State, t: nat): State
    requires Busy(programs, s, t)
  {
    var next := s.tasks[t].next;
    State(if handle.Shared? then None else s.holder,
          if Current(programs, s, t).kind.Print? then s.flags - {programs[t].device} else s.flags,
          s.tasks[t := Task(next + 1, Idle)], s.wire, s.finished + [OpId(t, next)])
  }

  /** What task `t` does when it is scheduled; a task waiting for the mutex does nothing. */
  function Step(handle: Handle, programs: seq<Program>, s: State, t: nat): State {
    if !Busy(programs, s, t) then s else
      match s.tasks[t].phase
      case Idle => Look(programs, s, t)
      case Ready => Begin(handle, programs, s, t)
      case Active(sent) =>
        if sent < |Current(programs, s, t).events| then Emit(programs, s, t) else End(handle, programs, s, t)
  }

  /** Any interleaving of the tasks. */
  function Run(handle: Handle, programs: seq<Program>, s: State, schedule: seq<nat>): State {
    if |schedule| == 0 then s else
      Step(handle, programs, Run(handle, programs, s, schedule[..|schedule| - 1]), schedule[|schedule| - 1])
  }

  /** Nothing of another operation lies between two events of one. */
  ghost predicate Unmixed(wire: seq<Entry>) {
    forall a, b, c :: 0 <= a < b < c < |wire| && SameOp(wire[a], wire[c]) ==> SameOp(wire[a], wire[b])
  }

  predicate SameOp(e: Entry, f: Entry) {
    e.task == f.task && e.op == f.op
  }

  // ---- What holds of every interleaving, mutex or not ------------------------------------------

  predicate Before(e: Entry, f: Entry) {
    e.op < f.op || (e.op == f.op && e.pos < f.pos)
  }

  /** An event the task has issued. */
  ghost predicate Issued(programs: seq<Program>, s: State, e: Entry)
    requires |s.tasks| == |programs|
  {
    && e.task < |programs| && e.op < |programs[e.task].ops| && e.pos < |programs[e.task].ops[e.op].events|
    && var task := s.tasks[e.task];
       e.op < task.next || (e.op == task.next && task.phase.Active? && e.pos < task.phase.sent)
  }

  ghost predicate Progress(programs: seq<Program>, s: State, t: nat)
    requires |s.tasks| == |programs| && t < |s.tasks|
  {
    s.tasks[t].phase.Active? ==>
      Busy(programs, s, t) && s.tasks[t].phase.sent <= |Current(programs, s, t).events|
  }

  /** Each task's events go out in the order its program has them, none twice. */
  ghost predicate Ordered(programs: seq<Program>, s: State) {
    && |s.tasks| == |programs|
    && (forall t: nat :: t < |s.tasks| ==> Progress(programs, s, t))
    && (forall k :: 0 <= k < |s.wire| ==> Issued(programs, s, s.wire[k]))
    && (forall k, l :: 0 <= k < l < |s.wire| && s.wire[k].task == s.wire[l].task ==> Before(s.wire[k], s.wire[l]))
  }

  lemma StepKeepsOrdered(handle: Handle, programs: seq<Program>, s: State, t: nat)
    requires Ordered(programs, s)
    ensures Ordered(programs, Step(handle, programs, s, t))
  {
    var s' := Step(handle, programs, s, t);
    forall u: nat | u < |s'.tasks| ensures Progress(programs, s', u) {
      assert Progress(programs, s, u);
    }
    forall k | 0 <= k < |s.wire| ensures Issued(programs, s', s.wire[k]) {
      assert Issued(programs, s, s.wire[k]);
    }
  }

  lemma {:induction false} RunsAreOrdered(handle: Handle, programs: seq<Program>, schedule: seq<nat>)
    ensures Ordered(programs, Run(handle, programs, Start(programs), schedule))
    decreases |schedule|
  {
    if |schedule| > 0 {
      var before := schedule[..|schedule| - 1];
      RunsAreOrdered(handle, programs, before);
      StepKeepsOrdered(handle, programs, Run(handle, programs, Start(programs), before), schedule[|schedule| - 1]);
    }
  }

  // ---- Behind the mutex ------------------------------------------------------------------------

  function Entries(id: OpId, n: nat): (r: seq<Entry>)
    ensures |r| == n
  {
    seq(n, i requires 0 <= i < n => Entry(id.task, id.op, i))
  }

  function Length(programs: seq<Program>, id: OpId): nat {
    if id.task < |programs| && id.op < |programs[id.task].ops| then |programs[id.task].ops[id.op].events| else 0
  }

  /** Whole operations one after the other. */
  function Flatten(programs: seq<Program>, ops: seq<OpId>): seq<Entry> {
    if |ops| == 0 then [] else
      Flatten(programs, ops[..|ops| - 1]) + Entries(ops[|ops| - 1], Length(programs, ops[|ops| - 1]))
  }

  /** What the holder of the mutex has written of its operation. */
  function Partial(s: State): seq<Entry> {
    if s.holder.Some? && s.holder.value < |s.tasks| && s.tasks[s.holder.value].phase.Active? then
      Entries(OpId(s.holder.value, s.tasks[s.holder.value].next), s.tasks[s.holder.value].phase.sent)
    else []
  }

  /** Only the holder is inside an operation, and the wire is whole operations followed by its part. */
  ghost predicate Serial(programs: seq<Program>, s: State) {
    && (forall t: nat :: t < |s.tasks| ==> (s.tasks[t].phase.Active? <==> s.holder == Some(t)))
    && (s.holder.Some? ==> s.holder.value < |s.tasks|)
    && s.wire == Flatten(programs, s.finished) + Partial(s)
  }

  lemma EmitKeepsSerial(programs: seq<Program>, s: State, t: nat)
    requires Ordered(programs, s) && Serial(programs, s) && s.holder == Some(t)
    ensures Busy(programs, s, t) && Serial(programs, Emit(programs, s, t))
  {
    assert Progress(programs, s, t);
    var id, n := OpId(t, s.tasks[t].next), s.tasks[t].phase.sent;
    assert Entries(id, n + 1) == Entries(id, n) + [Entry(t, id.op, n)];
  }

  lemma EndKeepsSerial(programs: seq<Program>, s: State, t: nat)
    requires Ordered(programs, s) && Serial(programs, s) && s.holder == Some(t)
    requires Busy(programs, s, t) && s.tasks[t].phase.sent >= |Current(programs, s, t).events|
    ensures Serial(programs, End(Shared, programs, s, t))
  {
    assert Progress(programs, s, t);
    var f := s.finished + [OpId(t, s.tasks[t].next)];
    assert f[..|s.finished|] == s.finished;
  }

  lemma StepKeepsSerial(programs: seq<Program>, s: State, t: nat)
    requires Ordered(programs, s) && Serial(programs, s)
    ensures Serial(programs, Step(Shared, programs, s, t))
  {
    if Busy(programs, s, t) {
      match s.tasks[t].phase
      case Idle =>
      case Ready =>
        if s.holder.None? { assert Entries(OpId(t, s.tasks[t].next), 0) == []; }
      case Active(sent) =>
        if sent < |Current(programs, s, t).events| { EmitKeepsSerial(programs, s, t); } else { EndKeepsSerial(programs, s, t); }
    }
  }

  /** Each task finishes its operations in the order it asked for them, and gives up nothing but queries. */
  ghost predicate InProgram(programs: seq<Program>, s: State) {
    && |s.tasks| == |programs|
    && (forall k :: 0 <= k < |s.finished| ==>
          s.finished[k].task < |s.tasks| && s.finished[k].op < s.tasks[s.finished[k].task].next)
    && (forall k, l :: 0 <= k < l < |s.finished| && s.finished[k].task == s.finished[l].task ==>
          s.finished[k].op < s.finished[l].op)
    && (forall t: nat, i: nat :: t < |s.tasks| && i < s.tasks[t].next ==> Settled(programs, s.finished, OpId(t, i)))
  }

  ghost predicate Settled(programs: seq<Program>, finished: seq<OpId>, id: OpId) {
    && id.task < |programs| && id.op < |programs[id.task].ops|
    && (id in finished || programs[id.task].ops[id.op].kind.Query?)
  }

  lemma EndKeepsProgram(handle: Handle, programs: seq<Program>, s: State, t: nat)
    requires InProgram(programs, s) && Busy(programs, s, t)
    ensures InProgram(programs, End(handle, programs, s, t))
  {
    var s', id := End(handle, programs, s, t), OpId(t, s.tasks[t].next);
    assert s'.finished[|s.finished|] == id;
    forall u: nat, i: nat | u < |s'.tasks| && i < s'.tasks[u].next ensures Settled(programs, s'.finished, OpId(u, i)) {
      if i < s.tasks[u].next { assert Settled(programs, s.finished, OpId(u, i)); }
    }
  }

  lemma LookKeepsProgram(programs: seq<Program>, s: State, t: nat)
    requires InProgram(programs, s) && Busy(programs, s, t)
    ensures InProgram(programs, Look(programs, s, t))
  {
    var s' := Look(programs, s, t);
    forall u: nat, i: nat | u < |s'.tasks| && i < s'.tasks[u].next ensures Settled(programs, s'.finished, OpId(u, i)) {
      if i < s.tasks[u].next { assert Settled(programs, s.finished, OpId(u, i)); }
    }
  }

  lemma SameProgress(programs: seq<Program>, s: State, s': State)
    requires InProgram(programs, s) && s'.finished == s.finished && |s'.tasks| == |s.tasks|
    requires forall u: nat :: u < |s.tasks| ==> s'.tasks[u].next == s.tasks[u].next
    ensures InProgram(programs, s')
  {
  }

  lemma StepKeepsProgram(handle: Handle, programs: seq<Program>, s: State, t: nat)
    requires InProgram(programs, s)
    ensures InProgram(programs, Step(handle, programs, s, t))
  {
    if Busy(programs, s, t) {
      match s.tasks[t].phase
      case Idle => LookKeepsProgram(programs, s, t);
      case Ready => SameProgress(programs, s, Begin(handle, programs, s, t));
      case Active(sent) =>
        if sent < |Current(programs, s, t).events| {
          SameProgress(programs, s, Emit(programs, s, t));
        } else {
          EndKeepsProgram(handle, programs, s, t);
        }
    }
  }

  /**
   Serialisation: under every interleaving of tasks behind the mutex, the wire is whole operations
   in a row and at most one unfinished at its end, each task's own in the order it asked for them.
   */
  lemma {:induction false} SharedRunsAreSerial(programs: seq<Program>, schedule: seq<nat>)
    ensures var s := Run(Shared, programs, Start(programs), schedule); Serial(programs, s) && InProgram(programs, s)
    decreases |schedule|
  {
    if |schedule| > 0 {
      var before := schedule[..|schedule| - 1];
      SharedRunsAreSerial(programs, before);
      RunsAreOrdered(Shared, programs, before);
      StepKeepsSerial(programs, Run(Shared, programs, Start(programs), before), schedule[|schedule| - 1]);
      StepKeepsProgram(Shared, programs, Run(Shared, programs, Start(programs), before), schedule[|schedule| - 1]);
    }
  }

  lemma {:induction false} FlattenPrefix(programs: seq<Program>, ops: seq<OpId>, k: nat)
    requires k < |ops|
    ensures Flatten(programs, ops[..k]) + Entries(ops[k], Length(programs, ops[k])) <= Flatten(programs, ops)
    decreases |ops|
  {
    if k < |ops| - 1 {
      FlattenPrefix(programs, ops[..|ops| - 1], k);
      assert ops[..|ops| - 1][..k] == ops[..k];
    }
  }

  /** So every finished operation has all its events in a row, with nothing of another task inside. */
  lemma NothingFallsInside(programs: seq<Program>, schedule: seq<nat>, k: nat)
    requires k < |Run(Shared, programs, Start(programs), schedule).finished|
    ensures var s := Run(Shared, programs, Start(programs), schedule);
            var id, from := s.finished[k], |Flatten(programs, s.finished[..k])|;
            var n := Length(programs, id);
            from + n <= |s.wire| && s.wire[from..from + n] == Entries(id, n)
  {
    SharedRunsAreSerial(programs, schedule);
    var s := Run(Shared, programs, Start(programs), schedule);
    var id := s.finished[k];
    FlattenPrefix(programs, s.finished, k);
    Inside(Flatten(programs, s.finished[..k]), Entries(id, Length(programs, id)), Flatten(programs, s.finished), Partial(s));
  }

  lemma Inside<T>(a: seq<T>, b: seq<T>, most: seq<T>, rest: seq<T>)
    requires a + b <= most
    ensures |a| + |b| <= |most + rest| && (most + rest)[|a|..|a| + |b|] == b
  {
    assert (a + b)[|a|..|a| + |b|] == b;
    assert (most + rest)[..|a| + |b|] == a + b;
    assert (most + rest)[|a|..|a| + |b|] == (most + rest)[..|a| + |b|][|a|..];
  }

  // ---- Without the mutex -----------------------------------------------------------------------

  /** One task has an operation of several events and another has anything to send. */
  ghost predicate Overlap(programs: seq<Program>) {
    exists t: nat, u: nat, i: nat, j: nat :: CanSplit(programs, t, i, u, j)
  }

  ghost predicate CanSplit(programs: seq<Program>, t: nat, i: nat, u: nat, j: nat) {
    && t < |programs| && u < |programs| && t != u && i < |programs[t].ops| && j < |programs[u].ops|
    && |programs[t].ops[i].events| >= 2 && |programs[u].ops[j].events| >= 1
  }

  lemma NoOverlapNoMix(programs: seq<Program>, s: State)
    requires Ordered(programs, s) && !Overlap(programs)
    ensures Unmixed(s.wire)
  {
    forall a, b, c | 0 <= a < b < c < |s.wire| && SameOp(s.wire[a], s.wire[c]) ensures SameOp(s.wire[a], s.wire[b]) {
      var e, f, g := s.wire[a], s.wire[b], s.wire[c];
      assert Before(e, g) && Issued(programs, s, e) && Issued(programs, s, f) && Issued(programs, s, g);
      assert !CanSplit(programs, e.task, e.op, f.task, f.op);
      assert f.task == e.task;
      assert Before(e, f) && Before(f, g);
    }
  }

  lemma {:induction false} RunOn(handle: Handle, programs: seq<Program>, s: State, a: seq<nat>, b: seq<nat>)
    ensures Run(handle, programs, s, a + b) == Run(handle, programs, Run(handle, programs, s, a), b)
    decreases |b|
  {
    if |b| == 0 {
      assert a + b == a;
    } else {
      RunOn(handle, programs, s, a, b[..|b| - 1]);
      assert (a + b)[..|a + b| - 1] == a + b[..|b| - 1];
    }
  }

  lemma RunOne(handle: Handle, programs: seq<Program>, s: State, t: nat)
    ensures Run(handle, programs, s, [t]) == Step(handle, programs, s, t)
  {
    assert [t][..0] == [];
  }

  /** `s'` is `s` with task `t` at another point, more on the wire and more finished. */
  predicate Moved(s: State, s': State, t: nat, task: Task) {
    && t < |s.tasks| && s'.tasks == s.tasks[t := task]
    && s'.flags == s.flags && s'.holder == s.holder && s.wire <= s'.wire
  }

  lemma Then(programs: seq<Program>, s: State, a: seq<nat>, b: seq<nat>, mid: State, end: State)
    requires Run(Owned, programs, s, a) == mid && Run(Owned, programs, mid, b) == end
    ensures Run(Owned, programs, s, a + b) == end
  {
    RunOn(Owned, programs, s, a, b);
  }

  /** Left to itself, a task sends the rest of its operation. */
  lemma {:induction false} SendsRest(programs: seq<Program>, s: State, t: nat) returns (schedule: seq<nat>)
    requires Busy(programs, s, t) && s.tasks[t].phase.Active?
    requires s.tasks[t].phase.sent <= |Current(programs, s, t).events|
    ensures Moved(s, Run(Owned, programs, s, schedule), t, Task(s.tasks[t].next, Active(|Current(programs, s, t).events|)))
    decreases |Current(programs, s, t).events| - s.tasks[t].phase.sent
  {
    if s.tasks[t].phase.sent == |Current(programs, s, t).events| {
      schedule := [];
    } else {
      var s1 := Emit(programs, s, t);
      RunOne(Owned, programs, s, t);
      var rest := SendsRest(programs, s1, t);
      Then(programs, s, [t], rest, s1, Run(Owned, programs, s1, rest));
      schedule := [t] + rest;
    }
  }

  /** Left to itself, a task past the flag completes its operation, and a print clears the flag. */
  lemma Finishes(programs: seq<Program>, s: State, t: nat) returns (schedule: seq<nat>)
    requires Busy(programs, s, t) && s.tasks[t].phase.Ready?
    ensures var s' := Run(Owned, programs, s, schedule);
            && s'.tasks == s.tasks[t := Task(s.tasks[t].next + 1, Idle)] && s'.holder == s.holder && s.wire <= s'.wire
            && s'.flags == if Current(programs, s, t).kind.Print? then s.flags - {programs[t].device} else s.flags
  {
    var s1 := Begin(Owned, programs, s, t);
    RunOne(Owned, programs, s, t);
    var rest := SendsRest(programs, s1, t);
    var s2 := Run(Owned, programs, s1, rest);
    Then(programs, s, [t], rest, s1, s2);
    var s3 := End(Owned, programs, s2, t);
    RunOne(Owned, programs, s2, t);
    Then(programs, s, [t] + rest, [t], s2, s3);
    schedule := [t] + rest + [t];
  }

  /** Left to itself, with its device's flag clear, a task carries out its next operation. */
  lemma DoesOne(programs: seq<Program>, s: State, t: nat) returns (schedule: seq<nat>)
    requires Busy(programs, s, t) && s.tasks[t].phase.Idle? && programs[t].device !in s.flags
    ensures Moved(s, Run(Owned, programs, s, schedule), t, Task(s.tasks[t].next + 1, Idle))
  {
    var s1 := Look(programs, s, t);
    RunOne(Owned, programs, s, t);
    var rest := Finishes(programs, s1, t);
    Then(programs, s, [t], rest, s1, Run(Owned, programs, s1, rest));
    schedule := [t] + rest;
  }

  /** It can get as far as it likes before anyone else moves. */
  lemma {:induction false} GetsTo(programs: seq<Program>, s: State, t: nat, i: nat) returns (schedule: seq<nat>)
    requires t < |s.tasks| && t < |programs| && s.tasks[t].phase.Idle? && s.tasks[t].next <= i <= |programs[t].ops|
    requires programs[t].device !in s.flags
    ensures Moved(s, Run(Owned, programs, s, schedule), t, Task(i, Idle))
    decreases i - s.tasks[t].next
  {
    if s.tasks[t].next == i {
      schedule := [];
    } else {
      var one := DoesOne(programs, s, t);
      var s1 := Run(Owned, programs, s, one);
      var rest := GetsTo(programs, s1, t, i);
      Then(programs, s, one, rest, s1, Run(Owned, programs, s1, rest));
      schedule := one + rest;
    }
  }

  /** Two tasks about to begin can both get past the flag: a query looks before a print sets it. */
  lemma BothReady(programs: seq<Program>, s: State, t: nat, u: nat) returns (schedule: seq<nat>)
    requires t != u && Busy(programs, s, t) && Busy(programs, s, u) && s.flags == {}
    requires s.tasks[t].phase.Idle? && s.tasks[u].phase.Idle?
    ensures var s' := Run(Owned, programs, s, schedule);
            && s'.tasks == s.tasks[t := Task(s.tasks[t].next, Ready)][u := Task(s.tasks[u].next, Ready)]
            && s'.wire == s.wire
  {
    var first, second := t, u;
    if Current(programs, s, t).kind.Print? {
      first, second := u, t;
    }
    var s1 := Look(programs, s, first);
    RunOne(Owned, programs, s, first);
    var s2 := Look(programs, s1, second);
    RunOne(Owned, programs, s1, second);
    Then(programs, s, [first], [second], s1, s2);
    schedule := [first] + [second];
  }

  /** Once both are past it, one's event lands between two of the other's. */
  lemma BothSend(programs: seq<Program>, s: State, t: nat, i: nat, u: nat, j: nat)
    requires CanSplit(programs, t, i, u, j) && |s.tasks| == |programs|
    requires s.tasks[t] == Task(i, Ready) && s.tasks[u] == Task(j, Ready)
    ensures Run(Owned, programs, s, [t] + [u] + [t] + [u] + [t]).wire ==
            s.wire + [Entry(t, i, 0)] + [Entry(u, j, 0)] + [Entry(t, i, 1)]
  {
    var s1 := Begin(Owned, programs, s, t);
    RunOne(Owned, programs, s, t);
    var s2 := Begin(Owned, programs, s1, u);
    RunOne(Owned, programs, s1, u);
    Then(programs, s, [t], [u], s1, s2);
    var s3 := Emit(programs, s2, t);
    RunOne(Owned, programs, s2, t);
    Then(programs, s, [t] + [u], [t], s2, s3);
    var s4 := Emit(programs, s3, u);
    RunOne(Owned, programs, s3, u);
    Then(programs, s, [t] + [u] + [t], [u], s3, s4);
    var s5 := Emit(programs, s4, t);
    RunOne(Owned, programs, s4, t);
    Then(programs, s, [t] + [u] + [t] + [u], [t], s4, s5);
  }

  lemma OverlapCanMix(programs: seq<Program>, t: nat, i: nat, u: nat, j: nat) returns (schedule: seq<nat>)
    requires CanSplit(programs, t, i, u, j)
    ensures !Unmixed(Run(Owned, programs, Start(programs), schedule).wire)
  {
    var s := Start(programs);
    var a := GetsTo(programs, s, t, i);
    var s1 := Run(Owned, programs, s, a);
    var b := GetsTo(programs, s1, u, j);
    var s2 := Run(Owned, programs, s1, b);
    Then(programs, s, a, b, s1, s2);
    var c := BothReady(programs, s2, t, u);
    var s3 := Run(Owned, programs, s2, c);
    Then(programs, s, a + b, c, s2, s3);
    var d := [t] + [u] + [t] + [u] + [t];
    BothSend(programs, s3, t, i, u, j);
    Then(programs, s, a + b + c, d, s3, Run(Owned, programs, s3, d));
    schedule := a + b + c + d;
    var wire, n := Run(Owned, programs, s, schedule).wire, |s3.wire|;
    assert SameOp(wire[n], wire[n + 2]) && !SameOp(wire[n], wire[n + 1]);
  }

  /**
   Without the mutex, flag and all, operations stay whole under every interleaving if and only if no task
   has an operation of several events while another has anything to send. The flag does not change this:
   a query that looked just before a print set it still goes out in the middle of the print.
   */
  lemma OwnedRunsStayWhole(programs: seq<Program>)
    ensures (forall schedule :: Unmixed(Run(Owned, programs, Start(programs), schedule).wire)) <==> !Overlap(programs)
  {
    if Overlap(programs) {
      var t: nat, u: nat, i: nat, j: nat :| CanSplit(programs, t, i, u, j);
      var schedule := OverlapCanMix(programs, t, i, u, j);
    } else {
      forall schedule ensures Unmixed(Run(Owned, programs, Start(programs), schedule).wire) {
        RunsAreOrdered(Owned, programs, schedule);
        NoOverlapNoMix(programs, Run(Owned, programs, Start(programs), schedule));
      }
    }
  }

  /** With it they always do. */
  lemma {:induction false} SharedRunsStayWhole(programs: seq<Program>, schedule: seq<nat>)
    ensures var s := Run(Shared, programs, Start(programs), schedule); Unmixed(s.wire) && LastIsHolders(s)
    decreases |schedule|
  {
    if |schedule| > 0 {
      var before := schedule[..|schedule| - 1];
      var s := Run(Shared, programs, Start(programs), before);
      SharedRunsStayWhole(programs, before);
      SharedRunsAreSerial(programs, before);
      RunsAreOrdered(Shared, programs, before);
      StepKeepsWhole(programs, s, schedule[|schedule| - 1]);
    }
  }

  /** The last event on the wire is the holder's, if it has sent any. */
  ghost predicate LastIsHolders(s: State) {
    forall t: nat :: t < |s.tasks| && s.tasks[t].phase.Active? && s.tasks[t].phase.sent > 0 ==>
      s.wire != [] && s.wire[|s.wire| - 1].task == t && s.wire[|s.wire| - 1].op == s.tasks[t].next
  }

  lemma StepKeepsWhole(programs: seq<Program>, s: State, t: nat)
    requires Ordered(programs, s) && Serial(programs, s) && Unmixed(s.wire) && LastIsHolders(s)
    ensures var s' := Step(Shared, programs, s, t); Unmixed(s'.wire) && LastIsHolders(s')
  {
    StepKeepsLast(programs, s, t);
    StepKeepsUnmixed(programs, s, t);
  }

  lemma StepKeepsLast(programs: seq<Program>, s: State, t: nat)
    requires LastIsHolders(s) && forall u: nat :: u < |s.tasks| ==> (s.tasks[u].phase.Active? <==> s.holder == Some(u))
    ensures LastIsHolders(Step(Shared, programs, s, t))
  {
  }

  lemma StepKeepsUnmixed(programs: seq<Program>, s: State, t: nat)
    requires Ordered(programs, s) && Unmixed(s.wire) && LastIsHolders(s)
    ensures Unmixed(Step(Shared, programs, s, t).wire)
  {
    var s' := Step(Shared, programs, s, t);
    if s'.wire != s.wire {
      var n, e := |s.wire|, Entry(t, s.tasks[t].next, s.tasks[t].phase.sent);
      assert s'.wire == s.wire + [e];
      forall a, b, c | 0 <= a < b < c < |s'.wire| && SameOp(s'.wire[a], s'.wire[c]) ensures SameOp(s'.wire[a], s'.wire[b]) {
        if c == n {
          assert Issued(programs, s, s.wire[a]) && e.pos > 0;
          assert SameOp(s.wire[n - 1], e);
        }
      }
    }
  }

  /** The smallest case: a print of two events and a status query of another task on the same device. */
  lemma FlagIsNoLock(header: Event, data: Event, poll: Event)
    ensures var programs := [Program(0, [Operation(Print, [header, data])]), Program(0, [Operation(Query, [poll])])];
            exists schedule :: !Unmixed(Run(Owned, programs, Start(programs), schedule).wire)
  {
    var programs := [Program(0, [Operation(Print, [header, data])]), Program(0, [Operation(Query, [poll])])];
    assert CanSplit(programs, 0, 0, 1, 0);
    var schedule := OverlapCanMix(programs, 0, 0, 1, 0);
  }

  // ---- What the flag does ----------------------------------------------------------------------

  /** The task is in the middle of a print on device `d`: past its own look at the flag and not yet done. */
  predicate InPrint(programs: seq<Program>, s: State, t: nat, d: nat) {
    Busy(programs, s, t) && programs[t].device == d && Current(programs, s, t).kind.Print? && !s.tasks[t].phase.Idle?
  }

  predicate PrintOn(programs: seq<Program>, t: nat, i: nat, d: nat) {
    t < |programs| && programs[t].device == d && i < |programs[t].ops| && programs[t].ops[i].kind.Print?
  }

  /** Only one task ever prints on the device. */
  ghost predicate OnePrinter(programs: seq<Program>, d: nat) {
    forall t: nat, i: nat, u: nat, j: nat :: PrintOn(programs, t, i, d) && PrintOn(programs, u, j, d) ==> t == u
  }

  /** The flag is set exactly while a print on the device is going on. */
  ghost predicate FlagTells(programs: seq<Program>, s: State, d: nat) {
    d in s.flags <==> exists t: nat :: InPrint(programs, s, t, d)
  }

  /** A step that leaves the flag and the set of prints going on alone. */
  lemma SamePrints(programs: seq<Program>, s: State, s': State, d: nat)
    requires FlagTells(programs, s, d) && (d in s'.flags <==> d in s.flags)
    requires forall u: nat :: InPrint(programs, s', u, d) <==> InPrint(programs, s, u, d)
    ensures FlagTells(programs, s', d)
  {
  }

  lemma LookKeepsFlag(programs: seq<Program>, s: State, t: nat, d: nat)
    requires FlagTells(programs, s, d) && Busy(programs, s, t) && s.tasks[t].phase.Idle?
    ensures FlagTells(programs, Look(programs, s, t), d)
  {
    var s' := Look(programs, s, t);
    forall u: nat | u != t ensures InPrint(programs, s', u, d) <==> InPrint(programs, s, u, d) {
    }
    if !InPrint(programs, s', t, d) { SamePrints(programs, s, s', d); }
  }

  lemma EndKeepsFlag(handle: Handle, programs: seq<Program>, s: State, t: nat, d: nat)
    requires OnePrinter(programs, d) && FlagTells(programs, s, d) && Busy(programs, s, t) && s.tasks[t].phase.Active?
    ensures FlagTells(programs, End(handle, programs, s, t), d)
  {
    var s' := End(handle, programs, s, t);
    forall u: nat | u != t ensures InPrint(programs, s', u, d) <==> InPrint(programs, s, u, d) {
    }
    assert !InPrint(programs, s', t, d);
    if InPrint(programs, s, t, d) {
      forall u: nat ensures !InPrint(programs, s', u, d) {
        assert InPrint(programs, s, u, d) ==> PrintOn(programs, u, s.tasks[u].next, d);
        assert PrintOn(programs, t, s.tasks[t].next, d);
      }
    } else {
      SamePrints(programs, s, s', d);
    }
  }

  lemma StepKeepsFlag(handle: Handle, programs: seq<Program>, s: State, t: nat, d: nat)
    requires OnePrinter(programs, d) && FlagTells(programs, s, d)
    ensures FlagTells(programs, Step(handle, programs, s, t), d)
  {
    if Busy(programs, s, t) {
      match s.tasks[t].phase
      case Idle => LookKeepsFlag(programs, s, t, d);
      case Ready => SamePrints(programs, s, Begin(handle, programs, s, t), d);
      case Active(sent) =>
        if sent < |Current(programs, s, t).events| {
          SamePrints(programs, s, Emit(programs, s, t), d);
        } else {
          EndKeepsFlag(handle, programs, s, t, d);
        }
    }
  }

  lemma {:induction false} FlagIsTrue(handle: Handle, programs: seq<Program>, schedule: seq<nat>, d: nat)
    requires OnePrinter(programs, d)
    ensures FlagTells(programs, Run(handle, programs, Start(programs), schedule), d)
    decreases |schedule|
  {
    if |schedule| > 0 {
      FlagIsTrue(handle, programs, schedule[..|schedule| - 1], d);
      StepKeepsFlag(handle, programs, Run(handle, programs, Start(programs), schedule[..|schedule| - 1]),
                    schedule[|schedule| - 1], d);
    }
  }

  /** A query that looks while the one printing task of its device is in a print gives up and sends nothing. */
  lemma QueriesGiveWay(handle: Handle, programs: seq<Program>, schedule: seq<nat>, t: nat, u: nat, d: nat)
    requires OnePrinter(programs, d)
    requires var s := Run(handle, programs, Start(programs), schedule);
             && InPrint(programs, s, u, d) && Busy(programs, s, t) && programs[t].device == d
             && Current(programs, s, t).kind.Query? && s.tasks[t].phase.Idle?
    ensures var s := Run(handle, programs, Start(programs), schedule);
            var s' := Step(handle, programs, s, t);
            s'.wire == s.wire && s'.finished == s.finished && s'.tasks == s.tasks[t := Task(s.tasks[t].next + 1, Idle)]
  {
    FlagIsTrue(handle, programs, schedule, d);
  }

  /** With two printing tasks the first to finish clears the flag in the middle of the other's print. */
  lemma FlagCanLie(programs: seq<Program>, t: nat, i: nat, u: nat, j: nat, d: nat) returns (schedule: seq<nat>)
    requires PrintOn(programs, t, i, d) && PrintOn(programs, u, j, d) && t != u
    ensures var s := Run(Owned, programs, Start(programs), schedule); InPrint(programs, s, u, d) && d !in s.flags
  {
    var s := Start(programs);
    var a := GetsTo(programs, s, t, i);
    var s1 := Run(Owned, programs, s, a);
    var b := GetsTo(programs, s1, u, j);
    var s2 := Run(Owned, programs, s1, b);
    Then(programs, s, a, b, s1, s2);
    var c := BothReady(programs, s2, t, u);
    var s3 := Run(Owned, programs, s2, c);
    Then(programs, s, a + b, c, s2, s3);
    var e := Finishes(programs, s3, t);
    Then(programs, s, a + b + c, e, s3, Run(Owned, programs, s3, e));
    schedule := a + b + c + e;
  }

  /** The flag is set throughout every print on a device, under every interleaving, if and only if one task does all its printing. */
  lemma FlagCoversPrints(programs: seq<Program>, d: nat)
    ensures (forall schedule, u: nat ::
               var s := Run(Owned, programs, Start(programs), schedule); InPrint(programs, s, u, d) ==> d in s.flags)
            <==> OnePrinter(programs, d)
  {
    if OnePrinter(programs, d) {
      forall schedule, u: nat
        ensures var s := Run(Owned, programs, Start(programs), schedule); InPrint(programs, s, u, d) ==> d in s.flags
      {
        FlagIsTrue(Owned, programs, schedule, d);
      }
    } else {
      var t: nat, i: nat, u: nat, j: nat :| PrintOn(programs, t, i, d) && PrintOn(programs, u, j, d) && t != u;
      var schedule := FlagCanLie(programs, t, i, u, j, d);
    }
  }
}
