/**
 The rotation loop as a protocol among any number of nodes sharing one lock record.

 The lock is an abstract lease cell with a weak contract. A call to acquire may rewrite the cell only when it is
 empty, lapsed, or already names the caller, and answers yes only if the cell then names the caller with an
 unlapsed lease; it may also fail after having written. A call to release may clear the cell only when it names
 the caller, and may fail. A lapsed record may disappear. Everything else is the loop's own doing.

 A step carries every outcome the environment chooses, so a run is a list of steps.
 */
module RotationProtocol {
  import opened Common
  import opened Traces

  type Node = nat

  /** The lease asked for. */
  const LEASE := 60 * SECOND

  datatype Record = Record(holder: Node, expires: int, unschedulable: bool)

  /** What a tick found to do. */
  datatype Work = Work(configs: bool, certs: bool)

  /** Where a node's process stands: the call it is about to make. */
  datatype Phase =
    | Down
    | Testing
    | StartupRelease
    | Idle
    | Acquiring(work: Work)
    | Cordoning(work: Work)
    | Draining(work: Work)
    | Updating(work: Work)
    | Rotating(work: Work)
    | Uncordoning(work: Work)
    | Releasing(work: Work)

  /** What a process does: it tests the lock at its start and may release it then, finds work, asks, and so on. */
  datatype Event =
    | Tested(holding: bool) | ReleasedAtStart | Found(work: Work) | Refused
    | Acquired | Cordoned | Drained | Updated | Rotated | Uncordoned | Released | Crashed

  /**
   One process. `leaseEnd`, `enteredAt` and `ticket` record its last successful acquire for use in statements:
   the expiry of the lease it got, the time, and its place in the order of all successful acquires.
   */
  datatype Local = Local(
    phase: Phase, unschedulable: bool, leaseEnd: int, enteredAt: int, ticket: nat, trace: Trace<Event>)

  datatype State = State(now: int, cell: Option<Record>, tickets: nat, nodes: map<Node, Local>)

  datatype Step =
    | Elapse(dt: nat)
    | Lapse
    | Start(n: Node)
    | Test(n: Node, answer: bool, loadMeta: bool)
    | Tick(n: Node, found: Work)
    | Acquire(n: Node, write: bool, answer: bool)
    | Proceed(n: Node)
    | Release(n: Node, cleared: bool)
    | Crash(n: Node)

  predicate InSection(l: Local) {
    l.phase.Cordoning? || l.phase.Draining? || l.phase.Updating? || l.phase.Rotating? || l.phase.Uncordoning? ||
    l.phase.Releasing?
  }

  // ---- The loop ----

  /** The next call inside the section: cordon, drain, update, rotate, uncordon, each where the code makes it. */
  function ProceedLocal(l: Local): Option<Local> {
    match l.phase
    case Cordoning(w) =>
      if !l.unschedulable then Some(l.(phase := Draining(w), trace := Then(l.trace, Cordoned)))
      else Some(l.(phase := Updating(w)))
    case Draining(w) => Some(l.(phase := Updating(w), trace := Then(l.trace, Drained)))
    case Updating(w) =>
      Some(l.(phase := Rotating(w), trace := if w.configs then Then(l.trace, Updated) else l.trace))
    case Rotating(w) =>
      Some(l.(phase := Uncordoning(w), trace := if w.certs then Then(l.trace, Rotated) else l.trace))
    case Uncordoning(w) =>
      Some(l.(phase := Releasing(w), trace := if !l.unschedulable then Then(l.trace, Uncordoned) else l.trace))
    case _ => None
  }

  predicate MayWrite(s: State, n: Node) {
    s.cell.None? || s.cell.value.expires <= s.now || s.cell.value.holder == n
  }

  predicate NamesUnlapsed(cell: Option<Record>, n: Node, now: int) {
    cell.Some? && cell.value.holder == n && now < cell.value.expires
  }

  function WithNode(s: State, n: Node, l: Local): State {
    s.(nodes := s.nodes[n := l])
  }

  /** The state after a step, or nothing when the step is not possible. */
  function Apply(s: State, step: Step): Option<State> {
    match step
    case Elapse(dt) => Some(s.(now := s.now + dt))
    case Lapse => if s.cell.Some? && s.cell.value.expires <= s.now then Some(s.(cell := None)) else None
    case _ => if step.n in s.nodes then ApplyNode(s, step, s.nodes[step.n]) else None
  }

  function ApplyNode(s: State, step: Step, l: Local): Option<State>
    requires !step.Elapse? && !step.Lapse?
  {
    match step
    case Start(n) =>
      if l.phase.Down? then Some(WithNode(s, n, l.(phase := Testing, unschedulable := false))) else None
    case Test(n, answer, loadMeta) =>
      if l.phase.Testing? then
        var meta := if loadMeta && s.cell.Some? then s.cell.value.unschedulable else l.unschedulable;
        Some(WithNode(s, n, l.(phase := if answer then StartupRelease else Idle, unschedulable := meta,
                               trace := Then(l.trace, Tested(answer)))))
      else None
    case Tick(n, found) =>
      if l.phase.Idle? then
        var asking := l.(phase := Acquiring(found), trace := Then(l.trace, Found(found)));
        Some(WithNode(s, n, if found.configs || found.certs then asking else l))
      else None
    case Acquire(n, write, answer) =>
      if !l.phase.Acquiring? || (write && !MayWrite(s, n)) then None
      else
        var cell := if write then Some(Record(n, s.now + LEASE, l.unschedulable)) else s.cell;
        if !answer then
          Some(WithNode(s.(cell := cell), n, l.(phase := Idle, trace := Then(l.trace, Refused))))
        else if !NamesUnlapsed(cell, n, s.now) then None
        else
          Some(WithNode(s.(cell := cell, tickets := s.tickets + 1), n,
                        l.(phase := Cordoning(l.phase.work), leaseEnd := cell.value.expires, enteredAt := s.now,
                           ticket := s.tickets, trace := Then(l.trace, Acquired))))
    case Proceed(n) =>
      match ProceedLocal(l) {
        case None => None
        case Some(l') => Some(WithNode(s, n, l'))
      }
    case Release(n, cleared) =>
      if !(l.phase.StartupRelease? || l.phase.Releasing?) then None
      else if cleared && !(s.cell.Some? && s.cell.value.holder == n) then None
      else
        var trace := Then(l.trace, if l.phase.Releasing? then Released else ReleasedAtStart);
        Some(WithNode(s.(cell := if cleared then None else s.cell), n, l.(phase := Idle, trace := trace)))
    case Crash(n) =>
      Some(WithNode(s, n, l.(phase := Down, trace := Then(l.trace, Crashed))))
  }

  function Run(s: State, steps: seq<Step>): Option<State> {
    if steps == [] then Some(s)
    else
      var before := Run(s, steps[..|steps| - 1]);
      if before.None? then None else Apply(before.value, steps[|steps| - 1])
  }

  /** All processes down, no record left by anything but this program, and no lease longer than asked for. */
  predicate Initial(s: State) {
    && (s.cell.Some? ==> !s.cell.value.unschedulable && s.cell.value.expires <= s.now + LEASE)
    && (forall n | n in s.nodes :: s.nodes[n].phase.Down? && s.nodes[n].trace == Nothing && !s.nodes[n].unschedulable)
  }

  // ---- The lease invariant ----

  /** A node in the section whose lease has not lapsed is the one the cell names. */
  ghost predicate LeaseHeld(s: State, n: Node)
    requires n in s.nodes
  {
    var l := s.nodes[n];
    && l.ticket < s.tickets && l.enteredAt <= s.now && l.enteredAt < l.leaseEnd <= l.enteredAt + LEASE
    && (s.now < l.leaseEnd ==> NamesUnlapsed(s.cell, n, s.now))
    && (s.cell.Some? && s.cell.value.holder == n ==> s.cell.value.expires == l.leaseEnd)
  }

  /** The earlier of two nodes in the section had lost its lease when the later one entered. */
  ghost predicate Ordered(a: Local, b: Local) {
    a.ticket != b.ticket && (a.ticket < b.ticket ==> a.leaseEnd <= b.enteredAt)
  }

  ghost predicate LeaseInv(s: State) {
    && (s.cell.Some? ==> s.cell.value.expires <= s.now + LEASE)
    && (forall n | n in s.nodes && InSection(s.nodes[n]) :: LeaseHeld(s, n))
    && (forall n, m | n in s.nodes && m in s.nodes && n != m && InSection(s.nodes[n]) && InSection(s.nodes[m]) ::
          Ordered(s.nodes[n], s.nodes[m]))
  }

  lemma EntryKeepsLeaseInv(s: State, n: Node, write: bool)
    requires LeaseInv(s) && n in s.nodes && Apply(s, Acquire(n, write, true)).Some?
    ensures LeaseInv(Apply(s, Acquire(n, write, true)).value)
  {
    var s' := Apply(s, Acquire(n, write, true)).value;
    forall m | m in s'.nodes && m != n && InSection(s'.nodes[m])
      ensures LeaseHeld(s', m) && Ordered(s'.nodes[m], s'.nodes[n]) && Ordered(s'.nodes[n], s'.nodes[m])
    {
      assert LeaseHeld(s, m);
    }
  }

  /** What a step other than an entry leaves of the leases: nobody enters, and no held lease is disturbed. */
  ghost predicate Calm(s: State, s': State) {
    && s'.tickets == s.tickets && s.now <= s'.now && s'.nodes.Keys == s.nodes.Keys
    && (s'.cell.Some? ==> s'.cell.value.expires <= s'.now + LEASE)
    && (forall m | m in s'.nodes && InSection(s'.nodes[m]) ::
          && InSection(s.nodes[m]) && s'.nodes[m].ticket == s.nodes[m].ticket
          && s'.nodes[m].leaseEnd == s.nodes[m].leaseEnd && s'.nodes[m].enteredAt == s.nodes[m].enteredAt
          && (NamesUnlapsed(s.cell, m, s'.now) ==> s'.cell == s.cell)
          && (s'.cell.Some? && s'.cell.value.holder == m ==> s'.cell == s.cell))
  }

  lemma CalmKeepsLeaseInv(s: State, s': State)
    requires LeaseInv(s) && Calm(s, s')
    ensures LeaseInv(s')
  {
    forall m | m in s'.nodes && InSection(s'.nodes[m]) ensures LeaseHeld(s', m) {
      assert LeaseHeld(s, m);
    }
    forall n, m | n in s'.nodes && m in s'.nodes && n != m && InSection(s'.nodes[n]) && InSection(s'.nodes[m])
      ensures Ordered(s'.nodes[n], s'.nodes[m])
    {
      assert Ordered(s.nodes[n], s.nodes[m]);
    }
  }

  /** A node that changes its own state without entering, and the cell at most as it is allowed to. */
  lemma MoveIsCalm(s: State, n: Node, l': Local, cell: Option<Record>)
    requires LeaseInv(s) && n in s.nodes
    requires InSection(l') ==>
               && InSection(s.nodes[n]) && l'.ticket == s.nodes[n].ticket
               && l'.leaseEnd == s.nodes[n].leaseEnd && l'.enteredAt == s.nodes[n].enteredAt && cell == s.cell
    requires forall m | m != n && NamesUnlapsed(s.cell, m, s.now) :: cell == s.cell
    requires cell == s.cell || cell.None? || cell.value.holder == n
    requires cell.Some? ==> cell.value.expires <= s.now + LEASE
    ensures Calm(s, WithNode(s.(cell := cell), n, l'))
  {
  }

  lemma StepIsMove(s: State, step: Step, l: Local)
    requires LeaseInv(s) && !step.Elapse? && !step.Lapse? && step.n in s.nodes && l == s.nodes[step.n]
    requires !(step.Acquire? && step.answer) && ApplyNode(s, step, l).Some?
    ensures var s' := ApplyNode(s, step, l).value;
            && step.n in s'.nodes && s' == WithNode(s.(cell := s'.cell), step.n, s'.nodes[step.n])
            && (s'.cell != s.cell ==> step.Acquire? || step.Release?)
            && (s'.cell == s.cell || s'.cell.None? || s'.cell.value.holder == step.n)
            && (InSection(s'.nodes[step.n]) ==> step.Proceed?)
  {
  }

  lemma NodeStepIsCalm(s: State, step: Step, l: Local)
    requires LeaseInv(s) && !step.Elapse? && !step.Lapse? && step.n in s.nodes && l == s.nodes[step.n]
    requires !(step.Acquire? && step.answer) && ApplyNode(s, step, l).Some?
    ensures Calm(s, ApplyNode(s, step, l).value)
  {
    StepIsMove(s, step, l);
    var s' := ApplyNode(s, step, l).value;
    MoveIsCalm(s, step.n, s'.nodes[step.n], s'.cell);
  }

  lemma StepKeepsLeaseInv(s: State, step: Step)
    requires LeaseInv(s) && Apply(s, step).Some?
    ensures LeaseInv(Apply(s, step).value)
  {
    if step.Acquire? && step.answer {
      EntryKeepsLeaseInv(s, step.n, step.write);
    } else {
      if !step.Elapse? && !step.Lapse? { NodeStepIsCalm(s, step, s.nodes[step.n]); }
      CalmKeepsLeaseInv(s, Apply(s, step).value);
    }
  }

  lemma {:induction false} RunKeepsLeaseInv(s: State, steps: seq<Step>)
    requires Initial(s) && Run(s, steps).Some?
    ensures LeaseInv(Run(s, steps).value)
  {
    if steps != [] {
      RunKeepsLeaseInv(s, steps[..|steps| - 1]);
      StepKeepsLeaseInv(Run(s, steps[..|steps| - 1]).value, steps[|steps| - 1]);
    }
  }

  /**
   In every reachable state of any number of nodes, with crashes, restarts, lost answers and failed releases:
   when two nodes are in the section together, the one that entered first had lost its lease, which is at most
   a minute long, by the time the other entered. So at most one node in the section has an unlapsed lease.
   */
  lemma OverlapNeedsLapse(s: State, steps: seq<Step>, n: Node, m: Node)
    requires Initial(s) && Run(s, steps).Some?
    ensures var t := Run(s, steps).value;
            n in t.nodes && m in t.nodes && n != m && InSection(t.nodes[n]) && InSection(t.nodes[m]) ==>
              var first := if t.nodes[n].ticket < t.nodes[m].ticket then t.nodes[n] else t.nodes[m];
              var second := if t.nodes[n].ticket < t.nodes[m].ticket then t.nodes[m] else t.nodes[n];
              && first.ticket < second.ticket
              && first.enteredAt < first.leaseEnd <= second.enteredAt <= t.now
              && first.leaseEnd <= first.enteredAt + 60_000_000_000
  {
    RunKeepsLeaseInv(s, steps);
    var t := Run(s, steps).value;
    if n in t.nodes && m in t.nodes && n != m && InSection(t.nodes[n]) && InSection(t.nodes[m]) {
      assert LeaseHeld(t, n) && LeaseHeld(t, m);
      assert Ordered(t.nodes[n], t.nodes[m]) && Ordered(t.nodes[m], t.nodes[n]);
    }
  }

  // ---- Exactly when exclusion can fail ----

  /** `m` can enter the section with its next call. */
  ghost predicate CanEnter(s: State, m: Node) {
    exists write :: Apply(s, Acquire(m, write, true)).Some?
  }

  /** A node asking for the lock can get it exactly when no other node's lease is unlapsed. */
  lemma EntryIff(s: State, m: Node)
    requires m in s.nodes && s.nodes[m].phase.Acquiring?
    ensures CanEnter(s, m) <==> (s.cell.None? || s.cell.value.expires <= s.now || s.cell.value.holder == m)
  {
    if s.cell.None? || s.cell.value.expires <= s.now || s.cell.value.holder == m {
      assert Apply(s, Acquire(m, true, true)).Some?;
    }
  }

  /** The lock is some third node's, with an unlapsed lease. */
  predicate HeldByThird(s: State, n: Node, m: Node) {
    s.cell.Some? && s.now < s.cell.value.expires && s.cell.value.holder != n && s.cell.value.holder != m
  }

  /**
   Exclusion is lost at the next entry exactly when the node inside overstays its lease: while `n` is in the
   section and `m` asks for the lock, `m` can join it if and only if `n`'s lease has lapsed and no third node has
   taken the lock meanwhile.
   */
  lemma OverlapIffOverstay(s: State, steps: seq<Step>, n: Node, m: Node)
    requires Initial(s) && Run(s, steps).Some?
    requires var t := Run(s, steps).value;
             n in t.nodes && m in t.nodes && n != m && InSection(t.nodes[n]) && t.nodes[m].phase.Acquiring?
    ensures var t := Run(s, steps).value;
            CanEnter(t, m) <==> t.nodes[n].leaseEnd <= t.now && !HeldByThird(t, n, m)
  {
    RunKeepsLeaseInv(s, steps);
    var t := Run(s, steps).value;
    assert LeaseHeld(t, n);
    EntryIff(t, m);
  }

  /** Nothing in the loop ends a long section: given a minute more, any node asking for the lock can join. */
  lemma {:induction false} OverlapReachable(s: State, steps: seq<Step>, n: Node, m: Node)
    requires Initial(s) && Run(s, steps).Some?
    requires var t := Run(s, steps).value;
             n in t.nodes && m in t.nodes && n != m && InSection(t.nodes[n]) && t.nodes[m].phase.Acquiring?
    ensures var more := Run(s, steps + [Elapse(LEASE), Acquire(m, true, true)]);
            && more.Some? && n in more.value.nodes && m in more.value.nodes
            && InSection(more.value.nodes[n]) && InSection(more.value.nodes[m])
  {
    RunKeepsLeaseInv(s, steps);
    var one := steps + [Elapse(LEASE)];
    var two := steps + [Elapse(LEASE), Acquire(m, true, true)];
    assert one[..|one| - 1] == steps;
    assert two[..|two| - 1] == one;
  }

  /** Two processes that have not started, and a lock nobody holds. */
  function TwoDown(n: Node, m: Node): State {
    State(0, None, 0, map[n := Local(Down, false, 0, 0, 0, Nothing), m := Local(Down, false, 0, 0, 0, Nothing)])
  }

  /** One node starts, finds work and enters; then another starts, finds work and asks. */
  function OneInOneAsking(n: Node, m: Node, w: Work): seq<Step> {
    [Start(n), Test(n, false, false), Tick(n, w), Acquire(n, true, true), Start(m), Test(m, false, false), Tick(m, w)]
  }

  /** A process that is down can start, find work and ask for the lock, which nobody else notices. */
  lemma Asks(s: State, m: Node, w: Work)
    requires m in s.nodes && s.nodes[m].phase.Down? && (w.configs || w.certs)
    ensures var end := Run(s, [Start(m), Test(m, false, false), Tick(m, w)]);
            && end.Some? && end.value == WithNode(s, m, end.value.nodes[m]) && m in end.value.nodes
            && end.value.nodes[m].phase == Acquiring(w)
  {
    var steps := [Start(m), Test(m, false, false), Tick(m, w)];
    var s1 := Apply(s, steps[0]).value;
    var s2 := Apply(s1, steps[1]).value;
    RunFirst(s, steps);
    RunFirst(s1, steps[1..]);
    RunFirst(s2, steps[1..][1..]);
    assert steps[1..][1..][1..] == [];
  }

  lemma {:induction false} RunInTurn(s: State, a: seq<Step>, b: seq<Step>)
    requires Run(s, a).Some?
    ensures Run(s, a + b) == Run(Run(s, a).value, b)
    decreases |b|
  {
    if b == [] {
      assert a + b == a;
    } else {
      RunInTurn(s, a, b[..|b| - 1]);
      assert (a + b)[..|a + b| - 1] == a + b[..|b| - 1];
    }
  }

  lemma OneInOneAskingRuns(n: Node, m: Node, w: Work)
    requires n != m && (w.configs || w.certs)
    ensures Initial(TwoDown(n, m)) && Run(TwoDown(n, m), OneInOneAsking(n, m, w)).Some?
    ensures var t := Run(TwoDown(n, m), OneInOneAsking(n, m, w)).value;
            n in t.nodes && m in t.nodes && InSection(t.nodes[n]) && t.nodes[m].phase.Acquiring?
  {
    var s := TwoDown(n, m);
    var first, second := [Start(n), Test(n, false, false), Tick(n, w)], [Start(m), Test(m, false, false), Tick(m, w)];
    Asks(s, n, w);
    var s1 := Run(s, first).value;
    RunInTurn(s, first, [Acquire(n, true, true)]);
    RunFirst(s1, [Acquire(n, true, true)]);
    var s2 := Apply(s1, Acquire(n, true, true)).value;
    Asks(s2, m, w);
    RunInTurn(s, first + [Acquire(n, true, true)], second);
    assert OneInOneAsking(n, m, w) == first + [Acquire(n, true, true)] + second;
  }

  /** Exclusion does fail: from a fresh start two nodes get into the section together, the first having overstayed. */
  lemma OverlapHappens(n: Node, m: Node, w: Work)
    requires n != m && (w.configs || w.certs)
    ensures var end := Run(TwoDown(n, m), OneInOneAsking(n, m, w) + [Elapse(LEASE), Acquire(m, true, true)]);
            && end.Some? && n in end.value.nodes && m in end.value.nodes
            && InSection(end.value.nodes[n]) && InSection(end.value.nodes[m])
  {
    OneInOneAskingRuns(n, m, w);
    OverlapReachable(TwoDown(n, m), OneInOneAsking(n, m, w), n, m);
  }

  // ---- Section discipline ----

  /** The process has not started since the last crash, if any. */
  predicate Stopped(t: Trace<Event>) {
    t.Then? ==> t.event == Crashed
  }

  /** Between sections: the lock was found not to be held, released at the start, refused, or released. */
  predicate BetweenSections(t: Trace<Event>) {
    t.Then? && (t.event == Tested(false) || t.event == ReleasedAtStart || t.event == Refused || t.event == Released)
  }

  /** Between sections, work was just found. */
  predicate Asking(t: Trace<Event>, w: Work) {
    t.Then? && t.event == Found(w) && (w.configs || w.certs) && BetweenSections(t.before)
  }

  /** The last things done, with nothing between them, were finding work and acquire. */
  predicate Entered(t: Trace<Event>, w: Work) {
    t.Then? && t.event == Acquired && Asking(t.before, w)
  }

  /** ... acquire and cordon. */
  predicate EnteredCordoned(t: Trace<Event>, w: Work) {
    t.Then? && t.event == Cordoned && Entered(t.before, w)
  }

  /** ... acquire, cordon and drain. */
  predicate Opened(t: Trace<Event>, w: Work) {
    t.Then? && t.event == Drained && EnteredCordoned(t.before, w)
  }

  /** ... acquire, cordon, drain, and the configuration update if one was found to be needed. */
  predicate ConfigDone(t: Trace<Event>, w: Work) {
    if w.configs then t.Then? && t.event == Updated && Opened(t.before, w) else Opened(t, w)
  }

  /** ... and the certificate rotation if one was found to be needed. */
  predicate CertsDone(t: Trace<Event>, w: Work) {
    if w.certs then t.Then? && t.event == Rotated && ConfigDone(t.before, w) else ConfigDone(t, w)
  }

  /** ... and uncordon. */
  predicate Freed(t: Trace<Event>, w: Work) {
    t.Then? && t.event == Uncordoned && CertsDone(t.before, w)
  }

  /** Why an event may follow what a node did before. */
  ghost predicate Justified(t: Trace<Event>, e: Event) {
    match e
    case Tested(_) => Stopped(t)
    case ReleasedAtStart => t.Then? && t.event == Tested(true)
    case Found(w) => BetweenSections(t) && (w.configs || w.certs)
    case Refused => exists w :: Asking(t, w)
    case Acquired => exists w :: Asking(t, w)
    case Cordoned => exists w :: Entered(t, w)
    case Drained => exists w :: EnteredCordoned(t, w)
    case Updated => exists w :: Opened(t, w) && w.configs
    case Rotated => exists w :: ConfigDone(t, w) && w.certs
    case Uncordoned => exists w :: CertsDone(t, w)
    case Released => exists w :: Freed(t, w)
    case Crashed => true
  }

  ghost function Rule(): (Trace<Event>, Event) -> bool {
    (t, e) => Justified(t, e)
  }

  /** What the trace shows when its process stands at a phase. */
  predicate Shows(p: Phase, t: Trace<Event>) {
    match p
    case Down => Stopped(t)
    case Testing => Stopped(t)
    case StartupRelease => t.Then? && t.event == Tested(true)
    case Idle => BetweenSections(t)
    case Acquiring(w) => Asking(t, w)
    case Cordoning(w) => Entered(t, w)
    case Draining(w) => EnteredCordoned(t, w)
    case Updating(w) => Opened(t, w)
    case Rotating(w) => ConfigDone(t, w)
    case Uncordoning(w) => CertsDone(t, w)
    case Releasing(w) => Freed(t, w)
  }

  ghost predicate LocalInv(l: Local) {
    !l.unschedulable && Disciplined(l.trace, Rule()) && Shows(l.phase, l.trace)
  }

  /** Every record ever in the cell, and every process's copy of it, has Unschedulable = false. */
  ghost predicate SectionInv(s: State) {
    && (s.cell.Some? ==> !s.cell.value.unschedulable)
    && (forall n | n in s.nodes :: LocalInv(s.nodes[n]))
  }

  lemma ProceedKeepsLocalInv(l: Local)
    requires LocalInv(l) && ProceedLocal(l).Some?
    ensures LocalInv(ProceedLocal(l).value)
  {
  }

  lemma AcquireKeepsLocalInv(s: State, step: Step, l: Local)
    requires step.Acquire? && step.n in s.nodes && l == s.nodes[step.n]
    requires LocalInv(l) && (s.cell.Some? ==> !s.cell.value.unschedulable) && ApplyNode(s, step, l).Some?
    ensures var s' := ApplyNode(s, step, l).value;
            && step.n in s'.nodes && LocalInv(s'.nodes[step.n])
            && s'.nodes == s.nodes[step.n := s'.nodes[step.n]]
            && (s'.cell.Some? ==> !s'.cell.value.unschedulable)
  {
  }

  lemma ReleaseKeepsLocalInv(s: State, step: Step, l: Local)
    requires step.Release? && step.n in s.nodes && l == s.nodes[step.n]
    requires LocalInv(l) && (s.cell.Some? ==> !s.cell.value.unschedulable) && ApplyNode(s, step, l).Some?
    ensures var s' := ApplyNode(s, step, l).value;
            && step.n in s'.nodes && LocalInv(s'.nodes[step.n])
            && s'.nodes == s.nodes[step.n := s'.nodes[step.n]]
            && (s'.cell.Some? ==> !s'.cell.value.unschedulable)
  {
  }

  lemma NodeStepKeepsLocalInv(s: State, step: Step, l: Local)
    requires !step.Elapse? && !step.Lapse? && step.n in s.nodes && l == s.nodes[step.n]
    requires LocalInv(l) && (s.cell.Some? ==> !s.cell.value.unschedulable) && ApplyNode(s, step, l).Some?
    ensures var s' := ApplyNode(s, step, l).value;
            && step.n in s'.nodes && LocalInv(s'.nodes[step.n])
            && s'.nodes == s.nodes[step.n := s'.nodes[step.n]]
            && (s'.cell.Some? ==> !s'.cell.value.unschedulable)
  {
    if step.Proceed? { ProceedKeepsLocalInv(l); }
    if step.Acquire? { AcquireKeepsLocalInv(s, step, l); }
    if step.Release? { ReleaseKeepsLocalInv(s, step, l); }
  }

  lemma StepKeepsSectionInv(s: State, step: Step)
    requires SectionInv(s) && Apply(s, step).Some?
    ensures SectionInv(Apply(s, step).value)
  {
    if !step.Elapse? && !step.Lapse? {
      NodeStepKeepsLocalInv(s, step, s.nodes[step.n]);
    }
  }

  lemma {:induction false} RunKeepsSectionInv(s: State, steps: seq<Step>)
    requires Initial(s) && Run(s, steps).Some?
    ensures SectionInv(Run(s, steps).value)
  {
    if steps != [] {
      RunKeepsSectionInv(s, steps[..|steps| - 1]);
      StepKeepsSectionInv(Run(s, steps[..|steps| - 1]).value, steps[|steps| - 1]);
    }
  }

  /** A section was entered and neither released nor lost in a crash. */
  predicate Unfinished(t: Trace<Event>) {
    t.Then? && t.event != Released && t.event != Crashed && (t.event == Acquired || Unfinished(t.before))
  }

  lemma {:induction false} AskingIsFinished(t: Trace<Event>)
    requires Disciplined(t, Rule())
    requires t.Then? ==> t.event.Tested? || t.event.ReleasedAtStart? || t.event.Found? || t.event.Refused? ||
                         t.event.Released? || t.event.Crashed?
    ensures !Unfinished(t)
  {
    if t.Then? && !t.event.Released? && !t.event.Crashed? {
      assert Justified(t.before, t.event);
      AskingIsFinished(t.before);
    }
  }

  lemma {:induction false} DisciplinedBefore(t: Trace<Event>, prefix: Trace<Event>)
    requires Disciplined(t, Rule()) && Extends(t, prefix)
    ensures Disciplined(prefix, Rule())
  {
    if t != prefix { DisciplinedBefore(t.before, prefix); }
  }

  /**
   Over every run: each node's changes happen only after its own successful acquire, cordon and drain with
   nothing between; each section that reaches its release did cordon, drain, exactly the changes that were found to be
   needed, uncordon, and one release attempt, in that order; the lock is asked for once for each tick that finds work; a
   process that finds the lock held at its start attempts a release before anything else; no section is entered while
   another of the node is unfinished; and no record ever written says Unschedulable.
   */
  lemma SectionDiscipline(s: State, steps: seq<Step>, n: Node, prefix: Trace<Event>)
    requires Initial(s) && Run(s, steps).Some?
    ensures var t := Run(s, steps).value;
            && (t.cell.Some? ==> !t.cell.value.unschedulable)
            && (n in t.nodes && Extends(t.nodes[n].trace, prefix) && prefix.Then? ==>
                  && Justified(prefix.before, prefix.event)
                  && (prefix.event == Acquired ==> !Unfinished(prefix.before))
                  && (prefix.before.Then? && prefix.before.event == Tested(true) ==>
                        prefix.event == ReleasedAtStart || prefix.event == Crashed))
  {
    RunKeepsSectionInv(s, steps);
    var t := Run(s, steps).value;
    if n in t.nodes && Extends(t.nodes[n].trace, prefix) && prefix.Then? {
      DisciplinedBefore(t.nodes[n].trace, prefix);
      assert Justified(prefix.before, prefix.event);
      if prefix.event == Acquired { AskingIsFinished(prefix.before); }
    }
  }

  /**
   A node that restarts while the cell still names it cannot tick: it releases first, which can empty the cell.
   */
  lemma StartupReleaseComesFirst(s: State, n: Node, loadMeta: bool, w: Work)
    requires n in s.nodes && s.nodes[n].phase.Testing? && s.cell.Some? && s.cell.value.holder == n
    ensures Apply(s, Test(n, true, loadMeta)).Some?
    ensures var tested := Apply(s, Test(n, true, loadMeta)).value;
            && Apply(tested, Tick(n, w)).None?
            && Apply(tested, Release(n, true)).Some?
            && Apply(tested, Release(n, true)).value.cell.None?
            && Apply(Apply(tested, Release(n, true)).value, Tick(n, w)).Some?
  {
  }

  // ---- One tick as a run of steps ----

  /** What a section adds up to the certificate rotation. */
  function ConfigTrace(t: Trace<Event>, configs: bool, unschedulable: bool): Trace<Event> {
    var ready := if unschedulable then t else Then(Then(t, Cordoned), Drained);
    if configs then Then(ready, Updated) else ready
  }

  /** What a section adds after the acquire; a panic in the rotation ends it. */
  function SectionTrace(t: Trace<Event>, w: Work, unschedulable: bool, panics: bool): Trace<Event> {
    var updated := ConfigTrace(t, w.configs, unschedulable);
    if panics then Then(updated, Crashed)
    else
      var rotated := if w.certs then Then(updated, Rotated) else updated;
      Then(if unschedulable then rotated else Then(rotated, Uncordoned), Released)
  }

  /** What one undisturbed tick adds. */
  function TickTrace(t: Trace<Event>, w: Work, unschedulable: bool, acquired: bool, panics: bool): Trace<Event> {
    if !w.configs && !w.certs then t
    else if !acquired then Then(Then(t, Found(w)), Refused)
    else SectionTrace(Then(Then(t, Found(w)), Acquired), w, unschedulable, panics)
  }

  /** The calls made inside the section before the first change. */
  function CallsToChanges(n: Node, unschedulable: bool): seq<Step> {
    if unschedulable then [Proceed(n)] else [Proceed(n), Proceed(n)]
  }

  /** The calls made inside the section. */
  function Calls(n: Node, unschedulable: bool): seq<Step> {
    CallsToChanges(n, unschedulable) + [Proceed(n), Proceed(n), Proceed(n)]
  }

  lemma {:induction false} RunFirst(s: State, steps: seq<Step>)
    requires steps != [] && Apply(s, steps[0]).Some?
    ensures Run(s, steps) == Run(Apply(s, steps[0]).value, steps[1..])
  {
    var n := |steps| - 1;
    if n == 0 {
      assert steps[..0] == [] == steps[1..];
    } else {
      RunFirst(s, steps[..n]);
      assert steps[..n][1..] == steps[1..][..n - 1];
    }
  }

  lemma ProceedFirst(s: State, n: Node, l: Local, l': Local, steps: seq<Step>)
    requires n in s.nodes && steps != [] && steps[0] == Proceed(n) && ProceedLocal(l) == Some(l')
    ensures Run(WithNode(s, n, l), steps) == Run(WithNode(s, n, l'), steps[1..])
  {
    var t := WithNode(s, n, l);
    assert WithNode(t, n, l') == WithNode(s, n, l') by { assert t.nodes[n := l'] == s.nodes[n := l']; }
    RunFirst(t, steps);
  }

  /** From the first call of the section to its first change. */
  lemma ToChanges(s: State, n: Node, l: Local, later: seq<Step>) returns (l': Local)
    requires n in s.nodes && l.phase.Cordoning?
    ensures Run(WithNode(s, n, l), CallsToChanges(n, l.unschedulable) + later) == Run(WithNode(s, n, l'), later)
    ensures l' == l.(phase := Updating(l.phase.work),
                     trace := if l.unschedulable then l.trace else Then(Then(l.trace, Cordoned), Drained))
  {
    var calls := CallsToChanges(n, l.unschedulable) + later;
    l' := ProceedLocal(l).value;
    ProceedFirst(s, n, l, l', calls);
    if l.unschedulable {
      assert calls[1..] == later;
    } else {
      assert calls[1..] == [Proceed(n)] + later && calls[1..][1..] == later;
      var drained := ProceedLocal(l').value;
      ProceedFirst(s, n, l', drained, calls[1..]);
      l' := drained;
    }
  }

  /** From the first call of the section to its release. */
  lemma SectionRun(s: State, n: Node, l: Local, cleared: bool)
    requires n in s.nodes && l.phase.Cordoning? && (cleared ==> s.cell.Some? && s.cell.value.holder == n)
    ensures Run(WithNode(s, n, l), Calls(n, l.unschedulable) + [Release(n, cleared)]) ==
            Some(WithNode(s.(cell := if cleared then None else s.cell), n,
                          l.(phase := Idle,
                             trace := SectionTrace(l.trace, l.phase.work, l.unschedulable, false))))
  {
    var later := [Proceed(n), Proceed(n), Proceed(n), Release(n, cleared)];
    assert Calls(n, l.unschedulable) + [Release(n, cleared)] == CallsToChanges(n, l.unschedulable) + later;
    var l' := ToChanges(s, n, l, later);
    ChangesRun(s, n, l', cleared);
  }

  lemma ChangesRun(s: State, n: Node, l: Local, cleared: bool)
    requires n in s.nodes && l.phase.Updating? && (cleared ==> s.cell.Some? && s.cell.value.holder == n)
    ensures var w, u := l.phase.work, l.unschedulable;
            var updated := if w.configs then Then(l.trace, Updated) else l.trace;
            var rotated := if w.certs then Then(updated, Rotated) else updated;
            Run(WithNode(s, n, l), [Proceed(n), Proceed(n), Proceed(n), Release(n, cleared)]) ==
            Some(WithNode(s.(cell := if cleared then None else s.cell), n,
                          l.(phase := Idle, trace := Then(if u then rotated else Then(rotated, Uncordoned), Released))))
  {
    var calls := [Proceed(n), Proceed(n), Proceed(n), Release(n, cleared)];
    var l1 := ProceedLocal(l).value;
    var l2 := ProceedLocal(l1).value;
    var l3 := ProceedLocal(l2).value;
    ProceedFirst(s, n, l, l1, calls);
    ProceedFirst(s, n, l1, l2, calls[1..]);
    ProceedFirst(s, n, l2, l3, calls[1..][1..]);
    assert calls[1..][1..][1..] == [Release(n, cleared)];
    ReleaseRun(s, n, l3, cleared);
  }

  lemma ReleaseRun(s: State, n: Node, l: Local, cleared: bool)
    requires n in s.nodes && l.phase.Releasing? && (cleared ==> s.cell.Some? && s.cell.value.holder == n)
    ensures Run(WithNode(s, n, l), [Release(n, cleared)]) ==
            Some(WithNode(s.(cell := if cleared then None else s.cell), n,
                          l.(phase := Idle, trace := Then(l.trace, Released))))
  {
    var t := WithNode(s, n, l);
    var l' := l.(phase := Idle, trace := Then(l.trace, Released));
    RunFirst(t, [Release(n, cleared)]);
    assert t.nodes[n := l'] == s.nodes[n := l'];
  }

  /** A tick of an idle node that gets the lock, up to the first call of the section. */
  lemma EnterRun(s: State, n: Node, w: Work, write: bool, section: seq<Step>) returns (inside: State)
    requires n in s.nodes && s.nodes[n].phase.Idle? && (w.configs || w.certs)
    requires if write then MayWrite(s, n) else NamesUnlapsed(s.cell, n, s.now)
    ensures Run(s, [Tick(n, w), Acquire(n, write, true)] + section) == Run(inside, section)
    ensures inside.nodes.Keys == s.nodes.Keys && (forall m | m in s.nodes && m != n :: inside.nodes[m] == s.nodes[m])
    ensures inside == WithNode(inside, n, inside.nodes[n]) && NamesUnlapsed(inside.cell, n, inside.now)
    ensures inside.nodes[n].phase == Cordoning(w)
    ensures inside.nodes[n].trace == Then(Then(s.nodes[n].trace, Found(w)), Acquired)
    ensures inside.nodes[n].unschedulable == s.nodes[n].unschedulable
  {
    var steps := [Tick(n, w), Acquire(n, write, true)] + section;
    var asking := WithNode(s, n, s.nodes[n].(phase := Acquiring(w), trace := Then(s.nodes[n].trace, Found(w))));
    assert Apply(s, Tick(n, w)) == Some(asking);
    RunFirst(s, steps);
    inside := Apply(asking, Acquire(n, write, true)).value;
    RunFirst(asking, steps[1..]);
    assert steps[1..][1..] == section;
  }

  /**
   A tick that gets the lock is a run of the protocol: with the steps of one node in the loop's order, from an
   idle node to the same node idle again, the trace it leaves is `TickTrace`, and no other node is touched.
   */
  lemma TickIsRun(s: State, n: Node, w: Work, write: bool, cleared: bool)
    requires n in s.nodes && s.nodes[n].phase.Idle? && (w.configs || w.certs)
    requires if write then MayWrite(s, n) else NamesUnlapsed(s.cell, n, s.now)
    ensures var l := s.nodes[n];
            var steps := [Tick(n, w), Acquire(n, write, true)] + (Calls(n, l.unschedulable) + [Release(n, cleared)]);
            && Run(s, steps).Some?
            && var t := Run(s, steps).value;
            && t.nodes.Keys == s.nodes.Keys && t.nodes[n].phase.Idle?
            && t.nodes[n].trace == TickTrace(l.trace, w, l.unschedulable, true, false)
            && (forall m | m in s.nodes && m != n :: t.nodes[m] == s.nodes[m])
            && (cleared ==> t.cell.None?)
  {
    var l := s.nodes[n];
    var section := Calls(n, l.unschedulable) + [Release(n, cleared)];
    var inside := EnterRun(s, n, w, write, section);
    SectionRun(inside, n, inside.nodes[n], cleared);
  }

  /** The calls made inside the section before the certificate rotation. */
  function CallsToRotation(n: Node, unschedulable: bool): seq<Step> {
    CallsToChanges(n, unschedulable) + [Proceed(n)]
  }

  lemma CrashRun(s: State, n: Node, l: Local)
    requires n in s.nodes
    ensures Run(WithNode(s, n, l), [Crash(n)]) ==
            Some(WithNode(s, n, l.(phase := Down, trace := Then(l.trace, Crashed))))
  {
    var t := WithNode(s, n, l);
    var l' := l.(phase := Down, trace := Then(l.trace, Crashed));
    RunFirst(t, [Crash(n)]);
    assert t.nodes[n := l'] == s.nodes[n := l'];
  }

  /** From the first call of the section to a panic in the rotation. */
  lemma PanicRun(s: State, n: Node, l: Local)
    requires n in s.nodes && l.phase.Cordoning?
    ensures Run(WithNode(s, n, l), CallsToRotation(n, l.unschedulable) + [Crash(n)]) ==
            Some(WithNode(s, n, l.(phase := Down,
                                   trace := SectionTrace(l.trace, l.phase.work, l.unschedulable, true))))
  {
    var later := [Proceed(n), Crash(n)];
    assert CallsToRotation(n, l.unschedulable) + [Crash(n)] == CallsToChanges(n, l.unschedulable) + later;
    var l1 := ToChanges(s, n, l, later);
    var l2 := ProceedLocal(l1).value;
    ProceedFirst(s, n, l1, l2, later);
    assert later[1..] == [Crash(n)];
    CrashRun(s, n, l2);
  }

  /** A tick that gets the lock and panics in the rotation is a run that ends in a crash inside the section. */
  lemma PanicIsRun(s: State, n: Node, w: Work, write: bool)
    requires n in s.nodes && s.nodes[n].phase.Idle? && w.certs
    requires if write then MayWrite(s, n) else NamesUnlapsed(s.cell, n, s.now)
    ensures var l := s.nodes[n];
            var steps := [Tick(n, w), Acquire(n, write, true)] + (CallsToRotation(n, l.unschedulable) + [Crash(n)]);
            && Run(s, steps).Some?
            && var t := Run(s, steps).value;
            && t.nodes.Keys == s.nodes.Keys && t.nodes[n].phase.Down?
            && t.nodes[n].trace == TickTrace(l.trace, w, l.unschedulable, true, true)
            && (forall m | m in s.nodes && m != n :: t.nodes[m] == s.nodes[m])
            && NamesUnlapsed(t.cell, n, t.now)
  {
    var l := s.nodes[n];
    var section := CallsToRotation(n, l.unschedulable) + [Crash(n)];
    var inside := EnterRun(s, n, w, write, section);
    PanicRun(inside, n, inside.nodes[n]);
  }
}
