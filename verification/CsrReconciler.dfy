/**
 The CSR controller against the API server. A run is any list of reconciles and of things others do between them:
 CSRs are created, marked for deletion, removed, signed or conditioned by others. Any call of a reconcile may fail,
 and a failed patch or approval may still have taken effect. The object a reconcile reads is current until that
 reconcile ends, and there is one active leader; others never unset or change a certificate.
 */
module CsrReconciler {
  import opened Common
  import opened Traces
  import opened Authority
  import opened Recognizer
  import KeyUsages
  import opened Masks

  datatype Condition = Condition(approved: bool, reason: string, message: string)

  const REASON := "AutoApproved by kucero"
  const MESSAGE := "Auto approving kubelet serving certificate after SubjectAccessReview."

  datatype Csr = Csr(
    uid: nat, deleted: bool, spec: CsrSpec, certificate: Option<Certificate>, conditions: seq<Condition>)

  /** The empty object a reconcile works on when the CSR is not found. */
  const NOT_FOUND := Csr(0, false, CsrSpec("", [], "", None), None, [])

  /** What kucero did, and on which object. */
  datatype Event =
    | Reviewed(csr: Csr, allowed: bool)
    | Signed(csr: Csr, cert: Certificate)
    | Approved(csr: Csr)

  datatype World = World(store: map<string, Csr>, nextUid: nat, trace: Trace<Event>)

  /** The outcome of every call of one reconcile. */
  datatype Outcomes = Outcomes(
    getOk: bool, reviewOk: bool, allowed: bool, ca: Result<CertificateAuthority>, now: int, outside: Outside,
    patchOk: bool, patchLost: bool, approveOk: bool, approveLost: bool)
  {
    /** A successful patch is applied; a failed one may be. */
    predicate Patches() { patchOk || patchLost }
    predicate Approves() { approveOk || approveLost }
  }

  /** The decoder of PEM requests and the signer's default lifetime. */
  datatype Setup = Setup(decode: string -> Result<Request>, certTtl: int)

  /** Nothing can be decoded from no bytes. */
  ghost predicate Sound(k: Setup) {
    k.decode("") == Err
  }

  /** Signer.Sign on a CSR's own request. */
  function SignCsr(k: Setup, spec: CsrSpec, req: Request, o: Outcomes): Result<Certificate> {
    match o.ca
    case Err => Err
    case Ok(ca) => Issue(ca, o.now, req, Policy(Duration(k.certTtl, spec.expirationSeconds), spec.usages), o.outside)
  }

  // ---- One reconcile ----

  function Recorded(w: World, e: Event): World {
    w.(trace := Then(w.trace, e))
  }

  function Stored(w: World, name: string, csr: Csr): World {
    w.(store := w.store[name := csr])
  }

  function Approve(w: World, name: string, csr: Csr, o: Outcomes): World {
    if o.Approves() then
      Recorded(Stored(w, name, csr.(conditions := csr.conditions + [Condition(true, REASON, MESSAGE)])), Approved(csr))
    else w
  }

  function Finish(w: World, name: string, csr: Csr, cert: Certificate, o: Outcomes): World {
    if !o.Patches() then w
    else
      var signed := csr.(certificate := Some(cert));
      var w' := Recorded(Stored(w, name, signed), Signed(csr, cert));
      if o.patchOk then Approve(w', name, signed, o) else w'
  }

  function Reconciled(k: Setup, w: World, name: string, o: Outcomes): World {
    var csr := if name in w.store then w.store[name] else NOT_FOUND;
    if !o.getOk || csr.deleted || csr.certificate.Some? then w
    else match k.decode(csr.spec.request)
         case Err => w
         case Ok(req) =>
           if !IsNodeServingCert(csr.spec, req) || !o.reviewOk then w
           else
             var reviewed := Recorded(w, Reviewed(csr, o.allowed));
             if !o.allowed then reviewed
             else match SignCsr(k, csr.spec, req, o)
                  case Err => reviewed
                  case Ok(cert) => Finish(reviewed, name, csr, cert, o)
  }

  /** The reconcile has no business with the CSR: it is being deleted, signed, unreadable or not recognized. */
  predicate Ignores(k: Setup, csr: Csr) {
    csr.deleted || csr.certificate.Some? ||
    match k.decode(csr.spec.request) { case Err => true case Ok(req) => !IsNodeServingCert(csr.spec, req) }
  }

  /** The recognizers: there is one. */
  const RECOGNIZERS: seq<(CsrSpec, Request) -> bool> := [(s, r) => IsNodeServingCert(s, r)]

  class Controller {
    const setup: Setup
    var world: World

    constructor (setup: Setup, world: World)
      ensures this.setup == setup && this.world == world
    {
      this.setup, this.world := setup, world;
    }

    /** Reconcile; `ok` is false when it answers with an error. */
    method Reconcile(name: string, o: Outcomes) returns (ok: bool)
      modifies this
      ensures world == Reconciled(setup, old(world), name, o)
      ensures var csr := if name in old(world).store then old(world).store[name] else NOT_FOUND;
              && (o.getOk && Ignores(setup, csr) ==> ok && world == old(world))
              && (o.getOk && !Ignores(setup, csr) ==>
                    (ok <==> && o.reviewOk && o.allowed && o.patchOk && o.approveOk
                             && SignCsr(setup, csr.spec, setup.decode(csr.spec.request).value, o).Ok?))
              && (!o.getOk ==> !ok && world == old(world))
    {
      if !o.getOk { return false; }
      var csr := if name in world.store then world.store[name] else NOT_FOUND;
      if csr.deleted { return true; }
      if csr.certificate.Some? { return true; }
      var decoded := setup.decode(csr.spec.request);
      if decoded.Err? { return true; }
      var req := decoded.value;
      ghost var read := csr;
      for i := 0 to |RECOGNIZERS|
        invariant i == 0 ==> world == old(world) && csr == if name in world.store then world.store[name] else NOT_FOUND
        invariant i > 0 ==> world == Reconciled(setup, old(world), name, o)
        invariant i == 0 ==> csr == read
        invariant i > 0 && !Ignores(setup, read) ==>
                    && o.reviewOk && o.allowed && o.patchOk && o.approveOk && SignCsr(setup, read.spec, req, o).Ok?
      {
        if !RECOGNIZERS[i](csr.spec, req) { continue; }
        if !o.reviewOk { return false; }
        world := Recorded(world, Reviewed(csr, o.allowed));
        if !o.allowed { return false; }
        var signed := SignCsr(setup, csr.spec, req, o);
        if signed.Err? { return false; }
        var unsigned := csr;
        csr := csr.(certificate := Some(signed.value));
        if o.Patches() {
          world := Recorded(Stored(world, name, csr), Signed(unsigned, signed.value));
        }
        if !o.patchOk { return false; }
        var approved := csr.(conditions := csr.conditions + [Condition(true, REASON, MESSAGE)]);
        if o.Approves() {
          world := Recorded(Stored(world, name, approved), Approved(csr));
        }
        if !o.approveOk { return false; }
      }
      return true;
    }
  }

  // ---- Runs ----

  datatype Step =
    | Reconcile(name: string, outcomes: Outcomes)
    | Create(name: string, spec: CsrSpec)
    | MarkDeleted(name: string)
    | Remove(name: string)
    | OthersSign(name: string, cert: Certificate)
    | OthersCondition(name: string, conditions: seq<Condition>)

  function Apply(k: Setup, w: World, step: Step): World {
    match step
    case Reconcile(name, o) => Reconciled(k, w, name, o)
    case Create(name, spec) =>
      if name in w.store then w
      else Stored(w, name, Csr(w.nextUid, false, spec, None, [])).(nextUid := w.nextUid + 1)
    case MarkDeleted(name) => if name in w.store then Stored(w, name, w.store[name].(deleted := true)) else w
    case Remove(name) => w.(store := w.store - {name})
    case OthersSign(name, cert) =>
      if name in w.store && w.store[name].certificate.None? then
        Stored(w, name, w.store[name].(certificate := Some(cert)))
      else w
    case OthersCondition(name, conditions) =>
      if name in w.store then Stored(w, name, w.store[name].(conditions := conditions)) else w
  }

  function Run(k: Setup, w: World, steps: seq<Step>): World {
    if steps == [] then w
    else Apply(k, Run(k, w, steps[..|steps| - 1]), steps[|steps| - 1])
  }

  // ---- What every run keeps ----

  function Signings(uid: nat): Event -> bool {
    (e: Event) => e.Signed? && e.csr.uid == uid
  }

  function Approvals(uid: nat): Event -> bool {
    (e: Event) => e.Approved? && e.csr.uid == uid
  }

  function SignedCount(t: Trace<Event>, uid: nat): nat {
    Count(t, Signings(uid))
  }

  function ApprovedCount(t: Trace<Event>, uid: nat): nat {
    Count(t, Approvals(uid))
  }

  /** Neither a signing nor an approval of `uid` was added. */
  ghost predicate SameCounts(t: Trace<Event>, t': Trace<Event>, uid: nat) {
    ApprovedCount(t', uid) == ApprovedCount(t, uid) && SignedCount(t', uid) == SignedCount(t, uid)
  }

  /** `cert` is what some authority issues for the request in `spec`, and that request is recognized. */
  ghost predicate MadeFrom(k: Setup, spec: CsrSpec, cert: Certificate) {
    exists o: Outcomes ::
      && k.decode(spec.request).Ok? && IsNodeServingCert(spec, k.decode(spec.request).value)
      && SignCsr(k, spec, k.decode(spec.request).value, o) == Ok(cert)
  }

  /** Why kucero may do something after what it did before. */
  ghost predicate Justified(k: Setup, t: Trace<Event>, e: Event) {
    match e
    case Reviewed(csr, _) =>
      k.decode(csr.spec.request).Ok? && IsNodeServingCert(csr.spec, k.decode(csr.spec.request).value)
    case Signed(csr, cert) =>
      && t.Then? && t.event == Reviewed(csr, true)
      && !csr.deleted && csr.certificate.None? && MadeFrom(k, csr.spec, cert)
      && SignedCount(t, csr.uid) == 0
    case Approved(csr) =>
      && t.Then? && t.event.Signed? && csr == t.event.csr.(certificate := Some(t.event.cert))
      && ApprovedCount(t, csr.uid) == 0
  }

  ghost function Rule(k: Setup): (Trace<Event>, Event) -> bool {
    (t, e) => Justified(k, t, e)
  }

  /** Objects have uids of their own, and one that is unsigned was never signed by kucero. */
  ghost predicate StoreInv(w: World) {
    && (forall a | a in w.store :: w.store[a].uid < w.nextUid)
    && (forall a, b | a in w.store && b in w.store && a != b :: w.store[a].uid != w.store[b].uid)
    && (forall a | a in w.store && w.store[a].certificate.None? :: SignedCount(w.trace, w.store[a].uid) == 0)
  }

  ghost predicate TraceInv(w: World) {
    forall uid: nat :: ApprovedCount(w.trace, uid) <= SignedCount(w.trace, uid) &&
                  (uid >= w.nextUid ==> SignedCount(w.trace, uid) == 0)
  }

  ghost predicate Inv(k: Setup, w: World) {
    Disciplined(w.trace, Rule(k)) && StoreInv(w) && TraceInv(w)
  }

  lemma FinishKeepsInv(k: Setup, w: World, name: string, csr: Csr, cert: Certificate, o: Outcomes)
    requires Inv(k, w) && name in w.store && w.store[name] == csr && !csr.deleted && csr.certificate.None?
    requires w.trace.Then? && w.trace.event == Reviewed(csr, true) && MadeFrom(k, csr.spec, cert)
    ensures Inv(k, Finish(w, name, csr, cert, o))
  {
    if o.Patches() {
      var signed := csr.(certificate := Some(cert));
      var w' := Recorded(Stored(w, name, signed), Signed(csr, cert));
      assert SignedCount(w.trace, csr.uid) == 0 && ApprovedCount(w.trace, csr.uid) == 0;
      assert forall uid: nat ::
          SignedCount(w'.trace, uid) == SignedCount(w.trace, uid) + (if uid == csr.uid then 1 else 0);
      assert forall uid: nat :: ApprovedCount(w'.trace, uid) == ApprovedCount(w.trace, uid);
      assert Inv(k, w');
      if o.patchOk { ApproveKeepsInv(k, w', name, signed, csr, cert, o); }
    }
  }

  lemma ApproveKeepsInv(k: Setup, w: World, name: string, csr: Csr, unsigned: Csr, cert: Certificate, o: Outcomes)
    requires Inv(k, w) && name in w.store && w.store[name] == csr == unsigned.(certificate := Some(cert))
    requires w.trace.Then? && w.trace.event == Signed(unsigned, cert) && ApprovedCount(w.trace, csr.uid) == 0
    ensures Inv(k, Approve(w, name, csr, o))
  {
    if o.Approves() {
      var w' := Approve(w, name, csr, o);
      assert SignedCount(w.trace, csr.uid) >= 1;
      assert forall uid: nat :: SignedCount(w'.trace, uid) == SignedCount(w.trace, uid);
      assert forall uid: nat ::
          ApprovedCount(w'.trace, uid) == ApprovedCount(w.trace, uid) + (if uid == csr.uid then 1 else 0);
    }
  }

  lemma ReviewKeepsInv(k: Setup, w: World, csr: Csr, allowed: bool)
    requires Inv(k, w) && Justified(k, w.trace, Reviewed(csr, allowed))
    ensures Inv(k, Recorded(w, Reviewed(csr, allowed)))
  {
    var w' := Recorded(w, Reviewed(csr, allowed));
    assert forall uid: nat :: SignedCount(w'.trace, uid) == SignedCount(w.trace, uid);
    assert forall uid: nat :: ApprovedCount(w'.trace, uid) == ApprovedCount(w.trace, uid);
  }

  lemma ReconcileKeepsInv(k: Setup, w: World, name: string, o: Outcomes)
    requires Sound(k) && Inv(k, w)
    ensures Inv(k, Reconciled(k, w, name, o))
  {
    if Reconciled(k, w, name, o) != w {
      assert name in w.store;
      var csr := w.store[name];
      var req := k.decode(csr.spec.request).value;
      ReviewKeepsInv(k, w, csr, o.allowed);
      if o.allowed {
        var signed := SignCsr(k, csr.spec, req, o);
        if signed.Ok? {
          assert MadeFrom(k, csr.spec, signed.value);
          FinishKeepsInv(k, Recorded(w, Reviewed(csr, true)), name, csr, signed.value, o);
        }
      }
    }
  }

  /** Storing an object anew with its own uid, or a new one with the next, keeps what holds of the store. */
  lemma StoreKeepsInv(k: Setup, w: World, name: string, csr: Csr, nextUid: nat)
    requires Inv(k, w)
    requires if name in w.store
             then csr.uid == w.store[name].uid && nextUid == w.nextUid
             else csr.uid == w.nextUid && nextUid == w.nextUid + 1
    requires csr.certificate.None? && name in w.store ==> w.store[name].certificate.None?
    ensures Inv(k, Stored(w, name, csr).(nextUid := nextUid))
  {
  }

  lemma OthersKeepInv(k: Setup, w: World, step: Step)
    requires Inv(k, w) && !step.Reconcile?
    ensures Inv(k, Apply(k, w, step))
  {
    match step
    case Create(name, spec) =>
      if name !in w.store { StoreKeepsInv(k, w, name, Csr(w.nextUid, false, spec, None, []), w.nextUid + 1); }
    case MarkDeleted(name) =>
      if name in w.store { StoreKeepsInv(k, w, name, w.store[name].(deleted := true), w.nextUid); }
    case Remove(name) =>
    case OthersSign(name, cert) =>
      if name in w.store { StoreKeepsInv(k, w, name, w.store[name].(certificate := Some(cert)), w.nextUid); }
    case OthersCondition(name, conditions) =>
      if name in w.store { StoreKeepsInv(k, w, name, w.store[name].(conditions := conditions), w.nextUid); }
  }

  lemma StepKeepsInv(k: Setup, w: World, step: Step)
    requires Sound(k) && Inv(k, w)
    ensures Inv(k, Apply(k, w, step))
  {
    if step.Reconcile? {
      ReconcileKeepsInv(k, w, step.name, step.outcomes);
    } else {
      OthersKeepInv(k, w, step);
    }
  }

  lemma {:induction false} RunKeepsInv(k: Setup, w: World, steps: seq<Step>)
    requires Sound(k) && Inv(k, w)
    ensures Inv(k, Run(k, w, steps))
  {
    if steps != [] {
      RunKeepsInv(k, w, steps[..|steps| - 1]);
      StepKeepsInv(k, Run(k, w, steps[..|steps| - 1]), steps[|steps| - 1]);
    }
  }

  lemma {:induction false} SignedAtMostOnce(k: Setup, t: Trace<Event>, uid: nat)
    requires Disciplined(t, Rule(k))
    ensures SignedCount(t, uid) <= 1
  {
    if t.Then? { SignedAtMostOnce(k, t.before, uid); }
  }

  /** If the step signs or approves the object `uid`, it reconciles it as stored, alive and unsigned. */
  ghost predicate StepIsAbout(k: Setup, w: World, step: Step, uid: nat) {
    !SameCounts(w.trace, Apply(k, w, step).trace, uid) ==>
      && step.Reconcile? && step.name in w.store && w.store[step.name].uid == uid
      && !w.store[step.name].deleted && w.store[step.name].certificate.None?
  }

  lemma StepSignsStored(k: Setup, w: World, step: Step, uid: nat)
    requires Sound(k)
    ensures StepIsAbout(k, w, step, uid)
  {
    if step.Reconcile? { ReconcileFrame(k, w, step.name, step.outcomes); }
  }

  /** A world kucero has not acted in. */
  ghost predicate Initial(w: World) {
    w.trace.Nothing? && StoreInv(w)
  }

  /**
   Over every run, for every CSR and at every moment: kucero sets a certificate at most once and approves at most
   once; what it approves already carries a certificate it set just before, made from the CSR's own request, which
   was recognized and allowed by the access review just before that; and the step that signs or approves is a
   reconcile of a CSR that is stored at that moment, not marked for deletion and not signed.
   */
  lemma {:induction false} ReconcileSafety(k: Setup, w: World, steps: seq<Step>, moment: Trace<Event>, uid: nat)
    requires Sound(k) && Initial(w)
    ensures var t := Run(k, w, steps).trace;
            && SignedCount(t, uid) <= 1 && ApprovedCount(t, uid) <= SignedCount(t, uid)
            && (steps != [] ==> StepIsAbout(k, Run(k, w, steps[..|steps| - 1]), steps[|steps| - 1], uid))
            && (Extends(t, moment) && moment.Then? && moment.event.Signed? ==>
                  && !moment.event.csr.deleted && moment.event.csr.certificate.None?
                  && MadeFrom(k, moment.event.csr.spec, moment.event.cert)
                  && moment.before.Then? && moment.before.event == Reviewed(moment.event.csr, true))
            && (Extends(t, moment) && moment.Then? && moment.event.Approved? ==>
                  && moment.before.Then? && moment.before.event.Signed?
                  && moment.event.csr == moment.before.event.csr.(certificate := Some(moment.before.event.cert))
                  && MadeFrom(k, moment.event.csr.spec, moment.before.event.cert)
                  && moment.before.before.Then?
                  && moment.before.before.event == Reviewed(moment.before.event.csr, true))
  {
    RunKeepsInv(k, w, steps);
    var t := Run(k, w, steps).trace;
    SignedAtMostOnce(k, t, uid);
    if steps != [] {
      RunKeepsInv(k, w, steps[..|steps| - 1]);
      StepSignsStored(k, Run(k, w, steps[..|steps| - 1]), steps[|steps| - 1], uid);
    }
    if Extends(t, moment) && moment.Then? {
      DisciplinedThroughout(t, moment, Rule(k));
      if moment.event.Approved? {
        ExtendsBefore(t, moment);
        DisciplinedThroughout(t, moment.before, Rule(k));
      }
    }
  }

  /** Every call of a reconcile that decides on a signing succeeds for the CSR named, which is its business. */
  predicate Signable(k: Setup, w: World, name: string, o: Outcomes) {
    && name in w.store && o.getOk && !Ignores(k, w.store[name]) && o.reviewOk && o.allowed
    && SignCsr(k, w.store[name].spec, k.decode(w.store[name].spec.request).value, o).Ok?
  }

  /** The certificate and the approval are the only things a reconcile may add to a CSR. */
  predicate Augmented(csr: Csr, csr': Csr) {
    && csr' == csr.(certificate := csr'.certificate, conditions := csr'.conditions)
    && (csr.certificate.Some? || csr.deleted || csr'.certificate.None? ==> csr' == csr)
    && (csr'.conditions == csr.conditions || csr'.conditions == csr.conditions + [
          Condition(true, "AutoApproved by kucero",
                    "Auto approving kubelet serving certificate after SubjectAccessReview.")])
  }

  /**
   What one reconcile may do. To the store: nothing but the named CSR changes; of that, only an absent certificate
   is set and only one condition, the approval, is appended, never without the certificate. To the trace: a missing
   CSR leaves it alone, and whatever is added is about the CSR as stored.
   */
  lemma ReconcileFrame(k: Setup, w: World, name: string, o: Outcomes)
    requires Sound(k)
    ensures var w' := Reconciled(k, w, name, o);
            && w'.store.Keys == w.store.Keys && w'.nextUid == w.nextUid
            && (forall a | a in w.store && a != name :: w'.store[a] == w.store[a])
            && (name in w.store ==> Augmented(w.store[name], w'.store[name]))
            && (name !in w.store ==> w' == w)
            && (forall uid :: !SameCounts(w.trace, w'.trace, uid) ==> name in w.store && w.store[name].uid == uid)
  {
    forall uid | name in w.store ==> w.store[name].uid != uid
      ensures SameCounts(w.trace, Reconciled(k, w, name, o).trace, uid)
    {
      TouchesOne(k, w, name, o, uid);
    }
  }

  lemma TouchesOne(k: Setup, w: World, name: string, o: Outcomes, uid: nat)
    requires Sound(k) && (name in w.store ==> w.store[name].uid != uid)
    ensures SameCounts(w.trace, Reconciled(k, w, name, o).trace, uid)
  {
    if Reconciled(k, w, name, o) != w {
      var csr := w.store[name];
      var reviewed := Recorded(w, Reviewed(csr, o.allowed));
      assert SameCounts(w.trace, reviewed.trace, uid);
      var signed := SignCsr(k, csr.spec, k.decode(csr.spec.request).value, o);
      if o.allowed && signed.Ok? { FinishTouchesOne(reviewed, name, csr, signed.value, o, uid); }
    }
  }

  /**
   Exactly when one reconcile signs and approves: it sets the certificate it signed when every call up to the
   signing succeeds and the patch takes effect, and approves when, besides, the patch is known to have succeeded and
   the approval takes effect.
   */
  lemma SignsIff(k: Setup, w: World, name: string, o: Outcomes)
    requires Sound(k) && name in w.store
    ensures var uid, spec := w.store[name].uid, w.store[name].spec;
            var w' := Reconciled(k, w, name, o);
            var signs := Signable(k, w, name, o) && o.Patches();
            && SignedCount(w'.trace, uid) == SignedCount(w.trace, uid) + (if signs then 1 else 0)
            && ApprovedCount(w'.trace, uid) ==
               ApprovedCount(w.trace, uid) + (if signs && o.patchOk && o.Approves() then 1 else 0)
            && (signs ==> w'.store[name].certificate == Some(SignCsr(k, spec, k.decode(spec.request).value, o).value))
            && (w'.store[name].conditions != w.store[name].conditions <==> signs && o.patchOk && o.Approves())
  {
    var csr := w.store[name];
    assert SameCounts(w.trace, Recorded(w, Reviewed(csr, o.allowed)).trace, csr.uid);
    if Signable(k, w, name, o) {
      var cert := SignCsr(k, csr.spec, k.decode(csr.spec.request).value, o).value;
      FinishCounts(Recorded(w, Reviewed(csr, true)), name, csr, cert, o);
    }
  }

  /**
   The dates of a certificate that a reconcile sets: it starts a backdate ago, and ends with the lifetime that the CSR
   asked for, or with the authority if that ends earlier.
   */
  lemma SignedDates(k: Setup, w: World, name: string, o: Outcomes)
    requires Sound(k) && Signable(k, w, name, o) && o.Patches() && k.certTtl >= 10 * MINUTE
    ensures var w' := Reconciled(k, w, name, o);
            && o.ca.Ok? && name in w'.store && w'.store[name].certificate.Some?
            && var cert := w'.store[name].certificate.value;
            && cert.notBefore == o.now - o.ca.value.backdate && cert.issuer == o.ca.value.rawCert
            && cert.serial == o.outside.serial && o.now < o.ca.value.notAfter
            && exists ttl :: Lifetime(k.certTtl, w.store[name].spec.expirationSeconds, ttl) &&
                             cert.notAfter == Min(cert.notBefore + ttl, o.ca.value.notAfter)
  {
    SignsIff(k, w, name, o);
    var spec := w.store[name].spec;
    LifetimeOf(k.certTtl, spec.expirationSeconds);
    assert SignCsr(k, spec, k.decode(spec.request).value, o).Ok?;
  }

  lemma FinishCounts(w: World, name: string, csr: Csr, cert: Certificate, o: Outcomes)
    ensures var w' := Finish(w, name, csr, cert, o);
            && SignedCount(w'.trace, csr.uid) == SignedCount(w.trace, csr.uid) + (if o.Patches() then 1 else 0)
            && ApprovedCount(w'.trace, csr.uid) ==
               ApprovedCount(w.trace, csr.uid) + (if o.patchOk && o.Approves() then 1 else 0)
  {
    var signed := Then(w.trace, Signed(csr, cert));
    assert Count(signed, Signings(csr.uid)) == SignedCount(w.trace, csr.uid) + 1;
    assert Count(signed, Approvals(csr.uid)) == ApprovedCount(w.trace, csr.uid);
  }

  /** Every certificate kucero sets is a serving certificate for the CSR's user, and no more than that. */
  lemma SignedIsServing(k: Setup, spec: CsrSpec, cert: Certificate)
    requires MadeFrom(k, spec, cert)
    ensures !cert.isCA && cert.extensions == [] && cert.extraExtensions == []
    ensures HasPrefix(spec.username, "system:node:") && cert.subject == Subject(spec.username, ["system:nodes"])
    ensures var req := k.decode(spec.request).value;
            && cert.dnsNames == req.dnsNames && cert.ipAddresses == req.ipAddresses
            && cert.emailAddresses == req.emailAddresses && cert.uris == req.uris
    ensures cert.publicKey == k.decode(spec.request).value.publicKey
    ensures BitsOf(cert.keyUsage) <= BitsOf(SERVING_MASK)
    ensures forall e | e in cert.extKeyUsage :: e == KeyUsages.EXT_SERVER_AUTH
    ensures cert.keyUsage == SERVING_MASK && cert.extKeyUsage == [KeyUsages.EXT_SERVER_AUTH] <==> NoRepeats(spec.usages)
  {
    var o: Outcomes :| SignCsr(k, spec, k.decode(spec.request).value, o) == Ok(cert);
    var ttl := Duration(k.certTtl, spec.expirationSeconds);
    RecognizedCertificate(spec, k.decode(spec.request).value, o.ca.value, o.now, ttl, o.outside);
  }

  /** Approval happens in the reconcile that signs, or never: later runs leave a signed CSR as it is. */
  lemma {:induction false} ApprovedThenOrNever(k: Setup, w: World, steps: seq<Step>, uid: nat)
    requires Sound(k) && Inv(k, w) && SignedCount(w.trace, uid) > 0
    ensures var t := Run(k, w, steps).trace;
            ApprovedCount(t, uid) == ApprovedCount(w.trace, uid) && SignedCount(t, uid) == SignedCount(w.trace, uid)
  {
    if steps != [] {
      var init, step := steps[..|steps| - 1], steps[|steps| - 1];
      ApprovedThenOrNever(k, w, init, uid);
      RunKeepsInv(k, w, init);
      if step.Reconcile? && Apply(k, Run(k, w, init), step) != Run(k, w, init) {
        TouchesOne(k, Run(k, w, init), step.name, step.outcomes, uid);
      }
    }
  }

  /**
   Exactly when approval follows: for a CSR not signed before, over every later run, the CSR is approved, once, if and
   only if the signing reconcile knew that its patch succeeded and its approval took effect. Otherwise it stays signed
   and unapproved whatever happens.
   */
  lemma ApprovedIff(k: Setup, w: World, name: string, o: Outcomes, steps: seq<Step>)
    requires Sound(k) && Inv(k, w) && Signable(k, w, name, o) && o.Patches()
    ensures var uid := w.store[name].uid;
            var t := Run(k, Reconciled(k, w, name, o), steps).trace;
            && SignedCount(t, uid) == 1
            && ApprovedCount(t, uid) == if o.patchOk && o.Approves() then 1 else 0
  {
    var uid := w.store[name].uid;
    SignsIff(k, w, name, o);
    ReconcileKeepsInv(k, w, name, o);
    ApprovedThenOrNever(k, Reconciled(k, w, name, o), steps, uid);
  }

  /**
   Such CSRs are reachable: create any CSR that is recognized, and let the access review, the signing and the patch
   succeed and the approval fail. In every continuation the CSR was signed by kucero and never approved by it.
   */
  lemma StuckUnapproved(k: Setup, name: string, spec: CsrSpec, o: Outcomes, steps: seq<Step>)
    requires Sound(k) && k.decode(spec.request).Ok? && IsNodeServingCert(spec, k.decode(spec.request).value)
    requires o.getOk && o.reviewOk && o.allowed && SignCsr(k, spec, k.decode(spec.request).value, o).Ok?
    requires o.patchOk && !o.approveOk && !o.approveLost
    ensures var start := World(map[], 0, Nothing);
            var run := Run(k, Run(k, start, [Create(name, spec), Reconcile(name, o)]), steps);
            Initial(start) && SignedCount(run.trace, 0) == 1 && ApprovedCount(run.trace, 0) == 0
  {
    var start := World(map[], 0, Nothing);
    var created := Apply(k, start, Create(name, spec));
    var two := [Create(name, spec), Reconcile(name, o)];
    assert two[..1] == [Create(name, spec)] && [Create(name, spec)][..0] == [];
    assert Run(k, start, []) == start && Run(k, start, two[..1]) == created;
    assert Run(k, start, two) == Reconciled(k, created, name, o);
    RunKeepsInv(k, start, two[..1]);
    ApprovedIff(k, created, name, o, steps);
  }

  /** The hypotheses of `StuckUnapproved` can be met. */
  lemma StuckIsPossible()
    ensures exists k: Setup, spec: CsrSpec, o: Outcomes ::
              && Sound(k) && k.decode(spec.request).Ok? && IsNodeServingCert(spec, k.decode(spec.request).value)
              && o.getOk && o.reviewOk && o.allowed && SignCsr(k, spec, k.decode(spec.request).value, o).Ok?
              && o.patchOk && !o.approveOk && !o.approveLost
  {
    var user := "system:node:" + "a";
    var spec := CsrSpec("pem", KUBELET_SERVER_USAGES, user, None);
    var req := Request(Subject(user, ["system:nodes"]), ["a"], ["10.0.0.1"], [], [], "key", [], []);
    var k := Setup(text => if text == "" then Err else Ok(req), MIN_TTL);
    var ca := CertificateAuthority("cert", "key", 1, "key", BACKDATE);
    var o := Outcomes(true, true, true, Ok(ca), 0, Outside(true, true, true, true, 1), true, false, false, false);
    forall u | u in spec.usages ensures KeyUsages.Recognized(u) { ServingUsage(u); }
    assert k.decode(spec.request) == Ok(req) && IsNodeServingCert(spec, req);
    assert SignCsr(k, spec, req, o).Ok?;
  }

  lemma FinishTouchesOne(w: World, name: string, csr: Csr, cert: Certificate, o: Outcomes, uid: nat)
    requires csr.uid != uid
    ensures SameCounts(w.trace, Finish(w, name, csr, cert, o).trace, uid)
  {
    assert SameCounts(w.trace, Then(w.trace, Signed(csr, cert)), uid);
  }
}
