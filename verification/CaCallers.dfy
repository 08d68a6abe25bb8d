/**
 Interleaved callers of the reloadable certificate authority: any number of calls of `currentCA` whose reads of the
 loader and loads and stores of the cell happen in any order, while the loader's content changes. What is always true
 of an answer, and exactly when an answer may be older than the call.
 */
module CaCallers {
  import opened Common
  import opened Authority
  import opened CaProvider

  /** A caller of `currentCA` between two of its atomic accesses. `since` is the loader's position at the start. */
  datatype Caller =
    | Resting
    | HasRead(since: nat, seen: Snapshot)
    | MustSet(since: nat)
    | HasReread(since: nat, seen: Snapshot)
    | HasStored(since: nat, own: CertificateAuthority)
    | Answered(since: nat, ca: CertificateAuthority)
    | Failed(since: nat)
  {
    predicate Idle() {
      Resting? || Answered? || Failed?
    }
  }

  datatype World = World(held: seq<Snapshot>, cell: CertificateAuthority, callers: map<nat, Caller>)

  datatype Access = Change(s: Snapshot) | Next(id: nat)

  /** The bytes of an authority are those of a pair. */
  predicate Same(ca: CertificateAuthority, s: Snapshot) {
    ca.rawCert == s.certPem && ca.rawKey == s.keyPem
  }

  function Present(w: World): Snapshot
    requires |w.held| > 0
  {
    w.held[|w.held| - 1]
  }

  function NextAccess(parse: Parsers, w: World, c: Caller): (CertificateAuthority, Caller)
    requires |w.held| > 0
  {
    match c
    case HasRead(since, seen) =>
      (w.cell, if Same(w.cell, seen) then Answered(since, w.cell) else MustSet(since))
    case MustSet(since) => (w.cell, HasReread(since, Present(w)))
    case HasReread(since, seen) =>
      (match Build(parse, seen)
       case None => (w.cell, Failed(since))
       case Some(ca) => (ca, HasStored(since, ca)))
    case HasStored(since, own) => (w.cell, Answered(since, w.cell))
    case _ => (w.cell, HasRead(|w.held| - 1, Present(w)))
  }

  function Do(parse: Parsers, w: World, a: Access): World
    requires |w.held| > 0
  {
    match a
    case Change(s) => w.(held := w.held + [s])
    case Next(id) =>
      if id !in w.callers then w
      else
        var (cell, c) := NextAccess(parse, w, w.callers[id]);
        w.(cell := cell, callers := w.callers[id := c])
  }

  function DoAll(parse: Parsers, w: World, accesses: seq<Access>): (w': World)
    requires |w.held| > 0
    ensures |w'.held| > 0
  {
    if accesses == [] then w
    else Do(parse, DoAll(parse, w, accesses[..|accesses| - 1]), accesses[|accesses| - 1])
  }

  ghost predicate CallerInv(parse: Parsers, held: seq<Snapshot>, c: Caller)
    requires InRange(held, c)
  {
    match c
    case Resting => true
    case HasRead(since, seen) => seen in held[since..]
    case MustSet(since) => since < |held|
    case HasReread(since, seen) => seen in held[since..]
    case HasStored(since, own) => BuiltSince(parse, own, held, since)
    case Answered(since, ca) => BuiltSince(parse, ca, held, 0)
    case Failed(since) => true
  }

  ghost predicate InRange(held: seq<Snapshot>, c: Caller) {
    !c.Resting? ==> c.since < |held|
  }

  ghost predicate WorldInv(parse: Parsers, w: World) {
    && |w.held| > 0 && BuiltSince(parse, w.cell, w.held, 0)
    && forall id | id in w.callers :: InRange(w.held, w.callers[id]) && CallerInv(parse, w.held, w.callers[id])
  }

  lemma BuiltFromMember(
    parse: Parsers, ca: CertificateAuthority, held: seq<Snapshot>, from: nat, s: Snapshot)
    requires from <= |held| && s in held[from..] && Build(parse, s) == Some(ca)
    ensures BuiltSince(parse, ca, held, from) && BuiltSince(parse, ca, held, 0)
  {
    var k :| 0 <= k < |held[from..]| && held[from..][k] == s;
    assert held[from + k] == s;
  }

  lemma ChangeKeeps(parse: Parsers, held: seq<Snapshot>, s: Snapshot, c: Caller)
    requires InRange(held, c) && CallerInv(parse, held, c)
    ensures InRange(held + [s], c) && CallerInv(parse, held + [s], c)
  {
    if !c.Resting? {
      assert (held + [s])[c.since..] == held[c.since..] + [s];
      assert forall i | 0 <= i < |held| :: (held + [s])[i] == held[i];
    }
  }

  lemma NextKeeps(parse: Parsers, w: World, c: Caller)
    requires |w.held| > 0 && BuiltSince(parse, w.cell, w.held, 0) && InRange(w.held, c) && CallerInv(parse, w.held, c)
    ensures var (cell, c') := NextAccess(parse, w, c);
            BuiltSince(parse, cell, w.held, 0) && InRange(w.held, c') && CallerInv(parse, w.held, c')
  {
    var n := |w.held| - 1;
    match c
    case HasRead(since, seen) =>
      if Same(w.cell, seen) {
        SameBytes(parse, w.cell, w.held, seen);
        BuiltFromMember(parse, w.cell, w.held, since, seen);
      }
    case MustSet(since) => assert w.held[since..][n - since] == w.held[n];
    case HasReread(since, seen) =>
      if Build(parse, seen).Some? { BuiltFromMember(parse, Build(parse, seen).value, w.held, since, seen); }
    case HasStored(since, own) =>
    case _ => assert w.held[n..][0] == w.held[n];
  }

  lemma DoKeeps(parse: Parsers, w: World, a: Access)
    requires WorldInv(parse, w)
    ensures WorldInv(parse, Do(parse, w, a))
  {
    match a
    case Change(s) =>
      var i :| 0 <= i < |w.held| && Build(parse, w.held[i]) == Some(w.cell);
      assert (w.held + [s])[i] == w.held[i];
      forall id | id in w.callers { ChangeKeeps(parse, w.held, s, w.callers[id]); }
    case Next(id) =>
      if id in w.callers { NextKeeps(parse, w, w.callers[id]); }
  }

  /**
   Under any interleaving of any number of callers with loader changes, the stored authority, and every authority
   answered, is made from a single past cert/key pair with exactly one certificate.
   */
  lemma {:induction false} AlwaysOneSnapshot(parse: Parsers, w: World, accesses: seq<Access>, id: nat)
    requires |w.held| > 0 && BuiltSince(parse, w.cell, w.held, 0)
    requires forall i | i in w.callers :: w.callers[i].Resting?
    ensures var w' := DoAll(parse, w, accesses);
            && WorldInv(parse, w')
            && (exists s | s in w'.held ::
                  Build(parse, s) == Some(w'.cell) && parse.certs(s.certPem).Ok? && |parse.certs(s.certPem).value| == 1)
            && StandsFor(parse, w'.cell)
            && (id in w'.callers && w'.callers[id].Answered? ==>
                  BuiltSince(parse, w'.callers[id].ca, w'.held, 0) && StandsFor(parse, w'.callers[id].ca))
  {
    if accesses != [] {
      var init := accesses[..|accesses| - 1];
      AlwaysOneSnapshot(parse, w, init, id);
      DoKeeps(parse, DoAll(parse, w, init), accesses[|accesses| - 1]);
    }
    var w' := DoAll(parse, w, accesses);
    var i :| 0 <= i < |w'.held| && Build(parse, w'.held[i]) == Some(w'.cell);
    assert w'.held[i] in w'.held;
    BuiltStandsFor(parse, w'.cell, w'.held, 0);
    if id in w'.callers && w'.callers[id].Answered? { BuiltStandsFor(parse, w'.callers[id].ca, w'.held, 0); }
  }

  // ---- When an interleaved caller may be answered with a pair given up before its call ----

  predicate Buildable(parse: Parsers, s: Snapshot) {
    Build(parse, s).Some?
  }

  /** Starting with its first read at `w`, a call of `c` is answered with a pair the loader held only before. */
  ghost predicate AnswersStale(parse: Parsers, w: World, c: nat, accesses: seq<Access>)
    requires |w.held| > 0
  {
    var w' := DoAll(parse, w, [Next(c)] + accesses);
    var start := |w.held| - 1;
    && c in w'.callers && w'.callers[c].Answered? && w'.callers[c].since == start
    && !BuiltSince(parse, w'.callers[c].ca, w'.held, start)
  }

  /** Another caller is about to store a usable pair which the loader no longer holds. */
  predicate Stale(parse: Parsers, w: World, c: nat, d: nat)
    requires |w.held| > 0
  {
    && d in w.callers && d != c && w.callers[d].HasReread?
    && Buildable(parse, w.callers[d].seen) && w.callers[d].seen != Present(w)
  }

  /**
   What exposes a call that starts now: a stale store is pending, and the call can be made to reload, which it does
   anyway when the cell disagrees with the loader and something can be loaded; when the cell agrees, it takes a third
   caller who stores first, either a stale pair too or a third usable pair the loader turns to.
   */
  ghost predicate Exposed(parse: Parsers, w: World, c: nat)
    requires |w.held| > 0
  {
    exists d | Stale(parse, w, c, d) ::
      if Same(w.cell, Present(w)) then
        exists e | e in w.callers && e != c && e != d ::
          || Stale(parse, w, c, e)
          || exists s :: Buildable(parse, s) && s != Present(w) && s != w.callers[d].seen
      else exists s :: Buildable(parse, s) && s != w.callers[d].seen
  }

  // ---- Calls that are not exposed ----

  lemma BuildIsInjective(parse: Parsers, a: Snapshot, b: Snapshot)
    requires Buildable(parse, a) && Build(parse, a) == Build(parse, b)
    ensures a == b
  {
  }

  lemma StillBuilt(
    parse: Parsers, ca: CertificateAuthority, held: seq<Snapshot>, s: Snapshot, from: nat)
    requires BuiltSince(parse, ca, held, from)
    ensures BuiltSince(parse, ca, held + [s], from)
  {
    var i :| from <= i < |held| && Build(parse, held[i]) == Some(ca);
    assert (held + [s])[i] == held[i];
  }

  /** What a caller is about to store was read from position `p` on. */
  ghost predicate Recent(parse: Parsers, held: seq<Snapshot>, x: Caller, p: nat)
    requires p < |held|
  {
    x.HasReread? && Buildable(parse, x.seen) ==> x.seen in held[p..]
  }

  /** The call of `c` that began at position `p`, or a later one, is under way or over, and so far not stale. */
  ghost predicate Begun(parse: Parsers, w: World, c: nat, p: nat) {
    && WorldInv(parse, w) && p < |w.held| && c in w.callers && !w.callers[c].Resting? && p <= w.callers[c].since
    && (w.callers[c].Answered? && w.callers[c].since == p ==> BuiltSince(parse, w.callers[c].ca, w.held, p))
  }

  /** Nothing stale is pending, and what `c` will load after its store is not stale. */
  ghost predicate Clear(parse: Parsers, w: World, c: nat, p: nat)
    requires Begun(parse, w, c, p)
  {
    && (forall x | x in w.callers :: Recent(parse, w.held, w.callers[x], p))
    && (w.callers[c].HasStored? ==> BuiltSince(parse, w.cell, w.held, p))
  }

  lemma ReadSince(parse: Parsers, held: seq<Snapshot>, c: Caller, p: nat)
    requires InRange(held, c) && CallerInv(parse, held, c) && (c.HasRead? || c.HasReread?) && p <= c.since
    ensures c.seen in held[p..]
  {
    var k :| 0 <= k < |held[c.since..]| && held[c.since..][k] == c.seen;
    assert held[p..][c.since - p + k] == c.seen;
  }

  lemma PresentSince(w: World, p: nat)
    requires p < |w.held|
    ensures Present(w) in w.held[p..]
  {
    assert w.held[p..][|w.held| - 1 - p] == Present(w);
  }

  /** A caller that finds the bytes it has read is answered with a pair of its own time. */
  lemma MatchIsRecent(parse: Parsers, w: World, c: nat, p: nat)
    requires Begun(parse, w, c, p) && w.callers[c].HasRead? && Same(w.cell, w.callers[c].seen)
    ensures BuiltSince(parse, w.cell, w.held, p)
  {
    SameBytes(parse, w.cell, w.held, w.callers[c].seen);
    ReadSince(parse, w.held, w.callers[c], p);
    BuiltFromMember(parse, w.cell, w.held, p, w.callers[c].seen);
  }

  lemma ChangeKeepsBegun(parse: Parsers, w: World, s: Snapshot, c: nat, p: nat)
    requires Begun(parse, w, c, p)
    ensures var w' := Do(parse, w, Change(s));
            && Begun(parse, w', c, p)
            && (BuiltSince(parse, w.cell, w.held, p) ==> BuiltSince(parse, w'.cell, w'.held, p))
            && (forall x: Caller | Recent(parse, w.held, x, p) :: Recent(parse, w'.held, x, p))
  {
    DoKeeps(parse, w, Change(s));
    if w.callers[c].Answered? && w.callers[c].since == p { StillBuilt(parse, w.callers[c].ca, w.held, s, p); }
    if BuiltSince(parse, w.cell, w.held, p) { StillBuilt(parse, w.cell, w.held, s, p); }
    assert (w.held + [s])[p..] == w.held[p..] + [s];
  }

  /** The next access of the caller keeps its call begun, provided that a load after a store finds nothing stale. */
  lemma OwnNextKeepsBegun(parse: Parsers, w: World, c: nat, p: nat)
    requires Begun(parse, w, c, p) && WorldInv(parse, Do(parse, w, Next(c)))
    requires w.callers[c].HasStored? && w.callers[c].since == p ==> BuiltSince(parse, w.cell, w.held, p)
    ensures Begun(parse, Do(parse, w, Next(c)), c, p)
  {
    if w.callers[c].HasRead? && Same(w.cell, w.callers[c].seen) { MatchIsRecent(parse, w, c, p); }
  }

  lemma NextKeepsBegun(parse: Parsers, w: World, id: nat, c: nat, p: nat)
    requires Begun(parse, w, c, p)
    requires id == c && w.callers[c].HasStored? && w.callers[c].since == p ==> BuiltSince(parse, w.cell, w.held, p)
    ensures Begun(parse, Do(parse, w, Next(id)), c, p)
  {
    DoKeeps(parse, w, Next(id));
    if id == c { OwnNextKeepsBegun(parse, w, c, p); }
  }

  lemma NextKeepsRecent(parse: Parsers, w: World, id: nat, p: nat)
    requires p < |w.held| && id in w.callers
    ensures Recent(parse, w.held, NextAccess(parse, w, w.callers[id]).1, p)
  {
    PresentSince(w, p);
  }

  lemma ClearStep(parse: Parsers, w: World, a: Access, c: nat, p: nat)
    requires Begun(parse, w, c, p) && Clear(parse, w, c, p)
    ensures var w' := Do(parse, w, a);
            Begun(parse, w', c, p) && Clear(parse, w', c, p)
  {
    match a
    case Change(s) => ChangeKeepsBegun(parse, w, s, c, p);
    case Next(id) =>
      NextKeepsBegun(parse, w, id, c, p);
      if id in w.callers {
        NextKeepsRecent(parse, w, id, p);
        var x := w.callers[id];
        assert Recent(parse, w.held, x, p);
        if x.HasReread? && Buildable(parse, x.seen) {
          BuiltFromMember(parse, Build(parse, x.seen).value, w.held, p, x.seen);
        }
      }
  }

  /**
   The cell agrees with the pair `c` has read, and nobody but `d` can store anything else that is usable, unless the
   loader turns to it.
   */
  ghost predicate Guarded(parse: Parsers, w: World, c: nat, d: nat, p: nat)
    requires Begun(parse, w, c, p)
  {
    && (w.callers[c] == HasRead(p, w.held[p]) || (w.callers[c].Answered? && w.callers[c].since == p))
    && Build(parse, w.held[p]) == Some(w.cell)
    && d in w.callers && d != c && w.callers[d].HasReread?
    && (forall x | x in w.callers && x != d :: Recent(parse, w.held, w.callers[x], p))
    && (forall x | x in w.callers && x != c && x != d ::
          forall s | Buildable(parse, s) :: s == w.held[p] || s == w.callers[d].seen)
  }

  /** `c` is in a later call than the one that began at `p`. */
  ghost predicate Passed(parse: Parsers, w: World, c: nat, p: nat)
    requires Begun(parse, w, c, p)
  {
    p < w.callers[c].since
  }

  lemma PassedStep(parse: Parsers, w: World, a: Access, c: nat, p: nat)
    requires Begun(parse, w, c, p) && Passed(parse, w, c, p)
    ensures var w' := Do(parse, w, a);
            Begun(parse, w', c, p) && Passed(parse, w', c, p)
  {
    match a
    case Change(s) => ChangeKeepsBegun(parse, w, s, c, p);
    case Next(id) => NextKeepsBegun(parse, w, id, c, p);
  }

  lemma GuardedStep(parse: Parsers, w: World, a: Access, c: nat, d: nat, p: nat)
    requires Begun(parse, w, c, p) && Guarded(parse, w, c, d, p)
    ensures var w' := Do(parse, w, a);
            && Begun(parse, w', c, p)
            && (Guarded(parse, w', c, d, p) || Clear(parse, w', c, p) || Passed(parse, w', c, p))
  {
    match a
    case Change(s) => ChangeKeepsBegun(parse, w, s, c, p);
    case Next(id) =>
      NextKeepsBegun(parse, w, id, c, p);
      if id in w.callers {
        NextKeepsRecent(parse, w, id, p);
        if id == c {
          GuardedOwnStep(parse, w, c, d, p);
        } else if id == d {
          assert Clear(parse, Do(parse, w, a), c, p);
        } else {
          GuardedOtherStep(parse, w, id, c, d, p);
        }
      }
  }

  lemma GuardedOwnStep(parse: Parsers, w: World, c: nat, d: nat, p: nat)
    requires Begun(parse, w, c, p) && Guarded(parse, w, c, d, p) && Begun(parse, Do(parse, w, Next(c)), c, p)
    ensures var w' := Do(parse, w, Next(c));
            Guarded(parse, w', c, d, p) || Passed(parse, w', c, p)
  {
    var w' := Do(parse, w, Next(c));
    assert w.callers[c].HasRead? ==> Same(w.cell, w.callers[c].seen);
    if w'.callers[c].since == p {
      GuardedKeeps(parse, w, w', c, c, d, p);
    }
  }

  lemma GuardedOtherStep(parse: Parsers, w: World, id: nat, c: nat, d: nat, p: nat)
    requires Begun(parse, w, c, p) && Guarded(parse, w, c, d, p) && Begun(parse, Do(parse, w, Next(id)), c, p)
    requires id in w.callers && id != c && id != d
    requires Recent(parse, w.held, NextAccess(parse, w, w.callers[id]).1, p)
    ensures var w' := Do(parse, w, Next(id));
            Guarded(parse, w', c, d, p) || Clear(parse, w', c, p)
  {
    var x, w' := w.callers[id], Do(parse, w, Next(id));
    if x.HasReread? && Buildable(parse, x.seen) && x.seen != w.held[p] {
      assert Recent(parse, w.held, x, p) && x.seen == w.callers[d].seen;
      GuardFalls(parse, w, w', id, c, d, p);
    } else {
      assert w'.cell == w.cell;
      GuardedKeeps(parse, w, w', id, c, d, p);
    }
  }

  /** Once the pair that `d` will store is held again, nothing stale is left. */
  lemma GuardFalls(parse: Parsers, w: World, w': World, id: nat, c: nat, d: nat, p: nat)
    requires Begun(parse, w, c, p) && Guarded(parse, w, c, d, p) && Begun(parse, w', c, p)
    requires id != c && w'.held == w.held && id in w'.callers && w'.callers == w.callers[id := w'.callers[id]]
    requires Recent(parse, w.held, w'.callers[id], p) && Recent(parse, w.held, w.callers[d], p)
    ensures Clear(parse, w', c, p)
  {
    forall y | y in w'.callers ensures Recent(parse, w'.held, w'.callers[y], p) {
      assert y != id && y != d ==> Recent(parse, w.held, w.callers[y], p);
    }
  }

  /** A caller other than `d` that leaves the cell alone leaves the guard in place. */
  lemma GuardedKeeps(parse: Parsers, w: World, w': World, id: nat, c: nat, d: nat, p: nat)
    requires Begun(parse, w, c, p) && Guarded(parse, w, c, d, p) && Begun(parse, w', c, p)
    requires id in w.callers && id != d && w'.held == w.held && w'.cell == w.cell && id in w'.callers
    requires w'.callers == w.callers[id := w'.callers[id]] && Recent(parse, w.held, w'.callers[id], p)
    requires w'.callers[c] == HasRead(p, w.held[p]) || (w'.callers[c].Answered? && w'.callers[c].since == p)
    ensures Guarded(parse, w', c, d, p)
  {
    forall y | y in w'.callers && y != d ensures Recent(parse, w'.held, w'.callers[y], p) {
      assert y != id ==> Recent(parse, w.held, w.callers[y], p);
    }
    assert forall y | y in w'.callers :: y in w.callers;
  }

  /** Only one pair is usable at all. */
  ghost predicate OneUsable(parse: Parsers) {
    forall a, b | Buildable(parse, a) && Buildable(parse, b) :: a == b
  }

  lemma OneUsableStep(parse: Parsers, w: World, a: Access, c: nat, p: nat)
    requires Begun(parse, w, c, p) && OneUsable(parse)
    ensures Begun(parse, Do(parse, w, a), c, p)
  {
    match a
    case Change(s) => ChangeKeepsBegun(parse, w, s, c, p);
    case Next(id) =>
      if w.callers[c].HasStored? {
        var i :| w.callers[c].since <= i < |w.held| && Build(parse, w.held[i]) == Some(w.callers[c].own);
        var j :| 0 <= j < |w.held| && Build(parse, w.held[j]) == Some(w.cell);
        assert Buildable(parse, w.held[i]) && Buildable(parse, w.held[j]);
        assert Build(parse, w.held[i]) == Some(w.cell);
      }
      NextKeepsBegun(parse, w, id, c, p);
  }

  /** What keeps a call from being answered with a stale pair. */
  ghost predicate Sheltered(parse: Parsers, w: World, c: nat, d: nat, p: nat) {
    && Begun(parse, w, c, p)
    && (OneUsable(parse) || Clear(parse, w, c, p) || Guarded(parse, w, c, d, p) || Passed(parse, w, c, p))
  }

  lemma ShelteredStep(parse: Parsers, w: World, a: Access, c: nat, d: nat, p: nat)
    requires Sheltered(parse, w, c, d, p)
    ensures Sheltered(parse, Do(parse, w, a), c, d, p)
  {
    if OneUsable(parse) {
      OneUsableStep(parse, w, a, c, p);
    } else if Clear(parse, w, c, p) {
      ClearStep(parse, w, a, c, p);
    } else if Guarded(parse, w, c, d, p) {
      GuardedStep(parse, w, a, c, d, p);
    } else {
      PassedStep(parse, w, a, c, p);
    }
  }

  lemma {:induction false} ShelteredRun(parse: Parsers, w: World, accesses: seq<Access>, c: nat, d: nat, p: nat)
    requires Sheltered(parse, w, c, d, p)
    ensures Sheltered(parse, DoAll(parse, w, accesses), c, d, p)
  {
    if accesses != [] {
      var init := accesses[..|accesses| - 1];
      ShelteredRun(parse, w, init, c, d, p);
      ShelteredStep(parse, DoAll(parse, w, init), accesses[|accesses| - 1], c, d, p);
    }
  }

  lemma StartsClear(parse: Parsers, w: World, w': World, c: nat)
    requires |w.held| > 0 && c in w.callers && (forall d :: !Stale(parse, w, c, d)) && Begun(parse, w', c, |w.held| - 1)
    requires w' == w.(callers := w.callers[c := HasRead(|w.held| - 1, Present(w))])
    ensures Clear(parse, w', c, |w.held| - 1)
  {
    var p := |w.held| - 1;
    assert w.held[p..] == [Present(w)];
    forall x | x in w'.callers ensures Recent(parse, w'.held, w'.callers[x], p) {
      assert !Stale(parse, w, c, x);
    }
  }

  lemma StartsGuarded(parse: Parsers, w: World, w': World, c: nat, d: nat)
    requires WorldInv(parse, w) && c in w.callers && Same(w.cell, Present(w)) && Stale(parse, w, c, d)
    requires forall e | e in w.callers && e != c && e != d ::
               && !Stale(parse, w, c, e)
               && forall s | Buildable(parse, s) :: s == Present(w) || s == w.callers[d].seen
    requires w' == w.(callers := w.callers[c := HasRead(|w.held| - 1, Present(w))]) && Begun(parse, w', c, |w.held| - 1)
    ensures Guarded(parse, w', c, d, |w.held| - 1)
  {
    var p := |w.held| - 1;
    assert w.held[p..] == [Present(w)];
    SameBytes(parse, w.cell, w.held, Present(w));
    forall x | x in w'.callers && x != d ensures Recent(parse, w'.held, w'.callers[x], p) {
      assert x != c ==> !Stale(parse, w, c, x);
    }
  }

  /** A call that is not exposed is sheltered from its first read on. */
  lemma FirstReadShelters(parse: Parsers, w: World, c: nat) returns (d: nat)
    requires WorldInv(parse, w) && c in w.callers && w.callers[c].Idle() && !Exposed(parse, w, c)
    ensures Sheltered(parse, Do(parse, w, Next(c)), c, d, |w.held| - 1)
  {
    var w' := Do(parse, w, Next(c));
    DoKeeps(parse, w, Next(c));
    assert Begun(parse, w', c, |w.held| - 1);
    d := c;
    if k :| Stale(parse, w, c, k) {
      d := k;
      if Same(w.cell, Present(w)) {
        StartsGuarded(parse, w, w', c, d);
      } else {
        assert forall s | Buildable(parse, s) :: s == w.callers[d].seen;
      }
    } else {
      StartsClear(parse, w, w', c);
    }
  }

  // ---- Calls that are ----

  lemma {:induction false} DoAllInTurn(parse: Parsers, w: World, first: seq<Access>, then_: seq<Access>)
    requires |w.held| > 0
    ensures DoAll(parse, w, first + then_) == DoAll(parse, DoAll(parse, w, first), then_)
  {
    if then_ == [] {
      assert first + then_ == first;
    } else {
      var n := |then_| - 1;
      DoAllInTurn(parse, w, first, then_[..n]);
      assert (first + then_)[..|first + then_| - 1] == first + then_[..n];
    }
  }

  lemma DoOne(parse: Parsers, w: World, all: seq<Access>, rest: seq<Access>)
    requires |w.held| > 0 && |all| > 0 && rest == all[1..]
    ensures DoAll(parse, w, all) == DoAll(parse, Do(parse, w, all[0]), rest)
  {
    assert all == [all[0]] + rest;
    DoAllInTurn(parse, w, [all[0]], rest);
    assert [all[0]][..0] == [];
  }

  /** A caller that finds the loader's pair new reads it, loads the cell and reads the pair again. */
  lemma ReadsTwice(parse: Parsers, w: World, s: Snapshot, id: nat)
    requires |w.held| > 0 && id in w.callers && w.callers[id].Idle() && !Same(w.cell, s)
    ensures DoAll(parse, w, [Change(s), Next(id), Next(id), Next(id)]) ==
            World(w.held + [s], w.cell, w.callers[id := HasReread(|w.held|, s)])
  {
    var n := Next(id);
    var w1 := w.(held := w.held + [s]);
    var w2 := w1.(callers := w.callers[id := HasRead(|w.held|, s)]);
    var w3 := w1.(callers := w.callers[id := MustSet(|w.held|)]);
    assert Do(parse, w, Change(s)) == w1 && Do(parse, w1, n) == w2 && Do(parse, w2, n) == w3;
    DoOne(parse, w, [Change(s), n, n, n], [n, n, n]);
    DoOne(parse, w1, [n, n, n], [n, n]);
    DoOne(parse, w2, [n, n], [n]);
    DoOne(parse, w3, [n], []);
  }

  /** The end of a stale answer: `c` must reload and can, and `d` stores between its store and its last load. */
  function LateStore(c: nat, d: nat): seq<Access> {
    [Next(c), Next(c), Next(c), Next(d), Next(c)]
  }

  /** `c` is past its first read and will have to reload, and `d` is about to store what is not held since then. */
  ghost predicate Cornered(parse: Parsers, w: World, c: nat, d: nat, p: nat) {
    && p < |w.held| && c in w.callers && d in w.callers && c != d
    && w.callers[c].HasRead? && w.callers[c].since == p && !Same(w.cell, w.callers[c].seen)
    && Buildable(parse, Present(w))
    && w.callers[d].HasReread? && Buildable(parse, w.callers[d].seen) && w.callers[d].seen !in w.held[p..]
  }

  lemma NotBuiltSince(parse: Parsers, held: seq<Snapshot>, s: Snapshot, p: nat)
    requires p <= |held| && Buildable(parse, s) && s !in held[p..]
    ensures !BuiltSince(parse, Build(parse, s).value, held, p)
  {
    forall i | p <= i < |held| ensures Build(parse, held[i]) != Build(parse, s) {
      assert held[p..][i - p] == held[i];
      if Build(parse, held[i]) == Build(parse, s) { BuildIsInjective(parse, s, held[i]); }
    }
  }

  lemma CorneredAnswersStale(parse: Parsers, w: World, c: nat, d: nat, p: nat)
    requires Cornered(parse, w, c, d, p)
    ensures var w' := DoAll(parse, w, LateStore(c, d));
            && c in w'.callers && w'.callers[c].Answered? && w'.callers[c].since == p
            && !BuiltSince(parse, w'.callers[c].ca, w'.held, p)
  {
    var s, old_ := Present(w), w.callers[d].seen;
    var mine, late := Build(parse, s).value, Build(parse, old_).value;
    var w1 := w.(callers := w.callers[c := MustSet(p)]);
    var w2 := w.(callers := w.callers[c := HasReread(p, s)]);
    var w3 := w.(cell := mine, callers := w.callers[c := HasStored(p, mine)]);
    var w4 := w3.(cell := late, callers := w3.callers[d := HasStored(w.callers[d].since, late)]);
    assert Do(parse, w, Next(c)) == w1 && Do(parse, w1, Next(c)) == w2;
    assert Do(parse, w2, Next(c)) == w3 && Do(parse, w3, Next(d)) == w4;
    DoOne(parse, w, LateStore(c, d), [Next(c), Next(c), Next(d), Next(c)]);
    DoOne(parse, w1, [Next(c), Next(c), Next(d), Next(c)], [Next(c), Next(d), Next(c)]);
    DoOne(parse, w2, [Next(c), Next(d), Next(c)], [Next(d), Next(c)]);
    DoOne(parse, w3, [Next(d), Next(c)], [Next(c)]);
    DoOne(parse, w4, [Next(c)], []);
    NotBuiltSince(parse, w.held, old_, p);
  }

  /** A run that corners a call after its first read makes it answer stale. */
  lemma CorneringRun(parse: Parsers, w: World, c: nat, d: nat, run: seq<Access>)
    requires |w.held| > 0 && Cornered(parse, DoAll(parse, Do(parse, w, Next(c)), run), c, d, |w.held| - 1)
    ensures AnswersStale(parse, w, c, run + LateStore(c, d))
  {
    var w1 := Do(parse, w, Next(c));
    var all := [Next(c)] + (run + LateStore(c, d));
    DoOne(parse, w, all, run + LateStore(c, d));
    DoAllInTurn(parse, w1, run, LateStore(c, d));
    CorneredAnswersStale(parse, DoAll(parse, w1, run), c, d, |w.held| - 1);
  }

  /** The cell disagrees with the loader: some usable pair is loaded instead. */
  lemma ReloadCorners(parse: Parsers, w: World, c: nat, d: nat, s: Snapshot)
    requires WorldInv(parse, w) && c in w.callers && w.callers[c].Idle() && Stale(parse, w, c, d)
    requires !Same(w.cell, Present(w)) && Buildable(parse, s) && s != w.callers[d].seen
    ensures AnswersStale(parse, w, c, [Change(s)] + LateStore(c, d))
  {
    var p := |w.held| - 1;
    var w1 := Do(parse, w, Next(c));
    DoOne(parse, w1, [Change(s)], []);
    var w2 := DoAll(parse, w1, [Change(s)]);
    assert w2.held[p..] == [Present(w), s];
    CorneringRun(parse, w, c, d, [Change(s)]);
  }

  /** The cell agrees, but two stale stores are pending: the first makes the call reload. */
  lemma TwoStaleCorner(parse: Parsers, w: World, c: nat, d: nat, e: nat)
    requires WorldInv(parse, w) && c in w.callers && w.callers[c].Idle() && Same(w.cell, Present(w))
    requires Stale(parse, w, c, d) && Stale(parse, w, c, e) && d != e
    ensures AnswersStale(parse, w, c, [Next(e)] + LateStore(c, d))
  {
    var p := |w.held| - 1;
    SameBytes(parse, w.cell, w.held, Present(w));
    var w1 := Do(parse, w, Next(c));
    DoOne(parse, w1, [Next(e)], []);
    var w2 := DoAll(parse, w1, [Next(e)]);
    assert w2.held[p..] == [Present(w)];
    CorneringRun(parse, w, c, d, [Next(e)]);
  }

  /** How many accesses a caller still makes at most before it is idle. */
  function Rank(c: Caller): nat {
    match c
    case HasRead(_, _) => 4
    case MustSet(_) => 3
    case HasReread(_, _) => 2
    case HasStored(_, _) => 1
    case _ => 0
  }

  /** While the cell agrees with the loader, a caller with nothing stale to store can finish and change nothing. */
  lemma {:induction false} Finishes(parse: Parsers, w: World, e: nat) returns (run: seq<Access>)
    requires |w.held| > 0 && e in w.callers && Build(parse, Present(w)) == Some(w.cell)
    requires w.callers[e].HasReread? && Buildable(parse, w.callers[e].seen) ==> w.callers[e].seen == Present(w)
    ensures var w' := DoAll(parse, w, run);
            && w'.held == w.held && w'.cell == w.cell && e in w'.callers && w'.callers[e].Idle()
            && w'.callers == w.callers[e := w'.callers[e]]
    decreases Rank(w.callers[e])
  {
    if w.callers[e].Idle() {
      run := [];
    } else {
      var w1 := Do(parse, w, Next(e));
      assert w1.cell == w.cell && w1.held == w.held;
      var rest := Finishes(parse, w1, e);
      run := [Next(e)] + rest;
      DoOne(parse, w, run, rest);
    }
  }

  /** An idle caller brings a new usable pair from the loader into the cell. */
  lemma StoresNew(parse: Parsers, w: World, s: Snapshot, e: nat)
    requires |w.held| > 0 && e in w.callers && w.callers[e].Idle() && !Same(w.cell, s) && Buildable(parse, s)
    ensures var w' := DoAll(parse, w, [Change(s), Next(e), Next(e), Next(e)] + [Next(e)]);
            && w'.held == w.held + [s] && Build(parse, s) == Some(w'.cell) && e in w'.callers
            && w'.callers == w.callers[e := w'.callers[e]]
  {
    var reading := [Change(s), Next(e), Next(e), Next(e)];
    ReadsTwice(parse, w, s, e);
    DoAllInTurn(parse, w, reading, [Next(e)]);
    DoOne(parse, DoAll(parse, w, reading), [Next(e)], []);
  }

  lemma ThirdIsCornered(parse: Parsers, w: World, w': World, c: nat, d: nat, e: nat, s: Snapshot)
    requires |w.held| > 0 && c in w.callers && Stale(parse, w, c, d) && e != c && e != d
    requires Buildable(parse, s) && s != Present(w) && s != w.callers[d].seen
    requires w'.held == w.held + [s] && Build(parse, s) == Some(w'.cell) && e in w'.callers
    requires w'.callers == w.callers[c := HasRead(|w.held| - 1, Present(w))][e := w'.callers[e]]
    ensures Cornered(parse, w', c, d, |w.held| - 1)
  {
    assert w'.held[|w.held| - 1..] == [Present(w), s];
  }

  /** The cell agrees, but a third caller can store a third pair: that makes the call reload. */
  lemma ThirdPairCorners(parse: Parsers, w: World, c: nat, d: nat, e: nat, s: Snapshot)
    returns (run: seq<Access>)
    requires WorldInv(parse, w) && c in w.callers && w.callers[c].Idle() && Same(w.cell, Present(w))
    requires Stale(parse, w, c, d) && e in w.callers && e != c && e != d && !Stale(parse, w, c, e)
    requires Buildable(parse, s) && s != Present(w) && s != w.callers[d].seen
    ensures AnswersStale(parse, w, c, run)
  {
    SameBytes(parse, w.cell, w.held, Present(w));
    var w1 := Do(parse, w, Next(c));
    var first := Finishes(parse, w1, e);
    var w2 := DoAll(parse, w1, first);
    var second := [Change(s), Next(e), Next(e), Next(e)] + [Next(e)];
    StoresNew(parse, w2, s, e);
    DoAllInTurn(parse, w1, first, second);
    ThirdIsCornered(parse, w, DoAll(parse, w1, first + second), c, d, e, s);
    CorneringRun(parse, w, c, d, first + second);
    run := first + second + LateStore(c, d);
  }

  /**
   Exactly when freshness fails. Take any reachable state in which `c` is about to call: some continuation answers
   that call with a pair the loader had given up before the call began, if and only if the call is exposed there.
   */
  lemma StaleAnswerIff(parse: Parsers, w: World, c: nat)
    requires WorldInv(parse, w) && c in w.callers && w.callers[c].Idle()
    ensures (exists accesses :: AnswersStale(parse, w, c, accesses)) <==> Exposed(parse, w, c)
  {
    if Exposed(parse, w, c) {
      var run := ExposedAnswersStale(parse, w, c);
    } else {
      var d := FirstReadShelters(parse, w, c);
      forall accesses ensures !AnswersStale(parse, w, c, accesses) {
        DoOne(parse, w, [Next(c)] + accesses, accesses);
        ShelteredRun(parse, Do(parse, w, Next(c)), accesses, c, d, |w.held| - 1);
      }
    }
  }

  lemma ExposedAnswersStale(parse: Parsers, w: World, c: nat) returns (run: seq<Access>)
    requires WorldInv(parse, w) && c in w.callers && w.callers[c].Idle() && Exposed(parse, w, c)
    ensures AnswersStale(parse, w, c, run)
  {
    if Same(w.cell, Present(w)) {
      var d, e :| && Stale(parse, w, c, d) && e in w.callers && e != c && e != d
                  && (|| Stale(parse, w, c, e)
                      || exists s :: Buildable(parse, s) && s != Present(w) && s != w.callers[d].seen);
      if Stale(parse, w, c, e) {
        TwoStaleCorner(parse, w, c, d, e);
        run := [Next(e)] + LateStore(c, d);
      } else {
        var s :| Buildable(parse, s) && s != Present(w) && s != w.callers[d].seen;
        run := ThirdPairCorners(parse, w, c, d, e, s);
      }
    } else {
      var d, s :| Stale(parse, w, c, d) && Buildable(parse, s) && s != w.callers[d].seen;
      ReloadCorners(parse, w, c, d, s);
      run := [Change(s)] + LateStore(c, d);
    }
  }

  /**
   Exposure happens: from any start with two resting callers, once the loader has turned to two usable pairs that
   are not in the cell, one after the other, while one caller was at work, the other caller is exposed.
   */
  lemma LateStoreIsReachable(parse: Parsers, w: World, a: Snapshot, b: Snapshot, c: nat, d: nat)
    requires |w.held| > 0 && c in w.callers && d in w.callers && c != d
    requires w.callers[c].Resting? && w.callers[d].Resting?
    requires Buildable(parse, a) && Buildable(parse, b) && a != b && !Same(w.cell, a) && !Same(w.cell, b)
    ensures Exposed(parse, DoAll(parse, w, [Change(a), Next(d), Next(d), Next(d)] + [Change(b)]), c)
  {
    var first := [Change(a), Next(d), Next(d), Next(d)];
    ReadsTwice(parse, w, a, d);
    DoAllInTurn(parse, w, first, [Change(b)]);
    var w1 := DoAll(parse, w, first);
    DoOne(parse, w1, [Change(b)], []);
    var w2 := DoAll(parse, w1, [Change(b)]);
    assert Stale(parse, w2, c, d) && Buildable(parse, b) && b != w2.callers[d].seen;
  }
}
