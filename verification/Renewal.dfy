/** Renewing certificates: backup, renew and restart as a trace of attempts, any of which may fail. */
module Renewal {
  import opened Traces

  /** How one renewal ends; the program panics on a kubeadm version it cannot read. */
  datatype RenewalEnd = Renewed | Failed | Panics

  datatype Action =
    | Backup(name: string, path: string, ok: bool)
    | Renew(name: string, end: RenewalEnd)
    | Restart(ok: bool)

  /** Whether the backup of the i-th listed name succeeds, how its renewal ends, and whether the restart succeeds. */
  datatype Outcomes = Outcomes(backupOk: nat -> bool, renew: nat -> RenewalEnd, restartOk: bool)

  // ---- The sequence ----

  /** The attempts for one listed name. */
  function Attempt(
    table: map<string, string>, t: Trace<Action>, name: string, backupOk: bool, end: RenewalEnd): Trace<Action>
  {
    if name !in table then t
    else
      var backed := Then(t, Backup(name, table[name], backupOk));
      if backupOk then Then(backed, Renew(name, end)) else backed
  }

  /** The last thing attempted was a renewal in which the program panicked. */
  predicate Panicked(t: Trace<Action>) {
    t.Then? && t.event.Renew? && t.event.end == Panics
  }

  /** The attempts for a list of names, up to a panic. */
  function Attempts(table: map<string, string>, names: seq<string>, o: Outcomes): Trace<Action> {
    if names == [] then Nothing
    else
      var n := |names| - 1;
      var before := Attempts(table, names[..n], o);
      if Panicked(before) then before else Attempt(table, before, names[n], o.backupOk(n), o.renew(n))
  }

  /** How many listed names were dealt with: all of them, or those up to the one that caused a panic. */
  function Reached(table: map<string, string>, names: seq<string>, o: Outcomes): (r: nat)
    ensures r <= |names|
  {
    if names == [] then 0
    else
      var init := names[..|names| - 1];
      if Panicked(Attempts(table, init, o)) then Reached(table, init, o) else |names|
  }

  /** Every listed name that the table knows was backed up and renewed. */
  predicate AllDone(table: map<string, string>, names: seq<string>, o: Outcomes) {
    forall i: nat | i < |names| && names[i] in table :: o.backupOk(i) && o.renew(i) == Renewed
  }

  /** Kubeadm.Rotate; `alive` is false when the program panics. */
  method Rotate(table: map<string, string>, names: seq<string>, o: Outcomes)
    returns (ok: bool, alive: bool, trace: Trace<Action>)
    ensures trace == if AllDone(table, names, o) then Then(Attempts(table, names, o), Restart(o.restartOk))
                     else Attempts(table, names, o)
    ensures alive <==> !Panicked(Attempts(table, names, o))
    ensures ok <==> AllDone(table, names, o) && o.restartOk
  {
    var errs := false;
    trace := Nothing;
    for i := 0 to |names|
      invariant trace == Attempts(table, names[..i], o) && !Panicked(trace)
      invariant errs <==> !AllDone(table, names[..i], o)
    {
      var name := names[i];
      Snoc(table, names, i, o);
      if name !in table { continue; }
      trace := Then(trace, Backup(name, table[name], o.backupOk(i)));
      if !o.backupOk(i) {
        errs := true;
        continue;
      }
      trace := Then(trace, Renew(name, o.renew(i)));
      if o.renew(i) == Panics {
        PanicStops(table, names, i + 1, o);
        return false, false, trace;
      }
      if o.renew(i) == Failed {
        errs := true;
        continue;
      }
    }
    assert names[..|names|] == names;
    if errs { return false, true, trace; }
    trace := Then(trace, Restart(o.restartOk));
    return o.restartOk, true, trace;
  }

  lemma Snoc(table: map<string, string>, names: seq<string>, i: nat, o: Outcomes)
    requires i < |names| && !Panicked(Attempts(table, names[..i], o))
    ensures Attempts(table, names[..i + 1], o) ==
            Attempt(table, Attempts(table, names[..i], o), names[i], o.backupOk(i), o.renew(i))
    ensures AllDone(table, names[..i + 1], o) <==>
            AllDone(table, names[..i], o) && (names[i] in table ==> o.backupOk(i) && o.renew(i) == Renewed)
  {
    var next := names[..i + 1];
    assert next[..i] == names[..i] && next[i] == names[i];
    assert forall k: nat | k < i :: next[k] == names[..i][k];
  }

  /** After a panic nothing more is attempted, and not all was done. */
  lemma {:induction false} PanicStops(table: map<string, string>, names: seq<string>, i: nat, o: Outcomes)
    requires i <= |names| && Panicked(Attempts(table, names[..i], o)) && !AllDone(table, names[..i], o)
    ensures Attempts(table, names, o) == Attempts(table, names[..i], o) && !AllDone(table, names, o)
    decreases |names|
  {
    if i == |names| {
      assert names[..i] == names;
    } else {
      var init := names[..|names| - 1];
      assert init[..i] == names[..i];
      PanicStops(table, init, i, o);
      assert forall k: nat | k < |init| :: init[k] == names[k];
    }
  }

  // ---- What every trace shows ----

  /** Everything attempted succeeded. */
  predicate Flawless(t: Trace<Action>) {
    t.Then? ==>
      && Flawless(t.before)
      && match t.event {
           case Backup(_, _, ok) => ok
           case Renew(_, end) => end == Renewed
           case Restart(ok) => ok
         }
  }

  /** Nothing but success leads to the restart: all was done exactly when every attempt succeeded. */
  lemma {:induction false} AllDoneIff(table: map<string, string>, names: seq<string>, o: Outcomes)
    ensures AllDone(table, names, o) <==> Flawless(Attempts(table, names, o))
  {
    if names != [] {
      var n := |names| - 1;
      var before := Attempts(table, names[..n], o);
      AllDoneIff(table, names[..n], o);
      assert forall k: nat | k < n :: names[..n][k] == names[k];
      if Panicked(before) {
        assert !Flawless(before);
      } else {
        Snoc(table, names, n, o);
        assert names[..n + 1] == names;
        var backed := Then(before, Backup(names[n], if names[n] in table then table[names[n]] else "", o.backupOk(n)));
        assert Flawless(backed) <==> Flawless(before) && o.backupOk(n);
      }
    }
  }

  /** Why an attempt may follow: a renewal only directly after the successful backup, nothing after a panic. */
  predicate Justified(table: map<string, string>, t: Trace<Action>, a: Action) {
    match a
    case Backup(name, path, _) => name in table && path == table[name] && !Panicked(t)
    case Renew(name, _) => name in table && t.Then? && t.event == Backup(name, table[name], true)
    case Restart(_) => false
  }

  function Rule(table: map<string, string>): (Trace<Action>, Action) -> bool {
    (t, a) => Justified(table, t, a)
  }

  function BackupsOf(name: string): Action -> bool {
    (a: Action) => a.Backup? && a.name == name
  }

  /** The successful renewals of a certificate. */
  function RenewalsOf(name: string): Action -> bool {
    (a: Action) => a.Renew? && a.end == Renewed && a.name == name
  }

  function Backups(t: Trace<Action>, name: string): nat {
    Count(t, BackupsOf(name))
  }

  function Renewals(t: Trace<Action>, name: string): nat {
    Count(t, RenewalsOf(name))
  }

  function Occurrences(names: seq<string>, name: string): nat {
    if names == [] then 0
    else Occurrences(names[..|names| - 1], name) + (if names[|names| - 1] == name then 1 else 0)
  }

  /** What the attempts for one more listed name add to a trace. */
  lemma OneMoreListing(
    table: map<string, string>, t: Trace<Action>, listed: string, b: bool, e: RenewalEnd, name: string)
    requires !Panicked(t)
    ensures var t' := Attempt(table, t, listed, b, e);
            && Backups(t', name) == Backups(t, name) + (if listed in table && listed == name then 1 else 0)
            && Renewals(t', name) ==
               Renewals(t, name) + (if listed in table && listed == name && b && e == Renewed then 1 else 0)
            && (Disciplined(t, Rule(table)) ==> Disciplined(t', Rule(table)))
  {
    if listed in table {
      var backed := Then(t, Backup(listed, table[listed], b));
      assert Backups(backed, name) == Backups(t, name) + (if listed == name then 1 else 0);
      assert Renewals(backed, name) == Renewals(t, name);
      assert Disciplined(t, Rule(table)) ==> Disciplined(backed, Rule(table));
    }
  }

  /**
   For every list and failure pattern: each renewal attempt directly follows a successful backup of the same
   certificate and nothing follows a panic; a name is backed up once per listing that is reached exactly when the table
   knows it, unknown names cause nothing, and no restart is among these attempts, so that the one `Rotate` adds is the
   only one and the last.
   */
  lemma {:induction false} RenewalDiscipline(
    table: map<string, string>, names: seq<string>, o: Outcomes, name: string)
    ensures Disciplined(Attempts(table, names, o), Rule(table))
    ensures Backups(Attempts(table, names, o), name) ==
            if name in table then Occurrences(names[..Reached(table, names, o)], name) else 0
  {
    if names != [] {
      var n := |names| - 1;
      var before := Attempts(table, names[..n], o);
      RenewalDiscipline(table, names[..n], o, name);
      if Panicked(before) {
        assert names[..n][..Reached(table, names[..n], o)] == names[..Reached(table, names, o)];
      } else {
        OneMoreListing(table, before, names[n], o.backupOk(n), o.renew(n), name);
        ReachedAll(table, names[..n], o);
        assert names[..n][..n] == names[..n] && names[..n + 1] == names;
      }
    }
  }

  /** Without a panic every listed name is reached. */
  lemma ReachedAll(table: map<string, string>, names: seq<string>, o: Outcomes)
    requires !Panicked(Attempts(table, names, o))
    ensures Reached(table, names, o) == |names|
  {
  }

  lemma {:induction false} NoPanic(table: map<string, string>, names: seq<string>, o: Outcomes)
    requires forall i: nat | i < |names| :: o.renew(i) != Panics
    ensures !Panicked(Attempts(table, names, o)) && Reached(table, names, o) == |names|
  {
    if names != [] { NoPanic(table, names[..|names| - 1], o); }
  }

  /** A name is renewed exactly when some listing of it that is reached is known, backed up and renewed. */
  lemma {:induction false} RenewedIff(table: map<string, string>, names: seq<string>, o: Outcomes, name: string)
    ensures Renewals(Attempts(table, names, o), name) > 0 <==>
            name in table && exists i: nat | i < Reached(table, names, o) ::
              names[i] == name && o.backupOk(i) && o.renew(i) == Renewed
  {
    if names != [] {
      var n := |names| - 1;
      RenewedIff(table, names[..n], o, name);
      assert forall i: nat | i < n :: names[..n][i] == names[i];
      if !Panicked(Attempts(table, names[..n], o)) {
        OneMoreListing(table, Attempts(table, names[..n], o), names[n], o.backupOk(n), o.renew(n), name);
        ReachedAll(table, names[..n], o);
        if i: nat :| i < |names| && names[i] == name && o.backupOk(i) && o.renew(i) == Renewed {
          assert i == n || names[..n][i] == name;
        }
      }
    }
  }
}
