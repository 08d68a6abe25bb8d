/**
 The loop and the certificates over whole runs: any number of ticks, whatever fails in them, against the condition under
 which nothing expires.
 */
module LoopWatch {
  import opened Common
  import opened DueSelection
  import opened Daemon
  import opened ExpiryWatch

  // ---- A run of the loop ----

  /** When the last tick was. */
  function LastTick(start: int, turns: seq<Turn>): int {
    if turns == [] then start else turns[|turns| - 1].io.now
  }

  /** At how many ticks in a row, up to the last, a certificate was due and not renewed. */
  function Missed(
    expires: map<string, int>, turns: seq<Turn>, table: map<string, string>, window: int, c: string): nat
  {
    if turns == [] then 0
    else
      var n := |turns| - 1;
      var before := Through(expires, turns[..n], table);
      var renewed := RenewedBy(before, turns[n].names, table, turns[n].io);
      if c in before && Due(before[c], turns[n].io.now, window) && c !in renewed
      then Missed(expires, turns[..n], table, window, c) + 1
      else 0
  }

  /**
   A run of the loop: ticks no further apart than the period, which name only what is due, renewals that land beyond the
   window, and no certificate missed at more than `k` ticks in a row. Locks may be refused and calls fail at any tick.
   */
  ghost predicate Goes(
    k: nat, period: int, window: int, table: map<string, string>, start: int, expires: map<string, int>,
    turns: seq<Turn>)
  {
    turns != [] ==>
      var n := |turns| - 1;
      var before := Through(expires, turns[..n], table);
      var io := turns[n].io;
      && Goes(k, period, window, table, start, expires, turns[..n])
      && LastTick(start, turns[..n]) <= io.now <= LastTick(start, turns[..n]) + period
      && (forall c :: !Due(io.dates(c), io.now, window))
      && (forall c | c in turns[n].names :: c in before && Due(before[c], io.now, window))
      && (forall c | c in expires :: Missed(expires, turns, table, window, c) <= k)
  }

  // ---- The watch of a run ----

  function Watched(
    window: int, table: map<string, string>, start: int, expires: map<string, int>, turns: seq<Turn>): Watch
  {
    var dates := Through(expires, turns, table);
    Watch(LastTick(start, turns), LastTick(start, turns),
          map c | c in dates :: Cert(dates[c], Missed(expires, turns, table, window, c)))
  }

  /** The dates before the last tick, and the renewals at it. */
  function Before(expires: map<string, int>, turns: seq<Turn>, table: map<string, string>): map<string, int>
    requires turns != []
  {
    Through(expires, turns[..|turns| - 1], table)
  }

  function RenewedLast(expires: map<string, int>, turns: seq<Turn>, table: map<string, string>): map<string, int>
    requires turns != []
  {
    RenewedBy(Before(expires, turns, table), turns[|turns| - 1].names, table, turns[|turns| - 1].io)
  }

  function Steps(table: map<string, string>, start: int, expires: map<string, int>, turns: seq<Turn>): seq<Step> {
    if turns == [] then []
    else
      var n := |turns| - 1;
      var wait := Wait(start, turns);
      Steps(table, start, expires, turns[..n]) +
      [Pass(if wait < 0 then 0 else wait), Tick(RenewedLast(expires, turns, table))]
  }

  lemma {:induction false} ThroughKeepsNames(expires: map<string, int>, turns: seq<Turn>, table: map<string, string>)
    ensures Through(expires, turns, table).Keys == expires.Keys
  {
    if turns != [] { ThroughKeepsNames(expires, turns[..|turns| - 1], table); }
  }

  /** The watch just before the last tick. */
  function Waiting(
    window: int, table: map<string, string>, start: int, expires: map<string, int>, turns: seq<Turn>): Watch
    requires turns != []
  {
    Watched(window, table, start, expires, turns[..|turns| - 1]).(now := LastTick(start, turns))
  }

  /** A certificate that is missed at the last tick was missed fewer than `k` times in a row before. */
  lemma MissIsAllowed(
    k: nat, period: int, window: int, table: map<string, string>, start: int, expires: map<string, int>,
    turns: seq<Turn>, c: string)
    requires turns != [] && Goes(k, period, window, table, start, expires, turns)
    requires c in Before(expires, turns, table)
    requires Due(Before(expires, turns, table)[c], turns[|turns| - 1].io.now, window)
    requires c !in RenewedLast(expires, turns, table)
    ensures Missed(expires, turns[..|turns| - 1], table, window, c) < k
  {
    ThroughKeepsNames(expires, turns[..|turns| - 1], table);
    assert Missed(expires, turns, table, window, c) <= k;
  }

  /** The count of misses goes on as the watch's does. */
  lemma MissesAgree(
    window: int, table: map<string, string>, expires: map<string, int>, turns: seq<Turn>, c: string)
    requires turns != [] && c in Before(expires, turns, table)
    ensures var cert := Cert(Before(expires, turns, table)[c], Missed(expires, turns[..|turns| - 1], table, window, c));
            var renewed := Lookup(RenewedLast(expires, turns, table), c);
            Ticked(cert, turns[|turns| - 1].io.now, window, renewed).missed == Missed(expires, turns, table, window, c)
  {
  }

  lemma WaitingDates(
    window: int, table: map<string, string>, start: int, expires: map<string, int>, turns: seq<Turn>)
    requires turns != []
    ensures Dates(Waiting(window, table, start, expires, turns)) == Before(expires, turns, table)
  {
  }

  /** The last tick of a run is allowed by the watch and leaves the dates that the watch's step leaves. */
  lemma LastTickIsAllowed(
    k: nat, period: int, window: int, table: map<string, string>, start: int, expires: map<string, int>,
    turns: seq<Turn>)
    requires turns != [] && Goes(k, period, window, table, start, expires, turns)
    ensures var next := Apply(k, period, window, Waiting(window, table, start, expires, turns),
                              Tick(RenewedLast(expires, turns, table)));
            next.Some? && Dates(next.value) == Through(expires, turns, table)
  {
    var n := |turns| - 1;
    var w := Waiting(window, table, start, expires, turns);
    WaitingDates(window, table, start, expires, turns);
    forall c | c in w.certs && Due(w.certs[c].expires, w.now, window) && c !in RenewedLast(expires, turns, table)
      ensures w.certs[c].missed < k
    {
      MissIsAllowed(k, period, window, table, start, expires, turns, c);
    }
    TickIsWatched(k, period, window, w, turns[n].names, table, turns[n].io);
  }

  lemma WatchedDates(
    window: int, table: map<string, string>, start: int, expires: map<string, int>, turns: seq<Turn>)
    ensures Dates(Watched(window, table, start, expires, turns)) == Through(expires, turns, table)
  {
  }

  /** The counts of misses after the watch's step are those of the run. */
  lemma NextMissed(
    k: nat, period: int, window: int, table: map<string, string>, start: int, expires: map<string, int>,
    turns: seq<Turn>, next: Watch, c: string)
    requires turns != []
    requires Apply(k, period, window, Waiting(window, table, start, expires, turns),
                   Tick(RenewedLast(expires, turns, table))) == Some(next)
    requires c in next.certs
    ensures next.certs[c].missed == Missed(expires, turns, table, window, c)
  {
    var w := Waiting(window, table, start, expires, turns);
    assert c in w.certs && c in Before(expires, turns, table);
    MissesAgree(window, table, expires, turns, c);
  }

  lemma LastTickIsWatched(
    k: nat, period: int, window: int, table: map<string, string>, start: int, expires: map<string, int>,
    turns: seq<Turn>)
    requires turns != [] && Goes(k, period, window, table, start, expires, turns)
    ensures Apply(k, period, window, Waiting(window, table, start, expires, turns),
                  Tick(RenewedLast(expires, turns, table))) ==
            Some(Watched(window, table, start, expires, turns))
  {
    LastTickIsAllowed(k, period, window, table, start, expires, turns);
    var w := Waiting(window, table, start, expires, turns);
    var next := Apply(k, period, window, w, Tick(RenewedLast(expires, turns, table))).value;
    NextIsWatched(k, period, window, table, start, expires, turns, next);
  }

  lemma NextIsWatched(
    k: nat, period: int, window: int, table: map<string, string>, start: int, expires: map<string, int>,
    turns: seq<Turn>, next: Watch)
    requires turns != [] && Dates(next) == Through(expires, turns, table)
    requires Apply(k, period, window, Waiting(window, table, start, expires, turns),
                   Tick(RenewedLast(expires, turns, table))) == Some(next)
    ensures next == Watched(window, table, start, expires, turns)
  {
    var end := Watched(window, table, start, expires, turns);
    WatchedDates(window, table, start, expires, turns);
    forall c | c in next.certs && c in end.certs ensures next.certs[c].missed == end.certs[c].missed {
      NextMissed(k, period, window, table, start, expires, turns, next, c);
    }
    SameWatch(next, end);
  }

  lemma SameWatch(a: Watch, b: Watch)
    requires a.now == b.now && a.lastTick == b.lastTick && Dates(a) == Dates(b)
    requires forall c | c in a.certs && c in b.certs :: a.certs[c].missed == b.certs[c].missed
    ensures a == b
  {
    assert Dates(a).Keys == a.certs.Keys && Dates(b).Keys == b.certs.Keys;
    forall c | c in a.certs ensures c in b.certs && a.certs[c] == b.certs[c] {
      assert c in Dates(a) && Dates(a)[c] == Dates(b)[c];
    }
    assert a.certs == b.certs;
  }

  /** Waiting for a tick and taking it. */
  lemma TurnRun(
    k: nat, period: int, window: int, start: Watch, steps: seq<Step>, w: Watch, wait: nat, renewed: map<string, int>,
    end: Watch)
    requires Run(k, period, window, start, steps) == Some(w) && w.now + wait <= w.lastTick + period
    requires Apply(k, period, window, w.(now := w.now + wait), Tick(renewed)) == Some(end)
    ensures Run(k, period, window, start, steps + [Pass(wait)]) == Some(w.(now := w.now + wait))
    ensures Run(k, period, window, start, steps + [Pass(wait), Tick(renewed)]) == Some(end)
  {
    var one := steps + [Pass(wait)];
    assert one[..|one| - 1] == steps;
    RunTwo(k, period, window, start, steps, Pass(wait), Tick(renewed));
  }

  /** The time up to the last tick. */
  function Wait(start: int, turns: seq<Turn>): int
    requires turns != []
  {
    turns[|turns| - 1].io.now - LastTick(start, turns[..|turns| - 1])
  }

  lemma LastTurn(
    k: nat, period: int, window: int, table: map<string, string>, start: int, expires: map<string, int>,
    turns: seq<Turn>)
    requires turns != [] && Goes(k, period, window, table, start, expires, turns)
    ensures Goes(k, period, window, table, start, expires, turns[..|turns| - 1]) && 0 <= Wait(start, turns) <= period
  {
  }

  /** One more turn of the loop is one wait and one tick of the watch. */
  lemma OneMoreTurn(
    k: nat, period: int, window: int, table: map<string, string>, start: int, expires: map<string, int>,
    turns: seq<Turn>, first: Watch, steps: seq<Step>)
    requires turns != [] && Goes(k, period, window, table, start, expires, turns)
    requires Run(k, period, window, first, steps) ==
             Some(Watched(window, table, start, expires, turns[..|turns| - 1]))
    ensures 0 <= Wait(start, turns)
    ensures Run(k, period, window, first, steps + [Pass(Wait(start, turns))]) ==
            Some(Waiting(window, table, start, expires, turns))
    ensures Run(k, period, window, first,
                steps + [Pass(Wait(start, turns)), Tick(RenewedLast(expires, turns, table))]) ==
            Some(Watched(window, table, start, expires, turns))
  {
    LastTurn(k, period, window, table, start, expires, turns);
    LastTickIsWatched(k, period, window, table, start, expires, turns);
    var w := Watched(window, table, start, expires, turns[..|turns| - 1]);
    assert w.(now := w.now + Wait(start, turns)) == Waiting(window, table, start, expires, turns);
    TurnRun(k, period, window, first, steps, w, Wait(start, turns), RenewedLast(expires, turns, table),
            Watched(window, table, start, expires, turns));
  }

  /** Every run of the loop is a run of the watch. */
  lemma {:induction false} LoopIsWatched(
    k: nat, period: int, window: int, table: map<string, string>, start: int, expires: map<string, int>,
    turns: seq<Turn>, first: Watch)
    requires Goes(k, period, window, table, start, expires, turns)
    requires first == Watched(window, table, start, expires, [])
    ensures Run(k, period, window, first, Steps(table, start, expires, turns)) ==
            Some(Watched(window, table, start, expires, turns))
  {
    if turns != [] {
      var init := turns[..|turns| - 1];
      LastTurn(k, period, window, table, start, expires, turns);
      LoopIsWatched(k, period, window, table, start, expires, init, first);
      OneMoreTurn(k, period, window, table, start, expires, turns, first, Steps(table, start, expires, init));
    }
  }

  /**
   Over any run of the loop in which each certificate is missed at most `k` times in a row, with `k + 1` periods within
   the window and nothing due at the start: at every tick, before and after it, no date has passed.
   */
  lemma NothingExpiresInTheLoop(
    k: nat, period: int, window: int, table: map<string, string>, start: int, expires: map<string, int>,
    turns: seq<Turn>)
    requires 0 <= period && (k + 1) * period <= window < MAX_DURATION
    requires forall c | c in expires :: !Due(expires[c], start, window)
    requires turns != [] && Goes(k, period, window, table, start, expires, turns)
    ensures var n := |turns| - 1;
            var before, after := Through(expires, turns[..n], table), Through(expires, turns, table);
            && before.Keys == after.Keys == expires.Keys
            && forall c | c in expires :: turns[n].io.now < before[c] && turns[n].io.now < after[c]
  {
    var n := |turns| - 1;
    var first := Watched(window, table, start, expires, []);
    Periods(0, k + 1, period);
    NeverExpiresIff(k, period, window);
    assert Initial(window, first);
    LastTurn(k, period, window, table, start, expires, turns);
    LoopIsWatched(k, period, window, table, start, expires, turns[..n], first);
    WaitingIsAlive(k, period, window, table, start, expires, turns, first, Steps(table, start, expires, turns[..n]));
    ThroughKeepsNames(expires, turns[..n], table);
    ThroughKeepsNames(expires, turns, table);
    var waiting, end := Waiting(window, table, start, expires, turns), Watched(window, table, start, expires, turns);
    forall c | c in expires
      ensures turns[n].io.now < Through(expires, turns[..n], table)[c]
      ensures turns[n].io.now < Through(expires, turns, table)[c]
    {
      assert c in waiting.certs && c in end.certs;
    }
  }

  lemma Alive(k: nat, period: int, window: int, first: Watch, steps: seq<Step>, end: Watch)
    requires NeverExpires(k, period, window) && Initial(window, first)
    requires Run(k, period, window, first, steps) == Some(end)
    ensures NoneExpired(end)
  {
  }

  lemma WaitingIsAlive(
    k: nat, period: int, window: int, table: map<string, string>, start: int, expires: map<string, int>,
    turns: seq<Turn>, first: Watch, steps: seq<Step>)
    requires turns != [] && Goes(k, period, window, table, start, expires, turns)
    requires NeverExpires(k, period, window) && Initial(window, first)
    requires Run(k, period, window, first, steps) ==
             Some(Watched(window, table, start, expires, turns[..|turns| - 1]))
    ensures NoneExpired(Waiting(window, table, start, expires, turns))
    ensures NoneExpired(Watched(window, table, start, expires, turns))
  {
    OneMoreTurn(k, period, window, table, start, expires, turns, first, steps);
    var pass, tick := Pass(Wait(start, turns)), Tick(RenewedLast(expires, turns, table));
    Alive(k, period, window, first, steps + [pass], Waiting(window, table, start, expires, turns));
    Alive(k, period, window, first, steps + [pass, tick], Watched(window, table, start, expires, turns));
  }
}
