/**
 Whether polling is frequent enough. The polling period is shifted once by a random number of whole seconds; a run is
 any passage of time cut by ticks that are no further apart than the shifted period.
 */
module ExpiryWatch {
  import opened Common
  import opened DueSelection

  // ---- The shifted polling period ----

  /** Two's complement 64-bit arithmetic. */
  function Wrap64(x: int): int {
    (x + 0x8000_0000_0000_0000) % 0x1_0000_0000_0000_0000 - 0x8000_0000_0000_0000
  }

  /** `bound` is the period in seconds made an integer; for long periods the floating-point step may round up. */
  predicate WholeSeconds(period: int, bound: int) {
    period / SECOND <= bound <= (period + SECOND - 1) / SECOND
  }

  /** The period after the shift, or nothing when the random choice has no range and the program stops. */
  function Shifted(period: int, bound: int, extra: int): Option<int> {
    if bound <= 0 || !(0 <= extra < bound) then None
    else Some(Wrap64(period + Wrap64(extra * SECOND)))
  }

  /** For periods of at least a second the shifted period is in [p, 2p) exactly when the sum fits in 64 bits. */
  lemma ShiftIff(period: int, bound: int, extra: int)
    requires SECOND <= period <= MAX_DURATION && WholeSeconds(period, bound) && 0 <= extra < bound
    ensures Shifted(period, bound, extra).Some?
    ensures period <= Shifted(period, bound, extra).value < 2 * period <==> period + extra * SECOND <= MAX_DURATION
    ensures period + extra * SECOND <= MAX_DURATION ==>
              Shifted(period, bound, extra).value == period + extra * 1_000_000_000
  {
    var up := (period + SECOND - 1) / SECOND;
    assert up * SECOND <= period + SECOND - 1;
    assert extra * SECOND <= (up - 1) * SECOND < period;
    assert Wrap64(extra * SECOND) == extra * SECOND;
    var sum := period + extra * SECOND;
    if sum > MAX_DURATION {
      assert Wrap64(sum) == sum - 0x1_0000_0000_0000_0000;
    }
  }

  /** The random choice is below its bound, so a bound of zero leaves none and the program stops. */
  lemma ShiftNeedsRange(period: int, bound: int, extra: int)
    ensures Shifted(period, bound, extra).Some? <==> 0 <= extra < bound
  {
  }

  /** The failing family is not empty: the longest period and a shift of one second. */
  lemma ShiftWraps()
    ensures var period := MAX_DURATION;
            var bound := period / SECOND;
            && WholeSeconds(period, bound) && 1 < bound
            && Shifted(period, bound, 1).Some? && Shifted(period, bound, 1).value < 0
  {
    assert Wrap64(SECOND) == SECOND;
    assert Wrap64(MAX_DURATION + SECOND) == MAX_DURATION + SECOND - 0x1_0000_0000_0000_0000;
  }

  // ---- Runs ----

  /** A certificate: when it ends, and at how many ticks in a row it was due and not renewed. */
  datatype Cert = Cert(expires: int, missed: nat)

  datatype Watch = Watch(now: int, lastTick: int, certs: map<string, Cert>)

  /** Time passes, or a tick renews some of the due certificates, each past the window. */
  datatype Step = Pass(dt: nat) | Tick(renewed: map<string, int>)

  /** What a tick leaves of a certificate. */
  function Ticked(c: Cert, now: int, window: int, renewed: Option<int>): Cert {
    if renewed.Some? then Cert(renewed.value, 0)
    else if Due(c.expires, now, window) then Cert(c.expires, c.missed + 1)
    else Cert(c.expires, 0)
  }

  function Lookup(m: map<string, int>, c: string): Option<int> {
    if c in m then Some(m[c]) else None
  }

  /** A tick may fail to renew a due certificate, because the lock is refused or a call fails, `k` times in a row. */
  predicate TickAllowed(k: nat, window: int, w: Watch, renewed: map<string, int>) {
    && (forall c | c in renewed ::
          c in w.certs && Due(w.certs[c].expires, w.now, window) && !Due(renewed[c], w.now, window))
    && (forall c | c in w.certs && c !in renewed && Due(w.certs[c].expires, w.now, window) :: w.certs[c].missed < k)
  }

  function Apply(k: nat, period: int, window: int, w: Watch, step: Step): Option<Watch> {
    match step
    case Pass(dt) => if w.now + dt <= w.lastTick + period then Some(w.(now := w.now + dt)) else None
    case Tick(renewed) =>
      if !TickAllowed(k, window, w, renewed) then None
      else
        var certs := map c | c in w.certs :: Ticked(w.certs[c], w.now, window, Lookup(renewed, c));
        Some(Watch(w.now, w.now, certs))
  }

  function Run(k: nat, period: int, window: int, w: Watch, steps: seq<Step>): Option<Watch> {
    if steps == [] then Some(w)
    else
      var before := Run(k, period, window, w, steps[..|steps| - 1]);
      if before.None? then None else Apply(k, period, window, before.value, steps[|steps| - 1])
  }

  /** A tick has just found nothing due. */
  predicate Initial(window: int, w: Watch) {
    && w.lastTick == w.now
    && forall c | c in w.certs :: w.certs[c].missed == 0 && !Due(w.certs[c].expires, w.now, window)
  }

  predicate NoneExpired(w: Watch) {
    forall c | c in w.certs :: w.now < w.certs[c].expires
  }

  /** No certificate is at or past its end at any moment of any run. */
  ghost predicate NeverExpires(k: nat, period: int, window: int) {
    forall w, steps | Initial(window, w) && Run(k, period, window, w, steps).Some? ::
      NoneExpired(Run(k, period, window, w, steps).value)
  }

  /** Before the ticks at which it was missed, a certificate was not due. */
  predicate Kept(k: nat, period: int, window: int, lastTick: int, c: Cert) {
    c.missed <= k && lastTick - c.missed * period + window < c.expires
  }

  predicate WatchInv(k: nat, period: int, window: int, w: Watch) {
    && w.lastTick <= w.now <= w.lastTick + period
    && forall c | c in w.certs :: Kept(k, period, window, w.lastTick, w.certs[c])
  }

  lemma TickKeeps(k: nat, period: int, window: int, now: int, lastTick: int, c: Cert, renewed: Option<int>)
    requires 0 <= window < MAX_DURATION && 0 <= period && lastTick <= now <= lastTick + period
    requires Kept(k, period, window, lastTick, c)
    requires renewed.Some? ==> !Due(renewed.value, now, window)
    requires renewed.None? && Due(c.expires, now, window) ==> c.missed < k
    ensures Kept(k, period, window, now, Ticked(c, now, window, renewed))
  {
    assert (c.missed + 1) * period == c.missed * period + period;
  }

  lemma StepKeeps(k: nat, period: int, window: int, w: Watch, step: Step)
    requires 0 <= window < MAX_DURATION && 0 <= period
    requires WatchInv(k, period, window, w) && Apply(k, period, window, w, step).Some?
    ensures WatchInv(k, period, window, Apply(k, period, window, w, step).value)
  {
    if step.Tick? {
      forall c | c in w.certs
        ensures Kept(k, period, window, w.now, Ticked(w.certs[c], w.now, window, Lookup(step.renewed, c)))
      {
        TickKeeps(k, period, window, w.now, w.lastTick, w.certs[c], Lookup(step.renewed, c));
      }
    }
  }

  lemma {:induction false} RunKeeps(k: nat, period: int, window: int, w: Watch, steps: seq<Step>)
    requires 0 <= window < MAX_DURATION && 0 <= period
    requires Initial(window, w) && Run(k, period, window, w, steps).Some?
    ensures WatchInv(k, period, window, Run(k, period, window, w, steps).value)
  {
    if steps != [] {
      RunKeeps(k, period, window, w, steps[..|steps| - 1]);
      StepKeeps(k, period, window, Run(k, period, window, w, steps[..|steps| - 1]).value, steps[|steps| - 1]);
    }
  }

  lemma Periods(m: int, n: int, period: int)
    requires m <= n && 0 <= period
    ensures m * period <= n * period
  {
  }

  lemma KeptIsAlive(k: nat, period: int, window: int, w: Watch)
    requires 0 <= period && (k + 1) * period <= window && WatchInv(k, period, window, w)
    ensures NoneExpired(w)
  {
    forall c | c in w.certs ensures w.now < w.certs[c].expires {
      assert Kept(k, period, window, w.lastTick, w.certs[c]);
      Periods(w.certs[c].missed + 1, k + 1, period);
      assert (w.certs[c].missed + 1) * period == w.certs[c].missed * period + period;
    }
  }

  /** Whole periods that each end in a tick at which nothing is renewed. */
  function Missing(period: nat, n: nat): seq<Step> {
    if n == 0 then [] else Missing(period, n - 1) + [Pass(period), Tick(map[])]
  }

  /** One certificate that falls due just after the start. */
  function Doomed(window: int, now: int, missed: nat): Watch {
    Watch(now, now, map["apiserver" := Cert(window + 1, missed)])
  }

  lemma RunTwo(k: nat, period: int, window: int, w: Watch, steps: seq<Step>, a: Step, b: Step)
    requires Run(k, period, window, w, steps).Some?
    requires Apply(k, period, window, Run(k, period, window, w, steps).value, a).Some?
    ensures var first := Apply(k, period, window, Run(k, period, window, w, steps).value, a).value;
            Run(k, period, window, w, steps + [a, b]) == Apply(k, period, window, first, b)
  {
    var one, two := steps + [a], steps + [a, b];
    assert one[..|one| - 1] == steps;
    assert two[..|two| - 1] == one;
  }

  lemma {:induction false} MissingRun(k: nat, period: nat, window: nat, n: nat)
    requires 0 < period && window < MAX_DURATION && n <= k
    ensures Run(k, period, window, Doomed(window, 0, 0), Missing(period, n)) == Some(Doomed(window, n * period, n))
  {
    if n > 0 {
      MissingRun(k, period, window, n - 1);
      var w := Doomed(window, (n - 1) * period, n - 1);
      assert (n - 1) * period + period == n * period >= 1;
      var w1 := w.(now := n * period);
      assert Apply(k, period, window, w, Pass(period)) == Some(w1);
      MissedTick(k, period, window, n, w1);
      RunTwo(k, period, window, Doomed(window, 0, 0), Missing(period, n - 1), Pass(period), Tick(map[]));
    }
  }

  lemma MissedTick(k: nat, period: nat, window: nat, n: nat, w: Watch)
    requires window < MAX_DURATION && 0 < n <= k && n * period >= 1
    requires w == Watch(n * period, (n - 1) * period, map["apiserver" := Cert(window + 1, n - 1)])
    ensures Apply(k, period, window, w, Tick(map[])) == Some(Doomed(window, n * period, n))
  {
    assert Due(window + 1, n * period, window);
    assert TickAllowed(k, window, w, map[]);
    var certs := map c | c in w.certs :: Ticked(w.certs[c], w.now, window, Lookup(map[], c));
    assert certs == map["apiserver" := Cert(window + 1, n)];
  }

  /** When a period does not fit, a certificate can be missed until it has expired. */
  lemma ExpiresUnseen(k: nat, period: nat, window: nat) returns (steps: seq<Step>)
    requires window < MAX_DURATION && window < (k + 1) * period
    ensures var w := Doomed(window, 0, 0);
            && Initial(window, w) && Run(k, period, window, w, steps).Some?
            && !NoneExpired(Run(k, period, window, w, steps).value)
  {
    assert 0 < period;
    var n := window / period;
    assert n * period <= window < n * period + period;
    if k + 1 <= n { Periods(k + 1, n, period); }
    MissingRun(k, period, window, n);
    var init := Missing(period, n);
    steps := init + [Pass(window + 1 - n * period)];
    assert steps[..|steps| - 1] == init;
    var w' := Run(k, period, window, Doomed(window, 0, 0), steps).value;
    assert "apiserver" in w'.certs && w'.certs["apiserver"].expires == w'.now;
  }

  /**
   When each due certificate is missed at most `k` ticks in a row (a refused lock, a failed check, a failed renewal),
   certificates never expire exactly when `k + 1` periods fit into the renewal window.
   */
  lemma NeverExpiresIff(k: nat, period: int, window: int)
    requires 0 <= period && 0 <= window < MAX_DURATION
    ensures NeverExpires(k, period, window) <==> (k + 1) * period <= window
  {
    if (k + 1) * period <= window {
      forall w, steps | Initial(window, w) && Run(k, period, window, w, steps).Some?
        ensures NoneExpired(Run(k, period, window, w, steps).value)
      {
        RunKeeps(k, period, window, w, steps);
        KeptIsAlive(k, period, window, Run(k, period, window, w, steps).value);
      }
    } else {
      var steps := ExpiresUnseen(k, period, window);
    }
  }

  /**
   With a renewal window of at least twice the polling period for each tick at which a certificate may be missed and
   one more, whatever the random shift, nothing expires unseen; if no tick misses, twice the period is enough.
   */
  lemma NoCertificateExpiresUnseen(k: nat, period: int, bound: int, extra: int, window: int)
    requires SECOND <= period && WholeSeconds(period, bound) && 0 <= extra < bound
    requires (k + 1) * (2 * period) <= window < MAX_DURATION
    ensures Shifted(period, bound, extra).Some? && NeverExpires(k, Shifted(period, bound, extra).value, window)
  {
    Periods(1, k + 1, 2 * period);
    ShiftFits(period, bound, extra, window);
    var shifted := Shifted(period, bound, extra).value;
    assert shifted * (k + 1) <= (2 * period) * (k + 1) by { Periods(shifted, 2 * period, k + 1); }
    NeverExpiresIff(k, shifted, window);
  }

  lemma ShiftFits(period: int, bound: int, extra: int, window: int)
    requires SECOND <= period && WholeSeconds(period, bound) && 0 <= extra < bound
    requires 2 * period <= window < MAX_DURATION
    ensures Shifted(period, bound, extra).Some? && period <= Shifted(period, bound, extra).value < 2 * period
  {
    var up := (period + SECOND - 1) / SECOND;
    assert extra * SECOND <= (up - 1) * SECOND < period;
    ShiftIff(period, bound, extra);
  }
}
