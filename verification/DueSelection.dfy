/** Which certificates are due: the test with 64-bit saturating subtraction, and the selection over the parsed map. */
module DueSelection {

  const MAX_DURATION := 0x7fff_ffff_ffff_ffff
  const MIN_DURATION := -0x8000_0000_0000_0000

  /** Time.Sub: the difference of two times as a duration, saturating at the ends of the 64-bit range. */
  function Sub(t: int, u: int): int {
    if t - u > MAX_DURATION then MAX_DURATION else if t - u < MIN_DURATION then MIN_DURATION else t - u
  }

  /** checkCertificateExpiry. */
  predicate Due(expires: int, now: int, window: int) {
    expires < now || Sub(expires, now) <= window
  }

  /** The test is "expires no later than now plus the window" exactly for windows from -1 to short of the largest. */
  lemma DueIff(window: int)
    requires MIN_DURATION <= window <= MAX_DURATION
    ensures (forall expires, now :: Due(expires, now, window) <==> expires <= now + window) <==>
            -1 <= window < MAX_DURATION
  {
    if window == MAX_DURATION {
      assert Due(MAX_DURATION + 1, 0, window);
    } else if window < -1 {
      assert Due(-1, 0, window);
    }
  }

  /** What is due stays due as the clock advances or the window grows. */
  lemma DueIsMonotone(expires: int, now: int, later: int, window: int, wider: int)
    requires Due(expires, now, window) && now <= later && window <= wider
    ensures Due(expires, later, wider)
  {
  }

  // ---- The selection ----

  /** `names` has each name once, and each certificate was tested at one of the clock's first readings. */
  ghost predicate Selects(names: seq<string>, expires: map<string, int>, window: int, clock: nat -> int) {
    && (forall i, j | 0 <= i < j < |names| :: names[i] != names[j])
    && (forall c | c in names :: c in expires)
    && (forall c | c in expires :: Tested(c in names, expires[c], window, clock, |expires|))
  }

  ghost predicate Tested(selected: bool, expires: int, window: int, clock: nat -> int, readings: nat) {
    exists i: nat | i < readings :: selected <==> Due(expires, clock(i), window)
  }

  /** The selection loop, for any order of the map; the clock is read anew for each certificate. */
  method SelectDue(expires: map<string, int>, window: int, clock: nat -> int) returns (names: seq<string>)
    ensures Selects(names, expires, window, clock)
  {
    names := [];
    var pending := expires.Keys;
    var readings: nat := 0;
    while pending != {}
      invariant pending <= expires.Keys && readings + |pending| == |expires.Keys|
      invariant forall i, j | 0 <= i < j < |names| :: names[i] != names[j]
      invariant forall c | c in names :: c in expires && c !in pending
      invariant forall c | c in expires && c !in pending :: Tested(c in names, expires[c], window, clock, readings)
    {
      var cert :| cert in pending;
      var now := clock(readings);
      if Due(expires[cert], now, window) {
        names := names + [cert];
      }
      pending := pending - {cert};
      readings := readings + 1;
      assert Tested(cert in names, expires[cert], window, clock, readings);
    }
    assert |expires.Keys| == |expires|;
  }

  /** With a clock that stands still, the names are exactly those that are due. */
  lemma SelectsDue(names: seq<string>, expires: map<string, int>, window: int, clock: nat -> int, now: int)
    requires Selects(names, expires, window, clock) && forall i: nat | i < |expires| :: clock(i) == now
    ensures forall c :: c in names <==> c in expires && Due(expires[c], now, window)
    ensures -1 <= window < MAX_DURATION ==> forall c :: c in names <==> c in expires && expires[c] <= now + window
  {
    forall c | c in expires ensures c in names <==> Due(expires[c], now, window) {
      assert Tested(c in names, expires[c], window, clock, |expires|);
    }
  }

  /** With a clock that advances, what was due at its first reading is named, and what is named is due at its last. */
  lemma SelectsBetween(names: seq<string>, expires: map<string, int>, window: int, clock: nat -> int, c: string)
    requires Selects(names, expires, window, clock) && c in expires
    requires forall i: nat, j: nat | i <= j < |expires| :: clock(i) <= clock(j)
    ensures Due(expires[c], clock(0), window) ==> c in names
    ensures c in names ==> Due(expires[c], clock(|expires| - 1), window)
  {
    assert Tested(c in names, expires[c], window, clock, |expires|);
    var i: nat :| i < |expires| && (c in names <==> Due(expires[c], clock(i), window));
    assert clock(0) <= clock(i) <= clock(|expires| - 1);
    if Due(expires[c], clock(0), window) { DueIsMonotone(expires[c], clock(0), clock(i), window, window); }
    if c in names { DueIsMonotone(expires[c], clock(i), clock(|expires| - 1), window, window); }
  }
}
