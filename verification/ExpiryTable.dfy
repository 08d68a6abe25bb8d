/**
 Reading the table printed by `kubeadm certs check-expiration`: a line state machine that looks, once a header was
 seen, for the pattern

   (.*) ([a-zA-Z]+ [0-9]{1,2}, [0-9]{4} [0-9]{1,2}:[0-9]{2} [a-zA-Z]+) (.*)

 in each line. The decoder of the date text is a parameter and may reject it.
 */
module ExpiryTable {
  import opened Common
  import opened Text

  // ---- The date pattern ----

  predicate Letter(c: char) {
    'a' <= c <= 'z' || 'A' <= c <= 'Z'
  }

  predicate Digit(c: char) {
    '0' <= c <= '9'
  }

  /** A piece of the pattern: a literal, or between `min` and `max` characters of a class (no bound when None). */
  datatype Item = Lit(c: char) | Run(letters: bool, min: nat, max: Option<nat>)

  predicate InClass(letters: bool, c: char) {
    if letters then Letter(c) else Digit(c)
  }

  predicate Fits(item: Item, n: nat) {
    item.Run? && item.min <= n && (item.max.Some? ==> n <= item.max.value)
  }

  /** The second group, and the space that must follow it. */
  const DATE: seq<Item> := [
    Run(true, 1, None), Lit(' '), Run(false, 1, Some(2)), Lit(','), Lit(' '), Run(false, 4, Some(4)), Lit(' '),
    Run(false, 1, Some(2)), Lit(':'), Run(false, 2, Some(2)), Lit(' '), Run(true, 1, None), Lit(' ')]

  /** What the pattern means. */
  ghost predicate Matches(items: seq<Item>, t: string) {
    if items == [] then t == ""
    else match items[0]
         case Lit(c) => t != "" && t[0] == c && Matches(items[1..], t[1..])
         case Run(letters, _, _) =>
           exists n: nat | n <= |t| ::
             Fits(items[0], n) && (forall i | 0 <= i < n :: InClass(letters, t[i])) && Matches(items[1..], t[n..])
  }

  function RunLength(letters: bool, s: string): (n: nat)
    ensures n <= |s| && (forall i | 0 <= i < n :: InClass(letters, s[i])) && (n < |s| ==> !InClass(letters, s[n]))
  {
    if s != "" && InClass(letters, s[0]) then 1 + RunLength(letters, s[1..]) else 0
  }

  /** Matching at the front of `s`, taking each run as long as it goes; the number of characters used. */
  function Scan(items: seq<Item>, s: string): (r: Option<nat>)
    ensures r.Some? ==> r.value <= |s|
    decreases |items|
  {
    if items == [] then Some(0)
    else match items[0]
         case Lit(c) => if s != "" && s[0] == c then Plus(1, Scan(items[1..], s[1..])) else None
         case Run(letters, _, _) =>
           var n := RunLength(letters, s);
           if Fits(items[0], n) then Plus(n, Scan(items[1..], s[n..])) else None
  }

  function Plus(n: nat, r: Option<nat>): Option<nat> {
    match r
    case None => None
    case Some(k) => Some(n + k)
  }

  /** Every run is followed by a literal outside its class, so no backtracking into a run can help. */
  predicate Determinate(items: seq<Item>) {
    forall k | 0 <= k < |items| && items[k].Run? ::
      k + 1 < |items| && items[k + 1].Lit? && !InClass(items[k].letters, items[k + 1].c)
  }

  lemma DateIsDeterminate()
    ensures Determinate(DATE)
  {
  }

  lemma DeterminateTail(items: seq<Item>)
    requires Determinate(items) && items != []
    ensures Determinate(items[1..])
  {
    forall k | 0 <= k < |items[1..]| && items[1..][k].Run?
      ensures k + 1 < |items[1..]| && items[1..][k + 1].Lit? && !InClass(items[1..][k].letters, items[1..][k + 1].c)
    {
      assert items[1..][k] == items[k + 1];
    }
  }

  /** Scanning finds a match at the front exactly when there is one, and its end. */
  lemma {:induction false} ScanIsMatch(items: seq<Item>, s: string, e: nat)
    requires Determinate(items) && e <= |s|
    ensures Scan(items, s) == Some(e) <==> Matches(items, s[..e])
    decreases |items|
  {
    if items != [] {
      DeterminateTail(items);
      match items[0]
      case Lit(c) =>
        if s != "" && e > 0 {
          assert s[..e][1..] == s[1..][..e - 1];
          ScanIsMatch(items[1..], s[1..], e - 1);
        }
      case Run(letters, _, _) =>
        ScanRun(items, s, e, RunLength(letters, s));
    }
  }

  /** In a determinate pattern a matched run is the longest. */
  lemma RunIsLongest(items: seq<Item>, s: string, e: nat, m: nat)
    requires Determinate(items) && items != [] && items[0].Run? && m <= e <= |s|
    requires (forall i | 0 <= i < m :: InClass(items[0].letters, s[i])) && Matches(items[1..], s[m..e])
    ensures m == RunLength(items[0].letters, s)
  {
    assert items[1..][0] == items[1];
    assert m < e && s[m..e][0] == s[m] == items[1].c;
  }

  lemma {:induction false} MatchesRun(items: seq<Item>, s: string, e: nat, n: nat)
    requires Determinate(items) && e <= |s| && items != [] && items[0].Run? && n == RunLength(items[0].letters, s)
    ensures Matches(items, s[..e]) <==> n <= e && Fits(items[0], n) && Matches(items[1..], s[n..e])
  {
    assert forall m: nat | m <= e :: s[..e][m..] == s[m..e];
    assert forall i | 0 <= i < e :: s[..e][i] == s[i];
    if Matches(items, s[..e]) {
      var m: nat :| m <= e && Fits(items[0], m) && Matches(items[1..], s[..e][m..]) &&
                    (forall i | 0 <= i < m :: InClass(items[0].letters, s[..e][i]));
      RunIsLongest(items, s, e, m);
    }
    if n <= e && Fits(items[0], n) && Matches(items[1..], s[n..e]) {
      assert Matches(items[1..], s[..e][n..]);
    }
  }

  lemma {:induction false} ScanRun(items: seq<Item>, s: string, e: nat, n: nat)
    requires Determinate(items) && e <= |s| && items != [] && items[0].Run? && Determinate(items[1..])
    requires n == RunLength(items[0].letters, s)
    ensures Scan(items, s) == Some(e) <==> Matches(items, s[..e])
    decreases |items|, 0
  {
    MatchesRun(items, s, e, n);
    if n <= e {
      assert s[n..][..e - n] == s[n..e];
      ScanIsMatch(items[1..], s[n..], e - n);
    }
  }

  // ---- Finding the date in a line ----

  /** A determinate pattern that ends in a space. */
  predicate Usable(items: seq<Item>) {
    Determinate(items) && items != [] && items[|items| - 1] == Lit(' ')
  }

  /**
   The first two groups of a match of `(.*) (<items>)(.*)` in a line, the second without its closing space. The
   first group is greedy, so it is the last place where a space and the items follow that counts.
   */
  function Find(items: seq<Item>, s: string): Option<(string, string)> {
    if s == "" then None
    else match Find(items, s[1..])
         case Some((before, date)) => Some(([s[0]] + before, date))
         case None =>
           if s[0] != ' ' then None
           else match Scan(items, s[1..])
                case None => None
                case Some(n) => if n == 0 then None else Some(("", s[1..n]))
  }

  /** `line` starts with `before`, a space, `date` and a space, where `date` and the space match. */
  ghost predicate DateAfter(items: seq<Item>, line: string, before: string, date: string) {
    before + " " + date + " " <= line && Matches(items, date + " ")
  }

  lemma ScanEndsInSpace(items: seq<Item>, s: string, n: nat)
    requires Usable(items) && Scan(items, s) == Some(n)
    ensures 0 < n <= |s| && s[n - 1] == ' ' && Matches(items, s[..n - 1] + " ")
  {
    ScanIsMatch(items, s, n);
    EndsInSpace(items, s[..n]);
    assert s[..n] == s[..n - 1] + " ";
  }

  lemma {:induction false} EndsInSpace(items: seq<Item>, t: string)
    requires Matches(items, t) && items != [] && items[|items| - 1] == Lit(' ')
    ensures t != "" && t[|t| - 1] == ' '
    decreases |items|
  {
    match items[0]
    case Lit(c) =>
      if |items| > 1 { EndsInSpace(items[1..], t[1..]); }
    case Run(_, _, _) =>
      var n: nat :| n <= |t| && Fits(items[0], n) && Matches(items[1..], t[n..]);
      EndsInSpace(items[1..], t[n..]);
  }

  lemma FoundLater(items: seq<Item>, line: string, before: string, date: string)
    requires line != "" && DateAfter(items, line[1..], before, date)
    ensures DateAfter(items, line, [line[0]] + before, date)
  {
    assert [line[0]] + before + " " + date + " " == [line[0]] + (before + " " + date + " ");
    assert line == [line[0]] + line[1..];
  }

  lemma FoundHere(items: seq<Item>, line: string, n: nat)
    requires Usable(items) && line != "" && line[0] == ' ' && Scan(items, line[1..]) == Some(n)
    ensures n > 0 && DateAfter(items, line, "", line[1..n])
  {
    ScanEndsInSpace(items, line[1..], n);
    assert line[1..n] == line[1..][..n - 1];
    assert "" + " " + line[1..n] + " " == line[..n + 1];
  }

  lemma FrontDate(items: seq<Item>, line: string, date: string)
    requires Usable(items) && DateAfter(items, line, "", date)
    ensures line != "" && line[0] == ' ' && Scan(items, line[1..]) == Some(|date| + 1)
  {
    var t := date + " ";
    assert "" + " " + date + " " == " " + t;
    assert line[1..][..|t|] == t;
    ScanIsMatch(items, line[1..], |t|);
  }

  /** What is found is a date in the line. */
  lemma {:induction false} FindIsSound(items: seq<Item>, line: string)
    requires Usable(items)
    ensures Find(items, line).Some? ==> DateAfter(items, line, Find(items, line).value.0, Find(items, line).value.1)
  {
    if line != "" {
      var rest := line[1..];
      FindIsSound(items, rest);
      if Find(items, rest).Some? {
        FoundLater(items, line, Find(items, rest).value.0, Find(items, rest).value.1);
      } else if line[0] == ' ' && Scan(items, rest).Some? {
        FoundHere(items, line, Scan(items, rest).value);
      }
    }
  }

  /** Whenever there is a date in the line one is found, and none comes later. */
  lemma {:induction false} FindIsGreedy(items: seq<Item>, line: string, before: string, date: string)
    requires Usable(items) && DateAfter(items, line, before, date)
    ensures Find(items, line).Some? && |before| <= |Find(items, line).value.0|
  {
    if before == "" {
      FrontDate(items, line, date);
    } else {
      assert before + " " + date + " " == [line[0]] + (before[1..] + " " + date + " ");
      assert line == [line[0]] + line[1..];
      FindIsGreedy(items, line[1..], before[1..], date);
    }
  }

  lemma {:induction false} FindAfterPrefix(items: seq<Item>, prefix: string, s: string)
    requires Find(items, s).Some?
    ensures Find(items, prefix + s) == Some((prefix + Find(items, s).value.0, Find(items, s).value.1))
  {
    if prefix == "" {
      assert prefix + s == s;
      assert prefix + Find(items, s).value.0 == Find(items, s).value.0;
    } else {
      assert (prefix + s)[1..] == prefix[1..] + s;
      FindAfterPrefix(items, prefix[1..], s);
      assert [prefix[0]] + (prefix[1..] + Find(items, s).value.0) == prefix + Find(items, s).value.0;
    }
  }

  lemma {:induction false} NothingAfterPrefix(items: seq<Item>, prefix: string, s: string)
    requires Find(items, s).None? && ' ' !in prefix
    ensures Find(items, prefix + s).None?
  {
    if prefix == "" {
      assert prefix + s == s;
    } else {
      assert (prefix + s)[1..] == prefix[1..] + s;
      NothingAfterPrefix(items, prefix[1..], s);
    }
  }

  lemma NothingAfterSpace(items: seq<Item>, s: string)
    requires Find(items, s).None? && Scan(items, s).None?
    ensures Find(items, " " + s).None?
  {
    assert (" " + s)[1..] == s;
  }

  // ---- Rows ----

  datatype Date = Date(month: string, day: string, year: string, hour: string, minute: string, zone: string) {
    predicate Valid() {
      && |month| > 0 && AllLetters(month) && 1 <= |day| <= 2 && AllDigits(day) && |year| == 4 && AllDigits(year)
      && 1 <= |hour| <= 2 && AllDigits(hour) && |minute| == 2 && AllDigits(minute) && |zone| > 0 && AllLetters(zone)
    }

    function Show(): string {
      month + " " + day + ", " + year + " " + hour + ":" + minute + " " + zone
    }
  }

  predicate AllLetters(s: string) {
    forall i | 0 <= i < |s| :: 'a' <= s[i] <= 'z' || 'A' <= s[i] <= 'Z'
  }

  predicate AllDigits(s: string) {
    forall i | 0 <= i < |s| :: '0' <= s[i] <= '9'
  }

  lemma {:induction false} RunLengthIs(letters: bool, run: string, c: char, rest: string)
    requires (forall i | 0 <= i < |run| :: InClass(letters, run[i])) && !InClass(letters, c)
    ensures RunLength(letters, run + [c] + rest) == |run| && (run + [c] + rest)[|run|..] == [c] + rest
  {
    var s := run + [c] + rest;
    var n := RunLength(letters, s);
    assert s[|run|] == c;
    assert forall i | 0 <= i < |run| :: s[i] == run[i];
  }

  lemma ScanPastLit(items: seq<Item>, c: char, rest: string)
    requires |items| >= 1 && items[0] == Lit(c)
    ensures Scan(items, [c] + rest) == Plus(1, Scan(items[1..], rest))
  {
    assert ([c] + rest)[1..] == rest;
  }

  lemma ScanFirstRun(items: seq<Item>, s: string, n: nat)
    requires items != [] && items[0].Run? && Fits(items[0], n) && n == RunLength(items[0].letters, s)
    ensures Scan(items, s) == Plus(n, Scan(items[1..], s[n..]))
  {
  }

  lemma PlusOne(n: nat, r: Option<nat>)
    ensures Plus(n, Plus(1, r)) == Plus(n + 1, r)
  {
  }

  lemma {:induction false} ScanRunAndLit(items: seq<Item>, s: string, n: nat, c: char, rest: string)
    requires |items| >= 2 && items[0].Run? && items[1] == Lit(c) && Fits(items[0], n)
    requires n == RunLength(items[0].letters, s) && s[n..] == [c] + rest
    ensures Scan(items, s) == Plus(n + 1, Scan(items[2..], rest))
  {
    ScanFirstRun(items, s, n);
    assert items[1..][1..] == items[2..];
    ScanPastLit(items[1..], c, rest);
    PlusOne(n, Scan(items[2..], rest));
  }

  /** Scanning past a run and the literal that ends it. */
  lemma {:induction false} ScanPastRun(items: seq<Item>, run: string, c: char, rest: string)
    requires |items| >= 2 && items[0].Run? && items[1] == Lit(c) && Fits(items[0], |run|)
    requires (forall i | 0 <= i < |run| :: InClass(items[0].letters, run[i])) && !InClass(items[0].letters, c)
    ensures Scan(items, run + [c] + rest) == Plus(|run| + 1, Scan(items[2..], rest))
  {
    RunLengthIs(items[0].letters, run, c, rest);
    ScanRunAndLit(items, run + [c] + rest, |run|, c, rest);
  }

  /** `items` is the date pattern, piece by piece. */
  predicate IsDate(items: seq<Item>) {
    && |items| == 13
    && items[0] == Run(true, 1, None) && items[1] == Lit(' ')
    && items[2] == Run(false, 1, Some(2)) && items[3] == Lit(',') && items[4] == Lit(' ')
    && items[5] == Run(false, 4, Some(4)) && items[6] == Lit(' ')
    && items[7] == Run(false, 1, Some(2)) && items[8] == Lit(':')
    && items[9] == Run(false, 2, Some(2)) && items[10] == Lit(' ')
    && items[11] == Run(true, 1, None) && items[12] == Lit(' ')
  }

  /** A text that starts with no letter starts no date. */
  lemma NoLetterNoDate(items: seq<Item>, s: string)
    requires IsDate(items) && (s == "" || !Letter(s[0]))
    ensures Scan(items, s).None?
  {
  }

  /** One run and the literal after it, when the rest is known to match. */
  lemma ScanThrough(items: seq<Item>, k: nat, run: string, c: char, rest: string, n: nat)
    requires k + 2 <= |items| && items[k].Run? && items[k + 1] == Lit(c) && Fits(items[k], |run|)
    requires (forall i | 0 <= i < |run| :: InClass(items[k].letters, run[i])) && !InClass(items[k].letters, c)
    requires Scan(items[k + 2..], rest) == Some(n)
    ensures Scan(items[k..], run + [c] + rest) == Some(|run| + 1 + n)
  {
    ScanPastRun(items[k..], run, c, rest);
    assert items[k..][2..] == items[k + 2..];
  }

  /** The text of a date after its first space, in nested form. */
  function Clock(d: Date, tail: string): string {
    d.hour + [':'] + (d.minute + [' '] + (d.zone + [' '] + tail))
  }

  function AfterDay(d: Date, tail: string): string {
    d.year + [' '] + Clock(d, tail)
  }

  function AfterMonth(d: Date, tail: string): string {
    d.day + [','] + ([' '] + AfterDay(d, tail))
  }

  lemma ShowNested(d: Date, tail: string)
    ensures d.Show() + " " + tail == d.month + [' '] + AfterMonth(d, tail)
  {
    assert d.Show() + " " + tail ==
           d.month + " " + d.day + ", " + d.year + " " + d.hour + ":" + d.minute + " " + d.zone + " " + tail;
    assert ", " == [','] + [' '];
  }

  lemma ScanZone(items: seq<Item>, d: Date, tail: string)
    requires IsDate(items) && d.Valid()
    ensures Scan(items[11..], d.zone + [' '] + tail) == Some(|d.zone| + 1)
  {
    assert items[13..] == [];
    ScanThrough(items, 11, d.zone, ' ', tail, 0);
  }

  lemma ScanMinute(items: seq<Item>, d: Date, tail: string)
    requires IsDate(items) && d.Valid()
    ensures Scan(items[9..], d.minute + [' '] + (d.zone + [' '] + tail)) == Some(|d.minute| + |d.zone| + 2)
  {
    ScanZone(items, d, tail);
    ScanThrough(items, 9, d.minute, ' ', d.zone + [' '] + tail, |d.zone| + 1);
  }

  lemma ScanClock(items: seq<Item>, d: Date, tail: string)
    requires IsDate(items) && d.Valid()
    ensures Scan(items[7..], Clock(d, tail)) == Some(|d.hour| + |d.minute| + |d.zone| + 3)
  {
    ScanMinute(items, d, tail);
    ScanThrough(items, 7, d.hour, ':', d.minute + [' '] + (d.zone + [' '] + tail), |d.minute| + |d.zone| + 2);
  }

  lemma ScanYear(items: seq<Item>, d: Date, tail: string)
    requires IsDate(items) && d.Valid()
    ensures Scan(items[5..], AfterDay(d, tail)) == Some(|d.year| + |d.hour| + |d.minute| + |d.zone| + 4)
  {
    ScanClock(items, d, tail);
    ScanThrough(items, 5, d.year, ' ', Clock(d, tail), |d.hour| + |d.minute| + |d.zone| + 3);
  }

  lemma ScanYearSpace(items: seq<Item>, d: Date, tail: string)
    requires IsDate(items) && d.Valid()
    ensures Scan(items[4..], [' '] + AfterDay(d, tail)) == Some(|d.year| + |d.hour| + |d.minute| + |d.zone| + 5)
  {
    ScanYear(items, d, tail);
    ScanPastLit(items[4..], ' ', AfterDay(d, tail));
    assert items[4..][1..] == items[5..];
  }

  lemma ScanDay(items: seq<Item>, d: Date, tail: string)
    requires IsDate(items) && d.Valid()
    ensures Scan(items[2..], AfterMonth(d, tail)) == Some(|d.day| + |d.year| + |d.hour| + |d.minute| + |d.zone| + 6)
  {
    ScanYearSpace(items, d, tail);
    ScanThrough(items, 2, d.day, ',', [' '] + AfterDay(d, tail), |d.year| + |d.hour| + |d.minute| + |d.zone| + 5);
  }

  lemma ShowLength(d: Date)
    ensures |d.Show()| == |d.month| + |d.day| + |d.year| + |d.hour| + |d.minute| + |d.zone| + 6
  {
  }

  lemma ScanShown(items: seq<Item>, d: Date, tail: string)
    requires IsDate(items) && d.Valid()
    ensures Scan(items, d.month + [' '] + AfterMonth(d, tail)) == Some(|d.Show()| + 1)
  {
    ScanDay(items, d, tail);
    ShowLength(d);
    assert items[0..] == items;
    ScanThrough(items, 0, d.month, ' ', AfterMonth(d, tail), |d.day| + |d.year| + |d.hour| + |d.minute| + |d.zone| + 6);
  }

  /** What may follow a date's minutes: a zone and trailing columns in which no further date is found. */
  ghost predicate Plain(items: seq<Item>, zone: string, tail: string) {
    forall before, date :: !DateAfter(items, [' '] + (zone + [' '] + tail), before, date)
  }

  lemma DigitsHaveNoSpace(s: string)
    requires AllDigits(s) || AllLetters(s)
    ensures ' ' !in s
  {
  }

  /** Trailing columns that are set off by a blank and hold no date themselves will do. */
  lemma SetOffTailIsPlain(items: seq<Item>, zone: string, tail: string)
    requires IsDate(items) && Usable(items) && |zone| > 0 && AllLetters(zone)
    requires tail == "" || (!Letter(tail[0]) && !Digit(tail[0]))
    requires forall before, date :: !DateAfter(items, tail, before, date)
    ensures Plain(items, zone, tail)
  {
    NothingFromZone(items, zone, tail);
    forall before, date ensures !DateAfter(items, [' '] + (zone + [' '] + tail), before, date) {
      if DateAfter(items, [' '] + (zone + [' '] + tail), before, date) {
        FindIsGreedy(items, [' '] + (zone + [' '] + tail), before, date);
      }
    }
  }

  lemma {:induction false} NothingFromZone(items: seq<Item>, zone: string, tail: string)
    requires IsDate(items) && Usable(items) && |zone| > 0 && AllLetters(zone)
    requires tail == "" || (!Letter(tail[0]) && !Digit(tail[0]))
    requires forall before, date :: !DateAfter(items, tail, before, date)
    ensures Find(items, [' '] + (zone + [' '] + tail)).None?
  {
    FindIsSound(items, tail);
    NoLetterNoDate(items, tail);
    NothingAfterSpace(items, tail);
    assert [' '] + tail == " " + tail;
    DigitsHaveNoSpace(zone);
    NothingAfterPrefix(items, zone, [' '] + tail);
    assert zone + ([' '] + tail) == zone + [' '] + tail;
    ScanPastRun(items, zone, ' ', tail);
    assert items[2..][0] == items[2];
    assert Scan(items[2..], tail).None?;
    NothingAfterSpace(items, zone + [' '] + tail);
    assert [' '] + (zone + [' '] + tail) == " " + (zone + [' '] + tail);
  }

  /** Nothing is found in a number, one more character and a text in which nothing is found. */
  lemma NothingFromNumber(items: seq<Item>, number: string, c: char, rest: string)
    requires IsDate(items) && |number| > 0 && AllDigits(number)
    requires c == ' ' || Find(items, rest).None?
    requires c == ' ' ==> Find(items, [' '] + rest).None?
    ensures Find(items, number + [c] + rest).None? && Find(items, [' '] + (number + [c] + rest)).None?
  {
    DigitsHaveNoSpace(number);
    var s := number + [c] + rest;
    if c == ' ' {
      NothingAfterPrefix(items, number, [' '] + rest);
      assert number + ([' '] + rest) == s;
    } else {
      NothingAfterPrefix(items, number + [c], rest);
    }
    NoLetterNoDate(items, s);
    NothingAfterSpace(items, s);
    assert [' '] + s == " " + s;
  }

  lemma NothingInClock(items: seq<Item>, d: Date, tail: string)
    requires IsDate(items) && Usable(items) && d.Valid() && Plain(items, d.zone, tail)
    ensures Find(items, [' '] + Clock(d, tail)).None?
  {
    var zoned := d.zone + [' '] + tail;
    FindIsSound(items, [' '] + zoned);
    NothingFromNumber(items, d.minute, ' ', zoned);
    NothingFromNumber(items, d.hour, ':', d.minute + [' '] + zoned);
  }

  lemma NothingInShown(items: seq<Item>, d: Date, tail: string)
    requires IsDate(items) && Usable(items) && d.Valid() && Plain(items, d.zone, tail)
    ensures Find(items, d.month + [' '] + AfterMonth(d, tail)).None?
  {
    NothingInClock(items, d, tail);
    NothingFromNumber(items, d.year, ' ', Clock(d, tail));
    NothingFromNumber(items, d.day, ',', [' '] + AfterDay(d, tail));
    DigitsHaveNoSpace(d.month);
    NothingAfterPrefix(items, d.month, [' '] + AfterMonth(d, tail));
    Regroup(d.month, [' '], AfterMonth(d, tail));
  }

  lemma FindInRow(items: seq<Item>, before: string, d: Date, tail: string)
    requires IsDate(items) && Usable(items) && d.Valid() && Plain(items, d.zone, tail)
    ensures Find(items, before + (" " + (d.Show() + " " + tail))) == Some((before, d.Show()))
  {
    var text := d.Show() + " " + tail;
    ShowNested(d, tail);
    ScanShown(items, d, tail);
    NothingInShown(items, d, tail);
    var s := " " + text;
    assert s[1..] == text;
    assert s[1..|d.Show()| + 1] == d.Show();
    FindAfterPrefix(items, before, s);
    assert before + "" == before;
  }

  lemma DateAfterPrefix(items: seq<Item>, prefix: string, s: string, before: string, date: string)
    requires DateAfter(items, s, before, date)
    ensures DateAfter(items, prefix + s, prefix + before, date)
  {
    assert prefix + before + " " + date + " " == prefix + (before + " " + date + " ");
  }

  /** In a row, the printed date and all that precedes it are found exactly when no date comes later. */
  lemma FindInRowIff(items: seq<Item>, before: string, d: Date, tail: string)
    requires IsDate(items) && Usable(items) && d.Valid()
    ensures var line := before + (" " + (d.Show() + " " + tail));
            Find(items, line) == Some((before, d.Show())) <==> Plain(items, d.zone, tail)
  {
    if Plain(items, d.zone, tail) {
      FindInRow(items, before, d, tail);
    } else {
      var zoned := [' '] + (d.zone + [' '] + tail);
      var b, t :| DateAfter(items, zoned, b, t);
      var head := d.month + " " + d.day + ", " + d.year + " " + d.hour + ":" + d.minute;
      assert d.Show() == head + [' '] + d.zone;
      var line := before + (" " + (d.Show() + " " + tail));
      assert line == (before + " " + head) + zoned;
      DateAfterPrefix(items, before + " " + head, zoned, b, t);
      FindIsGreedy(items, line, before + " " + head + b, t);
    }
  }

  // ---- What is found is a date ----

  /** A match that begins with a run. */
  lemma PeelRun(items: seq<Item>, k: nat, t: string) returns (run: string, rest: string)
    requires k < |items| && items[k].Run? && Matches(items[k..], t)
    ensures t == run + rest && Fits(items[k], |run|) && Matches(items[k + 1..], rest)
    ensures if items[k].letters then AllLetters(run) else AllDigits(run)
  {
    assert items[k..][0] == items[k] && items[k..][1..] == items[k + 1..];
    var n: nat :| n <= |t| && Fits(items[k..][0], n) && Matches(items[k..][1..], t[n..]) &&
                  (forall i | 0 <= i < n :: InClass(items[k..][0].letters, t[i]));
    run, rest := t[..n], t[n..];
  }

  /** A match that begins with a literal. */
  lemma PeelLit(items: seq<Item>, k: nat, c: char, t: string) returns (rest: string)
    requires k < |items| && items[k] == Lit(c) && Matches(items[k..], t)
    ensures t == [c] + rest && Matches(items[k + 1..], rest)
  {
    assert items[k..][0] == items[k] && items[k..][1..] == items[k + 1..];
    rest := t[1..];
  }

  /** A run and the literal after it. */
  lemma Peel(items: seq<Item>, k: nat, c: char, t: string) returns (run: string, rest: string)
    requires k + 1 < |items| && items[k].Run? && items[k + 1] == Lit(c) && Matches(items[k..], t)
    ensures t == run + [c] + rest && Fits(items[k], |run|) && Matches(items[k + 2..], rest)
    ensures if items[k].letters then AllLetters(run) else AllDigits(run)
  {
    var after;
    run, after := PeelRun(items, k, t);
    rest := PeelLit(items, k + 1, c, after);
    Regroup(run, [c], rest);
  }

  lemma PeelClock(items: seq<Item>, t: string) returns (hour: string, minute: string, zone: string)
    requires IsDate(items) && Matches(items[7..], t)
    ensures t == hour + [':'] + (minute + [' '] + (zone + [' '] + ""))
    ensures 1 <= |hour| <= 2 && AllDigits(hour) && |minute| == 2 && AllDigits(minute) && |zone| > 0 && AllLetters(zone)
  {
    var t9, t11, t13;
    hour, t9 := Peel(items, 7, ':', t);
    minute, t11 := Peel(items, 9, ' ', t9);
    zone, t13 := Peel(items, 11, ' ', t11);
    assert items[13..] == [];
  }

  lemma PeelDay(items: seq<Item>, t: string) returns (month: string, day: string, year: string, clock: string)
    requires IsDate(items) && Matches(items, t)
    ensures t == month + [' '] + (day + [','] + ([' '] + (year + [' '] + clock)))
    ensures |month| > 0 && AllLetters(month) && 1 <= |day| <= 2 && AllDigits(day) && |year| == 4 && AllDigits(year)
    ensures Matches(items[7..], clock)
  {
    assert items[0..] == items;
    var t2, t4, t5;
    month, t2 := Peel(items, 0, ' ', t);
    day, t4 := Peel(items, 2, ',', t2);
    t5 := PeelLit(items, 4, ' ', t4);
    year, clock := Peel(items, 5, ' ', t5);
  }

  /** Whatever is found in a line is the printed form of a date, with a blank on each side. */
  lemma FoundIsDate(items: seq<Item>, line: string) returns (d: Date)
    requires IsDate(items) && Usable(items) && Find(items, line).Some?
    ensures d.Valid() && Find(items, line).value.1 == d.Show()
    ensures Find(items, line).value.0 + " " + d.Show() + " " <= line
  {
    var found := Find(items, line).value.1;
    FindIsSound(items, line);
    var month, day, year, clock := PeelDay(items, found + " ");
    var hour, minute, zone := PeelClock(items, clock);
    d := Date(month, day, year, hour, minute, zone);
    ShowNested(d, "");
    assert found + " " == d.Show() + " " + "";
    SameWithoutBlank(found, d.Show());
  }

  lemma SameWithoutBlank(a: string, b: string)
    requires a + " " == b + " " + ""
    ensures a == b
  {
    assert |a| == |b|;
    assert a == (a + " ")[..|a|] && b == (b + " " + "")[..|b|];
  }

  lemma DateIsUsable()
    ensures IsDate(DATE) && Usable(DATE)
  {
    DateIsDeterminate();
  }

  // ---- Trimming ----

  predicate Space(c: char) {
    c == ' ' || c == '\t' || c == '\n' || c == '\r' || c == 11 as char || c == 12 as char
  }

  function TrimLeft(s: string): string {
    if s != "" && Space(s[0]) then TrimLeft(s[1..]) else s
  }

  function TrimRight(s: string): string {
    if s != "" && Space(s[|s| - 1]) then TrimRight(s[..|s| - 1]) else s
  }

  function Trim(s: string): string {
    TrimRight(TrimLeft(s))
  }

  predicate Trimmed(s: string) {
    s != "" ==> !Space(s[0]) && !Space(s[|s| - 1])
  }

  predicate AllSpace(s: string) {
    forall i | 0 <= i < |s| :: Space(s[i])
  }

  lemma {:induction false} TrimLeftPadded(lead: string, s: string)
    requires AllSpace(lead) && (s != "" ==> !Space(s[0]))
    ensures TrimLeft(lead + s) == s
  {
    if lead == "" {
      assert lead + s == s;
    } else {
      assert (lead + s)[1..] == lead[1..] + s;
      TrimLeftPadded(lead[1..], s);
    }
  }

  lemma {:induction false} TrimRightPadded(s: string, pad: string)
    requires AllSpace(pad) && (s != "" ==> !Space(s[|s| - 1]))
    ensures TrimRight(s + pad) == s
  {
    if pad == "" {
      assert s + pad == s;
    } else {
      var n := |pad| - 1;
      assert (s + pad)[..|s + pad| - 1] == s + pad[..n];
      TrimRightPadded(s, pad[..n]);
    }
  }

  /** Trimming takes off the blanks on both sides and nothing else. */
  lemma {:induction false} TrimPadded(lead: string, s: string, pad: string)
    requires AllSpace(lead) && AllSpace(pad) && Trimmed(s)
    ensures Trim(lead + s + pad) == s
  {
    if s == "" {
      assert lead + s + pad == (lead + pad) + "";
      TrimLeftPadded(lead + pad, "");
    } else {
      assert lead + s + pad == lead + (s + pad) && (s + pad)[0] == s[0];
      TrimLeftPadded(lead, s + pad);
      TrimRightPadded(s, pad);
    }
  }

  // ---- Texts without a date ----

  /** A text without digits has no date at its front. */
  lemma {:induction false} NoDigitNoScan(items: seq<Item>, s: string)
    requires IsDate(items) && forall i | 0 <= i < |s| :: !Digit(s[i])
    ensures Scan(items, s).None?
  {
    var n := RunLength(true, s);
    var later := items[1..];
    assert later[0] == items[1] && later[1..] == items[2..];
    if n < |s| && s[n] == ' ' {
      assert s[n..][1..] == s[n + 1..];
      NoDigitNoRun(items[2..], s[n + 1..]);
    }
  }

  lemma NoDigitNoRun(items: seq<Item>, s: string)
    requires items != [] && items[0] == Run(false, 1, Some(2)) && forall i | 0 <= i < |s| :: !Digit(s[i])
    ensures Scan(items, s).None?
  {
    assert RunLength(false, s) == 0;
  }

  /** A line without digits is found to have no date. */
  lemma {:induction false} NoDigitNoDate(items: seq<Item>, s: string)
    requires IsDate(items) && forall i | 0 <= i < |s| :: !Digit(s[i])
    ensures Find(items, s).None?
  {
    if s != "" {
      NoDigitNoDate(items, s[1..]);
      NoDigitNoScan(items, s[1..]);
    }
  }
}
