/** The expiry check end to end: the text kubeadm prints, the parser, and the due names. */
module Expiration {
  import opened Common
  import opened Text
  import opened ExpiryTable
  import opened ExpiryParser
  import opened DueSelection

  /** A semantic version, as far as its order goes. */
  datatype Version = Version(major: nat, minor: nat, patch: nat, preRelease: bool)

  /** At least v1.20.0; a pre-release comes before its release. */
  predicate AtLeast120(v: Version) {
    || v.major > 1
    || (v.major == 1 && v.minor > 20)
    || (v.major == 1 && v.minor == 20 && (v.patch > 0 || !v.preRelease))
  }

  /** The order of versions. */
  predicate Before(a: Version, b: Version) {
    || a.major < b.major
    || (a.major == b.major && a.minor < b.minor)
    || (a.major == b.major && a.minor == b.minor && a.patch < b.patch)
    || (a.major == b.major && a.minor == b.minor && a.patch == b.patch && a.preRelease && !b.preRelease)
  }

  /** The order of versions is a strict total order. */
  lemma BeforeIsOrder(a: Version, b: Version, c: Version)
    ensures !Before(a, a) && (Before(a, b) && Before(b, c) ==> Before(a, c))
    ensures a == b || Before(a, b) || Before(b, a)
  {
  }

  lemma AtLeastMeansNotBefore(v: Version)
    ensures AtLeast120(v) <==> !Before(v, Version(1, 20, 0, false))
  {
  }

  /** What each kubeadm command prints, or nothing when it fails. */
  datatype Commands = Commands(version: Option<string>, certs: Option<string>, alphaCerts: Option<string>)

  type VersionParser = string -> Option<Version>

  /** What the check comes to: the program panics on a version it cannot read. */
  datatype Checked = Names(names: seq<string>) | CommandFailed | Panicked

  function TrimNewline(s: string): string {
    if s != "" && s[|s| - 1] == '\n' then s[..|s| - 1] else s
  }

  /** One newline at the end is taken off, if there is one. */
  lemma TrimNewlineMeaning(s: string)
    ensures TrimNewline(s + "\n") == s
    ensures (forall t :: s != t + "\n") ==> TrimNewline(s) == s
  {
    if s != "" && s[|s| - 1] == '\n' { assert s == s[..|s| - 1] + "\n"; }
  }

  /** The text that is parsed, if it comes to that. */
  function Shown(commands: Commands, parseVersion: VersionParser): Option<string> {
    if commands.version.None? then None
    else match parseVersion(TrimNewline(commands.version.value))
         case None => None
         case Some(v) => if AtLeast120(v) then commands.certs else commands.alphaCerts
  }

  /** Which command's output is parsed: the newer subcommand's from v1.20.0 on, the older one's before. */
  lemma ShownIs(commands: Commands, parseVersion: VersionParser)
    ensures commands.version.Some? && parseVersion(TrimNewline(commands.version.value)).Some? ==>
              var v := parseVersion(TrimNewline(commands.version.value)).value;
              Shown(commands, parseVersion) == Printed(commands, v)
    ensures commands.version.None? || parseVersion(TrimNewline(commands.version.value)).None? ==>
              Shown(commands, parseVersion) == None
  {
  }

  /** What the subcommand that goes with a version prints. */
  function Printed(commands: Commands, v: Version): Option<string> {
    if Before(v, Version(1, 20, 0, false)) then commands.alphaCerts else commands.certs
  }

  /** Asks for the version, runs the command that fits it, reads the table and selects the due names. */
  method CheckExpiration(
    commands: Commands, parseVersion: VersionParser, decode: DateDecoder, window: int, clock: nat -> int)
    returns (r: Checked)
    ensures r.Names? <==> Shown(commands, parseVersion).Some?
    ensures r.Names? <==> && commands.version.Some? && parseVersion(TrimNewline(commands.version.value)).Some?
                          && Printed(commands, parseVersion(TrimNewline(commands.version.value)).value).Some?
    ensures r.Names? ==>
              var text := Printed(commands, parseVersion(TrimNewline(commands.version.value)).value).value;
              Selects(r.names, Parsed(decode, text), window, clock)
    ensures r.Panicked? <==> commands.version.Some? && parseVersion(TrimNewline(commands.version.value)).None?
    ensures r.Names? ==> Selects(r.names, Parsed(decode, Shown(commands, parseVersion).value), window, clock)
  {
    if commands.version.None? { return CommandFailed; }
    var version := parseVersion(TrimNewline(commands.version.value));
    if version.None? { return Panicked; }
    var stdout := if AtLeast120(version.value) then commands.certs else commands.alphaCerts;
    if stdout.None? { return CommandFailed; }
    var expires := Parse(decode, stdout.value);
    var names := SelectDue(expires, window, clock);
    return Names(names);
  }

  /** The row that decides for a name: the last one whose date can be decoded. */
  ghost predicate Decides(decode: DateDecoder, rows: seq<Row>, i: int, name: string) {
    && 0 <= i < |rows| && rows[i].name == name && decode(rows[i].date.Show()).Some?
    && forall j | i < j < |rows| :: rows[j].name == name ==> decode(rows[j].date.Show()).None?
  }

  /** A name that some decodable row carries has a row that decides. */
  lemma {:induction false} LastRow(decode: DateDecoder, rows: seq<Row>, name: string, k: nat) returns (i: nat)
    requires k < |rows| && rows[k].name == name && decode(rows[k].date.Show()).Some?
    ensures Decides(decode, rows, i, name)
    decreases |rows| - k
  {
    if j :| k < j < |rows| && rows[j].name == name && decode(rows[j].date.Show()).Some? {
      i := LastRow(decode, rows, name, j);
    } else {
      i := k;
    }
  }

  /**
   For every output, of one table or several, in any mix with lines without a date: a name is due exactly when the
   last decodable row for it, in whichever table, expires within the window.
   */
  lemma {:induction false} DueFromPrintedTable(
    decode: DateDecoder, intro: seq<string>, header: string, lines: seq<Line>, window: int, now: int, name: string)
    requires ValidOutput(intro, header, lines) && -1 <= window < MAX_DURATION
    ensures var table := Parsed(decode, Output(intro, header, lines));
            name in table && Due(table[name], now, window) <==>
            exists i :: Decides(decode, Rows(lines), i, name) &&
                        decode(Rows(lines)[i].date.Show()).value <= now + window
  {
    RoundTrip(decode, intro, header, lines);
    DueInTable(decode, Rows(lines), window, now, name);
  }

  lemma {:induction false} DueInTable(decode: DateDecoder, rows: seq<Row>, window: int, now: int, name: string)
    requires -1 <= window < MAX_DURATION
    ensures name in Table(decode, rows) && Due(Table(decode, rows)[name], now, window) <==>
            exists i :: Decides(decode, rows, i, name) && decode(rows[i].date.Show()).value <= now + window
  {
    TableMeaning(decode, rows, name);
    if name in Table(decode, rows) {
      var k :| 0 <= k < |rows| && rows[k].name == name && decode(rows[k].date.Show()).Some?;
      var i := LastRow(decode, rows, name, k);
      assert Table(decode, rows)[name] == decode(rows[i].date.Show()).value;
      forall j | Decides(decode, rows, j, name) ensures j == i {}
    }
  }
}
