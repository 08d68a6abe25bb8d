/**
 One tick of the loop on one node: its calls and their trace, when the next tick is quiet, and how a tick looks to
 someone who watches the certificates only.
 */
module Daemon {
  import opened Common
  import opened KubeletYaml
  import opened KubeletConfig
  import opened DueSelection
  import ExpiryParser
  import opened Expiration
  import opened Traces
  import Renewal
  import CertificateTable
  import Protocol = RotationProtocol
  import Watching = ExpiryWatch

  /** The expiry dates after some renewal attempts: a renewed certificate gets the date kubeadm gave it. */
  function Renewed(
    expires: map<string, int>, t: Trace<Renewal.Action>, dates: string -> int): map<string, int>
  {
    map c | c in expires :: if Renewal.Renewals(t, c) > 0 then dates(c) else expires[c]
  }

  /** The outcome of the calls of one tick. */
  datatype TickIo = TickIo(
    now: int, confIo: Io, yamlIo: Io, commands: Commands, acquired: bool, ios: nat -> Io, restartOk: bool,
    renewals: Renewal.Outcomes, dates: string -> int)

  /** How the outputs of kubeadm are read. */
  datatype Readers = Readers(version: VersionParser, date: ExpiryParser.DateDecoder)

  /** The expiry dates that the check sees; none when it fails. */
  function Seen(r: Readers, commands: Commands): map<string, int> {
    var text := Shown(commands, r.version);
    if text.None? then map[] else ExpiryParser.Parsed(r.date, text.value)
  }

  /** The check dies on the version it is told. */
  predicate Dies(r: Readers, commands: Commands) {
    commands.version.Some? && r.version(TrimNewline(commands.version.value)).None?
  }

  /** The configuration check lists exactly these paths. */
  ghost predicate Lists(paths: seq<Path>, files: Files, wanted: Flags, decode: YamlDecoder, confIo: Io, yamlIo: Io) {
    forall p :: p in paths <==>
      || (p == KubeletConf && Check(files, p, wanted, decode, confIo) == Ok(true))
      || (p == ConfigYaml && Check(files, p, wanted, decode, yamlIo) == Ok(true))
  }

  class Daemon {
    const kubelet: Kubelet
    const table: map<string, string>
    const window: int
    const readers: Readers
    var expires: map<string, int>
    var unschedulable: bool
    var trace: Trace<Protocol.Event>

    constructor (
      kubelet: Kubelet, table: map<string, string>, window: int, readers: Readers, expires: map<string, int>)
      ensures this.kubelet == kubelet && this.table == table && this.window == window && this.readers == readers
      ensures this.expires == expires && !unschedulable && trace == Nothing
    {
      this.kubelet, this.table, this.window, this.readers := kubelet, table, window, readers;
      this.expires, unschedulable, trace := expires, false, Nothing;
    }

    method Record(e: Protocol.Event)
      modifies this`trace
      ensures trace == Then(old(trace), e)
    {
      trace := Then(trace, e);
    }

    /** What a tick finds to do; `alive` is false when the program panics. */
    method Look(io: TickIo) returns (paths: seq<Path>, names: seq<string>, alive: bool)
      ensures Lists(paths, kubelet.host.files, kubelet.wanted, kubelet.decode, io.confIo, io.yamlIo)
      ensures forall c :: c in names <==>
                c in Seen(readers, io.commands) && Due(Seen(readers, io.commands)[c], io.now, window)
      ensures alive <==> !Dies(readers, io.commands)
    {
      var ok;
      paths, ok := kubelet.CheckConfig(io.confIo, io.yamlIo);
      var clock := (i: nat) => io.now;
      var checked := CheckExpiration(io.commands, readers.version, readers.date, window, clock);
      if checked.Names? {
        SelectsDue(checked.names, Seen(readers, io.commands), window, clock, io.now);
        return paths, checked.names, true;
      }
      return paths, [], checked.CommandFailed?;
    }

    /**
     One turn of the loop: check, and if there is anything to do ask for the lock, once; change things only with it,
     between cordon and drain on one side and uncordon and release on the other. `tried` says whether the lock was
     asked for, and `alive` whether the program goes on.
     */
    method Tick(io: TickIo) returns (paths: seq<Path>, names: seq<string>, tried: bool, alive: bool)
      modifies this`expires, this`trace, kubelet.host
      ensures Lists(paths, old(kubelet.host.files), kubelet.wanted, kubelet.decode, io.confIo, io.yamlIo)
      ensures forall c :: c in names <==>
                c in Seen(readers, io.commands) && Due(Seen(readers, io.commands)[c], io.now, window)
      ensures tried <==> !Dies(readers, io.commands) && (paths != [] || names != [])
      ensures alive <==> !Dies(readers, io.commands) && !(tried && io.acquired && Panics(table, names, io))
      ensures var work := Protocol.Work(paths != [], names != []);
              trace == if Dies(readers, io.commands) then Then(old(trace), Protocol.Crashed)
                       else Protocol.TickTrace(old(trace), work, unschedulable, io.acquired, Panics(table, names, io))
      ensures expires == DatesAfter(old(expires), names, table, io)
      ensures !(tried && io.acquired) ==> unchanged(kubelet.host)
      ensures tried && io.acquired ==>
                && kubelet.host.files == UpdatedFiles(old(kubelet.host.files), paths, kubelet, io)
                && kubelet.host.restarts ==
                   old(kubelet.host.restarts) + Restarts(old(kubelet.host.files), paths, names, kubelet, table, io)
    {
      paths, names, alive := Look(io);
      assert names != [] ==> names[0] in names;
      tried := alive && (|paths| > 0 || |names| > 0);
      if !alive {
        Record(Protocol.Crashed);
        return;
      }
      if !tried { return; }
      Record(Protocol.Found(Protocol.Work(|paths| > 0, |names| > 0)));
      if !io.acquired {
        Record(Protocol.Refused);
        return;
      }
      Record(Protocol.Acquired);
      alive := Section(paths, names, io);
    }

    /** The critical section, from the acquire to the release, or to a panic in the rotation. */
    method Section(paths: seq<Path>, names: seq<string>, io: TickIo) returns (alive: bool)
      modifies this`expires, this`trace, kubelet.host
      ensures alive <==> !Panics(table, names, io)
      ensures trace == Protocol.SectionTrace(
                         old(trace), Protocol.Work(paths != [], names != []), unschedulable, Panics(table, names, io))
      ensures kubelet.host.files == UpdatedFiles(old(kubelet.host.files), paths, kubelet, io)
      ensures kubelet.host.restarts ==
              old(kubelet.host.restarts) + Restarts(old(kubelet.host.files), paths, names, kubelet, table, io)
      ensures expires == UpdatedDates(old(expires), names, table, io)
    {
      Configure(paths, io);
      if |names| > 0 {
        alive := Renew(names, io);
        if !alive {
          Record(Protocol.Crashed);
          return;
        }
        Record(Protocol.Rotated);
      }
      Leave();
      alive := true;
    }

    /** The end of the section: uncordon and release. */
    method Leave()
      modifies this`trace
      ensures var freed := if unschedulable then old(trace) else Then(old(trace), Protocol.Uncordoned);
              trace == Then(freed, Protocol.Released)
    {
      if !unschedulable {
        Record(Protocol.Uncordoned);
      }
      Record(Protocol.Released);
    }

    /** The section up to the rotation: cordon, drain, and the configuration update. */
    method Configure(paths: seq<Path>, io: TickIo)
      modifies this`trace, kubelet.host
      ensures trace == Protocol.ConfigTrace(old(trace), paths != [], unschedulable)
      ensures kubelet.host.files == UpdatedFiles(old(kubelet.host.files), paths, kubelet, io)
      ensures kubelet.host.restarts ==
              old(kubelet.host.restarts) + UpdateRestarts(old(kubelet.host.files), paths, kubelet, io)
    {
      if !unschedulable {
        Record(Protocol.Cordoned);
        Record(Protocol.Drained);
      }
      if |paths| > 0 {
        var done := kubelet.UpdateConfig(paths, io.ios, io.restartOk);
        Record(Protocol.Updated);
      }
    }

    /** The rotation and what it does to the host: new dates, and a restart when it ends in one. */
    method Renew(names: seq<string>, io: TickIo) returns (alive: bool)
      modifies this`expires, kubelet.host`restarts
      ensures alive <==> !Panics(table, names, io)
      ensures expires == Renewed(old(expires), Renewal.Attempts(table, names, io.renewals), io.dates)
      ensures kubelet.host.restarts ==
              old(kubelet.host.restarts) + if Renewal.AllDone(table, names, io.renewals) then 1 else 0
    {
      var done, attempts;
      done, alive, attempts := Renewal.Rotate(table, names, io.renewals);
      RestartRenewsNothing(attempts, Renewal.Attempts(table, names, io.renewals), expires, io.dates);
      Renewal.RenewalDiscipline(table, names, io.renewals, "");
      expires := Renewed(expires, attempts, io.dates);
      if attempts.Then? && attempts.event.Restart? {
        kubelet.host.restarts := kubelet.host.restarts + 1;
      }
    }

    /** The loop over ticks, until the program is told to quit or dies. */
    method Loop(ios: seq<TickIo>) returns (turns: seq<Turn>, alive: bool)
      modifies this`expires, this`trace, kubelet.host
      ensures |turns| <= |ios| && forall i | 0 <= i < |turns| :: turns[i].io == ios[i]
      ensures alive ==> |turns| == |ios|
      ensures forall i | 0 <= i < |turns| :: turns[i].Names(readers, window)
      ensures expires == Through(old(expires), turns, table)
    {
      turns, alive := [], true;
      while alive && |turns| < |ios|
        invariant |turns| <= |ios| && forall i | 0 <= i < |turns| :: turns[i].io == ios[i]
        invariant forall i | 0 <= i < |turns| :: turns[i].Names(readers, window)
        invariant expires == Through(old(expires), turns, table)
      {
        var io := ios[|turns|];
        var paths, names, tried;
        ghost var before := turns;
        paths, names, tried, alive := Tick(io);
        turns := turns + [Turn(names, io)];
        assert turns[..|turns| - 1] == before;
      }
    }
  }

  /** A tick as it went: the names it found due, and the outcome of its calls. */
  datatype Turn = Turn(names: seq<string>, io: TickIo) {
    ghost predicate Names(r: Readers, window: int) {
      forall c :: c in names <==> c in Seen(r, io.commands) && Due(Seen(r, io.commands)[c], io.now, window)
    }
  }

  /** The dates after some turns. */
  function Through(expires: map<string, int>, turns: seq<Turn>, table: map<string, string>): map<string, int> {
    if turns == [] then expires
    else
      var n := |turns| - 1;
      DatesAfter(Through(expires, turns[..n], table), turns[n].names, table, turns[n].io)
  }

  // ---- What a section leaves behind ----

  function UpdatedFiles(files: Files, paths: seq<Path>, kubelet: Kubelet, io: TickIo): Files {
    if paths == [] then files else UpdateAll(files, paths, kubelet.wanted, kubelet.decode, io.ios).files
  }

  /** One restart for updates that all succeeded. */
  function UpdateRestarts(files: Files, paths: seq<Path>, kubelet: Kubelet, io: TickIo): nat {
    var end := UpdateAll(files, paths, kubelet.wanted, kubelet.decode, io.ios);
    if paths != [] && !end.failed && !end.unknown then 1 else 0
  }

  /** One restart for updates that all succeeded, one for renewals that all did. */
  function Restarts(
    files: Files, paths: seq<Path>, names: seq<string>, kubelet: Kubelet, table: map<string, string>, io: TickIo): nat
  {
    UpdateRestarts(files, paths, kubelet, io) +
    (if names != [] && Renewal.AllDone(table, names, io.renewals) then 1 else 0)
  }

  function UpdatedDates(
    expires: map<string, int>, names: seq<string>, table: map<string, string>, io: TickIo): map<string, int>
  {
    if names == [] then expires else Renewed(expires, Renewal.Attempts(table, names, io.renewals), io.dates)
  }

  /** The renewal of the named certificates panics. */
  predicate Panics(table: map<string, string>, names: seq<string>, io: TickIo) {
    Renewal.Panicked(Renewal.Attempts(table, names, io.renewals))
  }

  lemma RestartRenewsNothing(
    t: Trace<Renewal.Action>, attempts: Trace<Renewal.Action>, expires: map<string, int>, dates: string -> int)
    requires t == attempts || (t.Then? && t.before == attempts && t.event.Restart?)
    ensures Renewed(expires, t, dates) == Renewed(expires, attempts, dates)
  {
    assert forall c :: Renewal.Renewals(t, c) == Renewal.Renewals(attempts, c);
  }

  /** The dates after a tick that has named these certificates. */
  function DatesAfter(
    expires: map<string, int>, names: seq<string>, table: map<string, string>, io: TickIo): map<string, int>
  {
    if io.acquired then UpdatedDates(expires, names, table, io) else expires
  }

  lemma NothingListed(names: seq<string>, expires: map<string, int>, table: map<string, string>, io: TickIo)
    ensures UpdatedDates(expires, names, table, io) ==
            Renewed(expires, Renewal.Attempts(table, names, io.renewals), io.dates)
  {
  }

  // ---- Quiescence ----

  /** A tick at `now` would ask for the lock, if its checks do not fail. */
  ghost predicate WantsLock(
    files: Files, expires: map<string, int>, wanted: Flags, decode: YamlDecoder, window: int, now: int)
  {
    Needed(files, wanted, decode) != {} || exists c | c in expires :: Due(expires[c], now, window)
  }

  /** What a tick lists when its checks see the files and the dates as they are. */
  ghost predicate ListsAll(
    paths: seq<Path>, names: seq<string>, files: Files, expires: map<string, int>,
    wanted: Flags, decode: YamlDecoder, window: int, now: int)
  {
    && (forall p :: p in paths <==> p in Needed(files, wanted, decode))
    && (forall c :: c in names <==> c in expires && Due(expires[c], now, window))
  }

  /** A tick whose checks do not fail and see the dates as they are asks for the lock exactly when it wants to. */
  lemma TriesIffWanted(
    paths: seq<Path>, names: seq<string>, files: Files, expires: map<string, int>,
    wanted: Flags, decode: YamlDecoder, window: int, io: TickIo)
    requires io.confIo.readOk && io.yamlIo.readOk && Lists(paths, files, wanted, decode, io.confIo, io.yamlIo)
    requires forall c :: c in names <==> c in expires && Due(expires[c], io.now, window)
    ensures ListsAll(paths, names, files, expires, wanted, decode, window, io.now)
    ensures paths != [] || names != [] <==> WantsLock(files, expires, wanted, decode, window, io.now)
  {
    forall p ensures p in paths <==> p in Needed(files, wanted, decode) {}
    assert paths != [] ==> paths[0] in paths;
    assert names != [] ==> names[0] in names;
  }

  /** A fault-free renewal with dates beyond the window leaves a certificate due exactly when it is not in the table. */
  lemma DueAfterwards(
    expires: map<string, int>, names: seq<string>, table: map<string, string>, window: int, io: TickIo, c: string)
    requires forall i: nat :: io.renewals.backupOk(i) && io.renewals.renew(i) == Renewal.Renewed
    requires forall c :: !Due(io.dates(c), io.now, window)
    requires forall c :: c in names <==> c in expires && Due(expires[c], io.now, window)
    requires c in expires
    ensures Due(UpdatedDates(expires, names, table, io)[c], io.now, window) <==>
            Due(expires[c], io.now, window) && c !in table
  {
    NothingListed(names, expires, table, io);
    Renewal.NoPanic(table, names, io.renewals);
    Renewal.RenewedIff(table, names, io.renewals, c);
    if c in names {
      var i :| 0 <= i < |names| && names[i] == c;
      assert io.renewals.backupOk(i) && io.renewals.renew(i) == Renewal.Renewed;
    }
  }

  /**
   Quiescence: take any fault-free tick with the lock, whose renewals land beyond the window. The next tick at the
   same moment asks for the lock again exactly when a due name lies outside the table.
   */
  lemma QuietIffAllKnown(
    files: Files, expires: map<string, int>, paths: seq<Path>, names: seq<string>, kubelet: Kubelet,
    table: map<string, string>, window: int, io: TickIo)
    requires Readable(kubelet.decode, files.yaml, kubelet.wanted) && NoFaults(io.ios)
    requires forall i: nat :: io.renewals.backupOk(i) && io.renewals.renew(i) == Renewal.Renewed
    requires forall c :: !Due(io.dates(c), io.now, window)
    requires ListsAll(paths, names, files, expires, kubelet.wanted, kubelet.decode, window, io.now)
    ensures var files' := UpdatedFiles(files, paths, kubelet, io);
            var expires' := UpdatedDates(expires, names, table, io);
            WantsLock(files', expires', kubelet.wanted, kubelet.decode, window, io.now) <==>
            exists c | c in expires :: Due(expires[c], io.now, window) && c !in table
  {
    Convergence(files, paths, [], kubelet.wanted, kubelet.decode, io.ios);
    assert paths == [] ==> UpdateAll(files, paths, kubelet.wanted, kubelet.decode, io.ios).files == files;
    var after := UpdatedDates(expires, names, table, io);
    assert after.Keys == expires.Keys;
    forall c | c in expires ensures Due(after[c], io.now, window) <==> Due(expires[c], io.now, window) && c !in table {
      DueAfterwards(expires, names, table, window, io, c);
    }
    if c :| c in after && Due(after[c], io.now, window) {
      assert c in expires && Due(expires[c], io.now, window) && c !in table;
    }
    if c :| c in expires && Due(expires[c], io.now, window) && c !in table {
      assert c in after && Due(after[c], io.now, window);
    }
  }

  /** Once a certificate that the table does not know is due, a fault-free tick is followed by another request. */
  lemma UnknownKeepsAsking(
    files: Files, kubelet: Kubelet, table: map<string, string>, name: string, paths: seq<Path>, io: TickIo)
    requires Readable(kubelet.decode, files.yaml, kubelet.wanted) && NoFaults(io.ios) && name !in table
    requires forall i: nat :: io.renewals.backupOk(i) && io.renewals.renew(i) == Renewal.Renewed
    requires forall c :: !Due(io.dates(c), io.now, 0)
    requires forall p :: p in paths <==> p in Needed(files, kubelet.wanted, kubelet.decode)
    ensures WantsLock(UpdatedFiles(files, paths, kubelet, io), UpdatedDates(map[name := io.now], [name], table, io),
                      kubelet.wanted, kubelet.decode, 0, io.now)
  {
    var expires := map[name := io.now];
    assert name in expires && Due(expires[name], io.now, 0);
    QuietIffAllKnown(files, expires, paths, [name], kubelet, table, 0, io);
  }

  /** The program does meet such names: kubeadm lists the authorities, which are not in the program's table. */
  lemma AuthorityKeepsAsking(files: Files, kubelet: Kubelet, paths: seq<Path>, io: TickIo)
    requires Readable(kubelet.decode, files.yaml, kubelet.wanted) && NoFaults(io.ios)
    requires forall i: nat :: io.renewals.backupOk(i) && io.renewals.renew(i) == Renewal.Renewed
    requires forall c :: !Due(io.dates(c), io.now, 0)
    requires forall p :: p in paths <==> p in Needed(files, kubelet.wanted, kubelet.decode)
    ensures var table := CertificateTable.CERTIFICATES;
            WantsLock(UpdatedFiles(files, paths, kubelet, io), UpdatedDates(map["ca" := io.now], ["ca"], table, io),
                      kubelet.wanted, kubelet.decode, 0, io.now)
  {
    CertificateTable.AuthorityIsUnknown("ca");
    UnknownKeepsAsking(files, kubelet, CertificateTable.CERTIFICATES, "ca", paths, io);
  }

  // ---- What a tick sees ----

  /** When kubeadm prints its dates, in one table or several, the check sees exactly these dates. */
  lemma SeesWhatIsPrinted(
    r: Readers, commands: Commands, intro: seq<string>, header: string, lines: seq<ExpiryParser.Line>)
    requires ExpiryParser.ValidOutput(intro, header, lines)
    requires Shown(commands, r.version) == Some(ExpiryParser.Output(intro, header, lines))
    ensures Seen(r, commands) == ExpiryParser.Table(r.date, ExpiryParser.Rows(lines)) && !Dies(r, commands)
  {
    ExpiryParser.RoundTrip(r.date, intro, header, lines);
  }

  /** So when the printed rows are the dates as they are, a turn names exactly what is due. */
  lemma NamesWhatIsDue(
    turn: Turn, r: Readers, window: int, intro: seq<string>, header: string, lines: seq<ExpiryParser.Line>,
    expires: map<string, int>)
    requires turn.Names(r, window) && ExpiryParser.ValidOutput(intro, header, lines)
    requires Shown(turn.io.commands, r.version) == Some(ExpiryParser.Output(intro, header, lines))
    requires ExpiryParser.Table(r.date, ExpiryParser.Rows(lines)) == expires
    ensures forall c :: c in turn.names <==> c in expires && Due(expires[c], turn.io.now, window)
  {
    SeesWhatIsPrinted(r, turn.io.commands, intro, header, lines);
  }

  // ---- A tick as a step of the watch ----

  /** The dates of the certificates under watch. */
  function Dates(w: Watching.Watch): map<string, int> {
    map c | c in w.certs :: w.certs[c].expires
  }

  /** The certificates that a tick renews, with their new dates. */
  function RenewedBy(
    expires: map<string, int>, names: seq<string>, table: map<string, string>, io: TickIo): map<string, int>
  {
    map c | c in expires && io.acquired && Renewal.Renewals(Renewal.Attempts(table, names, io.renewals), c) > 0 ::
      io.dates(c)
  }

  /**
   Every tick, whatever fails in it, is a step of the watch as long as no certificate is missed more than `k` times in
   a row and renewals land beyond the window: the dates it leaves are those the watch's step leaves.
   */
  lemma TickIsWatched(
    k: nat, period: int, window: int, w: Watching.Watch, names: seq<string>, table: map<string, string>, io: TickIo)
    requires io.now == w.now && forall c :: !Due(io.dates(c), io.now, window)
    requires forall c | c in names :: c in w.certs && Due(w.certs[c].expires, io.now, window)
    requires forall c | c in w.certs && Due(w.certs[c].expires, io.now, window) ::
               c in RenewedBy(Dates(w), names, table, io) || w.certs[c].missed < k
    ensures var next := Watching.Apply(k, period, window, w, Watching.Tick(RenewedBy(Dates(w), names, table, io)));
            next.Some? && Dates(next.value) == DatesAfter(Dates(w), names, table, io)
  {
    var renewed := RenewedBy(Dates(w), names, table, io);
    forall c | c in renewed ensures c in w.certs && Due(w.certs[c].expires, w.now, window) {
      Renewal.RenewedIff(table, names, io.renewals, c);
    }
    DatesAgree(k, period, window, w, names, table, io);
  }

  lemma DatesAgree(
    k: nat, period: int, window: int, w: Watching.Watch, names: seq<string>, table: map<string, string>, io: TickIo)
    requires Watching.Apply(k, period, window, w, Watching.Tick(RenewedBy(Dates(w), names, table, io))).Some?
    ensures var next := Watching.Apply(k, period, window, w, Watching.Tick(RenewedBy(Dates(w), names, table, io)));
            Dates(next.value) == DatesAfter(Dates(w), names, table, io)
  {
    var renewed := RenewedBy(Dates(w), names, table, io);
    NothingListed(names, Dates(w), table, io);
    var next := Watching.Apply(k, period, window, w, Watching.Tick(renewed)).value;
    var after := DatesAfter(Dates(w), names, table, io);
    forall c | c in w.certs ensures next.certs[c].expires == after[c] {}
    assert Dates(next) == after;
  }

  /** A fault-free tick with the lock misses nothing, if all that is due is in the table. */
  lemma FaultFreeTickIsWatched(
    period: int, window: int, w: Watching.Watch, names: seq<string>, table: map<string, string>, io: TickIo)
    requires io.now == w.now && io.acquired && forall c :: !Due(io.dates(c), io.now, window)
    requires forall i: nat :: io.renewals.backupOk(i) && io.renewals.renew(i) == Renewal.Renewed
    requires forall c :: c in names <==> c in w.certs && Due(w.certs[c].expires, io.now, window)
    requires forall c | c in names :: c in table
    ensures var next := Watching.Apply(0, period, window, w, Watching.Tick(RenewedBy(Dates(w), names, table, io)));
            next.Some? && Dates(next.value) == DatesAfter(Dates(w), names, table, io)
  {
    Renewal.NoPanic(table, names, io.renewals);
    forall c | c in w.certs && Due(w.certs[c].expires, io.now, window)
      ensures c in RenewedBy(Dates(w), names, table, io)
    {
      var i :| 0 <= i < |names| && names[i] == c;
      assert io.renewals.backupOk(i) && io.renewals.renew(i) == Renewal.Renewed;
      Renewal.RenewedIff(table, names, io.renewals, c);
    }
    TickIsWatched(0, period, window, w, names, table, io);
  }
}
