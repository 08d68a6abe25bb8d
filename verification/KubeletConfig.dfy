/**
 Checking and updating the kubelet's two configuration files. /etc/kubernetes/kubelet.conf is seen as its
 map of auth entries, /var/lib/kubelet/config.yaml as text. Each file operation may fail; a failed write
 leaves arbitrary content behind. Maps are walked in any order.
 */
module KubeletConfig {
  import opened Common
  import opened KubeletYaml

  /** The keys of the `configs` table, and every path that is not one of them. */
  datatype Path =
    | KubeletConf  // /etc/kubernetes/kubelet.conf
    | ConfigYaml   // /var/lib/kubelet/config.yaml
    | Unlisted(name: string)

  const CURRENT_PEM := "/var/lib/kubelet/pki/kubelet-client-current.pem"

  datatype AuthInfo = AuthInfo(keyData: string, certData: string, keyFile: string, certFile: string) {
    predicate Inline() {
      |keyData| > 0 || |certData| > 0
    }
  }

  type AuthInfos = map<string, AuthInfo>

  datatype Files = Files(conf: AuthInfos, yaml: string)

  /** The outcome of each file operation of one call; `torn` is what a failed write leaves behind. */
  datatype Io = Io(readOk: bool, statOk: bool, writeOk: bool, torn: Files)

  /** The YAML decoder, reduced to the two flags; it may reject a text. */
  type YamlDecoder = string -> Result<Flags>

  /** The decoder reads the flags of a text off its lines. */
  ghost predicate ReadsLines(decode: YamlDecoder, text: string) {
    decode(text) == Ok(ReadFlags(text))
  }

  /** An in-domain text that the decoder reads off its lines, and so too once the wanted flags are set in it. */
  ghost predicate Readable(decode: YamlDecoder, text: string, wanted: Flags) {
    InDomain(text) && ReadsLines(decode, text) && ReadsLines(decode, EditFlags(text, ReadFlags(text), wanted))
  }

  // ---- What one check and one update do to the files ----

  predicate AnyInline(conf: AuthInfos) {
    exists name | name in conf :: conf[name].Inline()
  }

  function Externalized(a: AuthInfo): AuthInfo {
    if a.Inline() then AuthInfo("", "", CURRENT_PEM, CURRENT_PEM) else a
  }

  function ConfUpdate(conf: AuthInfos): AuthInfos {
    map name | name in conf :: Externalized(conf[name])
  }

  function Check(files: Files, path: Path, wanted: Flags, decode: YamlDecoder, io: Io): Result<bool> {
    if !io.readOk then Err
    else if path == KubeletConf then Ok(AnyInline(files.conf))
    else match decode(files.yaml)
         case Err => Err
         case Ok(flags) => Ok(flags != wanted)
  }

  /** The files after one update call, and whether it succeeded. */
  function Update(files: Files, path: Path, wanted: Flags, decode: YamlDecoder, io: Io): (Files, bool) {
    if !io.readOk then (files, false)
    else if path == KubeletConf then
      if io.writeOk then (files.(conf := ConfUpdate(files.conf)), true) else (files.(conf := io.torn.conf), false)
    else match decode(files.yaml)
         case Err => (files, false)
         case Ok(flags) =>
           if !io.statOk then (files, false)
           else if io.writeOk then (files.(yaml := EditFlags(files.yaml, flags, wanted)), true)
           else (files.(yaml := io.torn.yaml), false)
  }

  /** The outcome of a list of updates: they go on after a failure, but stop at an unknown path. */
  datatype Outcome = Outcome(files: Files, failed: bool, unknown: bool)

  function UpdateNext(done: Outcome, path: Path, wanted: Flags, decode: YamlDecoder, io: Io): Outcome {
    if done.unknown then done
    else if path.Unlisted? then done.(unknown := true)
    else
      var (after, ok) := Update(done.files, path, wanted, decode, io);
      Outcome(after, done.failed || !ok, false)
  }

  function UpdateAll(files: Files, paths: seq<Path>, wanted: Flags, decode: YamlDecoder, ios: nat -> Io): Outcome
    decreases |paths|
  {
    if paths == [] then Outcome(files, false, false)
    else
      var n := |paths| - 1;
      UpdateNext(UpdateAll(files, paths[..n], wanted, decode, ios), paths[n], wanted, decode, ios(n))
  }

  /** Entries with inline data are emptied and point to the current pair; the others stay as they are. */
  ghost predicate Externalizes(conf: AuthInfos, conf': AuthInfos) {
    && conf'.Keys == conf.Keys
    && forall n | n in conf ::
         conf'[n] == if conf[n].keyData == "" && conf[n].certData == "" then conf[n]
                     else AuthInfo("", "", "/var/lib/kubelet/pki/kubelet-client-current.pem",
                                   "/var/lib/kubelet/pki/kubelet-client-current.pem")
  }

  class Host {
    var files: Files
    var restarts: nat

    constructor (files: Files)
      ensures this.files == files && restarts == 0
    {
      this.files := files;
      restarts := 0;
    }
  }

  class Kubelet {
    const wanted: Flags
    const decode: YamlDecoder
    const host: Host

    constructor (wanted: Flags, decode: YamlDecoder, host: Host)
      ensures this.wanted == wanted && this.decode == decode && this.host == host
    {
      this.wanted := wanted;
      this.decode := decode;
      this.host := host;
    }

    method CheckKubeletConf(io: Io) returns (r: Result<bool>)
      ensures r == Check(host.files, KubeletConf, wanted, decode, io)
      ensures r.Err? <==> !io.readOk
      ensures r.Ok? ==> (r.value <==> exists name | name in host.files.conf ::
                           host.files.conf[name].keyData != "" || host.files.conf[name].certData != "")
    {
      if !io.readOk { return Err; }
      var conf := host.files.conf;
      var pending := conf.Keys;
      while pending != {}
        invariant pending <= conf.Keys
        invariant forall name | name in conf && name !in pending :: !conf[name].Inline()
      {
        var name :| name in pending;
        if conf[name].Inline() { return Ok(true); }
        pending := pending - {name};
      }
      return Ok(false);
    }

    method UpdateKubeletConf(io: Io) returns (ok: bool)
      modifies host`files
      ensures (host.files, ok) == Update(old(host.files), KubeletConf, wanted, decode, io)
      ensures ok <==> io.readOk && io.writeOk
      ensures host.files.yaml == old(host.files.yaml) && (!io.readOk ==> host.files == old(host.files))
      ensures ok ==> Externalizes(old(host.files.conf), host.files.conf)
      ensures io.readOk && !io.writeOk ==> host.files.conf == io.torn.conf
    {
      if !io.readOk { return false; }
      var loaded := host.files.conf;
      var conf := loaded;
      var pending := conf.Keys;
      while pending != {}
        invariant pending <= conf.Keys == loaded.Keys
        invariant forall name | name in conf ::
                    conf[name] == if name in pending then loaded[name] else Externalized(loaded[name])
      {
        var name :| name in pending;
        if conf[name].Inline() {
          conf := conf[name := conf[name].(keyData := "", certData := "")];
          conf := conf[name := conf[name].(keyFile := CURRENT_PEM, certFile := CURRENT_PEM)];
        }
        pending := pending - {name};
      }
      assert conf == ConfUpdate(loaded);
      host.files := host.files.(conf := if io.writeOk then conf else io.torn.conf);
      return io.writeOk;
    }

    method CheckConfigYaml(io: Io) returns (r: Result<bool>)
      ensures r == Check(host.files, ConfigYaml, wanted, decode, io)
      ensures r.Err? <==> !io.readOk || decode(host.files.yaml).Err?
      ensures r.Ok? ==> (r.value <==> decode(host.files.yaml) != Ok(wanted))
    {
      if !io.readOk { return Err; }
      match decode(host.files.yaml)
      case Err => return Err;
      case Ok(kc) =>
        if kc.client != wanted.client { return Ok(true); }
        if kc.server != wanted.server { return Ok(true); }
        return Ok(false);
    }

    method UpdateConfigYaml(io: Io) returns (ok: bool)
      modifies host`files
      ensures (host.files, ok) == Update(old(host.files), ConfigYaml, wanted, decode, io)
      ensures ok <==> io.readOk && decode(old(host.files.yaml)).Ok? && io.statOk && io.writeOk
      ensures host.files.conf == old(host.files.conf)
      ensures !(io.readOk && decode(old(host.files.yaml)).Ok? && io.statOk) ==> host.files == old(host.files)
      ensures io.readOk && decode(old(host.files.yaml)).Ok? && io.statOk && !io.writeOk ==>
                host.files.yaml == io.torn.yaml
      ensures ok ==> host.files.yaml == EditFlags(old(host.files.yaml), decode(old(host.files.yaml)).value, wanted)
    {
      if !io.readOk { return false; }
      var buffer := host.files.yaml;
      match decode(buffer)
      case Err => return false;
      case Ok(kc) =>
        if kc.client != wanted.client {
          if Text.Contains(buffer, CLIENT_KEY) {
            buffer := Text.ReplaceFirst(buffer, Entry(CLIENT_KEY, kc.client), Entry(CLIENT_KEY, wanted.client));
          } else {
            buffer := buffer + Entry(CLIENT_KEY, wanted.client) + "\n";
          }
        }
        if kc.server != wanted.server {
          if Text.Contains(buffer, SERVER_KEY) {
            buffer := Text.ReplaceFirst(buffer, Entry(SERVER_KEY, kc.server), Entry(SERVER_KEY, wanted.server));
          } else {
            buffer := buffer + Entry(SERVER_KEY, wanted.server) + "\n";
          }
        }
        if !io.statOk { return false; }
        host.files := host.files.(yaml := if io.writeOk then buffer else io.torn.yaml);
        return io.writeOk;
    }

    /** The paths whose check asks for an update, each once, in the order of the walk. */
    method CheckConfig(confIo: Io, yamlIo: Io) returns (paths: seq<Path>, ok: bool)
      ensures ok <==> && Check(host.files, KubeletConf, wanted, decode, confIo).Ok?
                      && Check(host.files, ConfigYaml, wanted, decode, yamlIo).Ok?
      ensures forall i, j | 0 <= i < j < |paths| :: paths[i] != paths[j]
      ensures forall path :: path in paths <==>
                || (path == KubeletConf && Check(host.files, path, wanted, decode, confIo) == Ok(true))
                || (path == ConfigYaml && Check(host.files, path, wanted, decode, yamlIo) == Ok(true))
    {
      paths, ok := [], true;
      var pending := {KubeletConf, ConfigYaml};
      while pending != {}
        invariant pending <= {KubeletConf, ConfigYaml}
        invariant ok <==> && (KubeletConf in pending || Check(host.files, KubeletConf, wanted, decode, confIo).Ok?)
                          && (ConfigYaml in pending || Check(host.files, ConfigYaml, wanted, decode, yamlIo).Ok?)
        invariant forall i, j | 0 <= i < j < |paths| :: paths[i] != paths[j]
        invariant forall path | path in pending :: path !in paths
        invariant forall path | path !in pending ::
                    path in paths <==>
                    || (path == KubeletConf && Check(host.files, path, wanted, decode, confIo) == Ok(true))
                    || (path == ConfigYaml && Check(host.files, path, wanted, decode, yamlIo) == Ok(true))
      {
        var path :| path in pending;
        var r;
        if path == KubeletConf { r := CheckKubeletConf(confIo); } else { r := CheckConfigYaml(yamlIo); }
        if r.Err? {
          ok := false;
        } else if r.value {
          paths := paths + [path];
        }
        pending := pending - {path};
      }
    }

    /** Runs the updates in order; the kubelet is restarted, once, only when every one succeeded. */
    method UpdateConfig(paths: seq<Path>, ios: nat -> Io, restartOk: bool) returns (ok: bool)
      modifies host
      ensures var end := UpdateAll(old(host.files), paths, wanted, decode, ios);
              && host.files == end.files
              && host.restarts == old(host.restarts) + (if end.failed || end.unknown then 0 else 1)
              && (ok <==> !end.failed && !end.unknown && restartOk)
    {
      var failed := false;
      for i := 0 to |paths|
        invariant UpdateAll(old(host.files), paths[..i], wanted, decode, ios) == Outcome(host.files, failed, false)
        invariant host.restarts == old(host.restarts)
      {
        assert paths[..i + 1][..i] == paths[..i];
        if paths[i].Unlisted? {
          UnknownStops(old(host.files), paths, i, wanted, decode, ios);
          return false;
        }
        var done;
        if paths[i] == KubeletConf { done := UpdateKubeletConf(ios(i)); } else { done := UpdateConfigYaml(ios(i)); }
        failed := failed || !done;
      }
      assert paths[..|paths|] == paths;
      if failed { return false; }
      host.restarts := host.restarts + 1;
      return restartOk;
    }
  }

  lemma UnknownStays(done: Outcome, path: Path, wanted: Flags, decode: YamlDecoder, io: Io)
    requires done.unknown
    ensures UpdateNext(done, path, wanted, decode, io) == done
  {
  }

  lemma {:induction false} UnknownStops(
    files: Files, paths: seq<Path>, i: nat, wanted: Flags, decode: YamlDecoder, ios: nat -> Io)
    requires i < |paths| && paths[i].Unlisted?
    requires !UpdateAll(files, paths[..i], wanted, decode, ios).unknown
    ensures UpdateAll(files, paths, wanted, decode, ios) ==
            UpdateAll(files, paths[..i], wanted, decode, ios).(unknown := true)
    decreases |paths|
  {
    var n := |paths| - 1;
    var init := paths[..n];
    if i < n {
      assert init[..i] == paths[..i] && init[i] == paths[i];
      UnknownStops(files, init, i, wanted, decode, ios);
      UnknownStays(UpdateAll(files, init, wanted, decode, ios), paths[n], wanted, decode, ios(n));
    }
  }

  /** The i-th listed update, on the files that the ones before it left. */
  function IthUpdate(
    files: Files, paths: seq<Path>, i: nat, wanted: Flags, decode: YamlDecoder, ios: nat -> Io): (Files, bool)
    requires i < |paths|
  {
    Update(UpdateAll(files, paths[..i], wanted, decode, ios).files, paths[i], wanted, decode, ios(i))
  }

  /** The i-th listed path is known and its update succeeds. */
  predicate Succeeds(files: Files, paths: seq<Path>, i: nat, wanted: Flags, decode: YamlDecoder, ios: nat -> Io)
    requires i < |paths|
  {
    !paths[i].Unlisted? && IthUpdate(files, paths, i, wanted, decode, ios).1
  }

  lemma SameIth(files: Files, paths: seq<Path>, n: nat, i: nat, wanted: Flags, decode: YamlDecoder, ios: nat -> Io)
    requires i < n <= |paths|
    ensures paths[..n][i] == paths[i]
    ensures Succeeds(files, paths[..n], i, wanted, decode, ios) == Succeeds(files, paths, i, wanted, decode, ios)
  {
    assert paths[..n][..i] == paths[..i];
  }

  lemma {:induction false} UnknownIff(
    files: Files, paths: seq<Path>, wanted: Flags, decode: YamlDecoder, ios: nat -> Io)
    ensures UpdateAll(files, paths, wanted, decode, ios).unknown <==> exists i: nat | i < |paths| :: paths[i].Unlisted?
    decreases |paths|
  {
    if paths != [] {
      var n := |paths| - 1;
      UnknownIff(files, paths[..n], wanted, decode, ios);
      assert forall i: nat | i < n :: paths[..n][i] == paths[i];
    }
  }

  /** A failure does not stop the list: every known path is updated, on what the ones before it left. */
  lemma GoesOn(files: Files, paths: seq<Path>, wanted: Flags, decode: YamlDecoder, ios: nat -> Io)
    requires paths != [] && forall i: nat | i < |paths| :: !paths[i].Unlisted?
    ensures UpdateAll(files, paths, wanted, decode, ios).files ==
            IthUpdate(files, paths, |paths| - 1, wanted, decode, ios).0
  {
    var init := paths[..|paths| - 1];
    UnknownIff(files, init, wanted, decode, ios);
    assert forall i: nat | i < |init| :: init[i] == paths[i];
  }

  lemma SucceedsSnoc(files: Files, paths: seq<Path>, wanted: Flags, decode: YamlDecoder, ios: nat -> Io)
    requires paths != []
    ensures var n := |paths| - 1;
            var before := UpdateAll(files, paths[..n], wanted, decode, ios);
            var after := UpdateAll(files, paths, wanted, decode, ios);
            !after.failed && !after.unknown <==>
            !before.failed && !before.unknown && Succeeds(files, paths, n, wanted, decode, ios)
  {
  }

  /**
   For any faults: the list comes to its end without a failure, which is when the kubelet is restarted, exactly when
   every listed path is known and every update, on the files that the ones before it left, succeeds.
   */
  lemma {:induction false} RestartsIffAllSucceed(
    files: Files, paths: seq<Path>, wanted: Flags, decode: YamlDecoder, ios: nat -> Io)
    ensures var end := UpdateAll(files, paths, wanted, decode, ios);
            !end.failed && !end.unknown <==>
            forall i: nat | i < |paths| :: Succeeds(files, paths, i, wanted, decode, ios)
    decreases |paths|
  {
    if paths != [] {
      var n := |paths| - 1;
      RestartsIffAllSucceed(files, paths[..n], wanted, decode, ios);
      forall i: nat | i < n
        ensures Succeeds(files, paths[..n], i, wanted, decode, ios) == Succeeds(files, paths, i, wanted, decode, ios)
      {
        SameIth(files, paths, n, i, wanted, decode, ios);
      }
      SucceedsSnoc(files, paths, wanted, decode, ios);
    }
  }

  // ---- Convergence ----

  ghost predicate NoFaults(ios: nat -> Io) {
    forall i: nat :: ios(i).readOk && ios(i).statOk && ios(i).writeOk
  }

  /** The paths a fault-free check reports. */
  ghost function Needed(files: Files, wanted: Flags, decode: YamlDecoder): set<Path> {
    (if AnyInline(files.conf) then {KubeletConf} else {}) +
    (if decode(files.yaml).Ok? && decode(files.yaml).value != wanted then {ConfigYaml} else {})
  }

  /** The files `paths` should leave behind: each listed file brought up to date, the others untouched. */
  ghost function Goal(files: Files, paths: seq<Path>, wanted: Flags): Files {
    Files(
      if KubeletConf in paths then ConfUpdate(files.conf) else files.conf,
      if ConfigYaml in paths then EditFlags(files.yaml, ReadFlags(files.yaml), wanted) else files.yaml)
  }

  lemma ConfUpdateTwice(conf: AuthInfos)
    ensures ConfUpdate(ConfUpdate(conf)) == ConfUpdate(conf) && !AnyInline(ConfUpdate(conf))
  {
  }

  lemma EditTwice(text: string, wanted: Flags)
    requires InDomain(text)
    ensures var out := EditFlags(text, ReadFlags(text), wanted);
            InDomain(out) && ReadFlags(out) == wanted && EditFlags(out, wanted, wanted) == out
  {
    EditRefinesLines(text, wanted);
  }

  lemma NextReachesGoal(files: Files, paths: seq<Path>, path: Path, wanted: Flags, decode: YamlDecoder, io: Io)
    requires io.readOk && io.statOk && io.writeOk && !path.Unlisted? && Readable(decode, files.yaml, wanted)
    ensures Update(Goal(files, paths, wanted), path, wanted, decode, io) == (Goal(files, paths + [path], wanted), true)
  {
    EditTwice(files.yaml, wanted);
    ConfUpdateTwice(files.conf);
  }

  /** Updating a set of files does not depend on the order of the list or on repeats. */
  lemma {:induction false} UpdateReachesGoal(
    files: Files, paths: seq<Path>, wanted: Flags, decode: YamlDecoder, ios: nat -> Io)
    requires NoFaults(ios) && Readable(decode, files.yaml, wanted)
    requires forall p | p in paths :: !p.Unlisted?
    ensures UpdateAll(files, paths, wanted, decode, ios) == Outcome(Goal(files, paths, wanted), false, false)
  {
    if paths != [] {
      var n := |paths| - 1;
      UpdateReachesGoal(files, paths[..n], wanted, decode, ios);
      NextReachesGoal(files, paths[..n], paths[n], wanted, decode, ios(n));
      assert paths == paths[..n] + [paths[n]];
    }
  }

  lemma NothingToExternalize(conf: AuthInfos)
    requires !AnyInline(conf)
    ensures ConfUpdate(conf) == conf
  {
  }

  /** The files reached from what the check reported: each as updated, whether or not it was listed. */
  lemma GoalOfNeeded(files: Files, paths: seq<Path>, wanted: Flags, decode: YamlDecoder)
    requires Readable(decode, files.yaml, wanted) && forall p :: p in paths <==> p in Needed(files, wanted, decode)
    ensures Goal(files, paths, wanted) ==
            Files(ConfUpdate(files.conf), EditFlags(files.yaml, ReadFlags(files.yaml), wanted))
  {
    if KubeletConf !in paths { NothingToExternalize(files.conf); }
  }

  /** Updated files are up to date and stay as they are under any further update. */
  lemma UpdatedIsSettled(files: Files, again: seq<Path>, wanted: Flags, decode: YamlDecoder)
    requires Readable(decode, files.yaml, wanted)
    ensures var end := Files(ConfUpdate(files.conf), EditFlags(files.yaml, ReadFlags(files.yaml), wanted));
            && Readable(decode, end.yaml, wanted) && ReadFlags(end.yaml) == wanted
            && Needed(end, wanted, decode) == {} && Goal(end, again, wanted) == end
  {
    EditTwice(files.yaml, wanted);
    ConfUpdateTwice(files.conf);
  }

  /**
   Running the update on what the check reported makes the next check report nothing, for every order of the
   list; entries without inline data and files already up to date are untouched; any second update changes nothing.
   */
  lemma Convergence(
    files: Files, paths: seq<Path>, again: seq<Path>, wanted: Flags, decode: YamlDecoder, ios: nat -> Io)
    requires NoFaults(ios) && Readable(decode, files.yaml, wanted)
    requires forall p :: p in paths <==> p in Needed(files, wanted, decode)
    requires forall p | p in again :: !p.Unlisted?
    ensures var end := UpdateAll(files, paths, wanted, decode, ios);
            && !end.failed && !end.unknown && InDomain(end.files.yaml)
            && Needed(end.files, wanted, decode) == {}
            && ReadFlags(end.files.yaml) == wanted
            && Externalizes(files.conf, end.files.conf)
            && UpdateAll(end.files, again, wanted, decode, ios) == Outcome(end.files, false, false)
  {
    UpdateReachesGoal(files, paths, wanted, decode, ios);
    GoalOfNeeded(files, paths, wanted, decode);
    UpdatedIsSettled(files, again, wanted, decode);
    UpdateReachesGoal(Goal(files, paths, wanted), again, wanted, decode, ios);
  }
}
