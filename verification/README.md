# A verified model of kucero

kucero is a daemon that runs on every node of a Kubernetes cluster. It polls the node's certificates and kubelet
configuration, takes a cluster-wide lock when there is something to do, cordons and drains the node, updates the
configuration, renews certificates, and lets the node go again. On control-plane nodes it also runs a controller that
signs and approves kubelet serving CSRs.

The project models the parts of it that carry a promise and proves those promises for all inputs and all runs:

- **The configuration edit.** `Text` and `KubeletYaml` treat `config.yaml` as text. The program searches and replaces
  bytes; the model proves that this is "set the key" on lines, and exactly for which texts it reads back as wanted.
  `KubeletConfig` puts both files, every I/O failure and every map order around it and proves that one update converges.
- **The rotation protocol.** `RotationProtocol` is a state machine of any number of nodes and one lock cell, with
  crashes, restarts, lost answers and lapsing leases. `Daemon` is one tick as a method, whose trace is shown to be a run
  of that machine; it also shows when the next tick is quiet. `ExpiryWatch` says exactly how often is often enough to
  poll when ticks may be refused the lock or fail, and `LoopWatch` that every run of the daemon's loop is a run of that
  watch, so that nothing expires in the loop either.
- **The CSR controller.** `CsrReconciler` is a class and a machine over runs of any length in which any call may fail.
  `Recognizer`, `Authority` and `KeyUsages` are the recognition, the signing and the translation of usages; together
  they say what a certificate issued by kucero can be used for. `CaProvider` is the reloadable authority with one
  caller and a loader that changes under it, `CaCallers` the same with any number of interleaved callers.
- **The expiry table.** `ExpiryTable` is the date pattern with its greedy match, `ExpiryParser` the line state machine
  and the round trip, `DueSelection` the due test with saturating subtraction, `Expiration` the check from printed text
  to due names.
- **The renewal.** `Renewal` is the trace of backups, renewals and the restart; `BackupPath` shows that a backup's name
  gives back the path and the stamp, and `CertificateTable` that this holds for the certificates the program knows.

## How the model is built

State the program updates in place is a class (`Host`, `Kubelet`, `Template`, `Loader`, `Provider`, `Signer`,
`Controller`, `Daemon`) whose methods are proved against functions of the old state; the lemmas are about those
functions. Loops over Go maps take the elements in an arbitrary order. Everything outside the program is a parameter:
the outcome of each call (`Io`, `Outcomes`, `Outside`, `TickIo`, the fields of protocol steps), the clock, and the YAML,
PEM and date decoders, which are arbitrary functions that may reject a text. Times and durations are nanoseconds as
unbounded integers; 64-bit saturation and wrap-around are written out where the program relies on them (`Sub`,
`Wrap64`). A key usage mask is a machine word of nine bits, one for
each key usage (`Masks`). Traces (`Traces`) are lists with the latest event last.

Where the code does not do what one would expect, the model follows the code and states exactly when it does:

- an edit of a file without a final newline that has to append a key is not read back (`ReadBackIff`,
  `OpenLineCounterexample`);
- `hasExactUsages` accepts lists with repeats (`ExactIffNoRepeats`, `RepeatsAreAccepted`), and the certificate then
  lacks a usage (`RecognizedCertificate`);
- nothing ends a critical section that outlasts the one-minute lease (`OverlapIffOverstay`, `OverlapReachable`,
  `OverlapHappens`);
- an interleaved caller of `currentCA` can be answered with a pair given up before its call began
  (`StaleAnswerIff`, `LateStoreIsReachable`);
- a CSR whose approval failed after the patch stays signed and unapproved (`ApprovedIff`, `StuckUnapproved`);
- a due name outside the certificate table makes every tick ask for the lock (`QuietIffAllKnown`), and the
  authorities that kubeadm lists are such names (`AuthorityKeepsAsking`);
- a default lifetime below ten minutes is exceeded by short requests (`LifetimeWithinDefaultIff`);
- a certificate that is missed at several ticks in a row needs a wider window (`NeverExpiresIff`);
- the shift of a very long polling period wraps around (`ShiftIff`, `ShiftWraps`), and the due test departs from the comparison it
  stands for at the largest window and below minus one (`DueIff`).

## Model

| member | source | states |
|---|---|---|
| `Text.ReplaceJoin` | pkg/pki/conf/kubelet/exec.go:141-144 | replacing the first occurrence of a newline-free pattern in a text edits the first line that has one, and only that line |
| `Text.ContainsJoin` | pkg/pki/conf/kubelet/exec.go:140 | a text contains a newline-free pattern exactly when one of its lines does |
| `KubeletYaml.EditIsSetFlag` | pkg/pki/conf/kubelet/exec.go:138-148 | for every text in which the key occurs only as its own entry, at most once, the byte edit is "set this key" on the lines |
| `KubeletYaml.SetFlagMeaning` | pkg/pki/conf/kubelet/exec.go:138-159 | setting one key that has a place sets it, keeps what the text says about the other key, and keeps all other lines and their order |
| `KubeletYaml.EditRefinesLines` | pkg/pki/conf/kubelet/exec.go:127-160 | on every in-domain text and every pair of flags, both edits with values parsed before either are the two key updates in turn: both keys read back as wanted, other lines are identical and in order, the result is in the domain again |
| `KubeletYaml.FlagsAreLines` | pkg/pki/conf/kubelet/exec.go:98-101 | a flag is read as true exactly when the file has the line `rotateCertificates: true`, or `serverTLSBootstrap: true` |
| `KubeletYaml.EditWritesWanted` | pkg/pki/conf/kubelet/exec.go:138-159 | after the edit the file has these very lines for flags wanted true and not for the others, and the line with `false` for a key it spoke of that is wanted false |
| `KubeletYaml.ReadBackIff` | pkg/pki/conf/kubelet/exec.go:145-147 | without the final-newline assumption the flags read back as wanted if and only if the last line is terminated or no key has to be appended |
| `KubeletYaml.OpenLineCounterexample` | pkg/pki/conf/kubelet/exec.go:145-147 | a concrete unterminated text on which the edit is lost |
| `KubeletConfig.Kubelet.CheckKubeletConf` | pkg/pki/conf/kubelet/exec.go:55-67 | for any map order, reports an update exactly when some auth entry has inline data, and an error exactly when loading fails |
| `KubeletConfig.Kubelet.UpdateKubeletConf` | pkg/pki/conf/kubelet/exec.go:76-95 | for any map order, entries with inline key or certificate data are emptied and point to the current pair, the others stay; a failed load changes nothing |
| `KubeletConfig.Kubelet.CheckConfigYaml` | pkg/pki/conf/kubelet/exec.go:105-123 | reports an update exactly when a decoded flag differs from the wanted one, with the read and decode errors |
| `KubeletConfig.Kubelet.UpdateConfigYaml` | pkg/pki/conf/kubelet/exec.go:127-166 | the new file is the byte edit of the old one; read, decode and stat failures change nothing |
| `KubeletConfig.Kubelet.CheckConfig` | pkg/pki/conf/kubelet/kubelet.go:43-60 | for any map order, the listed paths are exactly those whose check asks for an update, each once, and an error is answered exactly when some check failed |
| `KubeletConfig.Kubelet.UpdateConfig` | pkg/pki/conf/kubelet/kubelet.go:62-86 | runs the updates in order past failures, stops at an unknown path, restarts once exactly when all succeeded |
| `KubeletConfig.UnknownStops` | pkg/pki/conf/kubelet/kubelet.go:67-70 | an unknown path ends the list with the files as the earlier updates left them, whatever follows |
| `KubeletConfig.GoesOn` | pkg/pki/conf/kubelet/kubelet.go:71-76 | a failed update does not stop the list: every known path is updated, on the files that the ones before it left |
| `KubeletConfig.RestartsIffAllSucceed` | pkg/pki/conf/kubelet/kubelet.go:62-86 | for any faults the kubelet's restart is reached exactly when every listed path is known and every single update succeeds |
| `KubeletConfig.UpdateReachesGoal` | pkg/pki/conf/kubelet/kubelet.go:62-79 | without faults, for an in-domain text that the decoder reads off its lines before and after the edit, the files reached depend on the set of listed paths only, not on order or repeats |
| `KubeletConfig.Convergence` | pkg/pki/conf/kubelet/kubelet.go:43-86 | updating what the check reported, in any order, makes the next check empty; entries without inline data are untouched; any second update changes nothing; of the decoder only these two texts are asked |
| `RotationProtocol.RunKeepsLeaseInv` | cmd/kucero/main.go:225-284 | in every reachable state, a node in the section with an unlapsed lease is the one the lock names, and entries are ordered by lapse |
| `RotationProtocol.OverlapNeedsLapse` | cmd/kucero/main.go:250-280 | whenever two nodes are in the section together, the earlier one's lease, at most a minute long, lapsed before the later one entered |
| `RotationProtocol.OverlapIffOverstay` | cmd/kucero/main.go:250-280 | in every reachable state with a node inside and another asking, the second can join exactly when the first has overstayed its lease and no third node has taken the lock |
| `RotationProtocol.OverlapReachable` | cmd/kucero/lock.go:37-38 | from every state with a node inside and another asking, a minute later both can be inside |
| `RotationProtocol.OverlapHappens` | cmd/kucero/main.go:225-280 | a concrete run from a fresh start in which two nodes get into the section together |
| `RotationProtocol.RunKeepsSectionInv` | cmd/kucero/main.go:170-182 | every record ever in the lock cell and every process's copy has Unschedulable false, and every trace fits its process's place in the loop |
| `RotationProtocol.SectionDiscipline` | cmd/kucero/main.go:180-280 | over every run: changes only directly after the node's own acquire, cordon and drain; every released section was cordon, drain, exactly the changes found to be needed, uncordon, one release attempt, in that order; the lock is asked for once per tick that finds work; no section is entered while another of the node is unfinished; a lock found held at the start is followed by a release attempt before anything else |
| `RotationProtocol.StartupReleaseComesFirst` | cmd/kucero/main.go:180-182 | a node that restarts while the lock still names it cannot tick before its release, which can empty the lock |
| `RotationProtocol.TickIsRun` | cmd/kucero/main.go:250-281 | a tick that gets the lock is a run of the machine, which leaves exactly the trace the tick method leaves and touches no other node |
| `RotationProtocol.PanicIsRun` | cmd/kucero/main.go:250-270 | a tick that panics in the rotation is a run that ends in a crash inside the section, with the lock still the node's |
| `Daemon.Daemon.Tick` | cmd/kucero/main.go:231-281 | asks for the lock exactly when a check found work; files, expiry dates, restarts and the trace of calls after the tick, for every outcome of every call, from the text kubeadm prints on |
| `Daemon.Daemon.Section` | cmd/kucero/main.go:251-280 | the calls of the section in their order, up to a panic if there is one, and the files, dates and restarts they leave |
| `Daemon.Daemon.Loop` | cmd/kucero/main.go:226-283 | the loop over ticks until the program quits or dies: what each tick names and the dates all of them leave |
| `Daemon.TriesIffWanted` | cmd/kucero/main.go:235-250 | a tick whose checks do not fail asks for the lock exactly when a file or a certificate needs it |
| `Daemon.QuietIffAllKnown` | cmd/kucero/main.go:235-250 | after a fault-free tick whose renewals land beyond the window, an immediate next tick asks for the lock if and only if a due name is outside the table |
| `Daemon.TickIsWatched` | cmd/kucero/main.go:241-274 | every tick, whatever fails in it, is a step of the watch that leaves the same dates, as long as no certificate is missed too often |
| `Daemon.FaultFreeTickIsWatched` | cmd/kucero/main.go:241-274 | a fault-free tick with the lock and all due names in the table is a step of the watch that misses nothing |
| `Daemon.AuthorityKeepsAsking` | pkg/pki/cert/kubeadm/kubeadm.go:32-43 | the authority `ca` is not in the table, so once it is due a fault-free tick is followed by another request for the lock |
| `Daemon.NamesWhatIsDue` | pkg/pki/cert/kubeadm/exec.go:60-69 | when the printed rows are the dates as they are, a tick names exactly the certificates that are due |
| `LoopWatch.LoopIsWatched` | cmd/kucero/main.go:225-283 | every run of the loop, whatever fails in it, is a run of the watch with the same dates and counts of misses |
| `LoopWatch.NothingExpiresInTheLoop` | cmd/kucero/main.go:225-283 | over any run of the loop with ticks no further apart than the period, each certificate missed at most k times in a row and k + 1 periods within the window, no date has passed at any tick |
| `ExpiryWatch.ShiftIff` | cmd/kucero/main.go:128-131 | for periods of at least a second the shifted period is in [p, 2p) exactly when the sum fits in 64 bits |
| `ExpiryWatch.ShiftWraps` | cmd/kucero/main.go:131 | a concrete period and shift whose sum wraps to a negative period |
| `ExpiryWatch.NeverExpiresIff` | cmd/kucero/main.go:225-281 | when a due certificate is missed at most k ticks in a row, for a refused lock or any failure, no certificate is ever expired in any run if and only if k + 1 periods fit into the renewal window |
| `ExpiryWatch.NoCertificateExpiresUnseen` | cmd/kucero/main.go:128-131 | with a window of at least 2(k + 1) polling periods, twice the period when no tick misses, for every random shift, no certificate is expired at any moment of any run |
| `CsrReconciler.Controller.Reconcile` | controllers/certificatesigningrequest_controller.go:74-139 | the world after a reconcile for every failure pattern, and exactly when it answers with an error |
| `CsrReconciler.ReconcileFrame` | controllers/certificatesigningrequest_controller.go:79-130 | only the named CSR changes; only an absent certificate is set and only the approval appended, never without the certificate; a missing CSR changes nothing, and signings and approvals are of the CSR as stored |
| `CsrReconciler.SignsIff` | controllers/certificatesigningrequest_controller.go:97-130 | exactly when one reconcile signs, with which certificate, and exactly when it approves |
| `CsrReconciler.RunKeepsInv` | controllers/certificatesigningrequest_controller.go:74-139 | over every run, uids stay distinct, an unsigned CSR was never signed by kucero, and every event is justified by the one before |
| `CsrReconciler.ReconcileSafety` | controllers/certificatesigningrequest_controller.go:74-139 | over every run: at most one certificate and one approval per CSR; what is approved carries a certificate made from its own request, recognized and allowed just before; a step that signs or approves reconciles a CSR that is stored at that moment, not deleted and not signed |
| `CsrReconciler.SignedIsServing` | controllers/certificatesigningrequest_controller.go:97-120 | every certificate kucero sets is a serving certificate for the CSR's user, key, names and addresses, with all three usages exactly when the usage list has no repeats |
| `CsrReconciler.SignedDates` | controllers/certificatesigningrequest_controller.go:115-120 | the certificate starts a backdate before the signing and ends with the lifetime the CSR asked for, within its bounds, or with the authority if that ends earlier |
| `CsrReconciler.ApprovedThenOrNever` | controllers/certificatesigningrequest_controller.go:82-83 | once kucero signed a CSR no later run signs or approves it again |
| `CsrReconciler.ApprovedIff` | controllers/certificatesigningrequest_controller.go:115-130 | over every later run a CSR that kucero signs is approved, once, if and only if the signing reconcile knew its patch succeeded and its approval took effect |
| `CsrReconciler.StuckUnapproved` | controllers/certificatesigningrequest_controller.go:121-130 | from an empty store, a recognized CSR whose approval fails stays signed and unapproved in every continuation |
| `Recognizer.HasExactUsages` | controllers/helper.go:29-46 | true exactly when the lengths agree and every CSR usage is wanted |
| `Recognizer.ExactIsPermutation` | controllers/helper.go:29-46 | for repeat-free lists of any length the test is true exactly for permutations |
| `Recognizer.ExactIffNoRepeats` | controllers/helper.go:29-46 | an accepted list is a permutation of the wanted one if and only if it has no repeats |
| `Recognizer.RepeatsAreAccepted` | controllers/helper.go:39-45 | a concrete accepted list that is no permutation |
| `Recognizer.KubeletRequestIsAccepted` | controllers/helper.go:54-75 | every request of the kubelet's shape is accepted: any node name, any number of names and addresses, the usages in any order |
| `Recognizer.RefusedIfNot` | controllers/helper.go:55-73 | each departure from that shape alone is a reason to refuse |
| `Recognizer.RecognizedCertificate` | controllers/helper.go:54-75 | for every accepted CSR the policy never fails; the certificate is no CA, drops extensions, names the CSR's user, a node of the nodes group, with a DNS name and an address, and has at most the three serving usages, all of them exactly when the list has no repeats |
| `KeyUsages.KeyUsagesFromStrings` | pkg/pki/authority/policies.go:103-128 | succeeds exactly when every usage is in a table; the machine word has a bit exactly when a usage's value has it; the list is strictly ascending and is the set of mapped values |
| `KeyUsages.MaskMeaning` | pkg/pki/authority/policies.go:108-109 | the bitwise or of the values of a list has exactly the bits that some usage of the list maps to |
| `KeyUsages.TableHasSingleBits` | pkg/pki/authority/policies.go:71-82 | every value of the key usage table has exactly one bit |
| `KeyUsages.KeyUsagesInOrder` | pkg/pki/authority/policies.go:71-82 | each key usage has the bit of its place in section 4.2.1.3 of RFC 5280 |
| `KeyUsages.ExtKeyUsagesInOrder` | pkg/pki/authority/policies.go:84-98 | each extended usage has its number, and S/MIME that of e-mail protection |
| `KeyUsages.RecognizedIff` | pkg/pki/authority/policies.go:108-114 | every usage of the certificates API is in a table, and no other text is |
| `Masks.BitsOfOr` | pkg/pki/authority/policies.go:109 | the bitwise or of two masks has the bits of both and no others |
| `Masks.BitsDetermine` | pkg/pki/authority/policies.go:109 | masks with the same bits are the same word |
| `KeyUsages.TranslationIsUnique` | pkg/pki/authority/policies.go:107-127 | the result depends only on which usages are named: permutation, repetition and map order do not matter |
| `KeyUsages.AscendingIsUnique` | pkg/pki/authority/policies.go:117-121 | there is one strictly ascending list of a given set of values, so the sort hides the map's order |
| `KeyUsages.Sort` | pkg/pki/authority/policies.go:117-121 | the collected values in strictly ascending order, none lost or added |
| `KeyUsages.ExtsOf` | pkg/pki/authority/policies.go:84-98 | the extended usages as a function of the list: strictly ascending and exactly the mapped values |
| `Authority.Template.Apply` | pkg/pki/authority/policies.go:54-69 | fails exactly on an unknown usage and then changes nothing; otherwise overwrites usages, end date, extensions and CA bit |
| `Authority.Sign` | pkg/pki/authority/authority.go:46-99 | a certificate exactly when neither the clock, the library calls nor the usages object; its dates, serial, issuer, names, key and usages are those of the request, the policy and the authority; extensions and the CA bit are not |
| `Authority.ValidityWindow` | pkg/pki/signer/signer.go:64-80 | with a default lifetime of at least ten minutes, for every requested duration: starts five minutes ago, ends at the earlier of lifetime and CA end, valid now; time refuses exactly when the CA has expired |
| `Authority.DurationIsNearest` | pkg/pki/signer/signer.go:64-80 | with a default of at least ten minutes the lifetime is the one nearest to the request between ten minutes and the default, and the default without a request |
| `Authority.ValidNowIff` | pkg/pki/authority/authority.go:52-92 | for any default lifetime, the certificate is valid now if and only if the default exceeds the backdate or a duration within the default was requested |
| `Authority.LifetimeWithinDefaultIff` | pkg/pki/signer/signer.go:69-79 | for any default, no requested duration exceeds it exactly when it is at least ten minutes or below every request |
| `CaProvider.BuildIff` | pkg/pki/signer/ca_provider.go:55-86 | exactly the pairs with one certificate and a key that can sign make an authority, and it has that certificate's end, that key and a backdate of five minutes |
| `CaProvider.Provider.SetCA` | pkg/pki/signer/ca_provider.go:55-86 | succeeds exactly for such a pair, and then stores the authority that stands for the pair the loader held during the call; failure leaves the cell as it was |
| `CaProvider.Provider.CurrentCA` | pkg/pki/signer/ca_provider.go:90-102 | an error-free answer is made from the one pair held at the end of the call, whatever the loader does between steps, and stands for its bytes; a failed reload answers and keeps the old one |
| `CaProvider.Signer.Sign` | pkg/pki/signer/signer.go:49-62 | a certificate is issued by an authority held during the call, with the lifetime asked for, valid now and no longer than the certificate in the authority's own bytes; an error means an unusable pair or a refused signing |
| `CaCallers.AlwaysOneSnapshot` | pkg/pki/signer/ca_provider.go:55-102 | under every interleaving of callers and loader changes, the stored and every answered authority is made from a single past pair with exactly one certificate, and stands for its bytes |
| `CaCallers.StaleAnswerIff` | pkg/pki/signer/ca_provider.go:90-102 | in every reachable state, a call that starts there can be answered with a pair given up before it began if and only if another caller is about to store such a pair and the call can be made to reload: the cell disagrees with the loader and something else can be loaded, or a third caller can store first |
| `CaCallers.LateStoreIsReachable` | pkg/pki/signer/ca_provider.go:97-101 | such states are reached from any start with two callers and two usable pairs |
| `ExpiryTable.ScanIsMatch` | pkg/pki/cert/kubeadm/exec.go:97 | scanning with longest runs finds a match of the date pattern at the front exactly when there is one, and its end |
| `ExpiryTable.FindIsSound` | pkg/pki/cert/kubeadm/exec.go:97-105 | what is found is a date in the line, between spaces |
| `ExpiryTable.FindIsGreedy` | pkg/pki/cert/kubeadm/exec.go:97-105 | whenever the line has a date one is found, and none comes later in the line |
| `ExpiryTable.FoundIsDate` | pkg/pki/cert/kubeadm/exec.go:97-105 | whatever is found in a line is the printed form of a date, with a blank on each side |
| `ExpiryTable.NoDigitNoDate` | pkg/pki/cert/kubeadm/exec.go:102-105 | in a line without digits nothing is found |
| `ExpiryTable.TrimPadded` | pkg/pki/cert/kubeadm/exec.go:107 | trimming takes off the blanks on both sides of a name and nothing else |
| `ExpiryTable.FindInRowIff` | pkg/pki/cert/kubeadm/exec.go:97-108 | the printed date of a row is the one found if and only if no date follows from its zone on |
| `ExpiryTable.SetOffTailIsPlain` | pkg/pki/cert/kubeadm/exec.go:97 | trailing columns set off by a blank and without a date of their own never interfere |
| `ExpiryParser.Parse` | pkg/pki/cert/kubeadm/exec.go:94-123 | the loop with its flag computes the line machine's map |
| `ExpiryParser.HeaderIff` | pkg/pki/cert/kubeadm/exec.go:117 | a line is a header exactly when both words stand in it somewhere |
| `ExpiryParser.PrintedHeader` | pkg/pki/cert/kubeadm/exec.go:117-119 | the header lines of both tables are headers and hold no date |
| `ExpiryParser.NothingBeforeHeader` | pkg/pki/cert/kubeadm/exec.go:99-119 | lines before the first header add nothing |
| `ExpiryParser.ReadAfterHeader` | pkg/pki/cert/kubeadm/exec.go:100-120 | once a header was seen, lines add exactly their own entries, later ones overriding, and a later header adds nothing |
| `ExpiryParser.ParsedConcat` | pkg/pki/cert/kubeadm/exec.go:94-123 | parsing distributes over concatenation at a line break once a header was seen |
| `ExpiryParser.TableMeaning` | pkg/pki/cert/kubeadm/exec.go:114 | a name is in the table exactly when a decodable row carries it, with the time of the last such row |
| `ExpiryParser.RoundTrip` | pkg/pki/cert/kubeadm/exec.go:94-123 | printing any rows, in one table or several, in any mix with headers, blanks and other lines without a date, and parsing gives back name to time, the last row winning |
| `DueSelection.DueIff` | pkg/pki/cert/kubeadm/exec.go:126-138 | the test with saturating subtraction is "expires within the window" for all times exactly for windows in [-1, maximum) |
| `DueSelection.SelectDue` | pkg/pki/cert/kubeadm/exec.go:60-69 | for any map order and a clock read anew for each certificate, each name once, each decided by the test at one of the readings |
| `DueSelection.SelectsDue` | pkg/pki/cert/kubeadm/exec.go:60-69 | with a clock that stands still, the names are exactly those that expire within the window |
| `DueSelection.SelectsBetween` | pkg/pki/cert/kubeadm/exec.go:62-66 | with a clock that advances, all due at its first reading are named and all named are due at its last |
| `DueSelection.DueIsMonotone` | pkg/pki/cert/kubeadm/exec.go:126-138 | what is due stays due as the clock advances or the window grows |
| `Expiration.CheckExpiration` | pkg/pki/cert/kubeadm/exec.go:35-70 | the due names of the output of the subcommand that goes with the version; which failures end it, and the panic on an unreadable version |
| `Expiration.AtLeastMeansNotBefore` | pkg/pki/cert/kubeadm/exec.go:46-53 | the newer subcommand is chosen exactly for versions that do not come before v1.20.0 |
| `Expiration.ShownIs` | pkg/pki/cert/kubeadm/exec.go:48-54 | what is parsed is the output of the newer subcommand from v1.20.0 on and of the older one before |
| `Expiration.TrimNewlineMeaning` | pkg/pki/cert/kubeadm/exec.go:48 | one newline at the end of the version is taken off, if there is one |
| `Expiration.DueFromPrintedTable` | pkg/pki/cert/kubeadm/exec.go:60-69 | for every such output, of one table or several, a name is due exactly when the last decodable row for it expires within the window |
| `Renewal.Rotate` | pkg/pki/cert/kubeadm/kubeadm.go:70-97 | the trace for every list and pattern of failures and panics; the restart is attempted once and last exactly when every known name was backed up and renewed |
| `Renewal.AllDoneIff` | pkg/pki/cert/kubeadm/kubeadm.go:71-92 | the restart is reached exactly when every backup and renewal that was attempted succeeded |
| `Renewal.RenewalDiscipline` | pkg/pki/cert/kubeadm/kubeadm.go:72-87 | every renewal directly follows a successful backup of the same certificate at its table path, and nothing follows a panic; known names are backed up once per listing reached, unknown ones cause nothing |
| `Renewal.PanicStops` | pkg/pki/cert/kubeadm/exec.go:84 | a panic in a renewal ends the list there, whatever follows |
| `Renewal.RenewedIff` | pkg/pki/cert/kubeadm/kubeadm.go:78-86 | a name is renewed exactly when some listing of it that is reached is known, backed up and renewed |
| `BackupPath.BackupIsInvertible` | pkg/pki/cert/kubeadm/kubeadm.go:104-107 | for every clean absolute path and 14-digit stamp, both can be read back from the backup path |
| `BackupPath.BackupsNeverCollide` | pkg/pki/cert/kubeadm/kubeadm.go:104-107 | two backup paths are equal exactly when path and stamp are |
| `BackupPath.BackupStaysInDirectory` | pkg/pki/cert/kubeadm/kubeadm.go:104-107 | a backup is a clean path in the original's directory, ends in `.bak`, and is never the original |
| `BackupPath.BackupShape` | pkg/pki/cert/kubeadm/kubeadm.go:104-107 | the backup's name written out: name, dash, stamp, extension from the last dot, `.bak` |
| `BackupPath.DotDotTakesBack` | pkg/pki/cert/kubeadm/kubeadm.go:107 | in cleaning, a double dot takes back one element |
| `BackupPath.CleaningIsIdempotent` | pkg/pki/cert/kubeadm/kubeadm.go:107 | a cleaned path is clean |
| `CertificateTable.NamesMatchFiles` | pkg/pki/cert/kubeadm/kubeadm.go:32-43 | a kubeconfig's name is its file's, a cluster certificate's its file's without `.crt`, an etcd certificate's has `etcd-` before that |
| `CertificateTable.TableBackupsNeverCollide` | pkg/pki/cert/kubeadm/kubeadm.go:32-43 | the table's paths are clean and differ, so two backups of its certificates share a name only if certificate and stamp agree |

## Left out

- Host commands (nsenter, kubeadm, systemctl, cp, cordon, drain): only their success or failure appears.
- The lock library: an abstract lease cell with a weak contract; what Test, Acquire and Release do inside is not modelled.
- Clock skew between nodes: one clock serves them all, while a lease is written by one node's clock and judged by another's.
- controller-runtime, leader election and the API client: a reconcile reads a current object, there is one active leader, and others act only between reconciles.
- The contents of the access review request and of recorded events: they decide nothing in the reconciler.
- X.509 DER encoding, signature checks, serial numbers and PEM decoding: opaque functions and outcomes.
- General YAML and kubeconfig parsing: the decoder is an arbitrary function, of which only the text at hand and its edited form are assumed to be read off their lines; `kubelet.conf` is a map of auth entries, and whether its file is rewritten byte for byte is not modelled.
- The two kubelet paths and the usage strings are enumerations with a case for any other text, not literal strings.
- The library's sorting algorithm: an insertion on values stands for it, so the swaps in place are not modelled.
- Date decoding (time.Parse): an arbitrary function, so nothing is said about which dates it accepts.
- Trimming of Unicode blanks beyond ASCII: names are bytes.
- Relative paths in filepath.Dir, Base, Ext and Join: the table holds clean absolute paths only.
- Uniqueness of backup names over wall-clock time: the stamp's hour field has twelve hours, so only injectivity in path and stamp holds.
- The clock is read once per signing, and stands still during one tick of the daemon.
- Semantic version parsing: an arbitrary function into major, minor, patch and whether it is a pre-release.
- Approval that never happens and a node left cordoned by a crash: the program promises neither progress, and none is stated.
- `SetupWithManager`, flags, logging, worker nodes without certificates: plumbing.
