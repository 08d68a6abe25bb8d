/** The certificates that kubeadm renews and their files, and what their backups are called. */
module CertificateTable {
  import opened BackupPath
  import Text

  /** The directories /etc/kubernetes, /etc/kubernetes/pki and /etc/kubernetes/pki/etcd. */
  datatype Folder = Kubernetes | Pki | Etcd

  function Elements(f: Folder): seq<string> {
    match f
    case Kubernetes => ["etc", "kubernetes"]
    case Pki => ["etc", "kubernetes", "pki"]
    case Etcd => ["etc", "kubernetes", "pki", "etcd"]
  }

  datatype File = File(folder: Folder, name: string)

  const FILES: map<string, File> := map[
    "admin.conf" := File(Kubernetes, "admin.conf"),
    "controller-manager.conf" := File(Kubernetes, "controller-manager.conf"),
    "scheduler.conf" := File(Kubernetes, "scheduler.conf"),
    "apiserver" := File(Pki, "apiserver.crt"),
    "apiserver-etcd-client" := File(Pki, "apiserver-etcd-client.crt"),
    "apiserver-kubelet-client" := File(Pki, "apiserver-kubelet-client.crt"),
    "front-proxy-client" := File(Pki, "front-proxy-client.crt"),
    "etcd-healthcheck-client" := File(Etcd, "healthcheck-client.crt"),
    "etcd-peer" := File(Etcd, "peer.crt"),
    "etcd-server" := File(Etcd, "server.crt")]

  function PathOf(f: File): string {
    Absolute(Elements(f.folder) + [f.name])
  }

  /** The table: certificate names and the paths of their files. */
  const CERTIFICATES: map<string, string> := map n | n in FILES :: PathOf(FILES[n])

  predicate PlainName(name: string) {
    '/' !in name && |name| > 2
  }

  lemma ConfsArePlain()
    ensures PlainName("admin.conf") && PlainName("controller-manager.conf") && PlainName("scheduler.conf")
  {
  }

  lemma ClientsArePlain()
    ensures PlainName("apiserver-etcd-client.crt") && PlainName("apiserver-kubelet-client.crt")
    ensures PlainName("front-proxy-client.crt") && PlainName("healthcheck-client.crt")
  {
  }

  lemma ServersArePlain()
    ensures PlainName("apiserver.crt") && PlainName("peer.crt") && PlainName("server.crt")
  {
  }

  lemma FilesArePlain(n: string)
    requires n in FILES
    ensures PlainName(FILES[n].name)
  {
    ConfsArePlain();
    ClientsArePlain();
    ServersArePlain();
  }

  /** No two certificates have the same file: names in one directory differ in length already. */
  lemma FilesDiffer(a: string, b: string)
    requires a in FILES && b in FILES && FILES[a].folder == FILES[b].folder && |FILES[a].name| == |FILES[b].name|
    ensures a == b
  {
  }

  lemma FoldersAreProper(f: Folder)
    ensures AllProper(Elements(f)) && Text.Clean(Elements(f), '/')
  {
  }

  lemma PlainFile(f: File)
    requires PlainName(f.name)
    ensures AllProper(Elements(f.folder) + [f.name]) && Text.Clean(Elements(f.folder) + [f.name], '/')
  {
    FoldersAreProper(f.folder);
  }

  lemma PathsDiffer(f: File, g: File)
    requires PlainName(f.name) && PlainName(g.name) && PathOf(f) == PathOf(g)
    ensures f == g
  {
    var fs, gs := Elements(f.folder) + [f.name], Elements(g.folder) + [g.name];
    PlainFile(f);
    PlainFile(g);
    AbsoluteIsInjective(fs, gs);
    assert fs[|fs| - 1] == gs[|gs| - 1];
  }

  lemma AbsoluteIsInjective(es: seq<string>, fs: seq<string>)
    requires es != [] && fs != [] && Text.Clean(es, '/') && Text.Clean(fs, '/') && Absolute(es) == Absolute(fs)
    ensures es == fs
  {
    assert Absolute(es)[1..] == Text.Join(es, '/') && Absolute(fs)[1..] == Text.Join(fs, '/');
    Text.SplitJoin(es, '/');
    Text.SplitJoin(fs, '/');
  }

  /** Every path of the table is clean, so that what holds of backups holds of its certificates. */
  lemma TableIsClean(n: string)
    requires n in FILES
    ensures n in CERTIFICATES && CleanAbsolute(CERTIFICATES[n])
  {
    FilesArePlain(n);
    PlainFile(FILES[n]);
    ProperIsClean(Elements(FILES[n].folder) + [FILES[n].name]);
  }

  /** The backups of two certificates of the table share a name only if it is one certificate and one stamp. */
  lemma TableBackupsNeverCollide(a: string, s: string, b: string, t: string)
    requires a in FILES && b in FILES && Stamp(s) && Stamp(t)
    ensures a in CERTIFICATES && CleanAbsolute(CERTIFICATES[a]) && b in CERTIFICATES && CleanAbsolute(CERTIFICATES[b])
    ensures BackupOf(CERTIFICATES[a], s) == BackupOf(CERTIFICATES[b], t) <==> a == b && s == t
  {
    TableIsClean(a);
    TableIsClean(b);
    BackupsNeverCollide(CERTIFICATES[a], s, CERTIFICATES[b], t);
    if CERTIFICATES[a] == CERTIFICATES[b] {
      FilesArePlain(a);
      FilesArePlain(b);
      PathsDiffer(FILES[a], FILES[b]);
      FilesDiffer(a, b);
    }
  }

  lemma NamesAreLong(n: string)
    requires n in FILES
    ensures |n| > 8
  {
  }

  /** No name as short as those of the authorities `ca` and `etcd-ca` is in the table. */
  lemma AuthorityIsUnknown(n: string)
    requires |n| <= 8
    ensures n !in CERTIFICATES
  {
    if n in FILES { NamesAreLong(n); }
  }

  lemma ConfNames(n: string)
    requires n in FILES && FILES[n].folder == Kubernetes
    ensures FILES[n].name == n
  {
  }

  lemma PkiNames(n: string)
    requires n in FILES && FILES[n].folder == Pki
    ensures FILES[n].name == n + ".crt"
  {
  }

  lemma EtcdNames(n: string)
    requires n in FILES && FILES[n].folder == Etcd
    ensures "etcd-" + FILES[n].name == n + ".crt"
  {
  }

  /**
   Names and files belong together: a kubeconfig is its own file, a certificate of the cluster is named like its file,
   and one of etcd has the prefix `etcd-` besides.
   */
  lemma NamesMatchFiles(n: string)
    requires n in FILES
    ensures var f := FILES[n];
            match f.folder {
              case Kubernetes => f.name == n
              case Pki => f.name == n + ".crt"
              case Etcd => "etcd-" + f.name == n + ".crt"
            }
  {
    match FILES[n].folder
    case Kubernetes => ConfNames(n);
    case Pki => PkiNames(n);
    case Etcd => EtcdNames(n);
  }
}
