/** The name under which a certificate is backed up, and how to read it back. */
module BackupPath {
  import Text

  /** The last index of `c` in `s`, or -1. */
  function LastIndex(s: string, c: char): (r: int)
    ensures r == -1 ==> c !in s
    ensures r != -1 ==> 0 <= r < |s| && s[r] == c && c !in s[r + 1..]
  {
    if s == "" then -1
    else if s[|s| - 1] == c then |s| - 1
    else
      var r := LastIndex(s[..|s| - 1], c);
      assert r != -1 ==> s[r + 1..] == s[..|s| - 1][r + 1..] + [s[|s| - 1]];
      r
  }

  function TrimSuffix(s: string, suffix: string): string {
    if |suffix| <= |s| && s[|s| - |suffix|..] == suffix then s[..|s| - |suffix|] else s
  }

  // ---- The path functions, on rooted paths ----

  predicate Rooted(path: string) {
    path != "" && path[0] == '/'
  }

  /** An element that cleaning keeps. */
  predicate Proper(e: string) {
    e != "" && e != "." && e != ".."
  }

  /** Drops empty elements and dots, and takes back one element for each double dot. */
  function Normal(es: seq<string>): (r: seq<string>)
    ensures forall e | e in r :: Proper(e) && e in es
  {
    if es == [] then []
    else
      var before := Normal(es[..|es| - 1]);
      var e := es[|es| - 1];
      if Proper(e) then before + [e]
      else if e == ".." && before != [] then before[..|before| - 1]
      else before
  }

  function Absolute(es: seq<string>): (r: string)
    ensures Rooted(r)
  {
    if es == [] then "/" else "/" + Text.Join(es, '/')
  }

  /** filepath.Clean. */
  function Cleaned(path: string): (r: string)
    requires Rooted(path)
    ensures Rooted(r)
  {
    Absolute(Normal(Text.Split(path[1..], '/')))
  }

  /** A rooted path in shortest form. */
  predicate CleanAbsolute(path: string) {
    Rooted(path) && Cleaned(path) == path
  }

  /** All after the last slash; empty for the root. */
  function NameOf(path: string): string {
    path[LastIndex(path, '/') + 1..]
  }

  function Dir(path: string): string
    requires Rooted(path)
  {
    var i := LastIndex(path, '/');
    assert path[0] == '/';
    Cleaned(path[..i + 1])
  }

  /** The last element of a clean path. */
  function Base(path: string): string {
    if NameOf(path) == "" then "/" else NameOf(path)
  }

  function ExtOf(name: string): string {
    var j := LastIndex(name, '.');
    if j == -1 then "" else name[j..]
  }

  function Ext(path: string): string {
    ExtOf(NameOf(path))
  }

  function JoinPath(dir: string, name: string): string
    requires Rooted(dir)
  {
    Cleaned(dir + "/" + name)
  }

  /** The backup path expression of `backupCertificate`. */
  function BackupOf(path: string, stamp: string): string
    requires Rooted(path)
  {
    JoinPath(Dir(path), Stamped(TrimSuffix(Base(path), Ext(path)), stamp, Ext(path)))
  }

  function Stamped(stem: string, stamp: string, ext: string): string {
    stem + "-" + stamp + ext + ".bak"
  }

  predicate Stamp(s: string) {
    |s| == 14 && forall i | 0 <= i < |s| :: '0' <= s[i] <= '9'
  }

  // ---- Reading it back ----

  /** The file name and stamp a backup's file name was made from. */
  function RecoverName(name: string): (string, string) {
    var last := TrimSuffix(name, ".bak");
    var ext := ExtOf(last);
    var core := TrimSuffix(last, ext);
    if |core| < 15 then ("", "") else (core[..|core| - 15] + ext, core[|core| - 14..])
  }

  /** The path and stamp a backup path was made from. */
  function Recover(backup: string): (string, string) {
    var i := LastIndex(backup, '/') + 1;
    var (name, stamp) := RecoverName(backup[i..]);
    (backup[..i] + name, stamp)
  }

  lemma {:induction false} LastIndexIs(a: string, c: char, b: string)
    requires c !in b
    ensures LastIndex(a + [c] + b, c) == |a|
  {
    var s := a + [c] + b;
    if b == "" {
      assert s[|s| - 1] == c;
    } else {
      var n := |b| - 1;
      assert s[..|s| - 1] == a + [c] + b[..n];
      assert s[|s| - 1] == b[n];
      LastIndexIs(a, c, b[..n]);
    }
  }

  lemma LastIndexNone(s: string, c: char)
    requires c !in s
    ensures LastIndex(s, c) == -1
  {
  }

  lemma TrimAppended(s: string, suffix: string)
    ensures TrimSuffix(s + suffix, suffix) == s
  {
    assert (s + suffix)[|s|..] == suffix;
  }

  // ---- Clean paths by their elements ----

  predicate AllProper(es: seq<string>) {
    forall e | e in es :: Proper(e)
  }

  lemma {:induction false} NormalKeepsProper(es: seq<string>)
    requires AllProper(es)
    ensures Normal(es) == es
  {
    if es != [] {
      var n := |es| - 1;
      assert es == es[..n] + [es[n]];
      NormalKeepsProper(es[..n]);
    }
  }

  lemma NormalSnoc(es: seq<string>, e: string)
    requires AllProper(es) && e != ".."
    ensures Normal(es + [e]) == if Proper(e) then es + [e] else es
  {
    assert (es + [e])[..|es|] == es;
    NormalKeepsProper(es);
  }

  /** A clean path is the root or the join of proper elements. */
  lemma CleanElements(path: string) returns (es: seq<string>)
    requires CleanAbsolute(path)
    ensures path == Absolute(es) && AllProper(es) && Text.Clean(es, '/')
  {
    es := Normal(Text.Split(path[1..], '/'));
    forall i | 0 <= i < |es| ensures '/' !in es[i] { assert es[i] in es; }
  }

  /** A join of proper elements is a clean path. */
  lemma ProperIsClean(es: seq<string>)
    requires AllProper(es) && Text.Clean(es, '/') && es != []
    ensures CleanAbsolute(Absolute(es))
  {
    assert Absolute(es)[1..] == Text.Join(es, '/');
    Text.SplitJoin(es, '/');
    NormalKeepsProper(es);
  }

  /** The text of a directory, up to and with the slash before its files. */
  function Front(ds: seq<string>): string {
    BeforeSlash(ds) + ['/']
  }

  function BeforeSlash(ds: seq<string>): string {
    if ds == [] then "" else "/" + Text.Join(ds, '/')
  }

  lemma AbsoluteSnoc(ds: seq<string>, name: string)
    ensures Absolute(ds + [name]) == Front(ds) + name
  {
    if ds != [] {
      Text.JoinAppend(ds, [name], '/');
      AfterFirstSlash(Text.Join(ds, '/'), name);
    } else {
      assert ds + [name] == [name];
    }
  }

  lemma AfterFirstSlash(d: string, name: string)
    ensures "/" + (d + ['/'] + name) == "/" + d + ['/'] + name
    ensures ("/" + d + ['/'] + name)[1..] == d + ['/'] + name
  {
  }

  /** Splitting the text after the first slash of a directory's path and one more element. */
  lemma SplitFront(ds: seq<string>, name: string)
    requires Text.Clean(ds, '/') && '/' !in name
    ensures Text.Split((Front(ds) + name)[1..], '/') == ds + [name]
  {
    Text.SplitSingle(name, '/');
    if ds == [] {
      assert (Front(ds) + name)[1..] == name;
    } else {
      AfterFirstSlash(Text.Join(ds, '/'), name);
      Text.SplitConcat(Text.Join(ds, '/'), name, '/');
      Text.SplitJoin(ds, '/');
    }
  }

  lemma CleanedFront(ds: seq<string>, name: string)
    requires Text.Clean(ds, '/') && AllProper(ds) && '/' !in name && name != ".."
    ensures Cleaned(Front(ds) + name) == if Proper(name) then Front(ds) + name else Absolute(ds)
  {
    SplitFront(ds, name);
    NormalSnoc(ds, name);
    AbsoluteSnoc(ds, name);
  }

  /** Extra slashes at the root are dropped. */
  lemma CleanedSlash(path: string)
    requires Rooted(path)
    ensures Cleaned("/" + path) == Cleaned(path)
  {
    var es := Text.Split(path[1..], '/');
    assert ("/" + path)[1..] == path && path == "" + ['/'] + path[1..];
    Text.SplitPrefix("", path[1..], '/');
    NormalFront(es);
  }

  lemma {:induction false} NormalFront(es: seq<string>)
    ensures Normal([""] + es) == Normal(es)
  {
    var all := [""] + es;
    if es == [] {
      assert all == [""] && all[..0] == [];
    } else {
      var n := |es| - 1;
      assert all[..|all| - 1] == [""] + es[..n];
      NormalFront(es[..n]);
    }
  }

  /** A name is a stem and an extension that is empty or holds its only dot in front. */
  ghost predicate IsName(stem: string, ext: string) {
    '/' !in stem && '/' !in ext && if ext == "" then '.' !in stem else ext[0] == '.' && '.' !in ext[1..]
  }

  lemma NameParts(name: string) returns (stem: string)
    requires '/' !in name
    ensures name == stem + ExtOf(name) && IsName(stem, ExtOf(name)) && TrimSuffix(name, ExtOf(name)) == stem
  {
    var ext := ExtOf(name);
    stem := name[..|name| - |ext|];
    assert name == stem + ext;
    TrimAppended(stem, ext);
    var j := LastIndex(name, '.');
    assert j != -1 ==> ext[1..] == name[j + 1..];
  }

  /** The elements before the last, and the last, of a clean path. */
  lemma SplitOff(path: string) returns (ds: seq<string>, name: string)
    requires CleanAbsolute(path)
    ensures path == Front(ds) + name && '/' !in name && AllProper(ds) && Text.Clean(ds, '/')
    ensures name == "" ==> ds == []
  {
    var es := CleanElements(path);
    if es == [] {
      ds, name := [], "";
      assert Front(ds) + name == "/";
    } else {
      var n := |es| - 1;
      ds, name := es[..n], es[n];
      assert es == ds + [name] && name in es;
      AbsoluteSnoc(ds, name);
    }
  }

  /** The front and the name of a clean path, and its directory. */
  lemma PathParts(path: string) returns (ds: seq<string>)
    requires CleanAbsolute(path)
    ensures path == Front(ds) + NameOf(path) && '/' !in NameOf(path) && AllProper(ds) && Text.Clean(ds, '/')
    ensures Dir(path) == Absolute(ds)
    ensures NameOf(path) == "" ==> ds == []
  {
    var name;
    ds, name := SplitOff(path);
    CutName(path, ds, name);
    DirOfFront(ds);
  }

  lemma DirOfFront(ds: seq<string>)
    requires AllProper(ds) && Text.Clean(ds, '/')
    ensures Rooted(Front(ds)) && Cleaned(Front(ds)) == Absolute(ds)
  {
    assert Front(ds) + "" == Front(ds);
    CleanedFront(ds, "");
  }

  lemma CutName(path: string, ds: seq<string>, name: string)
    requires path == Front(ds) + name && '/' !in name
    ensures NameOf(path) == name && path[..LastIndex(path, '/') + 1] == Front(ds)
  {
    CutAfterSlash(BeforeSlash(ds), name);
  }

  lemma CutAfterSlash(d: string, name: string)
    requires '/' !in name
    ensures var path := d + ['/'] + name;
            NameOf(path) == name && path[..LastIndex(path, '/') + 1] == d + ['/']
  {
    LastIndexIs(d, '/', name);
  }

  /** Joining a directory and a slash-free name, or a name for a file of the root directory itself. */
  lemma JoinParts(ds: seq<string>, last: string)
    requires AllProper(ds) && Text.Clean(ds, '/') && Proper(last) && '/' !in last
    ensures JoinPath(Absolute(ds), last) == Front(ds) + last
    ensures ds == [] ==> JoinPath("/", "/" + last) == Front(ds) + last
  {
    CleanedFront(ds, last);
    if ds != [] {
      assert Absolute(ds) + "/" + last == Front(ds) + last;
    } else {
      assert Absolute(ds) + "/" + last == "/" + ("/" + last);
      CleanedSlash("/" + last);
      assert "/" + "/" + ("/" + last) == "/" + ("/" + ("/" + last));
      CleanedSlash("/" + ("/" + last));
    }
  }

  lemma CutStamp(stem: string, stamp: string)
    requires Stamp(stamp)
    ensures var core := stem + "-" + stamp;
            && |core| >= 15 && core[..|core| - 15] == stem && core[|core| - 14..] == stamp
            && ('.' !in stem ==> '.' !in core)
  {
  }

  lemma RecoverStamped(stem: string, stamp: string, ext: string)
    requires Stamp(stamp) && IsName(stem, ext)
    ensures RecoverName(Stamped(stem, stamp, ext)) == (stem + ext, stamp)
  {
    var core := stem + "-" + stamp;
    CutStamp(stem, stamp);
    TrimAppended(core + ext, ".bak");
    RecoverExt(core, ext);
    TrimAppended(core, ext);
  }

  lemma RecoverText(ds: seq<string>, stem: string, stamp: string, ext: string)
    requires Stamp(stamp) && IsName(stem, ext)
    ensures Recover(Front(ds) + Stamped(stem, stamp, ext)) == (Front(ds) + (stem + ext), stamp)
  {
    var last := Stamped(stem, stamp, ext);
    StampedIsOneElement(stem, stamp, ext);
    CutName(Front(ds) + last, ds, last);
    RecoverStamped(stem, stamp, ext);
  }

  lemma RecoverExt(core: string, ext: string)
    requires if ext == "" then '.' !in core else ext[0] == '.' && '.' !in ext[1..]
    ensures ExtOf(core + ext) == ext
  {
    if ext == "" {
      assert core + ext == core;
      LastIndexNone(core, '.');
    } else {
      assert core + ext == core + ['.'] + ext[1..];
      LastIndexIs(core, '.', ext[1..]);
      assert (core + ext)[|core|..] == ext;
    }
  }

  /** Path and stamp can be read off the backup name, so distinct pairs never share one. */
  lemma BackupIsInvertible(path: string, stamp: string)
    requires CleanAbsolute(path) && Stamp(stamp)
    ensures Recover(BackupOf(path, stamp)) == (path, stamp)
  {
    var ds := PathParts(path);
    var stem := NameParts(NameOf(path));
    BackupText(path, stamp, ds, stem);
    RecoverText(ds, stem, stamp, Ext(path));
  }

  lemma BackupText(path: string, stamp: string, ds: seq<string>, stem: string)
    requires Rooted(path) && Stamp(stamp) && AllProper(ds) && Text.Clean(ds, '/') && Dir(path) == Absolute(ds)
    requires NameOf(path) == "" ==> ds == []
    requires NameOf(path) == stem + Ext(path) && '/' !in NameOf(path) && TrimSuffix(NameOf(path), Ext(path)) == stem
    ensures BackupOf(path, stamp) == Front(ds) + Stamped(stem, stamp, Ext(path))
  {
    var last := Stamped(stem, stamp, Ext(path));
    StampedIsOneElement(stem, stamp, Ext(path));
    JoinParts(ds, last);
    if NameOf(path) == "" { RootName(stamp); }
  }

  lemma StampedIsOneElement(stem: string, stamp: string, ext: string)
    requires Stamp(stamp) && '/' !in stem + ext
    ensures '/' !in Stamped(stem, stamp, ext) && Proper(Stamped(stem, stamp, ext))
  {
    assert forall c | c in stem || c in ext :: c in stem + ext;
    assert |Stamped(stem, stamp, ext)| > 2;
  }

  lemma RootName(stamp: string)
    ensures TrimSuffix("/", "") == "/" && Stamped("/", stamp, "") == "/" + Stamped("", stamp, "")
  {
  }

  lemma BackupsNeverCollide(p: string, s: string, q: string, t: string)
    requires CleanAbsolute(p) && Stamp(s) && CleanAbsolute(q) && Stamp(t)
    ensures BackupOf(p, s) == BackupOf(q, t) <==> p == q && s == t
  {
    BackupIsInvertible(p, s);
    BackupIsInvertible(q, t);
  }

  /** A backup is a clean path in the directory of the original, and never the original itself. */
  lemma BackupStaysInDirectory(path: string, stamp: string)
    requires CleanAbsolute(path) && Stamp(stamp)
    ensures var backup := BackupOf(path, stamp);
            CleanAbsolute(backup) && Dir(backup) == Dir(path) && backup != path && Ext(backup) == ".bak"
  {
    var ds := PathParts(path);
    var stem := NameParts(NameOf(path));
    BackupText(path, stamp, ds, stem);
    StampedIsOneElement(stem, stamp, Ext(path));
    StampedIsOther(stem, stamp, Ext(path));
    FileOfDirectory(ds, Stamped(stem, stamp, Ext(path)));
  }

  lemma StampedIsOther(stem: string, stamp: string, ext: string)
    ensures ExtOf(Stamped(stem, stamp, ext)) == ".bak" && Stamped(stem, stamp, ext) != stem + ext
  {
    assert |Stamped(stem, stamp, ext)| > |stem + ext|;
    RecoverExt(stem + "-" + stamp + ext, ".bak");
  }

  lemma FileOfDirectory(ds: seq<string>, name: string)
    requires AllProper(ds) && Text.Clean(ds, '/') && Proper(name) && '/' !in name
    ensures var path := Front(ds) + name;
            CleanAbsolute(path) && NameOf(path) == name && Dir(path) == Absolute(ds)
  {
    assert Rooted(Front(ds) + name) && Rooted(Front(ds) + "");
    CleanedFront(ds, name);
    CutName(Front(ds) + name, ds, name);
    CleanedFront(ds, "");
    assert Front(ds) + "" == Front(ds);
  }

  /**
   The backup's name written out: a dash and the stamp go between the name and its extension, and `.bak` to the end.
   An extension is what follows the last dot of the name, with the dot.
   */
  lemma BackupShape(path: string, stamp: string, d: string, stem: string, ext: string)
    requires CleanAbsolute(path) && Stamp(stamp) && path == d + ['/'] + (stem + ext) && stem + ext != ""
    requires '/' !in stem && '/' !in ext && if ext == "" then '.' !in stem else ext[0] == '.' && '.' !in ext[1..]
    ensures BackupOf(path, stamp) == d + ['/'] + (stem + "-" + stamp + ext + ".bak")
  {
    var ds := PathParts(path);
    NoSlash(stem, ext);
    CutAfterSlash(d, stem + ext);
    SameFront(Front(ds), d + ['/'], NameOf(path));
    RecoverExt(stem, ext);
    TrimAppended(stem, ext);
    BackupText(path, stamp, ds, stem);
  }

  lemma NoSlash(stem: string, ext: string)
    requires '/' !in stem && '/' !in ext
    ensures '/' !in stem + ext
  {
  }

  lemma SameFront(a: string, b: string, name: string)
    requires a + name == b + name
    ensures a == b
  {
    assert |a| == |b|;
    assert a == (a + name)[..|a|] && b == (b + name)[..|b|];
  }

  // ---- What cleaning does ----

  /** A double dot takes back the element before it, and one at the root is dropped. */
  lemma DotDotTakesBack(es: seq<string>, e: string)
    requires Proper(e)
    ensures Normal(es + [e] + [".."]) == Normal(es) && Normal([".."]) == []
  {
    assert (es + [e])[..|es|] == es;
    assert (es + [e] + [".."])[..|es| + 1] == es + [e];
    assert [".."][..0] == [];
  }

  /** Dots and empty elements are dropped. */
  lemma DotIsDropped(es: seq<string>)
    ensures Normal(es + ["."]) == Normal(es) && Normal(es + [""]) == Normal(es)
  {
    assert (es + ["."])[..|es|] == es && (es + [""])[..|es|] == es;
  }

  /** A cleaned path is clean. */
  lemma CleaningIsIdempotent(path: string)
    requires Rooted(path)
    ensures CleanAbsolute(Cleaned(path))
  {
    var es := Normal(Text.Split(path[1..], '/'));
    assert Text.Clean(es, '/') by {
      forall i | 0 <= i < |es| ensures '/' !in es[i] { assert es[i] in es; }
    }
    if es == [] {
      Text.SplitSingle("", '/');
      DotIsDropped([]);
      assert [] + [""] == [""];
    } else {
      ProperIsClean(es);
    }
  }
}
