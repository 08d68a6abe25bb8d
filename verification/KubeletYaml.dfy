/**
 The two flags that kucero keeps in /var/lib/kubelet/config.yaml. The program edits the
 file's bytes by substring search, first-occurrence replacement or appending; here that
 edit is related to the file's lines.
 */
module KubeletYaml {
  import opened Text

  const CLIENT_KEY := "rotateCertificates:"
  const SERVER_KEY := "serverTLSBootstrap:"

  /** The part of the kubelet configuration that the program reads and sets. */
  datatype Flags = Flags(client: bool, server: bool)

  function Show(b: bool): string {
    if b then "true" else "false"
  }

  function Entry(key: string, value: bool): string {
    key + " " + Show(value)
  }

  // ---- The byte-level edit ----

  function EditFlag(text: string, key: string, parsed: bool, wanted: bool): string {
    if parsed == wanted then text
    else if Contains(text, key) then ReplaceFirst(text, Entry(key, parsed), Entry(key, wanted))
    else text + Entry(key, wanted) + "\n"
  }

  /** Both edits in the program's order; `parsed` was read before either of them. */
  function EditFlags(text: string, parsed: Flags, wanted: Flags): string {
    EditFlag(EditFlag(text, CLIENT_KEY, parsed.client, wanted.client), SERVER_KEY, parsed.server, wanted.server)
  }

  // ---- The line-level reading ----

  function Lines(text: string): seq<string> {
    Split(text, '\n')
  }

  function Mention(key: string): string -> bool {
    line => Contains(line, key)
  }

  /** How many lines mention `key`. */
  function Mentions(ls: seq<string>, key: string): nat {
    CountLines(ls, Mention(key))
  }

  /** A line mentions `key` only as the whole entry `key: true` or `key: false`, and at most one does. */
  ghost predicate WellKeyed(ls: seq<string>, key: string) {
    && (forall l | l in ls && Contains(l, key) :: l == Entry(key, true) || l == Entry(key, false))
    && Mentions(ls, key) <= 1
  }

  predicate Flag(ls: seq<string>, key: string) {
    Entry(key, true) in ls
  }

  function ReadFlags(text: string): Flags {
    Flags(Flag(Lines(text), CLIENT_KEY), Flag(Lines(text), SERVER_KEY))
  }

  predicate Terminated(ls: seq<string>) {
    |ls| > 0 && ls[|ls| - 1] == ""
  }

  ghost predicate Keyed(text: string) {
    WellKeyed(Lines(text), CLIENT_KEY) && WellKeyed(Lines(text), SERVER_KEY)
  }

  /** The texts the program aims at: every line ends in a newline and the keys are well placed. */
  ghost predicate InDomain(text: string) {
    Terminated(Lines(text)) && Keyed(text)
  }

  /** The index of the first line that mentions `key`. */
  function LineOf(ls: seq<string>, key: string): nat
    requires Mentions(ls, key) > 0
  {
    FirstLine(ls, Mention(key))
  }

  /** "Set this key" on lines: replace the entry where it stands, or add it as the last line. */
  function SetFlag(ls: seq<string>, key: string, wanted: bool): seq<string>
    requires |ls| > 0
  {
    if Flag(ls, key) == wanted then ls
    else if Mentions(ls, key) > 0 then
      var i := LineOf(ls, key);
      ls[..i] + [Entry(key, wanted)] + ls[i + 1..]
    else ls[..|ls| - 1] + [ls[|ls| - 1] + Entry(key, wanted)] + [""]
  }

  function Neither(k1: string, k2: string): string -> bool {
    line => !Contains(line, k1) && !Contains(line, k2)
  }

  /** The lines that mention neither key, in order. */
  function Others(ls: seq<string>, k1: string, k2: string): seq<string> {
    Keep(ls, Neither(k1, k2))
  }

  // ---- Facts about keys and entries ----

  lemma EntryMentionsItsKey(key: string, value: bool)
    ensures Contains(Entry(key, value), key)
  {
    var s := Entry(key, value);
    assert s[0..|key|] == key;
    assert At(s, 0, key);
  }

  lemma EntriesDiffer(key: string)
    ensures Entry(key, true) != Entry(key, false)
  {
    assert Entry(key, true)[|key| + 1] == 't';
    assert Entry(key, false)[|key| + 1] == 'f';
  }

  lemma MentionsPrefix(s: string, key: string, value: bool)
    requires Contains(s, Entry(key, value))
    ensures Contains(s, key)
  {
    var i: nat :| i <= |s| && At(s, i, Entry(key, value));
    var e := Entry(key, value);
    assert e[..|key|] == key;
    assert s[i..i + |key|] == s[i..i + |e|][..|key|];
    assert At(s, i, key);
  }

  /** Two usable keys: no entry of one, and no empty line, mentions the other. */
  ghost predicate Unrelated(key: string, other: string) {
    && |key| > 0 && |other| > 0 && '\n' !in key && '\n' !in other
    && (forall value :: !Contains(Entry(key, value), other) && !Contains(Entry(other, value), key))
    && !Contains("", key) && !Contains("", other)
  }

  lemma NoLetterC(value: bool)
    ensures 'C' in CLIENT_KEY && 'C' !in Entry(SERVER_KEY, value)
  {
    assert CLIENT_KEY[6] == 'C';
  }

  lemma NoLetterL(value: bool)
    ensures 'L' in SERVER_KEY && 'L' !in Entry(CLIENT_KEY, value)
  {
    assert SERVER_KEY[7] == 'L';
  }

  lemma KeysAreUnrelated()
    ensures Unrelated(CLIENT_KEY, SERVER_KEY) && Unrelated(SERVER_KEY, CLIENT_KEY)
  {
    forall value
      ensures !Contains(Entry(SERVER_KEY, value), CLIENT_KEY) && !Contains(Entry(CLIENT_KEY, value), SERVER_KEY)
      ensures !Contains("", CLIENT_KEY) && !Contains("", SERVER_KEY)
    {
      NoLetterC(value);
      NoLetterL(value);
      LacksCharacter(Entry(SERVER_KEY, value), CLIENT_KEY, 'C');
      LacksCharacter(Entry(CLIENT_KEY, value), SERVER_KEY, 'L');
      LacksCharacter("", CLIENT_KEY, 'C');
      LacksCharacter("", SERVER_KEY, 'L');
    }
  }

  lemma FlagNeedsMention(ls: seq<string>, key: string)
    requires Mentions(ls, key) == 0
    ensures !Flag(ls, key)
  {
    EntryMentionsItsKey(key, true);
    CountIsPositive(ls, Mention(key));
  }

  /** The one line that mentions the key tells the flag. */
  lemma FlagOfLine(ls: seq<string>, key: string)
    requires WellKeyed(ls, key) && Mentions(ls, key) > 0
    ensures ls[LineOf(ls, key)] == Entry(key, Flag(ls, key))
  {
    var i := LineOf(ls, key);
    EntriesDiffer(key);
    FlagNeedsMention(ls[..i], key);
    FlagNeedsMention(ls[i + 1..], key);
    CutAt(ls, i);
  }

  // ---- One edit on the lines ----

  /** Replacing a whole line's text where it first occurs replaces that line. */
  lemma {:induction false} ReplaceLine(ls: seq<string>, i: nat, new_: string)
    requires Clean(ls, '\n') && i < |ls| && ls[i] != "" && '\n' !in new_
    requires forall j | 0 <= j < i :: !Contains(ls[j], ls[i])
    ensures Lines(ReplaceFirst(Join(ls, '\n'), ls[i], new_)) == ls[..i] + [new_] + ls[i + 1..]
  {
    ReplaceWhole(ls[i], new_);
    ReplaceJoin(ls, '\n', ls[i], new_, i);
    var out := ls[i := new_];
    assert out == ls[..i] + [new_] + ls[i + 1..];
    assert Clean(out, '\n') by {
      forall j | 0 <= j < |out| ensures '\n' !in out[j] { assert j == i || out[j] == ls[j]; }
    }
    SplitJoin(out, '\n');
  }

  lemma ReplaceWhole(s: string, new_: string)
    ensures Contains(s, s) && ReplaceFirst(s, s, new_) == new_
  {
    assert s[0..|s|] == s;
    assert At(s, 0, s);
    ReplaceAt(s, s, new_, 0);
  }

  lemma NoEarlierEntry(ls: seq<string>, key: string, value: bool)
    requires Mentions(ls, key) == 0
    ensures forall j | 0 <= j < |ls| :: !Contains(ls[j], Entry(key, value))
  {
    CountIsPositive(ls, Mention(key));
    forall j | 0 <= j < |ls| ensures !Contains(ls[j], Entry(key, value)) {
      if Contains(ls[j], Entry(key, value)) { MentionsPrefix(ls[j], key, value); }
    }
  }

  lemma {:induction false} ReplaceEntryLine(ls: seq<string>, key: string, parsed: bool, wanted: bool)
    requires Clean(ls, '\n') && '\n' !in key && Mentions(ls, key) > 0 && ls[LineOf(ls, key)] == Entry(key, parsed)
    ensures var i := LineOf(ls, key);
            Lines(ReplaceFirst(Join(ls, '\n'), Entry(key, parsed), Entry(key, wanted))) ==
            ls[..i] + [Entry(key, wanted)] + ls[i + 1..]
  {
    var i := LineOf(ls, key);
    NoEarlierEntry(ls[..i], key, parsed);
    assert forall j | 0 <= j < i :: ls[..i][j] == ls[j];
    ReplaceLine(ls, i, Entry(key, wanted));
  }

  /** Appending an entry and a newline extends the last line and opens an empty one. */
  lemma AppendLine(text: string, entry: string)
    requires '\n' !in entry
    ensures var ls := Lines(text);
            Lines(text + entry + "\n") == ls[..|ls| - 1] + [ls[|ls| - 1] + entry] + [""]
  {
    var ls := Lines(text);
    var n := |ls| - 1;
    var last := ls[n];
    var out := ls[..n] + [last + entry] + [""];
    JoinSplit(text, '\n');
    assert ls == ls[..n] + [last];
    JoinAppend(ls[..n] + [last + entry], [""], '\n');
    if n > 0 {
      JoinAppend(ls[..n], [last], '\n');
      JoinAppend(ls[..n], [last + entry], '\n');
    }
    assert text + entry == Join(ls[..n] + [last + entry], '\n');
    assert text + entry + "\n" == Join(out, '\n') by {
      assert Join([""], '\n') == "";
    }
    assert Clean(out, '\n') by {
      forall j | 0 <= j < |out| ensures '\n' !in out[j] { assert j >= n || out[j] == ls[j]; }
    }
    SplitJoin(out, '\n');
  }

  /** The byte edit of one key acts on the lines as `SetFlag`. */
  lemma EditIsSetFlag(text: string, key: string, wanted: bool)
    requires |key| > 0 && '\n' !in key && WellKeyed(Lines(text), key)
    ensures Lines(EditFlag(text, key, Flag(Lines(text), key), wanted)) == SetFlag(Lines(text), key, wanted)
  {
    if Flag(Lines(text), key) != wanted {
      ContainsKey(text, key);
      if Mentions(Lines(text), key) > 0 {
        EditInPlace(text, key, wanted);
      } else {
        AppendLine(text, Entry(key, wanted));
      }
    }
  }

  lemma ContainsKey(text: string, key: string)
    requires |key| > 0 && '\n' !in key
    ensures Contains(text, key) <==> Mentions(Lines(text), key) > 0
  {
    JoinSplit(text, '\n');
    ContainsJoin(Lines(text), '\n', key);
    CountIsPositive(Lines(text), Mention(key));
  }

  lemma EditInPlace(text: string, key: string, wanted: bool)
    requires |key| > 0 && '\n' !in key && WellKeyed(Lines(text), key)
    requires Mentions(Lines(text), key) > 0 && Flag(Lines(text), key) != wanted
    ensures Lines(ReplaceFirst(text, Entry(key, !wanted), Entry(key, wanted))) == SetFlag(Lines(text), key, wanted)
  {
    JoinSplit(text, '\n');
    FlagOfLine(Lines(text), key);
    ReplaceEntryLine(Lines(text), key, !wanted, wanted);
  }

  // ---- What `SetFlag` keeps ----

  /** Exchanging stretches of lines that do not mention `other` keeps what the text says about it. */
  lemma ExchangeKeepsKey(a: seq<string>, x: seq<string>, y: seq<string>, b: seq<string>, other: string)
    requires Mentions(x, other) == 0 == Mentions(y, other)
    ensures Mentions(a + y + b, other) == Mentions(a + x + b, other)
    ensures Flag(a + y + b, other) == Flag(a + x + b, other)
    ensures WellKeyed(a + x + b, other) ==> WellKeyed(a + y + b, other)
  {
    CountConcat(a + x, b, Mention(other));
    CountConcat(a, x, Mention(other));
    CountConcat(a + y, b, Mention(other));
    CountConcat(a, y, Mention(other));
    CountIsPositive(y, Mention(other));
    FlagNeedsMention(x, other);
    FlagNeedsMention(y, other);
  }

  /** Putting the entry of `key` among lines that do not mention it sets the key. */
  lemma ExchangeSetsKey(a: seq<string>, b: seq<string>, key: string, wanted: bool)
    requires Mentions(a, key) == 0 == Mentions(b, key)
    ensures var out := a + [Entry(key, wanted)] + b;
            WellKeyed(out, key) && Flag(out, key) == wanted && Mentions(out, key) == 1
  {
    CountConcat(a + [Entry(key, wanted)], b, Mention(key));
    CountConcat(a, [Entry(key, wanted)], Mention(key));
    EntryMentionsItsKey(key, wanted);
    EntriesDiffer(key);
    CountIsPositive(a, Mention(key));
    CountIsPositive(b, Mention(key));
    FlagNeedsMention(a, key);
    FlagNeedsMention(b, key);
  }

  lemma OthersOfExchange(a: seq<string>, x: seq<string>, y: seq<string>, b: seq<string>, k1: string, k2: string)
    requires Others(x, k1, k2) == [] == Others(y, k1, k2)
    ensures Others(a + x + b, k1, k2) == Others(a + y + b, k1, k2)
  {
    KeepConcat(a + x, b, Neither(k1, k2));
    KeepConcat(a, x, Neither(k1, k2));
    KeepConcat(a + y, b, Neither(k1, k2));
    KeepConcat(a, y, Neither(k1, k2));
  }

  /** What one key update promises: the key set, the other key as it was, all other lines as they were. */
  ghost predicate Updated(ls: seq<string>, out: seq<string>, key: string, other: string, wanted: bool) {
    && WellKeyed(out, key) && WellKeyed(out, other)
    && Flag(out, key) == wanted && Flag(out, other) == Flag(ls, other)
    && Mentions(out, other) == Mentions(ls, other)
    && (Mentions(ls, key) > 0 || wanted ==> Mentions(out, key) > 0)
    && (Terminated(ls) <==> Terminated(out))
    && Others(out, key, other) == Others(ls, key, other)
  }

  lemma SetInPlace(ls: seq<string>, key: string, other: string, wanted: bool)
    requires Unrelated(key, other) && WellKeyed(ls, key) && WellKeyed(ls, other)
    requires Mentions(ls, key) > 0 && Flag(ls, key) != wanted
    ensures Updated(ls, SetFlag(ls, key, wanted), key, other, wanted)
  {
    var i := LineOf(ls, key);
    FlagOfLine(ls, key);
    CutAt(ls, i);
    EntryExchange(ls, ls[..i], ls[i + 1..], key, other, wanted);
  }

  /** A line that is an entry of `key` says nothing about `other` and is not among the other lines. */
  lemma EntryAlone(key: string, other: string, value: bool)
    requires Unrelated(key, other)
    ensures Mentions([Entry(key, value)], other) == 0 && Others([Entry(key, value)], key, other) == []
  {
    EntryMentionsItsKey(key, value);
    CountOne(Entry(key, value), Mention(other));
    KeepOne(Entry(key, value), Neither(key, other));
  }

  lemma CutAt(ls: seq<string>, i: nat)
    requires i < |ls|
    ensures ls == ls[..i] + [ls[i]] + ls[i + 1..]
  {
  }

  lemma EntryExchange(
    ls: seq<string>, a: seq<string>, b: seq<string>, key: string, other: string, wanted: bool)
    requires Unrelated(key, other) && Mentions(a, key) == 0 == Mentions(b, key)
    requires ls == a + [Entry(key, !wanted)] + b && WellKeyed(ls, other)
    ensures Updated(ls, a + [Entry(key, wanted)] + b, key, other, wanted)
  {
    var x, y := [Entry(key, !wanted)], [Entry(key, wanted)];
    EntryAlone(key, other, wanted);
    EntryAlone(key, other, !wanted);
    ExchangeSetsKey(a, b, key, wanted);
    ExchangeKeepsKey(a, x, y, b, other);
    OthersOfExchange(a, x, y, b, key, other);
  }

  lemma SetAtEnd(ls: seq<string>, key: string, other: string)
    requires Unrelated(key, other) && WellKeyed(ls, other)
    requires Mentions(ls, key) == 0 && Terminated(ls)
    ensures Updated(ls, SetFlag(ls, key, true), key, other, true)
  {
    var n := |ls| - 1;
    var entry := Entry(key, true);
    FlagNeedsMention(ls, key);
    EntryAlone(key, other, true);
    assert ls[n] + entry == entry;
    assert ls == ls[..n] + [] + [""];
    CountConcat(ls[..n], [""], Mention(key));
    ExchangeSetsKey(ls[..n], [""], key, true);
    ExchangeKeepsKey(ls[..n], [], [entry], [""], other);
    OthersOfExchange(ls[..n], [], [entry], [""], key, other);
  }

  /**
   Setting a key that has a place (its own line, or the end of a terminated text) sets it, keeps what the
   text says about the other key, and leaves every other line alone and in order.
   */
  lemma SetFlagMeaning(ls: seq<string>, key: string, other: string, wanted: bool)
    requires Unrelated(key, other) && |ls| > 0 && WellKeyed(ls, key) && WellKeyed(ls, other)
    requires Mentions(ls, key) > 0 || !wanted || Terminated(ls)
    ensures Updated(ls, SetFlag(ls, key, wanted), key, other, wanted)
  {
    if Mentions(ls, key) == 0 { FlagNeedsMention(ls, key); }
    if Flag(ls, key) != wanted {
      if Mentions(ls, key) > 0 {
        SetInPlace(ls, key, other, wanted);
      } else {
        FlagNeedsMention(ls, key);
        SetAtEnd(ls, key, other);
      }
    }
  }

  lemma OthersIsSymmetric(ls: seq<string>, k1: string, k2: string)
    ensures Others(ls, k1, k2) == Others(ls, k2, k1)
  {
    KeepSame(ls, Neither(k1, k2), Neither(k2, k1));
  }

  // ---- Both edits ----

  /**
   On every text in the domain the byte edits are "set the first key, then the second" on lines, although
   both use the values parsed before either edit. Both keys read back as wanted, the result is in the
   domain again, and the lines that mention neither key are the same, in the same order.
   */
  lemma {:induction false} EditRefinesLines(text: string, wanted: Flags)
    requires InDomain(text)
    ensures var out := EditFlags(text, ReadFlags(text), wanted);
            && Lines(out) == SetFlag(SetFlag(Lines(text), CLIENT_KEY, wanted.client), SERVER_KEY, wanted.server)
            && InDomain(out)
            && ReadFlags(out) == wanted
            && Others(Lines(out), CLIENT_KEY, SERVER_KEY) == Others(Lines(text), CLIENT_KEY, SERVER_KEY)
  {
    KeysAreUnrelated();
    var ls := Lines(text);
    var first := EditFlag(text, CLIENT_KEY, Flag(ls, CLIENT_KEY), wanted.client);
    EditIsSetFlag(text, CLIENT_KEY, wanted.client);
    SetFlagMeaning(ls, CLIENT_KEY, SERVER_KEY, wanted.client);
    EditIsSetFlag(first, SERVER_KEY, wanted.server);
    SetFlagMeaning(Lines(first), SERVER_KEY, CLIENT_KEY, wanted.server);
    OthersIsSymmetric(Lines(first), CLIENT_KEY, SERVER_KEY);
    OthersIsSymmetric(SetFlag(Lines(first), SERVER_KEY, wanted.server), CLIENT_KEY, SERVER_KEY);
  }

  // ---- What stands in the file ----

  lemma ClientEntries()
    ensures Entry(CLIENT_KEY, true) == "rotateCertificates: true"
    ensures Entry(CLIENT_KEY, false) == "rotateCertificates: false"
  {
  }

  lemma ServerEntries()
    ensures Entry(SERVER_KEY, true) == "serverTLSBootstrap: true"
    ensures Entry(SERVER_KEY, false) == "serverTLSBootstrap: false"
  {
  }

  /** A flag is read as true exactly when the file has the line that says so. */
  lemma FlagsAreLines(text: string)
    ensures ReadFlags(text).client <==> "rotateCertificates: true" in Lines(text)
    ensures ReadFlags(text).server <==> "serverTLSBootstrap: true" in Lines(text)
  {
    ClientEntries();
    ServerEntries();
  }

  /** A key that is mentioned and not true stands there as false. */
  lemma MentionedIsShown(ls: seq<string>, key: string)
    requires WellKeyed(ls, key) && Mentions(ls, key) > 0
    ensures Entry(key, Flag(ls, key)) in ls
  {
    FlagOfLine(ls, key);
  }

  /**
   After the edit the file has, line by line, what was wanted: a flag that is wanted true has its line; one that is
   wanted false has a line that says so if the file spoke of it before, and none that says otherwise.
   */
  lemma {:induction false} EditWritesWanted(text: string, wanted: Flags)
    requires InDomain(text)
    ensures var ls := Lines(EditFlags(text, ReadFlags(text), wanted));
            && (wanted.client <==> "rotateCertificates: true" in ls)
            && (wanted.server <==> "serverTLSBootstrap: true" in ls)
            && (!wanted.client && Contains(text, "rotateCertificates:") ==> "rotateCertificates: false" in ls)
            && (!wanted.server && Contains(text, "serverTLSBootstrap:") ==> "serverTLSBootstrap: false" in ls)
  {
    var out := EditFlags(text, ReadFlags(text), wanted);
    EditRefinesLines(text, wanted);
    FlagsAreLines(out);
    ClientEntries();
    ServerEntries();
    EditKeepsMentions(text, wanted);
    if Mentions(Lines(out), CLIENT_KEY) > 0 { MentionedIsShown(Lines(out), CLIENT_KEY); }
    if Mentions(Lines(out), SERVER_KEY) > 0 { MentionedIsShown(Lines(out), SERVER_KEY); }
  }

  /** A key that the file mentions is mentioned after the edit. */
  lemma {:induction false} EditKeepsMentions(text: string, wanted: Flags)
    requires InDomain(text)
    ensures var ls := Lines(EditFlags(text, ReadFlags(text), wanted));
            && (Contains(text, CLIENT_KEY) ==> Mentions(ls, CLIENT_KEY) > 0)
            && (Contains(text, SERVER_KEY) ==> Mentions(ls, SERVER_KEY) > 0)
  {
    KeysAreUnrelated();
    var ls := Lines(text);
    ContainsKey(text, CLIENT_KEY);
    ContainsKey(text, SERVER_KEY);
    var first := EditFlag(text, CLIENT_KEY, Flag(ls, CLIENT_KEY), wanted.client);
    EditIsSetFlag(text, CLIENT_KEY, wanted.client);
    SetFlagMeaning(ls, CLIENT_KEY, SERVER_KEY, wanted.client);
    EditIsSetFlag(first, SERVER_KEY, wanted.server);
    SetFlagMeaning(Lines(first), SERVER_KEY, CLIENT_KEY, wanted.server);
  }

  // ---- Texts whose last line is not terminated ----

  /** The edit of `key` has to add a line. */
  ghost predicate Appends(ls: seq<string>, key: string, wanted: bool) {
    wanted && Mentions(ls, key) == 0
  }

  lemma ReplacedHasNew(s: string, pattern: string, new_: string)
    requires Contains(s, pattern)
    ensures Contains(ReplaceFirst(s, pattern, new_), new_)
  {
    var i := IndexFrom(s, pattern, 0);
    assert At(ReplaceFirst(s, pattern, new_), i, new_);
  }

  lemma ExtendedHasEntry(s: string, key: string, value: bool)
    ensures Contains(s + Entry(key, value), key)
  {
    assert At(s + Entry(key, value), |s|, Entry(key, value));
    MentionsPrefix(s + Entry(key, value), key, value);
  }

  /** A replacement turns at most one line into another, and the new one mentions the key. */
  lemma ReplacedLines(text: string, key: string, parsed: bool, wanted: bool, line: string)
    requires '\n' !in key
    requires line in Lines(ReplaceFirst(text, Entry(key, parsed), Entry(key, wanted)))
    ensures line in Lines(text) || Contains(line, key)
  {
    var pattern := Entry(key, parsed);
    ContainsKey(text, pattern);
    if Mentions(Lines(text), pattern) > 0 {
      ReplacedOne(text, pattern, Entry(key, wanted), line);
      if line !in Lines(text) { MentionsPrefix(line, key, wanted); }
    } else {
      NotReplaced(text, pattern, Entry(key, wanted));
    }
  }

  lemma NotReplaced(text: string, pattern: string, new_: string)
    requires !Contains(text, pattern)
    ensures ReplaceFirst(text, pattern, new_) == text
  {
  }

  lemma ReplacedOne(text: string, pattern: string, new_: string, line: string)
    requires |pattern| > 0 && '\n' !in pattern && '\n' !in new_ && Mentions(Lines(text), pattern) > 0
    requires line in Lines(ReplaceFirst(text, pattern, new_))
    ensures line in Lines(text) || Contains(line, new_)
  {
    var ls := Lines(text);
    var i := LineOf(ls, pattern);
    ReplacedLine(text, pattern, new_);
    ReplacedHasNew(ls[i], pattern, new_);
    var j :| 0 <= j < |ls| && line == ls[i := ReplaceFirst(ls[i], pattern, new_)][j];
    assert j == i || line == ls[j];
  }

  /** Only the first line that holds the pattern changes. */
  lemma ReplacedLine(text: string, pattern: string, new_: string)
    requires |pattern| > 0 && '\n' !in pattern && '\n' !in new_ && Mentions(Lines(text), pattern) > 0
    ensures var ls := Lines(text);
            var i := LineOf(ls, pattern);
            Lines(ReplaceFirst(text, pattern, new_)) == ls[i := ReplaceFirst(ls[i], pattern, new_)]
  {
    var ls := Lines(text);
    var i := LineOf(ls, pattern);
    JoinSplit(text, '\n');
    NothingBefore(ls, pattern);
    ReplaceJoin(ls, '\n', pattern, new_, i);
    NewlineFree(ls[i], pattern, new_);
    SplitJoin(ls[i := ReplaceFirst(ls[i], pattern, new_)], '\n');
  }

  lemma NothingBefore(ls: seq<string>, key: string)
    requires Mentions(ls, key) > 0
    ensures forall j | 0 <= j < LineOf(ls, key) :: !Contains(ls[j], key)
  {
    var i := LineOf(ls, key);
    CountIsPositive(ls[..i], Mention(key));
    assert forall j | 0 <= j < i :: ls[..i][j] == ls[j];
  }

  lemma NewlineFree(s: string, pattern: string, new_: string)
    requires '\n' !in s && '\n' !in new_
    ensures '\n' !in ReplaceFirst(s, pattern, new_)
  {
  }

  /** An edit of one key never creates a line that does not mention it, except the empty last line. */
  lemma EditCreatesOnlyMentions(text: string, key: string, parsed: bool, wanted: bool, line: string)
    requires '\n' !in key && line != ""
    requires line in Lines(EditFlag(text, key, parsed, wanted))
    ensures line in Lines(text) || Contains(line, key)
  {
    if parsed != wanted {
      if Contains(text, key) {
        ReplacedLines(text, key, parsed, wanted, line);
      } else {
        AppendLine(text, Entry(key, wanted));
        var ls := Lines(text);
        ExtendedHasEntry(ls[|ls| - 1], key, wanted);
      }
    }
  }

  /** Appending to an unterminated line swallows the entry. */
  lemma AppendToOpenLine(text: string, key: string)
    requires |key| > 0 && '\n' !in key && WellKeyed(Lines(text), key)
    requires Appends(Lines(text), key, true) && !Terminated(Lines(text))
    ensures !Flag(Lines(EditFlag(text, key, Flag(Lines(text), key), true)), key)
  {
    var ls := Lines(text);
    var n := |ls| - 1;
    FlagNeedsMention(ls, key);
    EditIsSetFlag(text, key, true);
    assert |ls[n] + Entry(key, true)| > |Entry(key, true)|;
    assert Entry(key, true) !in ls[..n];
  }

  /**
   Without the assumption that the last line is terminated, the edit reads back as wanted exactly when the
   last line is terminated or neither key has to be appended.
   */
  lemma ReadBackIff(text: string, wanted: Flags)
    requires Keyed(text)
    ensures ReadFlags(EditFlags(text, ReadFlags(text), wanted)) == wanted <==>
            || Terminated(Lines(text))
            || (!Appends(Lines(text), CLIENT_KEY, wanted.client) && !Appends(Lines(text), SERVER_KEY, wanted.server))
  {
    KeysAreUnrelated();
    var ls := Lines(text);
    var parsed := ReadFlags(text);
    var first := EditFlag(text, CLIENT_KEY, parsed.client, wanted.client);
    if Terminated(ls) {
      EditRefinesLines(text, wanted);
    } else if Appends(ls, CLIENT_KEY, wanted.client) {
      AppendToOpenLine(text, CLIENT_KEY);
      var entry := Entry(CLIENT_KEY, true);
      if entry in Lines(EditFlag(first, SERVER_KEY, parsed.server, wanted.server)) {
        EditCreatesOnlyMentions(first, SERVER_KEY, parsed.server, wanted.server, entry);
        assert false;
      }
    } else {
      EditIsSetFlag(text, CLIENT_KEY, wanted.client);
      SetFlagMeaning(ls, CLIENT_KEY, SERVER_KEY, wanted.client);
      if Appends(ls, SERVER_KEY, wanted.server) {
        AppendToOpenLine(first, SERVER_KEY);
      } else {
        EditIsSetFlag(first, SERVER_KEY, wanted.server);
        SetFlagMeaning(Lines(first), SERVER_KEY, CLIENT_KEY, wanted.server);
      }
    }
  }

  /** The failing family is not empty: a file without a final newline that lacks the key. */
  lemma OpenLineCounterexample()
    ensures var text := "a: b";
            && Keyed(text)
            && ReadFlags(EditFlags(text, ReadFlags(text), Flags(true, false))) != Flags(true, false)
  {
    KeysAreUnrelated();
    var text := "a: b";
    SplitSingle(text, '\n');
    LacksCharacter(text, CLIENT_KEY, 'C') by { NoLetterC(true); }
    LacksCharacter(text, SERVER_KEY, 'L') by { NoLetterL(true); }
    CountOne(text, Mention(CLIENT_KEY));
    CountOne(text, Mention(SERVER_KEY));
    assert Mentions([text], CLIENT_KEY) == 0 == Mentions([text], SERVER_KEY);
    assert WellKeyed([text], CLIENT_KEY) && WellKeyed([text], SERVER_KEY);
    ReadBackIff(text, Flags(true, false));
  }
}
