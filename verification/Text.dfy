/**
 Text as the program sees it: a sequence of characters, one per byte. This module
 gives substring search, first-occurrence replacement and splitting at a separator,
 and proves how a replacement inside a text acts on the lines of that text.
 */
module Text {

  /** `pattern` occurs in `s` at offset `i`. */
  predicate At(s: string, i: nat, pattern: string) {
    i + |pattern| <= |s| && s[i..i + |pattern|] == pattern
  }

  predicate Contains(s: string, pattern: string) {
    exists i: nat | i <= |s| :: At(s, i, pattern)
  }

  /** The first offset at or after `i` where `pattern` occurs, or -1. */
  function IndexFrom(s: string, pattern: string, i: nat): (r: int)
    requires i <= |s|
    ensures r == -1 ==> forall j: nat | i <= j :: !At(s, j, pattern)
    ensures r != -1 ==> i <= r <= |s| && At(s, r, pattern)
    ensures r != -1 ==> forall j: nat | i <= j < r :: !At(s, j, pattern)
    decreases |s| - i
  {
    if At(s, i, pattern) then i
    else if i == |s| then -1
    else IndexFrom(s, pattern, i + 1)
  }

  /** Replacement of the first occurrence only; the text is unchanged when there is none. */
  function ReplaceFirst(s: string, pattern: string, new_: string): (r: string) {
    var i := IndexFrom(s, pattern, 0);
    if i == -1 then s else s[..i] + new_ + s[i + |pattern|..]
  }

  predicate Clean(ls: seq<string>, sep: char) {
    forall i | 0 <= i < |ls| :: sep !in ls[i]
  }

  function Split(s: string, sep: char): (ls: seq<string>)
    ensures |ls| > 0 && Clean(ls, sep)
  {
    if s == "" then [""]
    else
      var rest := Split(s[1..], sep);
      if s[0] == sep then [""] + rest else [[s[0]] + rest[0]] + rest[1..]
  }

  function Join(ls: seq<string>, sep: char): (s: string)
    requires |ls| > 0
  {
    if |ls| == 1 then ls[0] else ls[0] + [sep] + Join(ls[1..], sep)
  }

  lemma {:induction false} JoinSplit(s: string, sep: char)
    ensures Join(Split(s, sep), sep) == s
  {
    if s != "" {
      JoinSplit(s[1..], sep);
      var rest := Split(s[1..], sep);
      if s[0] == sep {
        assert ([""] + rest)[1..] == rest;
      } else {
        var ls := [[s[0]] + rest[0]] + rest[1..];
        if |rest| > 1 {
          assert ls[1..] == rest[1..];
        }
      }
    }
  }

  lemma {:induction false} SplitPrefix(l: string, s: string, sep: char)
    requires sep !in l
    ensures Split(l + [sep] + s, sep) == [l] + Split(s, sep)
  {
    var t := l + [sep] + s;
    if l == "" {
      assert t[1..] == s;
    } else {
      SplitPrefix(l[1..], s, sep);
      assert t[1..] == l[1..] + [sep] + s;
      assert [l[0]] + l[1..] == l;
      assert ([l[1..]] + Split(s, sep))[1..] == Split(s, sep);
    }
  }

  lemma {:induction false} SplitSingle(l: string, sep: char)
    requires sep !in l
    ensures Split(l, sep) == [l]
  {
    if l != "" {
      SplitSingle(l[1..], sep);
      assert [l[0]] + l[1..] == l;
    }
  }

  lemma {:induction false} SplitJoin(ls: seq<string>, sep: char)
    requires |ls| > 0 && Clean(ls, sep)
    ensures Split(Join(ls, sep), sep) == ls
  {
    if |ls| == 1 {
      SplitSingle(ls[0], sep);
    } else {
      assert Clean(ls[1..], sep) by {
        forall i | 0 <= i < |ls[1..]| ensures sep !in ls[1..][i] { assert ls[1..][i] == ls[i + 1]; }
      }
      SplitJoin(ls[1..], sep);
      SplitPrefix(ls[0], Join(ls[1..], sep), sep);
    }
  }

  lemma {:induction false} JoinAppend(a: seq<string>, b: seq<string>, sep: char)
    requires |a| > 0 && |b| > 0
    ensures Join(a + b, sep) == Join(a, sep) + [sep] + Join(b, sep)
  {
    if |a| == 1 {
      assert (a + b)[1..] == b;
    } else {
      JoinAppend(a[1..], b, sep);
      assert (a + b)[1..] == a[1..] + b;
    }
  }

  /** Splitting a concatenation glues the last piece of one text to the first of the other. */
  lemma SplitConcat(a: string, b: string, sep: char)
    ensures Split(a + [sep] + b, sep) == Split(a, sep) + Split(b, sep)
  {
    JoinSplit(a, sep);
    JoinSplit(b, sep);
    JoinAppend(Split(a, sep), Split(b, sep), sep);
    SplitJoin(Split(a, sep) + Split(b, sep), sep);
  }

  // ---- Occurrences within lines ----

  /** A pattern free of the separator occurs either in the first line or after it. */
  lemma AtPrefix(l: string, s: string, sep: char, pattern: string, i: nat)
    requires |pattern| > 0 && sep !in pattern
    ensures At(l + [sep] + s, i, pattern) <==>
            At(l, i, pattern) || (i > |l| && At(s, i - |l| - 1, pattern))
  {
    var t := l + [sep] + s;
    if i + |pattern| <= |l| {
      assert t[i..i + |pattern|] == l[i..i + |pattern|];
    } else if i > |l| {
      if i + |pattern| <= |t| {
        assert t[i..i + |pattern|] == s[i - |l| - 1..i - |l| - 1 + |pattern|];
      }
    } else if i + |pattern| <= |t| {
      assert t[i..i + |pattern|][|l| - i] == sep != pattern[|l| - i];
    }
  }

  /** `pattern` occurs in `s` first at `i`. */
  ghost predicate FirstAt(s: string, i: nat, pattern: string) {
    At(s, i, pattern) && forall j: nat | j < i :: !At(s, j, pattern)
  }

  lemma ReplaceAt(s: string, pattern: string, new_: string, i: nat)
    requires FirstAt(s, i, pattern)
    ensures ReplaceFirst(s, pattern, new_) == s[..i] + new_ + s[i + |pattern|..]
  {
    var k := IndexFrom(s, pattern, 0);
    assert k == i;
  }

  lemma FirstInLine(l: string, s: string, sep: char, pattern: string, i: nat)
    requires |pattern| > 0 && sep !in pattern && FirstAt(l, i, pattern)
    ensures FirstAt(l + [sep] + s, i, pattern)
  {
    AtPrefix(l, s, sep, pattern, i);
    forall j: nat | j < i ensures !At(l + [sep] + s, j, pattern) { AtPrefix(l, s, sep, pattern, j); }
  }

  lemma FirstAfterLine(l: string, s: string, sep: char, pattern: string, i: nat)
    requires |pattern| > 0 && sep !in pattern && !Contains(l, pattern) && FirstAt(s, i, pattern)
    ensures FirstAt(l + [sep] + s, |l| + 1 + i, pattern)
  {
    AtPrefix(l, s, sep, pattern, |l| + 1 + i);
    forall j: nat | j < |l| + 1 + i ensures !At(l + [sep] + s, j, pattern) {
      AtPrefix(l, s, sep, pattern, j);
    }
  }

  /** The place of the first occurrence. */
  lemma FirstPlace(s: string, pattern: string) returns (k: nat)
    requires Contains(s, pattern)
    ensures FirstAt(s, k, pattern) && k + |pattern| <= |s|
  {
    k := IndexFrom(s, pattern, 0);
  }

  /** Cutting `n` characters out of `l + s` at an offset inside `l`. */
  lemma SpliceBefore(l: string, s: string, new_: string, i: nat, n: nat)
    requires i + n <= |l|
    ensures (l + s)[..i] + new_ + (l + s)[i + n..] == (l[..i] + new_ + l[i + n..]) + s
  {
    assert (l + s)[..i] == l[..i];
    assert (l + s)[i + n..] == l[i + n..] + s;
  }

  lemma ReplaceInFirst(l: string, s: string, sep: char, pattern: string, new_: string)
    requires |pattern| > 0 && sep !in pattern && Contains(l, pattern)
    ensures ReplaceFirst(l + [sep] + s, pattern, new_) == ReplaceFirst(l, pattern, new_) + [sep] + s
  {
    var k := FirstPlace(l, pattern);
    FirstInLine(l, s, sep, pattern, k);
    ReplaceAt(l, pattern, new_, k);
    ReplaceAt(l + [sep] + s, pattern, new_, k);
    SpliceBefore(l, [sep] + s, new_, k, |pattern|);
    Regroup(l, [sep], s);
    Regroup(ReplaceFirst(l, pattern, new_), [sep], s);
  }

  lemma Regroup<T>(x: seq<T>, y: seq<T>, z: seq<T>)
    ensures x + y + z == x + (y + z)
  {
  }

  /** Cutting `n` characters out of `l + s` at an offset inside `s`. */
  lemma SpliceAfter(l: string, s: string, new_: string, i: nat, n: nat)
    requires i + n <= |s|
    ensures (l + s)[..|l| + i] + new_ + (l + s)[|l| + i + n..] == l + (s[..i] + new_ + s[i + n..])
  {
    assert (l + s)[..|l| + i] == l + s[..i];
    assert (l + s)[|l| + i + n..] == s[i + n..];
  }

  lemma ReplaceAfterFirst(l: string, s: string, sep: char, pattern: string, new_: string)
    requires |pattern| > 0 && sep !in pattern && !Contains(l, pattern) && Contains(s, pattern)
    ensures ReplaceFirst(l + [sep] + s, pattern, new_) == l + [sep] + ReplaceFirst(s, pattern, new_)
  {
    var k := FirstPlace(s, pattern);
    FirstAfterLine(l, s, sep, pattern, k);
    ReplaceAt(s, pattern, new_, k);
    ReplaceAt(l + [sep] + s, pattern, new_, |l| + 1 + k);
    SpliceAfter(l + [sep], s, new_, k, |pattern|);
  }

  lemma ContainsPrefix(l: string, s: string, sep: char, pattern: string)
    requires |pattern| > 0 && sep !in pattern
    ensures Contains(l + [sep] + s, pattern) <==> Contains(l, pattern) || Contains(s, pattern)
  {
    var t := l + [sep] + s;
    if Contains(t, pattern) {
      var i: nat :| i <= |t| && At(t, i, pattern);
      AtPrefix(l, s, sep, pattern, i);
      if !At(l, i, pattern) { assert At(s, i - |l| - 1, pattern); }
    }
    if Contains(l, pattern) {
      var i: nat :| i <= |l| && At(l, i, pattern);
      AtPrefix(l, s, sep, pattern, i);
      assert At(t, i, pattern);
    }
    if Contains(s, pattern) {
      var i: nat :| i <= |s| && At(s, i, pattern);
      AtPrefix(l, s, sep, pattern, |l| + 1 + i);
      assert At(t, |l| + 1 + i, pattern);
    }
  }

  /** A joined text contains a separator-free pattern exactly when one of its lines does. */
  lemma {:induction false} ContainsJoin(ls: seq<string>, sep: char, pattern: string)
    requires |ls| > 0 && |pattern| > 0 && sep !in pattern
    ensures Contains(Join(ls, sep), pattern) <==> exists i | 0 <= i < |ls| :: Contains(ls[i], pattern)
  {
    if |ls| > 1 {
      ContainsJoin(ls[1..], sep, pattern);
      ContainsPrefix(ls[0], Join(ls[1..], sep), sep, pattern);
      forall i | 0 <= i < |ls[1..]| ensures ls[1..][i] == ls[i + 1] {}
      if i :| 0 <= i < |ls| && Contains(ls[i], pattern) {
        if i > 0 { assert ls[1..][i - 1] == ls[i]; }
      }
    }
  }

  lemma ReplaceInRest(ls: seq<string>, sep: char, pattern: string, new_: string)
    requires |ls| > 1 && |pattern| > 0 && sep !in pattern
    requires !Contains(ls[0], pattern) && exists i | 0 < i < |ls| :: Contains(ls[i], pattern)
    ensures ReplaceFirst(Join(ls, sep), pattern, new_) ==
            ls[0] + [sep] + ReplaceFirst(Join(ls[1..], sep), pattern, new_)
  {
    var i :| 0 < i < |ls| && Contains(ls[i], pattern);
    assert ls[1..][i - 1] == ls[i];
    ContainsJoin(ls[1..], sep, pattern);
    ReplaceAfterFirst(ls[0], Join(ls[1..], sep), sep, pattern, new_);
  }

  /** Replacing the first occurrence in a joined text edits the first line that has one, and only it. */
  lemma {:induction false} ReplaceJoin(ls: seq<string>, sep: char, pattern: string, new_: string, k: nat)
    requires k < |ls| && |pattern| > 0 && sep !in pattern
    requires Contains(ls[k], pattern)
    requires forall i | 0 <= i < k :: !Contains(ls[i], pattern)
    ensures ReplaceFirst(Join(ls, sep), pattern, new_) ==
            Join(ls[k := ReplaceFirst(ls[k], pattern, new_)], sep)
  {
    var line := ReplaceFirst(ls[k], pattern, new_);
    if k > 0 {
      var rest := ls[1..];
      assert rest[k - 1] == ls[k];
      assert forall i | 0 <= i < k - 1 :: rest[i] == ls[i + 1];
      ReplaceJoin(rest, sep, pattern, new_, k - 1);
      ReplaceInRest(ls, sep, pattern, new_);
      JoinTail(ls[k := line], rest[k - 1 := line], sep);
    } else if |ls| > 1 {
      ReplaceInFirst(ls[0], Join(ls[1..], sep), sep, pattern, new_);
      JoinTail(ls[0 := line], ls[1..], sep);
    }
  }

  lemma JoinTail(ls: seq<string>, rest: seq<string>, sep: char)
    requires |rest| > 0 && |ls| == |rest| + 1 && forall i | 0 <= i < |rest| :: rest[i] == ls[i + 1]
    ensures Join(ls, sep) == ls[0] + [sep] + Join(rest, sep)
  {
    assert ls[1..] == rest;
  }

  /** A text lacking one character of the pattern cannot contain it. */
  lemma LacksCharacter(s: string, pattern: string, c: char)
    requires c in pattern && c !in s
    ensures !Contains(s, pattern)
  {
    var k :| 0 <= k < |pattern| && pattern[k] == c;
    forall i: nat | i + |pattern| <= |s| ensures !At(s, i, pattern) {
      assert s[i..i + |pattern|][k] == s[i + k] != c;
    }
  }

  // ---- Counting and keeping lines ----

  function CountLines(ls: seq<string>, p: string -> bool): nat {
    if ls == [] then 0 else (if p(ls[0]) then 1 else 0) + CountLines(ls[1..], p)
  }

  function Keep(ls: seq<string>, p: string -> bool): seq<string> {
    if ls == [] then [] else (if p(ls[0]) then [ls[0]] else []) + Keep(ls[1..], p)
  }

  lemma CountOne(l: string, p: string -> bool)
    ensures CountLines([l], p) == if p(l) then 1 else 0
  {
    assert [l][1..] == [];
  }

  lemma KeepOne(l: string, p: string -> bool)
    ensures Keep([l], p) == if p(l) then [l] else []
  {
    assert [l][1..] == [];
  }

  lemma {:induction false} CountConcat(a: seq<string>, b: seq<string>, p: string -> bool)
    ensures CountLines(a + b, p) == CountLines(a, p) + CountLines(b, p)
  {
    if a == [] {
      assert a + b == b;
    } else {
      CountConcat(a[1..], b, p);
      assert (a + b)[0] == a[0] && (a + b)[1..] == a[1..] + b;
    }
  }

  lemma {:induction false} KeepConcat(a: seq<string>, b: seq<string>, p: string -> bool)
    ensures Keep(a + b, p) == Keep(a, p) + Keep(b, p)
  {
    if a == [] {
      assert a + b == b;
    } else {
      KeepConcat(a[1..], b, p);
      assert (a + b)[0] == a[0] && (a + b)[1..] == a[1..] + b;
      Regroup(if p(a[0]) then [a[0]] else [], Keep(a[1..], p), Keep(b, p));
    }
  }

  lemma {:induction false} CountIsPositive(ls: seq<string>, p: string -> bool)
    ensures CountLines(ls, p) > 0 <==> exists i | 0 <= i < |ls| :: p(ls[i])
  {
    if ls != [] {
      CountIsPositive(ls[1..], p);
      assert forall i | 0 <= i < |ls[1..]| :: ls[1..][i] == ls[i + 1];
      if i :| 0 <= i < |ls| && p(ls[i]) {
        assert i == 0 || ls[1..][i - 1] == ls[i];
      }
    }
  }

  lemma {:induction false} KeepSame(ls: seq<string>, p: string -> bool, q: string -> bool)
    requires forall l :: p(l) == q(l)
    ensures Keep(ls, p) == Keep(ls, q)
  {
    if ls != [] { KeepSame(ls[1..], p, q); }
  }

  /** The first line that satisfies `p`. */
  function FirstLine(ls: seq<string>, p: string -> bool): (i: nat)
    requires CountLines(ls, p) > 0
    ensures i < |ls| && p(ls[i]) && CountLines(ls[..i], p) == 0 && CountLines(ls[i + 1..], p) == CountLines(ls, p) - 1
  {
    if p(ls[0]) then 0
    else
      var i := FirstLine(ls[1..], p);
      assert ls[..i + 1][1..] == ls[1..][..i];
      assert ls[i + 2..] == ls[1..][i + 1..];
      i + 1
  }
}
