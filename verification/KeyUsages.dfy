/**
 Translation of the key usages named in a CSR into the X.509 key usage mask and the list of extended key usages
 (sections 4.2.1.3 and 4.2.1.12 of RFC 5280).
 */
module KeyUsages {
  import opened Common
  import opened Masks

  /** The usage strings of the certificates API; `Other` is any string that is not one of them. */
  datatype Usage =
    | Signing | DigitalSignature | ContentCommitment | KeyEncipherment | KeyAgreement | DataEncipherment
    | CertSign | CRLSign | EncipherOnly | DecipherOnly
    | Any | ServerAuth | ClientAuth | CodeSigning | EmailProtection | SMIME | IPsecEndSystem | IPsecTunnel
    | IPsecUser | Timestamping | OCSPSigning | MicrosoftSGC | NetscapeSGC
    | Other(text: string)

  const DIGITAL_SIGNATURE: Mask := 0x1
  const KEY_ENCIPHERMENT: Mask := 0x4
  const EXT_SERVER_AUTH := 1

  /** The table of key usages. */
  function KeyUsageOf(u: Usage): Option<Mask> {
    match u
    case Signing => Some(DIGITAL_SIGNATURE)
    case DigitalSignature => Some(DIGITAL_SIGNATURE)
    case ContentCommitment => Some(0x2)
    case KeyEncipherment => Some(KEY_ENCIPHERMENT)
    case DataEncipherment => Some(0x8)
    case KeyAgreement => Some(0x10)
    case CertSign => Some(0x20)
    case CRLSign => Some(0x40)
    case EncipherOnly => Some(0x80)
    case DecipherOnly => Some(0x100)
    case _ => None
  }

  /** The table of extended key usages. */
  function ExtKeyUsageOf(u: Usage): Option<int> {
    match u
    case Any => Some(0)
    case ServerAuth => Some(EXT_SERVER_AUTH)
    case ClientAuth => Some(2)
    case CodeSigning => Some(3)
    case EmailProtection => Some(4)
    case SMIME => Some(4)
    case IPsecEndSystem => Some(5)
    case IPsecTunnel => Some(6)
    case IPsecUser => Some(7)
    case Timestamping => Some(8)
    case OCSPSigning => Some(9)
    case MicrosoftSGC => Some(10)
    case NetscapeSGC => Some(11)
    case _ => None
  }

  /** The key usages in the order of their bits in section 4.2.1.3 of RFC 5280. */
  const KEY_USAGE_ORDER := [
    DigitalSignature, ContentCommitment, KeyEncipherment, DataEncipherment, KeyAgreement, CertSign, CRLSign,
    EncipherOnly, DecipherOnly]

  /** The extended key usages in the order of their numbers in the X.509 library. */
  const EXT_KEY_USAGE_ORDER := [
    Any, ServerAuth, ClientAuth, CodeSigning, EmailProtection, IPsecEndSystem, IPsecTunnel, IPsecUser, Timestamping,
    OCSPSigning, MicrosoftSGC, NetscapeSGC]

  /** Each key usage has the bit of its place in the standard; `signing` is another name of the first. */
  lemma KeyUsagesInOrder(k: nat)
    requires k < WIDTH
    ensures |KEY_USAGE_ORDER| == WIDTH && KeyUsageOf(KEY_USAGE_ORDER[k]) == Some(Bit(k))
    ensures KeyUsageOf(Signing) == Some(Bit(0))
  {
  }

  /** Each extended usage has the number of its place; S/MIME is another name of e-mail protection. */
  lemma ExtKeyUsagesInOrder(k: nat)
    requires k < |EXT_KEY_USAGE_ORDER|
    ensures ExtKeyUsageOf(EXT_KEY_USAGE_ORDER[k]) == Some(k)
    ensures ExtKeyUsageOf(SMIME) == ExtKeyUsageOf(EmailProtection)
  {
  }

  /** Every usage of the certificates API is recognized, and nothing else is. */
  lemma RecognizedIff(u: Usage)
    ensures Recognized(u) <==> !u.Other?
  {
  }

  predicate Recognized(u: Usage) {
    KeyUsageOf(u).Some? || ExtKeyUsageOf(u).Some?
  }

  predicate Ascending(s: seq<int>) {
    forall i, j | 0 <= i < j < |s| :: s[i] < s[j]
  }

  // ---- What the translation means ----

  /** The positions of the bits of a usage's value. */
  function UsageBits(u: Usage): set<nat> {
    if KeyUsageOf(u).Some? then BitsOf(KeyUsageOf(u).value) else {}
  }

  /** The positions of the bits that some usage of the list maps to. */
  function BitsWanted(usages: seq<Usage>): set<nat> {
    set u, b | u in usages && b in UsageBits(u) :: b
  }

  /** Each usage of the table has one bit. */
  lemma TableHasSingleBits(u: Usage) returns (k: nat)
    requires KeyUsageOf(u).Some?
    ensures k < WIDTH && KeyUsageOf(u).value == Bit(k) && UsageBits(u) == {k}
  {
    match u {
      case Signing => k := 0;
      case DigitalSignature => k := 0;
      case ContentCommitment => k := 1;
      case KeyEncipherment => k := 2;
      case DataEncipherment => k := 3;
      case KeyAgreement => k := 4;
      case CertSign => k := 5;
      case CRLSign => k := 6;
      case EncipherOnly => k := 7;
      case DecipherOnly => k := 8;
    }
    BitsOfBit(k);
  }

  /** The extended usages that some usage of the list maps to. */
  function ExtsWanted(usages: seq<Usage>): set<int> {
    set u | u in usages && ExtKeyUsageOf(u).Some? :: ExtKeyUsageOf(u).value
  }

  /**
   `mask` has a bit exactly when some usage maps to it, and `exts` lists, in strictly ascending order, exactly the
   extended usages that some usage maps to.
   */
  ghost predicate Translates(usages: seq<Usage>, mask: Mask, exts: seq<int>) {
    && (forall b :: b in BitsOf(mask) <==> exists u | u in usages :: b in UsageBits(u))
    && Ascending(exts)
    && (forall e :: e in exts <==> exists u | u in usages :: ExtKeyUsageOf(u) == Some(e))
  }

  lemma AscendingInit(s: seq<int>)
    requires Ascending(s) && s != []
    ensures var n := |s| - 1;
            Ascending(s[..n]) && s[n] in s && forall e :: e in s[..n] <==> e in s && e < s[n]
  {
    var n := |s| - 1;
    assert s == s[..n] + [s[n]];
  }

  lemma {:induction false} AscendingIsUnique(a: seq<int>, b: seq<int>)
    requires Ascending(a) && Ascending(b)
    requires forall e :: e in a <==> e in b
    ensures a == b
  {
    assert a != [] ==> a[0] in a;
    assert b != [] ==> b[0] in b;
    if a != [] {
      var x, y := |a| - 1, |b| - 1;
      AscendingInit(a);
      AscendingInit(b);
      assert a[x] == b[y];
      AscendingIsUnique(a[..x], b[..y]);
      assert a == a[..x] + [a[x]] && b == b[..y] + [b[y]];
    }
  }

  /**
   The translation depends only on which usages are named: any permutation or repetition of the list, and any
   order in which the extended usages were collected, gives the same mask and the same list.
   */
  lemma TranslationIsUnique(
    us: seq<Usage>, vs: seq<Usage>, m: Mask, es: seq<int>, n: Mask, fs: seq<int>)
    requires forall u :: u in us <==> u in vs
    requires Translates(us, m, es) && Translates(vs, n, fs)
    ensures m == n && es == fs
  {
    assert BitsOf(m) == BitsOf(n);
    BitsDetermine(m, n);
    AscendingIsUnique(es, fs);
  }

  // ---- The translation ----

  /** Insertion in order, as the library sort of the collected values would place it. */
  function Insert(x: int, s: seq<int>): (r: seq<int>)
    requires Ascending(s) && x !in s
    ensures Ascending(r) && |r| == |s| + 1
    ensures forall e :: e in r <==> e == x || e in s
  {
    if s == [] then [x]
    else if x < s[0] then [x] + s
    else
      var rest := Insert(x, s[1..]);
      assert forall e | e in rest :: s[0] < e;
      assert forall k | 0 <= k < |rest| :: rest[k] in rest;
      [s[0]] + rest
  }

  /** The mask of the list. */
  function MaskOf(usages: seq<Usage>): Mask {
    if usages == [] then 0
    else
      var before := MaskOf(usages[..|usages| - 1]);
      var val := KeyUsageOf(usages[|usages| - 1]);
      if val.Some? then before | val.value else before
  }

  /** The mask has exactly the bits that some usage maps to. */
  lemma {:induction false} MaskMeaning(usages: seq<Usage>)
    ensures BitsOf(MaskOf(usages)) == BitsWanted(usages)
  {
    if usages == [] {
      BitsOfNothing();
    } else {
      var n := |usages| - 1;
      MaskMeaning(usages[..n]);
      OneMoreUsage(usages, n);
      assert usages[..n + 1] == usages;
      AddsBits(MaskOf(usages[..n]), usages[n]);
    }
  }

  lemma AddsBits(mask: Mask, u: Usage)
    ensures KeyUsageOf(u).Some? ==> BitsOf(mask | KeyUsageOf(u).value) == BitsOf(mask) + UsageBits(u)
    ensures KeyUsageOf(u).None? ==> UsageBits(u) == {}
  {
    if KeyUsageOf(u).Some? { BitsOfOr(mask, KeyUsageOf(u).value); }
  }

  /** The extended usages of the list in ascending order. */
  function ExtsOf(usages: seq<Usage>): (exts: seq<int>)
    ensures Ascending(exts) && forall e :: e in exts <==> e in ExtsWanted(usages)
  {
    if usages == [] then []
    else
      var n := |usages| - 1;
      var before := ExtsOf(usages[..n]);
      OneMoreExt(usages, n);
      assert usages[..n + 1] == usages;
      var ext := ExtKeyUsageOf(usages[n]);
      if ext.Some? && ext.value !in before then Insert(ext.value, before) else before
  }

  /** sort.Sort on values without repeats. */
  method Sort(values: seq<int>) returns (sorted: seq<int>)
    requires forall i, j | 0 <= i < j < |values| :: values[i] != values[j]
    ensures Ascending(sorted) && forall e :: e in sorted <==> e in values
  {
    sorted := [];
    for i := 0 to |values|
      invariant Ascending(sorted)
      invariant forall e :: e in sorted <==> e in values[..i]
    {
      assert values[i] !in values[..i];
      sorted := Insert(values[i], sorted);
      assert values[..i + 1] == values[..i] + [values[i]];
    }
    assert values[..|values|] == values;
  }

  lemma HasElement(s: set<int>)
    requires s != {}
    ensures exists e :: e in s
  {
    assert (forall e :: e !in s) ==> s == {};
  }

  /** The values of a set, in some order, each once. */
  method Collect(from: set<int>) returns (values: seq<int>)
    ensures forall i, j | 0 <= i < j < |values| :: values[i] != values[j]
    ensures forall e :: e in values <==> e in from
  {
    values := [];
    var pending := from;
    while pending != {}
      invariant pending <= from
      invariant forall e :: e in values <==> e in from && e !in pending
      invariant forall i, j | 0 <= i < j < |values| :: values[i] != values[j]
    {
      HasElement(pending);
      var e :| e in pending;
      values := values + [e];
      pending := pending - {e};
    }
  }

  function Image(x: Option<int>): set<int> {
    if x.Some? then {x.value} else {}
  }

  /** What one more usage adds to the bits, the extended usages and the mask. */
  lemma OneMoreUsage(usages: seq<Usage>, i: nat)
    requires i < |usages|
    ensures BitsWanted(usages[..i + 1]) == BitsWanted(usages[..i]) + UsageBits(usages[i])
  {
    assert usages[..i + 1] == usages[..i] + [usages[i]];
  }

  lemma OneMoreExt(usages: seq<Usage>, i: nat)
    requires i < |usages|
    ensures ExtsWanted(usages[..i + 1]) == ExtsWanted(usages[..i]) + Image(ExtKeyUsageOf(usages[i]))
  {
    assert usages[..i + 1] == usages[..i] + [usages[i]];
  }

  lemma OneMoreMask(usages: seq<Usage>, i: nat)
    requires i < |usages|
    ensures var before, val := MaskOf(usages[..i]), KeyUsageOf(usages[i]);
            MaskOf(usages[..i + 1]) == if val.Some? then before | val.value else before
  {
    assert usages[..i + 1][..i] == usages[..i];
  }

  /** No usage is in both tables. */
  lemma TablesAreApart(u: Usage)
    ensures KeyUsageOf(u).None? || ExtKeyUsageOf(u).None?
  {
  }

  /** The two functions of the list are its translation. */
  lemma TranslationMeaning(usages: seq<Usage>)
    ensures Translates(usages, MaskOf(usages), ExtsOf(usages))
  {
    MaskMeaning(usages);
  }

  /** The usages in neither table, in the order of the list. */
  function Unrecognized(usages: seq<Usage>): seq<Usage> {
    if usages == [] then []
    else
      var n := |usages| - 1;
      if Recognized(usages[n]) then Unrecognized(usages[..n]) else Unrecognized(usages[..n]) + [usages[n]]
  }

  lemma OneMoreUnrecognized(usages: seq<Usage>, i: nat)
    requires i < |usages|
    ensures var before := Unrecognized(usages[..i]);
            Unrecognized(usages[..i + 1]) == if Recognized(usages[i]) then before else before + [usages[i]]
  {
    assert usages[..i + 1][..i] == usages[..i];
  }

  lemma {:induction false} NoneUnrecognized(usages: seq<Usage>)
    ensures Unrecognized(usages) == [] <==> forall u | u in usages :: Recognized(u)
  {
    if usages != [] {
      var n := |usages| - 1;
      NoneUnrecognized(usages[..n]);
      assert usages == usages[..n] + [usages[n]];
    }
  }

  /** The loop over the usages. */
  method Gather(usages: seq<Usage>) returns (mask: Mask, exts: set<int>, unrecognized: seq<Usage>)
    ensures mask == MaskOf(usages) && exts == ExtsWanted(usages)
    ensures unrecognized == Unrecognized(usages)
  {
    mask, exts, unrecognized := 0, {}, [];
    for i := 0 to |usages|
      invariant mask == MaskOf(usages[..i]) && exts == ExtsWanted(usages[..i])
      invariant unrecognized == Unrecognized(usages[..i])
    {
      var usage := usages[i];
      OneMoreMask(usages, i);
      OneMoreExt(usages, i);
      OneMoreUnrecognized(usages, i);
      TablesAreApart(usage);
      var val := KeyUsageOf(usage);
      var ext := ExtKeyUsageOf(usage);
      if val.Some? {
        mask := mask | val.value;
      } else if ext.Some? {
        exts := exts + {ext.value};
      } else {
        unrecognized := unrecognized + [usage];
      }
    }
    assert usages[..|usages|] == usages;
  }

  method KeyUsagesFromStrings(usages: seq<Usage>) returns (r: Result<(Mask, seq<int>)>)
    ensures r.Ok? <==> forall u | u in usages :: Recognized(u)
    ensures r.Ok? ==> Translates(usages, r.value.0, r.value.1)
    ensures r.Ok? ==> r.value == (MaskOf(usages), ExtsOf(usages))
  {
    var mask, exts, unrecognized := Gather(usages);
    NoneUnrecognized(usages);
    var values := Collect(exts);
    var sorted := Sort(values);
    if |unrecognized| > 0 { return Err; }
    AscendingIsUnique(sorted, ExtsOf(usages));
    TranslationMeaning(usages);
    return Ok((mask, sorted));
  }
}
