/** Which CSRs are kubelet serving requests, and what a certificate issued for one can be used for. */
module Recognizer {
  import opened Common
  import opened KeyUsages
  import opened Masks
  import opened Authority

  datatype CsrSpec = CsrSpec(
    request: string, usages: seq<Usage>, username: string, expirationSeconds: Option<int>)

  predicate NoRepeats<T(==)>(s: seq<T>) {
    forall i, j | 0 <= i < j < |s| :: s[i] != s[j]
  }

  const KUBELET_SERVER_USAGES: seq<Usage> := [KeyEncipherment, DigitalSignature, ServerAuth]

  // ---- hasExactUsages ----

  predicate SameLengthWithin(usages: seq<Usage>, wanted: seq<Usage>) {
    |wanted| == |usages| && forall u | u in usages :: u in wanted
  }

  method HasExactUsages(usages: seq<Usage>, wanted: seq<Usage>) returns (b: bool)
    ensures b <==> SameLengthWithin(usages, wanted)
  {
    if |wanted| != |usages| { return false; }
    var usageMap: set<Usage> := {};
    for i := 0 to |wanted|
      invariant forall u :: u in usageMap <==> u in wanted[..i]
    {
      usageMap := usageMap + {wanted[i]};
      assert wanted[..i + 1] == wanted[..i] + [wanted[i]];
    }
    assert wanted[..|wanted|] == wanted;
    for i := 0 to |usages|
      invariant forall k | 0 <= k < i :: usages[k] in wanted
    {
      if usages[i] !in usageMap { return false; }
    }
    return true;
  }

  lemma {:induction false} SizeOfElements<T>(s: seq<T>)
    requires NoRepeats(s)
    ensures |set x | x in s| == |s|
  {
    if s != [] {
      var n := |s| - 1;
      SizeOfElements(s[..n]);
      assert s[n] !in s[..n];
      assert (set x | x in s) == (set x | x in s[..n]) + {s[n]};
    }
  }

  lemma {:induction false} NoRepeatsIsCountOne<T>(s: seq<T>)
    ensures NoRepeats(s) <==> forall x :: multiset(s)[x] <= 1
  {
    if s != [] {
      var n := |s| - 1;
      NoRepeatsIsCountOne(s[..n]);
      assert s == s[..n] + [s[n]];
      assert NoRepeats(s) <==> NoRepeats(s[..n]) && s[n] !in s[..n];
      assert s[n] in s[..n] <==> multiset(s[..n])[s[n]] > 0;
      assert forall x :: multiset(s)[x] == multiset(s[..n])[x] + (if x == s[n] then 1 else 0);
      if s[n] in s[..n] { assert multiset(s)[s[n]] >= 2; }
    }
  }

  lemma SameElements<T>(a: seq<T>, b: seq<T>)
    requires NoRepeats(a) && NoRepeats(b) && forall x :: x in a <==> x in b
    ensures multiset(a) == multiset(b)
  {
    NoRepeatsIsCountOne(a);
    NoRepeatsIsCountOne(b);
    forall x ensures multiset(a)[x] == multiset(b)[x] {
      assert x in a <==> multiset(a)[x] > 0;
      assert x in b <==> multiset(b)[x] > 0;
    }
  }

  /** A pigeonhole argument over the length check and the membership loop. */
  lemma ExactIsPermutation(usages: seq<Usage>, wanted: seq<Usage>)
    requires NoRepeats(wanted) && NoRepeats(usages)
    ensures SameLengthWithin(usages, wanted) <==> multiset(usages) == multiset(wanted)
  {
    var us, ws := set x | x in usages, set x | x in wanted;
    SizeOfElements(usages);
    SizeOfElements(wanted);
    if SameLengthWithin(usages, wanted) {
      assert us <= ws;
      SubsetOfSameSize(us, ws);
      assert forall x :: x in usages <==> x in us;
      assert forall x :: x in wanted <==> x in ws;
      SameElements(usages, wanted);
    }
    if multiset(usages) == multiset(wanted) {
      assert |usages| == |multiset(usages)| == |multiset(wanted)| == |wanted|;
      assert forall u | u in usages :: u in multiset(usages);
    }
  }

  lemma SubsetOfSameSize<T>(a: set<T>, b: set<T>)
    requires a <= b && |a| == |b|
    ensures a == b
  {
    assert b == a + (b - a);
    assert |b| == |a| + |b - a|;
  }

  /** The test does accept a list with repeats; on accepted lists it is exact if and only if there are none. */
  lemma ExactIffNoRepeats(usages: seq<Usage>, wanted: seq<Usage>)
    requires NoRepeats(wanted) && SameLengthWithin(usages, wanted)
    ensures multiset(usages) == multiset(wanted) <==> NoRepeats(usages)
  {
    if NoRepeats(usages) {
      ExactIsPermutation(usages, wanted);
    } else {
      NoRepeatsIsCountOne(usages);
      NoRepeatsIsCountOne(wanted);
    }
  }

  lemma RepeatsAreAccepted()
    ensures var usages := [ServerAuth, ServerAuth, ServerAuth];
            SameLengthWithin(usages, KUBELET_SERVER_USAGES) && multiset(usages) != multiset(KUBELET_SERVER_USAGES)
  {
    var usages := [ServerAuth, ServerAuth, ServerAuth];
    assert multiset(usages)[ServerAuth] == 3;
    assert KUBELET_SERVER_USAGES[2] == ServerAuth;
    assert multiset(KUBELET_SERVER_USAGES)[ServerAuth] == 1;
  }

  // ---- isNodeServingCert ----

  predicate HasPrefix(s: string, prefix: string) {
    prefix <= s
  }

  predicate IsNodeServingCert(spec: CsrSpec, req: Request) {
    && req.subject.organization == ["system:nodes"]
    && |req.dnsNames| >= 1 && |req.ipAddresses| >= 1
    && SameLengthWithin(spec.usages, KUBELET_SERVER_USAGES)
    && HasPrefix(req.subject.commonName, "system:node:")
    && spec.username == req.subject.commonName
  }

  /**
   Every request of the shape the kubelet makes is accepted: any node name, any DNS names and addresses but at least one
   of each, the three usages in any order, whatever else the request and the CSR hold.
   */
  lemma KubeletRequestIsAccepted(
    node: string, dns: seq<string>, ips: seq<string>, emails: seq<string>, uris: seq<string>, key: string,
    exts: seq<string>, extra: seq<string>, usages: seq<Usage>, pem: string, seconds: Option<int>)
    requires dns != [] && ips != [] && multiset(usages) == multiset{DigitalSignature, KeyEncipherment, ServerAuth}
    ensures var user := "system:node:" + node;
            IsNodeServingCert(
              CsrSpec(pem, usages, user, seconds),
              Request(Subject(user, ["system:nodes"]), dns, ips, emails, uris, key, exts, extra))
  {
    assert |usages| == |multiset(usages)| == 3;
    forall u | u in usages ensures u in KUBELET_SERVER_USAGES {
      assert u in multiset(usages);
      ServingUsage(u);
    }
    assert HasPrefix("system:node:" + node, "system:node:");
  }

  /** And nothing else is: each of these alone is a reason to refuse. */
  lemma RefusedIfNot(spec: CsrSpec, req: Request)
    ensures req.subject.organization != ["system:nodes"] ==> !IsNodeServingCert(spec, req)
    ensures req.dnsNames == [] || req.ipAddresses == [] ==> !IsNodeServingCert(spec, req)
    ensures |spec.usages| != 3 ==> !IsNodeServingCert(spec, req)
    ensures (exists u | u in spec.usages :: u != DigitalSignature && u != KeyEncipherment && u != ServerAuth) ==>
              !IsNodeServingCert(spec, req)
    ensures !("system:node:" <= req.subject.commonName) ==> !IsNodeServingCert(spec, req)
    ensures spec.username != req.subject.commonName ==> !IsNodeServingCert(spec, req)
  {
    forall u | u in spec.usages && u in KUBELET_SERVER_USAGES
      ensures u == KeyEncipherment || u == DigitalSignature || u == ServerAuth
    {
      ServingUsage(u);
    }
  }

  /** The bits of digital signature and key encipherment. */
  const SERVING_MASK: Mask := 0x5

  lemma ServingUsage(u: Usage)
    ensures u in KUBELET_SERVER_USAGES <==> u == KeyEncipherment || u == DigitalSignature || u == ServerAuth
  {
    assert KUBELET_SERVER_USAGES[0] == KeyEncipherment;
    assert KUBELET_SERVER_USAGES[1] == DigitalSignature;
    assert KUBELET_SERVER_USAGES[2] == ServerAuth;
  }

  /** The three serving usages are all there exactly when an accepted list has no repeats. */
  lemma AllServingIffNoRepeats(usages: seq<Usage>)
    requires SameLengthWithin(usages, KUBELET_SERVER_USAGES)
    ensures NoRepeats(usages) <==> KeyEncipherment in usages && DigitalSignature in usages && ServerAuth in usages
  {
    ServingUsage(usages[0]);
    ServingUsage(usages[1]);
    ServingUsage(usages[2]);
    assert |usages| == 3;
  }

  /**
   For every CSR the recognizer accepts, the policy never fails, and the certificate issued for it is no authority,
   carries no requested extension, names the CSR's user, which is a node, and some address, and is usable for digital
   signature, key encipherment and server authentication at most: for all three exactly when the CSR's usage list has
   no repeats.
   */
  lemma RecognizedCertificate(spec: CsrSpec, req: Request, ca: CertificateAuthority, now: int, ttl: int, o: Outside)
    requires IsNodeServingCert(spec, req)
    ensures forall u | u in spec.usages :: Recognized(u)
    ensures var r := Issue(ca, now, req, Policy(ttl, spec.usages), o);
            r.Ok? ==>
              && !r.value.isCA && r.value.extensions == [] && r.value.extraExtensions == []
              && r.value.subject.commonName == spec.username && HasPrefix(spec.username, "system:node:")
              && r.value.subject.organization == ["system:nodes"]
              && |r.value.dnsNames| >= 1 && |r.value.ipAddresses| >= 1
              && BitsOf(r.value.keyUsage) <= BitsOf(SERVING_MASK)
              && (forall e | e in r.value.extKeyUsage :: e == EXT_SERVER_AUTH)
              && (r.value.keyUsage == SERVING_MASK && r.value.extKeyUsage == [EXT_SERVER_AUTH] <==>
                  NoRepeats(spec.usages))
  {
    forall u | u in spec.usages ensures Recognized(u) { ServingUsage(u); }
    ServingMask(spec.usages);
    ServingExts(spec.usages);
    AllServingIffNoRepeats(spec.usages);
  }

  lemma ServingBits()
    ensures BitsOf(DIGITAL_SIGNATURE) == {0} && BitsOf(KEY_ENCIPHERMENT) == {2} && BitsOf(SERVING_MASK) == {0, 2}
  {
    BitsOfBit(0);
    BitsOfBit(2);
    BitsOfOr(DIGITAL_SIGNATURE, KEY_ENCIPHERMENT);
    assert DIGITAL_SIGNATURE | KEY_ENCIPHERMENT == SERVING_MASK;
  }

  lemma ServingMask(usages: seq<Usage>)
    requires SameLengthWithin(usages, KUBELET_SERVER_USAGES)
    ensures BitsOf(MaskOf(usages)) <= BitsOf(SERVING_MASK)
    ensures MaskOf(usages) == SERVING_MASK <==> KeyEncipherment in usages && DigitalSignature in usages
  {
    ServingBits();
    MaskMeaning(usages);
    WantedOfServing(usages);
    if BitsOf(MaskOf(usages)) == {0, 2} { BitsDetermine(MaskOf(usages), SERVING_MASK); }
  }

  lemma WantedOfServing(usages: seq<Usage>)
    requires SameLengthWithin(usages, KUBELET_SERVER_USAGES)
    requires BitsOf(DIGITAL_SIGNATURE) == {0} && BitsOf(KEY_ENCIPHERMENT) == {2}
    ensures BitsWanted(usages) <= {0, 2}
    ensures 0 in BitsWanted(usages) <==> DigitalSignature in usages
    ensures 2 in BitsWanted(usages) <==> KeyEncipherment in usages
  {
    forall u | u in usages ensures u == KeyEncipherment || u == DigitalSignature || u == ServerAuth { ServingUsage(u); }
    assert UsageBits(ServerAuth) == {} && UsageBits(DigitalSignature) == {0} && UsageBits(KeyEncipherment) == {2};
  }

  lemma ServingExts(usages: seq<Usage>)
    requires SameLengthWithin(usages, KUBELET_SERVER_USAGES)
    ensures forall e | e in ExtsOf(usages) :: e == EXT_SERVER_AUTH
    ensures ExtsOf(usages) == [EXT_SERVER_AUTH] <==> ServerAuth in usages
  {
    forall u | u in usages ensures u == KeyEncipherment || u == DigitalSignature || u == ServerAuth { ServingUsage(u); }
    assert forall e | e in ExtsWanted(usages) :: e == EXT_SERVER_AUTH;
    assert EXT_SERVER_AUTH in ExtsWanted(usages) <==> ServerAuth in usages;
    if ServerAuth in usages {
      AscendingIsUnique(ExtsOf(usages), [EXT_SERVER_AUTH]);
    } else {
      assert EXT_SERVER_AUTH !in ExtsOf(usages) && EXT_SERVER_AUTH in [EXT_SERVER_AUTH];
    }
  }
}
