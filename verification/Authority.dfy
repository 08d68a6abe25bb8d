/**
 Signing: the certificate authority, its policy, and the signer's choice of a lifetime. Times and durations are
 counted in nanoseconds. DER encoding, signature checks and random serial numbers are outside the model; whether
 each of them succeeds is an input.
 */
module Authority {
  import opened Common
  import opened KeyUsages
  import opened Masks

  const MINUTE := 60 * SECOND
  const BACKDATE := 5 * MINUTE
  const MIN_TTL := 10 * MINUTE

  datatype Subject = Subject(commonName: string, organization: seq<string>)

  /** An X.509 certificate request. */
  datatype Request = Request(
    subject: Subject, dnsNames: seq<string>, ipAddresses: seq<string>, emailAddresses: seq<string>,
    uris: seq<string>, publicKey: string, extensions: seq<string>, extraExtensions: seq<string>)

  datatype CertificateAuthority = CertificateAuthority(
    rawCert: string, rawKey: string, notAfter: int, privateKey: string, backdate: int)

  /** PermissiveSigningPolicy. */
  datatype Policy = Policy(ttl: int, usages: seq<Usage>)

  datatype Certificate = Certificate(
    serial: nat, subject: Subject, dnsNames: seq<string>, ipAddresses: seq<string>, emailAddresses: seq<string>,
    uris: seq<string>, publicKey: string, extensions: seq<string>, extraExtensions: seq<string>,
    notBefore: int, notAfter: int, keyUsage: Mask, extKeyUsage: seq<int>, basicConstraintsValid: bool, isCA: bool,
    issuer: string)

  /** What the calls outside the model answer during one signing. */
  datatype Outside = Outside(parseOk: bool, signatureOk: bool, serialOk: bool, createOk: bool, serial: nat)

  /** The certificate template, filled in by the authority and changed in place by the policy. */
  class Template {
    const serial: nat
    const request: Request
    const notBefore: int
    var extensions: seq<string>
    var extraExtensions: seq<string>
    var notAfter: int
    var keyUsage: Mask
    var extKeyUsage: seq<int>
    var basicConstraintsValid: bool
    var isCA: bool

    constructor (serial: nat, request: Request, notBefore: int)
      ensures this.serial == serial && this.request == request && this.notBefore == notBefore
      ensures extensions == request.extensions && extraExtensions == request.extraExtensions
    {
      this.serial, this.request, this.notBefore := serial, request, notBefore;
      extensions, extraExtensions := request.extensions, request.extraExtensions;
      notAfter, keyUsage, extKeyUsage, basicConstraintsValid, isCA := 0, 0, [], false, false;
    }

    function Issued(issuer: string): Certificate
      reads this
    {
      Certificate(
        serial, request.subject, request.dnsNames, request.ipAddresses, request.emailAddresses, request.uris,
        request.publicKey, extensions, extraExtensions, notBefore, notAfter, keyUsage, extKeyUsage,
        basicConstraintsValid, isCA, issuer)
    }

    /** The policy's `apply`: nothing is changed when a usage is not recognized. */
    method Apply(p: Policy) returns (ok: bool)
      modifies this
      ensures ok <==> forall u | u in p.usages :: Recognized(u)
      ensures !ok ==> unchanged(this)
      ensures ok ==> && keyUsage == MaskOf(p.usages) && extKeyUsage == ExtsOf(p.usages)
                     && notAfter == notBefore + p.ttl && extensions == [] && extraExtensions == []
                     && basicConstraintsValid && !isCA
    {
      var r := KeyUsagesFromStrings(p.usages);
      if r.Err? { return false; }
      keyUsage := r.value.0;
      extKeyUsage := r.value.1;
      notAfter := notBefore + p.ttl;
      extraExtensions := [];
      extensions := [];
      basicConstraintsValid := true;
      isCA := false;
      return true;
    }
  }

  // ---- The signing rule ----

  function Min(a: int, b: int): int {
    if a < b then a else b
  }

  /** Everything but time agrees to a signing. */
  predicate Agrees(usages: seq<Usage>, o: Outside) {
    && o.parseOk && o.signatureOk && o.serialOk && o.createOk
    && forall u | u in usages :: Recognized(u)
  }

  predicate Signs(ca: CertificateAuthority, now: int, p: Policy, o: Outside) {
    now - ca.backdate < ca.notAfter && now < ca.notAfter && Agrees(p.usages, o)
  }

  /** The certificate a successful signing returns. */
  function Issue(ca: CertificateAuthority, now: int, req: Request, p: Policy, o: Outside): Result<Certificate> {
    if !Signs(ca, now, p, o) then Err
    else
      var nbf := now - ca.backdate;
      Ok(Certificate(
           o.serial, req.subject, req.dnsNames, req.ipAddresses, req.emailAddresses, req.uris, req.publicKey, [], [],
           nbf, Min(nbf + p.ttl, ca.notAfter), MaskOf(p.usages), ExtsOf(p.usages), true, false, ca.rawCert))
  }

  /** CertificateAuthority.Sign. */
  method Sign(ca: CertificateAuthority, now: int, req: Request, p: Policy, o: Outside) returns (r: Result<Certificate>)
    ensures r == Issue(ca, now, req, p, o)
    ensures r.Ok? <==> && now < ca.notAfter && now - ca.backdate < ca.notAfter
                       && o.parseOk && o.signatureOk && o.serialOk && o.createOk
                       && forall u | u in p.usages :: Recognized(u)
    ensures r.Ok? ==> && r.value.notBefore == now - ca.backdate && r.value.notAfter <= ca.notAfter
                      && r.value.notAfter <= r.value.notBefore + p.ttl
                      && (r.value.notAfter == ca.notAfter || r.value.notAfter == r.value.notBefore + p.ttl)
                      && r.value.serial == o.serial && r.value.issuer == ca.rawCert && r.value.basicConstraintsValid
    ensures r.Ok? ==> && !r.value.isCA && r.value.extensions == [] && r.value.extraExtensions == []
                      && r.value.subject == req.subject && r.value.publicKey == req.publicKey
                      && r.value.dnsNames == req.dnsNames && r.value.ipAddresses == req.ipAddresses
                      && r.value.emailAddresses == req.emailAddresses && r.value.uris == req.uris
                      && Translates(p.usages, r.value.keyUsage, r.value.extKeyUsage)
  {
    var nbf := now - ca.backdate;
    if !(nbf < ca.notAfter) { return Err; }
    if !o.parseOk { return Err; }
    if !o.signatureOk { return Err; }
    if !o.serialOk { return Err; }
    var tmpl := new Template(o.serial, req, nbf);
    var ok := tmpl.Apply(p);
    if !ok { return Err; }
    if !(tmpl.notAfter < ca.notAfter) {
      tmpl.notAfter := ca.notAfter;
    }
    if !(now < ca.notAfter) { return Err; }
    if !o.createOk { return Err; }
    TranslationMeaning(p.usages);
    return Ok(tmpl.Issued(ca.rawCert));
  }

  /** Signer.duration: the lifetime for a requested number of seconds, if one was requested. */
  function Duration(certTtl: int, requested: Option<int>): int {
    match requested
    case None => certTtl
    case Some(seconds) =>
      if seconds * SECOND > certTtl then certTtl
      else if seconds * SECOND < MIN_TTL then MIN_TTL
      else seconds * SECOND
  }

  /** The lifetime a CSR gets, with a default of at least ten minutes: its request within bounds, or the default. */
  ghost predicate Lifetime(certTtl: int, requested: Option<int>, ttl: int) {
    match requested
    case None => ttl == certTtl
    case Some(seconds) =>
      && 10 * MINUTE <= ttl <= certTtl
      && (10 * MINUTE <= seconds * SECOND <= certTtl ==> ttl == seconds * SECOND)
      && (seconds * SECOND < 10 * MINUTE ==> ttl == 10 * MINUTE)
      && (seconds * SECOND > certTtl ==> ttl == certTtl)
  }

  lemma LifetimeOf(certTtl: int, requested: Option<int>)
    requires certTtl >= 10 * MINUTE
    ensures Lifetime(certTtl, requested, Duration(certTtl, requested))
  {
  }

  function Distance(a: int, b: int): int {
    if a < b then b - a else a - b
  }

  /**
   With a default lifetime of at least ten minutes, a requested duration gives the nearest lifetime between ten
   minutes and the default, and the request itself when it lies between them; no request gives the default.
   */
  lemma DurationIsNearest(certTtl: int, requested: Option<int>, other: int)
    requires MIN_TTL <= other <= certTtl
    ensures var ttl := Duration(certTtl, requested);
            && MIN_TTL <= ttl <= certTtl
            && (requested.None? ==> ttl == certTtl)
            && (requested.Some? ==>
                  var wish := requested.value * SECOND;
                  Distance(ttl, wish) <= Distance(other, wish) && (other == wish ==> ttl == other))
  {
  }

  // ---- What holds of every certificate ----

  /**
   With a default lifetime of at least ten minutes and the five-minute backdate, every certificate, whatever
   duration was requested, starts five minutes ago, ends at the earlier of its lifetime and the authority's
   end, is valid now, and does not outlive the authority (section 4.1.2.5 of RFC 5280). Time is a reason to
   refuse exactly when the authority has expired.
   */
  lemma ValidityWindow(
    ca: CertificateAuthority, now: int, req: Request, certTtl: int, requested: Option<int>, usages: seq<Usage>,
    o: Outside)
    requires certTtl >= 10 * MINUTE && ca.backdate == 5 * MINUTE
    ensures var ttl := Duration(certTtl, requested);
            var r := Issue(ca, now, req, Policy(ttl, usages), o);
            && 10 * MINUTE <= ttl <= certTtl
            && (now >= ca.notAfter ==> r.Err?)
            && (now < ca.notAfter ==> (r.Ok? <==> Agrees(usages, o)))
            && (r.Ok? ==> && r.value.notBefore == now - 5 * MINUTE
                          && r.value.notAfter == Min(r.value.notBefore + ttl, ca.notAfter)
                          && r.value.notBefore < now < r.value.notAfter <= ca.notAfter)
  {
  }

  /**
   For an arbitrary default lifetime: the certificate is valid at the moment of signing exactly when the default
   exceeds the backdate, or a duration within the default was requested.
   */
  lemma ValidNowIff(
    ca: CertificateAuthority, now: int, req: Request, certTtl: int, requested: Option<int>, usages: seq<Usage>,
    o: Outside)
    requires ca.backdate == BACKDATE
    requires Issue(ca, now, req, Policy(Duration(certTtl, requested), usages), o).Ok?
    ensures var cert := Issue(ca, now, req, Policy(Duration(certTtl, requested), usages), o).value;
            cert.notBefore < now < cert.notAfter <==>
            certTtl > BACKDATE || (requested.Some? && requested.value * SECOND <= certTtl)
  {
  }

  const INT32_MIN := -0x8000_0000
  const INT32_MAX := 0x7fff_ffff

  predicate Int32(requested: Option<int>) {
    requested.Some? ==> INT32_MIN <= requested.value <= INT32_MAX
  }

  /**
   No request can push the lifetime above the default exactly when the default is at least ten minutes, or so far
   below zero that every request exceeds it.
   */
  lemma LifetimeWithinDefaultIff(certTtl: int)
    ensures (forall requested | Int32(requested) :: Duration(certTtl, requested) <= certTtl) <==>
            certTtl >= MIN_TTL || certTtl < INT32_MIN * SECOND
  {
    if INT32_MIN * SECOND <= certTtl < MIN_TTL {
      var k := if certTtl < 0 then INT32_MIN else 0;
      assert Int32(Some(k)) && Duration(certTtl, Some(k)) == MIN_TTL;
    }
  }
}
