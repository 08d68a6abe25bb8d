/**
 The reloadable certificate authority. The loader's content may change at any moment; the provider keeps the last
 authority it built in one atomic cell and rebuilds it when the bytes differ.
 */
module CaProvider {
  import opened Common
  import opened Authority
  import opened KeyUsages

  /** One cert/key pair as the loader holds it. */
  datatype Snapshot = Snapshot(certPem: string, keyPem: string)

  datatype ParsedKey = ParsedKey(material: string, isSigner: bool)

  /** The PEM parsers: the end dates of the certificates in a bundle, and a private key. */
  datatype Parsers = Parsers(certs: string -> Result<seq<int>>, key: string -> Result<ParsedKey>)

  /** The authority made from one snapshot; there must be exactly one certificate and a key that can sign. */
  function Build(parse: Parsers, s: Snapshot): Option<CertificateAuthority> {
    match parse.certs(s.certPem)
    case Err => None
    case Ok(certs) =>
      if |certs| != 1 then None
      else match parse.key(s.keyPem)
           case Err => None
           case Ok(key) =>
             if !key.isSigner then None
             else Some(CertificateAuthority(s.certPem, s.keyPem, certs[0], key.material, BACKDATE))
  }

  /** `ca` was made from one snapshot among `held[from..]`. */
  ghost predicate BuiltSince(parse: Parsers, ca: CertificateAuthority, held: seq<Snapshot>, from: nat) {
    exists i | from <= i < |held| :: Build(parse, held[i]) == Some(ca)
  }

  /**
   An authority stands for its own bytes: they hold exactly one certificate, whose end is the authority's, and a key
   that can sign, which is the authority's; certificates are backdated by five minutes.
   */
  ghost predicate StandsFor(parse: Parsers, ca: CertificateAuthority) {
    && parse.certs(ca.rawCert) == Ok([ca.notAfter])
    && parse.key(ca.rawKey) == Ok(ParsedKey(ca.privateKey, true))
    && ca.backdate == 5 * 60 * 1_000_000_000
  }

  /** Exactly the pairs with one certificate and a key that can sign make an authority, which stands for their bytes. */
  lemma BuildIff(parse: Parsers, s: Snapshot, ca: CertificateAuthority)
    ensures Build(parse, s) == Some(ca) <==> ca.rawCert == s.certPem && ca.rawKey == s.keyPem && StandsFor(parse, ca)
  {
    if parse.certs(s.certPem).Ok? && |parse.certs(s.certPem).value| == 1 {
      assert parse.certs(s.certPem).value == [parse.certs(s.certPem).value[0]];
    }
  }

  lemma BuiltStandsFor(parse: Parsers, ca: CertificateAuthority, held: seq<Snapshot>, from: nat)
    requires BuiltSince(parse, ca, held, from)
    ensures StandsFor(parse, ca)
  {
    var i :| from <= i < |held| && Build(parse, held[i]) == Some(ca);
    BuildIff(parse, held[i], ca);
  }

  /** Equal bytes mean the same authority. */
  lemma SameBytes(parse: Parsers, ca: CertificateAuthority, held: seq<Snapshot>, s: Snapshot)
    requires BuiltSince(parse, ca, held, 0) && ca.rawCert == s.certPem && ca.rawKey == s.keyPem
    ensures Build(parse, s) == Some(ca)
  {
    var i :| 0 <= i < |held| && Build(parse, held[i]) == Some(ca);
    assert held[i] == s;
  }

  // ---- One caller ----

  /** The loader: `held` lists everything it has held, the last being its content now. */
  class Loader {
    var current: Snapshot
    ghost var held: seq<Snapshot>

    ghost predicate Valid()
      reads this
    {
      |held| > 0 && held[|held| - 1] == current
    }

    constructor (s: Snapshot)
      ensures Valid() && held == [s]
    {
      current := s;
      held := [s];
    }

    /** Reads the content, after any number of changes made by others. */
    method Read() returns (s: Snapshot)
      requires Valid()
      modifies this
      ensures Valid() && s == current
      ensures old(held) <= held
    {
      var changes: nat := *;
      while changes > 0
        invariant Valid() && old(held) <= held
      {
        var next: Snapshot := *;
        current := next;
        held := held + [next];
        changes := changes - 1;
      }
      s := current;
    }
  }

  class Provider {
    const parse: Parsers
    const loader: Loader
    var caValue: Option<CertificateAuthority>

    /** Once set, the cell holds an authority made from a single snapshot the loader once held. */
    ghost predicate Valid()
      reads this, loader
    {
      loader.Valid() && (caValue.Some? ==> BuiltSince(parse, caValue.value, loader.held, 0))
    }

    constructor (parse: Parsers, loader: Loader)
      requires loader.Valid()
      ensures Valid() && this.parse == parse && this.loader == loader && caValue == None
    {
      this.parse, this.loader, this.caValue := parse, loader, None;
    }

    /** Builds from what the loader holds at some moment of the call; a failure leaves the cell as it was. */
    method SetCA() returns (ok: bool)
      requires Valid()
      modifies this, loader
      ensures Valid() && old(loader.held) <= loader.held
      ensures ok ==> caValue.Some? && BuiltSince(parse, caValue.value, loader.held, |old(loader.held)| - 1)
      ensures ok ==> Build(parse, loader.current) == caValue
      ensures !ok ==> caValue == old(caValue) && Build(parse, loader.current) == None
      ensures ok ==> && StandsFor(parse, caValue.value)
                     && caValue.value.rawCert == loader.current.certPem && caValue.value.rawKey == loader.current.keyPem
      ensures ok <==> && parse.certs(loader.current.certPem).Ok? && |parse.certs(loader.current.certPem).value| == 1
                      && parse.key(loader.current.keyPem).Ok? && parse.key(loader.current.keyPem).value.isSigner
    {
      var s := loader.Read();
      var certs := parse.certs(s.certPem);
      if certs.Err? { return false; }
      if |certs.value| != 1 { return false; }
      var key := parse.key(s.keyPem);
      if key.Err? { return false; }
      if !key.value.isSigner { return false; }
      caValue := Some(CertificateAuthority(s.certPem, s.keyPem, certs.value[0], key.value.material, BACKDATE));
      assert Build(parse, loader.held[|loader.held| - 1]) == caValue;
      BuildIff(parse, s, caValue.value);
      return true;
    }

    /**
     An error-free answer is an authority made from one cert/key pair that the loader held during the call, and it
     is what the cell now holds. A failed reload answers with the old authority and leaves it in the cell.
     */
    method CurrentCA() returns (ca: CertificateAuthority, ok: bool)
      requires Valid() && caValue.Some?
      modifies this, loader
      ensures Valid() && caValue.Some? && old(loader.held) <= loader.held
      ensures ok ==> caValue == Some(ca) && BuiltSince(parse, ca, loader.held, |old(loader.held)| - 1)
      ensures !ok ==> caValue == old(caValue) == Some(ca) && Build(parse, loader.current) == None
      ensures StandsFor(parse, ca)
      ensures ok ==> ca.rawCert == loader.current.certPem && ca.rawKey == loader.current.keyPem
    {
      var s := loader.Read();
      var currCA := caValue.value;
      assert BuiltSince(parse, currCA, loader.held, 0);
      BuiltStandsFor(parse, currCA, loader.held, 0);
      if currCA.rawCert == s.certPem && currCA.rawKey == s.keyPem {
        SameBytes(parse, currCA, loader.held, s);
        assert Build(parse, loader.held[|loader.held| - 1]) == Some(currCA);
        return currCA, true;
      }
      var set_ := SetCA();
      if !set_ { return currCA, false; }
      return caValue.value, true;
    }
  }

  /** The signer: a provider and the default lifetime. */
  class Signer {
    const provider: Provider
    const certTtl: int

    constructor (provider: Provider, certTtl: int)
      ensures this.provider == provider && this.certTtl == certTtl
    {
      this.provider, this.certTtl := provider, certTtl;
    }

    /** A certificate is issued by an authority the loader held during the call, with the lifetime `Duration` allows. */
    method Sign(req: Request, usages: seq<Usage>, requested: Option<int>, now: int, o: Outside)
      returns (r: Result<Certificate>)
      requires provider.Valid() && provider.caValue.Some?
      modifies provider, provider.loader
      ensures provider.Valid() && provider.caValue.Some?
      ensures var ca := provider.caValue.value;
              var issued := Issue(ca, now, req, Policy(Duration(certTtl, requested), usages), o);
              && (r.Ok? ==> && issued == r
                            && BuiltSince(provider.parse, ca, provider.loader.held, |old(provider.loader.held)| - 1))
              && (r.Err? ==> issued == Err || Build(provider.parse, provider.loader.current) == None)
      ensures r.Ok? ==> && StandsFor(provider.parse, provider.caValue.value)
                        && r.value.issuer == provider.caValue.value.rawCert
                        && r.value.subject == req.subject && r.value.publicKey == req.publicKey
                        && Translates(usages, r.value.keyUsage, r.value.extKeyUsage)
      ensures certTtl >= 10 * MINUTE && r.Ok? ==>
                && r.value.notBefore == now - 5 * MINUTE < now < r.value.notAfter
                && (exists ttl :: Lifetime(certTtl, requested, ttl) &&
                                  r.value.notAfter == Min(r.value.notBefore + ttl, provider.caValue.value.notAfter))
                && exists end :: provider.parse.certs(r.value.issuer) == Ok([end]) && r.value.notAfter <= end
    {
      var currCA, ok := provider.CurrentCA();
      if !ok { return Err; }
      if certTtl >= 10 * MINUTE { LifetimeOf(certTtl, requested); }
      r := Authority.Sign(currCA, now, req, Policy(Duration(certTtl, requested), usages), o);
      assert currCA.backdate == BACKDATE;
    }
  }
}
