/**
 Clients of the store, proved from the operations' contracts alone: what a
 sequence of calls is guaranteed to observe.
 */
module Scenarios {
  import opened Wrappers
  import opened Paths
  import opened Subjects
  import opened Issuer
  import opened Store
  import opened Lifecycle

  /** An issuer that never refuses a request. */
  ghost predicate Reliable(pem: Pem) {
    && (forall s :: pem.createCSR(s).Success?)
    && (forall o :: pem.createCertificate(o).Success?)
  }

  /**
   Two consecutive lookups of one host: once the first succeeds, the second
   returns the very same pair and writes nothing, whatever the issuer would say.
   */
  method LookupTwice(cb: CertBase, host: string, first: Pem, second: Pem)
    returns (r1: Result<KeyCert, CertError>, r2: Result<KeyCert, CertError>)
    modifies cb
    ensures r1.Success? ==> r2 == r1
    ensures r1.Success? ==> cb.IsExist(host) && cb.Stored(host) == r1.value
  {
    r1 := cb.GetCertByHost(host, first);
    ghost var between := cb.files;
    r2 := cb.GetCertByHost(host, second);
    assert r1.Success? ==> cb.files == between;
  }

  /**
   The life of a store whose root starts out empty: no CA and no host before
   the CA is created; a second CA creation is refused and writes nothing; a
   host certificate is signed by the stored CA; after removing the host a new
   lookup asks the issuer (here a second one) again instead of reusing the
   old pair; after removing everything the CA is gone and lookups are refused
   again.
   */
  method FreshStoreLifecycle(root: string, disk: Files, caName: string, host: string, pem: Pem, later: Pem)
    returns (caBefore: bool, caRead: Result<KeyCert, CertError>, early: Result<KeyCert, CertError>,
             ca: Result<KeyCert, CertError>, again: Result<KeyCert, CertError>,
             issued: Result<KeyCert, CertError>, reissued: Result<KeyCert, CertError>,
             caAfter: bool, late: Result<KeyCert, CertError>)
    requires forall p :: p in disk ==> !Under(p, root)
    requires ValidName(host) && host != CA_ROOT_NAME
    requires Reliable(pem) && Reliable(later)
    ensures !caBefore && caRead == Failure(CaNotExist) && early == Failure(CaNotExist)
    ensures ca.Success? && again == Failure(CaExist)
    ensures issued.Success?
    ensures issued.value == PairOf(IssueLeaf(pem, CallSubject(InstanceSubject(map[]), host), ca.value).value)
    ensures reissued.Success?
    ensures reissued.value == PairOf(IssueLeaf(later, CallSubject(InstanceSubject(map[]), host), ca.value).value)
    ensures !caAfter && late == Failure(CaNotExist)
  {
    var cb := new CertBase(root, map[], disk);
    assert RemoveUnder(disk, root) == disk;
    forall n
      ensures !Present(disk, root, n)
    {
      RemoveRootEffect(disk, root, n);
    }
    caBefore := cb.IsCAExist();
    caRead := cb.GetCACert();
    early := cb.GetCertByHost(host, pem);

    ghost var caData := IssueCa(pem, CallSubject(cb.defaultSubject, caName)).value;
    ca := cb.CreateCACert(caName, pem);
    SavePairEffect(disk, root, CA_ROOT_NAME, caData.clientKey, caData.certificate, host);
    ghost var withCa := cb.files;
    again := cb.CreateCACert(caName, pem);
    assert cb.files == withCa;

    issued := cb.GetCertByHost(host, pem);
    assert cb.IsCAExist() && cb.Stored(CA_ROOT_NAME) == ca.value;
    reissued, caAfter, late := RemoveThenReissue(cb, host, later, pem);
  }

  /**
   Removing one host and then everything, on a store with a CA: the next
   lookup of the host asks the issuer `later` for a certificate signed by the
   CA, instead of reusing the old pair; after everything is removed the CA
   is gone and lookups are refused.
   */
  method RemoveThenReissue(cb: CertBase, host: string, later: Pem, pem: Pem)
    returns (reissued: Result<KeyCert, CertError>, caAfter: bool, late: Result<KeyCert, CertError>)
    modifies cb
    requires ValidName(host) && host != CA_ROOT_NAME
    requires cb.IsCAExist() && Reliable(later)
    ensures reissued.Success?
    ensures reissued.value == PairOf(IssueLeaf(later, CallSubject(cb.defaultSubject, host), old(cb.Stored(CA_ROOT_NAME))).value)
    ensures !caAfter && late == Failure(CaNotExist)
  {
    var removed := cb.RemoveCert(host);
    assert cb.IsCAExist() && cb.Stored(CA_ROOT_NAME) == old(cb.Stored(CA_ROOT_NAME));
    reissued := cb.GetCertByHost(host, later);

    var cleared := cb.RemoveAllCerts();
    caAfter := cb.IsCAExist();
    late := cb.GetCertByHost(host, pem);
  }
}
