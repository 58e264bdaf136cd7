/**
 The certificate store itself: a CA created once, host certificates issued
 lazily and cached on disk, and removal of one host or of everything.
 */
module Lifecycle {
  import opened Wrappers
  import opened Paths
  import opened Subjects
  import opened Issuer
  import opened Store
  import opened Listing

  /** The rejections of the lifecycle operations; `Crypto` passes the issuer's reason on unchanged. */
  datatype CertError = CaExist | CaNotExist | Crypto(reason: string)

  /** The pair that a successful issuance hands back and stores. */
  function PairOf(d: CertData): (pair: KeyCert)
    ensures pair.key == d.clientKey && pair.cert == d.certificate
  {
    KeyCert(d.clientKey, d.certificate)
  }

  class CertBase {
    /** The store root (the `path` option). */
    const root: string
    /** The instance subject: built-in defaults under the constructor's overrides. */
    const defaultSubject: Subject
    /** The file system the instance reads and writes. */
    var files: Files

    /**
     An instance over the root `path`, with subject overrides `subject`,
     working on the file system `disk`. The issuer path option is not modelled.
     */
    constructor (path: string, subject: Subject, disk: Files)
      ensures root == path && files == disk
      ensures defaultSubject == InstanceSubject(subject)
    {
      root := path;
      defaultSubject := InstanceSubject(subject);
      files := disk;
    }

    /** Whether identity `name` is present: both of its files exist. */
    predicate IsExist(name: string)
      reads this
      ensures FilePath(root, name, KEY_KIND) in files && FilePath(root, name, CERT_KIND) in files ==> IsExist(name)
      ensures (FilePath(root, name, KEY_KIND) in files) != (FilePath(root, name, CERT_KIND) in files) ==> !IsExist(name)
    {
      Present(files, root, name)
    }

    /** The stored pair of a present identity. */
    function Stored(name: string): (pair: KeyCert)
      reads this
      requires IsExist(name)
    {
      Pair(files, root, name)
    }

    /** Whether the CA exists: both the CA key file and the CA certificate file are in the store. */
    function IsCAExist(): (r: bool)
      reads this
      ensures r <==> FilePath(root, CA_ROOT_NAME, KEY_KIND) in files && FilePath(root, CA_ROOT_NAME, CERT_KIND) in files
    {
      IsExist(CA_ROOT_NAME)
    }

    /** Writes `content` at `path`, creating or overwriting it, and resolves to the written content. */
    method WriteFile(path: string, content: string) returns (written: string)
      modifies this
      ensures files == old(files)[path := content]
      ensures written == content
    {
      files := files[path := content];
      written := content;
    }

    /**
     Writes the key file, then the certificate file, of `name`; returns what
     was written. Afterwards `name` is present with exactly that pair, and
     every other identity is as it was.
     */
    method Save(data: CertData, name: string) returns (pair: KeyCert)
      modifies this
      ensures files == SavePair(old(files), root, name, data.clientKey, data.certificate)
      ensures pair == PairOf(data)
      ensures IsExist(name) && Stored(name) == pair
      ensures forall n :: n != name ==> (IsExist(n) <==> old(IsExist(n)))
      ensures forall n :: n != name && old(IsExist(n)) ==> Stored(n) == old(Stored(n))
    {
      ghost var before := files;
      var key := WriteFile(FilePath(root, name, KEY_KIND), data.clientKey);
      var cert := WriteFile(FilePath(root, name, CERT_KIND), data.certificate);
      pair := KeyCert(key, cert);
      forall n {
        SavePairEffect(before, root, name, data.clientKey, data.certificate, n);
      }
    }

    /**
     Creates the self-signed CA. Refused with `CaExist`, writing nothing, when a
     CA is present; otherwise the issuer is asked for a self-signed certificate
     with the CA policy for the instance subject under `commonName`, and its
     answer is saved under the CA's name.
     */
    method CreateCACert(commonName: string, pem: Pem) returns (r: Result<KeyCert, CertError>)
      modifies this
      ensures old(IsCAExist()) ==> r == Failure(CaExist) && files == old(files)
      ensures !old(IsCAExist()) ==>
        match IssueCa(pem, CallSubject(defaultSubject, commonName))
        case Failure(e) => r == Failure(Crypto(e)) && files == old(files)
        case Success(d) =>
          && r == Success(PairOf(d))
          && files == SavePair(old(files), root, CA_ROOT_NAME, d.clientKey, d.certificate)
      ensures r.Success? ==> IsCAExist() && Stored(CA_ROOT_NAME) == r.value
    {
      if IsCAExist() {
        return Failure(CaExist);
      }
      var subject := CallSubject(defaultSubject, commonName);
      var csrData := pem.createCSR(subject);
      if csrData.Failure? {
        return Failure(Crypto(csrData.error));
      }
      var certData := pem.createCertificate(CaOptions(csrData.value));
      if certData.Failure? {
        return Failure(Crypto(certData.error));
      }
      var pair := Save(certData.value, CA_ROOT_NAME);
      return Success(pair);
    }

    /** Reads the CA pair: refused with `CaNotExist` when no CA is present, otherwise the stored pair. */
    method GetCACert() returns (r: Result<KeyCert, CertError>)
      ensures r.Success? <==> IsCAExist()
      ensures r.Success? ==> r.value == Stored(CA_ROOT_NAME)
      ensures r.Failure? ==> r.error == CaNotExist
    {
      if IsCAExist() {
        var key := files[FilePath(root, CA_ROOT_NAME, KEY_KIND)];
        var cert := files[FilePath(root, CA_ROOT_NAME, CERT_KIND)];
        r := Success(KeyCert(key, cert));
      } else {
        r := Failure(CaNotExist);
      }
    }

    /**
     The certificate of `hostname`, read through the store: a present host's
     pair is returned as stored and nothing is written. Otherwise the CA is
     required (`CaNotExist`, nothing written), a certificate signed by the
     stored CA pair is requested with the leaf policy for the instance subject
     under `hostname`, and the answer is saved under the hostname, touching
     no other identity.
     */
    method GetCertByHost(hostname: string, pem: Pem) returns (r: Result<KeyCert, CertError>)
      modifies this
      ensures old(IsExist(hostname)) ==> r == Success(old(Stored(hostname))) && files == old(files)
      ensures !old(IsExist(hostname)) && !old(IsCAExist()) ==> r == Failure(CaNotExist) && files == old(files)
      ensures !old(IsExist(hostname)) && old(IsCAExist()) ==>
        match IssueLeaf(pem, CallSubject(defaultSubject, hostname), old(Stored(CA_ROOT_NAME)))
        case Failure(e) => r == Failure(Crypto(e)) && files == old(files)
        case Success(d) =>
          && r == Success(PairOf(d))
          && files == SavePair(old(files), root, hostname, d.clientKey, d.certificate)
      ensures r.Success? ==> IsExist(hostname) && Stored(hostname) == r.value
      ensures forall n :: n != hostname ==> (IsExist(n) <==> old(IsExist(n)))
      ensures forall n :: n != hostname && old(IsExist(n)) ==> Stored(n) == old(Stored(n))
    {
      if IsExist(hostname) {
        var key := files[FilePath(root, hostname, KEY_KIND)];
        var cert := files[FilePath(root, hostname, CERT_KIND)];
        return Success(KeyCert(key, cert));
      }
      var subject := CallSubject(defaultSubject, hostname);
      var caPair := GetCACert();
      if caPair.Failure? {
        return Failure(caPair.error);
      }
      var csrData := pem.createCSR(subject);
      if csrData.Failure? {
        return Failure(Crypto(csrData.error));
      }
      var certData := pem.createCertificate(LeafOptions(csrData.value, caPair.value));
      if certData.Failure? {
        return Failure(Crypto(certData.error));
      }
      var pair := Save(certData.value, hostname);
      return Success(pair);
    }

    /** Deletes the whole store root; afterwards no identity, the CA included, is present. */
    method RemoveAllCerts() returns (ok: bool)
      modifies this
      ensures ok
      ensures files == RemoveUnder(old(files), root)
      ensures !IsCAExist() && forall n :: !IsExist(n)
      ensures Entries(files, root) == {}
    {
      files := RemoveUnder(files, root);
      forall n {
        RemoveRootEffect(old(files), root, n);
      }
      return true;
    }

    /**
     Deletes the folder of `hostname`; afterwards the host is absent, and when
     the hostname is one path segment every other identity, the CA included,
     keeps its presence and contents.
     */
    method RemoveCert(hostname: string) returns (ok: bool)
      modifies this
      ensures ok
      ensures files == RemoveUnder(old(files), FolderPath(root, hostname))
      ensures !IsExist(hostname)
      ensures ValidName(hostname) ==> forall n :: ValidName(n) && n != hostname ==> (IsExist(n) <==> old(IsExist(n)))
      ensures ValidName(hostname) ==>
        forall n :: ValidName(n) && n != hostname && old(IsExist(n)) ==> Stored(n) == old(Stored(n))
    {
      files := RemoveUnder(files, FolderPath(root, hostname));
      forall n {
        RemoveFolderEffect(old(files), root, hostname, n);
      }
      return true;
    }

    /**
     Lists the stored certificates from `dir`, the outcome of reading the root
     directory (`None` when the read fails; otherwise the root's entries).
     Nothing is listed when the read fails or the root holds nothing; otherwise
     the CA's name and every entry but the CA's, so every present host with a
     valid name appears.
     */
    method ListCerts(dir: Option<seq<string>>) returns (r: CertList)
      requires dir.Some? ==> forall x :: x in dir.value <==> x in Entries(files, root)
      ensures dir.None? || Entries(files, root) == {} ==> r == NoCerts
      ensures dir.Some? && Entries(files, root) != {} ==> r.Certs?
      ensures r.Certs? ==> r.ca == CA_ROOT_NAME
      ensures r.Certs? ==> forall x :: x in r.certs <==> x in Entries(files, root) && x != CA_ROOT_NAME
      ensures dir.Some? ==> forall h :: ValidName(h) && h != CA_ROOT_NAME && IsExist(h) ==> r.Certs? && h in r.certs
    {
      r := ListingOf(dir);
      if dir.Some? {
        forall h | ValidName(h) && h != CA_ROOT_NAME && IsExist(h)
          ensures r.Certs? && h in r.certs
        {
          PresentIsListed(files, root, h);
        }
        if dir.value != [] {
          assert dir.value[0] in Entries(files, root);
        }
      }
    }
  }
}
