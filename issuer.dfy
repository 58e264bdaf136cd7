/**
 The certificate issuer the store consumes. Key generation, CSR encoding and
 X.509 signing are an opaque oracle: each call is answered by a function
 supplied from outside, which may also fail with a reason.
 */
module Issuer {
  import opened Wrappers
  import opened Subjects

  /** A key and certificate pair, as PEM text. */
  datatype KeyCert = KeyCert(key: string, cert: string)

  /** What a certificate signing request yields: the request and its private key. */
  datatype CsrData = CsrData(csr: string, clientKey: string)

  /** What a signed certificate yields: the certificate and the private key that goes with it. */
  datatype CertData = CertData(certificate: string, clientKey: string)

  /** Which of the two extension policy files accompanies a signing request. */
  datatype ExtFile = CaExt | UserExt

  /**
   The options of one signing call: the request and its key, whether the
   certificate signs itself, the pair that signs it otherwise, and the
   extension policy.
   */
  datatype CertOptions = CertOptions(
    csr: string,
    clientKey: string,
    selfSigned: bool,
    service: Option<KeyCert>,
    extFile: ExtFile)

  /** The issuer: its two operations, each of which may fail with a reason. */
  datatype Pem = Pem(
    createCSR: Subject -> Result<CsrData, string>,
    createCertificate: CertOptions -> Result<CertData, string>)

  /** The options under which the CA certificate is requested: self-signed, with the CA policy. */
  function CaOptions(csr: CsrData): (options: CertOptions)
    ensures options.selfSigned && options.service == None && options.extFile == CaExt
    ensures options.csr == csr.csr && options.clientKey == csr.clientKey
  {
    CertOptions(csr.csr, csr.clientKey, true, None, CaExt)
  }

  /** The options under which a host certificate is requested: signed by `ca`, with the leaf policy. */
  function LeafOptions(csr: CsrData, ca: KeyCert): (options: CertOptions)
    ensures !options.selfSigned && options.service == Some(ca) && options.extFile == UserExt
    ensures options.csr == csr.csr && options.clientKey == csr.clientKey
  {
    CertOptions(csr.csr, csr.clientKey, false, Some(ca), UserExt)
  }

  /** The issuer's answer to the request for the CA certificate with `subject`. */
  function IssueCa(pem: Pem, subject: Subject): (answer: Result<CertData, string>)
    ensures pem.createCSR(subject).Failure? ==> answer == Failure(pem.createCSR(subject).error)
    ensures pem.createCSR(subject).Success? ==>
      answer == pem.createCertificate(CaOptions(pem.createCSR(subject).value))
  {
    match pem.createCSR(subject)
    case Failure(e) => Failure(e)
    case Success(csr) => pem.createCertificate(CaOptions(csr))
  }

  /** The issuer's answer to the request for a host certificate with `subject`, signed by `ca`. */
  function IssueLeaf(pem: Pem, subject: Subject, ca: KeyCert): (answer: Result<CertData, string>)
    ensures pem.createCSR(subject).Failure? ==> answer == Failure(pem.createCSR(subject).error)
    ensures pem.createCSR(subject).Success? ==>
      answer == pem.createCertificate(LeafOptions(pem.createCSR(subject).value, ca))
  {
    match pem.createCSR(subject)
    case Failure(e) => Failure(e)
    case Success(csr) => pem.createCertificate(LeafOptions(csr, ca))
  }
}
