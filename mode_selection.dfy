/**
  How the library chooses between the plug-in's two interfaces
  (src/index.js:50, 354-356). The plug-in object offers `CreateObjectAsync`
  only in browsers where it works through promises; otherwise it is the
  synchronous NPAPI plug-in. Each exported selector hands out the variant of
  its operation that matches.
*/
module ModeSelection {
  /** The two ways the plug-in can be driven. */
  datatype Mode = Sync | Async

  /** The operations the library exports, in both variants. */
  datatype Operation = ListCertificates | SignData | DetachedSignatureParams

  /** An implementation the selectors can hand out. */
  datatype Entry =
    | CertificatesSync       // `_certificates`
    | CertificatesAsync      // `_certificatesAsync`
    | SignSync               // `_sign`
    | SignAsync              // `_signAsync`
    | ParamsSync             // `_paramsForDetachedSignature`
    | ParamsAsync            // `_paramsForDetachedSignatureAsync`

  /** Which interface an implementation drives. */
  function ModeOf(e: Entry): (m: Mode) {
    match e
    case CertificatesAsync | SignAsync | ParamsAsync => Async
    case CertificatesSync | SignSync | ParamsSync => Sync
  }

  /** Which operation an implementation performs. */
  function OperationOf(e: Entry): (op: Operation) {
    match e
    case CertificatesSync | CertificatesAsync => ListCertificates
    case SignSync | SignAsync => SignData
    case ParamsSync | ParamsAsync => DetachedSignatureParams
  }

  /**
    `_isAsync`: whether the plug-in exposes `CreateObjectAsync`, with the
    property's truthiness given as `hasCreateObjectAsync`.
  */
  function IsAsync(hasCreateObjectAsync: bool): (r: Mode)
    ensures r == Async <==> hasCreateObjectAsync
  {
    if hasCreateObjectAsync then Async else Sync
  }

  /** The implementation of `op` that drives `mode`. */
  function Select(op: Operation, mode: Mode): (e: Entry)
    ensures OperationOf(e) == op && ModeOf(e) == mode
  {
    match (op, mode)
    case (ListCertificates, Sync) => CertificatesSync
    case (ListCertificates, Async) => CertificatesAsync
    case (SignData, Sync) => SignSync
    case (SignData, Async) => SignAsync
    case (DetachedSignatureParams, Sync) => ParamsSync
    case (DetachedSignatureParams, Async) => ParamsAsync
  }

  /** Only one implementation performs a given operation in a given mode. */
  lemma SelectIsUnique(e: Entry)
    ensures Select(OperationOf(e), ModeOf(e)) == e
  {
  }

  /** `Certificates()`: the listing that matches the plug-in. */
  function Certificates(hasCreateObjectAsync: bool): (e: Entry)
    ensures OperationOf(e) == ListCertificates
    ensures ModeOf(e) == Async <==> hasCreateObjectAsync
    ensures e == (if hasCreateObjectAsync then CertificatesAsync else CertificatesSync)
  {
    Select(ListCertificates, IsAsync(hasCreateObjectAsync))
  }

  /** `Sign()`: the signing routine that matches the plug-in. */
  function Sign(hasCreateObjectAsync: bool): (e: Entry)
    ensures OperationOf(e) == SignData
    ensures ModeOf(e) == Async <==> hasCreateObjectAsync
    ensures e == (if hasCreateObjectAsync then SignAsync else SignSync)
  {
    Select(SignData, IsAsync(hasCreateObjectAsync))
  }

  /** `ParamsForDetachedSignature()`: the parameter routine that matches the plug-in. */
  function ParamsForDetachedSignature(hasCreateObjectAsync: bool): (e: Entry)
    ensures OperationOf(e) == DetachedSignatureParams
    ensures ModeOf(e) == Async <==> hasCreateObjectAsync
    ensures e == (if hasCreateObjectAsync then ParamsAsync else ParamsSync)
  {
    Select(DetachedSignatureParams, IsAsync(hasCreateObjectAsync))
  }

  /** For one plug-in, the three selectors never mix the two interfaces. */
  lemma SelectorsAgree(hasCreateObjectAsync: bool)
    ensures ModeOf(Certificates(hasCreateObjectAsync)) == ModeOf(Sign(hasCreateObjectAsync))
      == ModeOf(ParamsForDetachedSignature(hasCreateObjectAsync)) == IsAsync(hasCreateObjectAsync)
  {
  }
}
