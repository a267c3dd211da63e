/** Backend answers and how the adapter reports them (src/zuc_status.c, src/zuc_util.c). */
module Psa {
  import opened Statuses

  datatype PsaStatus =
    | Success
    | NotSupported
    | BadArgument
    | BufferTooSmall
    | InsufficientMemory
    | BadState
    | InsufficientEntropy
    | InvalidSignature
    | OtherError

  /** `zuc_int_from_psa` */
  function FromPsa(ps: PsaStatus): Status {
    match ps
    case Success => Ok
    case NotSupported => Unsupported
    case BadArgument => InvalidArgument
    case BufferTooSmall => BadLength
    case InsufficientMemory => Memory
    case BadState => Internal
    case InsufficientEntropy => Entropy
    case InvalidSignature => Backend
    case OtherError => Backend
  }

  /** Which backend status is reported as what: everything without a status of its own is a backend error. */
  lemma FromPsaExactly(ps: PsaStatus)
    ensures (FromPsa(ps) == Ok <==> ps == Success) && (FromPsa(ps) == Unsupported <==> ps == NotSupported)
    ensures (FromPsa(ps) == InvalidArgument <==> ps == BadArgument) && (FromPsa(ps) == BadLength <==> ps == BufferTooSmall)
    ensures (FromPsa(ps) == Memory <==> ps == InsufficientMemory) && (FromPsa(ps) == Internal <==> ps == BadState)
    ensures (FromPsa(ps) == Entropy <==> ps == InsufficientEntropy)
    ensures FromPsa(ps) == Backend <==> ps == InvalidSignature || ps == OtherError
  {
  }

  /** One backend step: its status, and whether an allocation failed inside it. */
  datatype Answer = Answer(ps: PsaStatus, starved: bool)

  /** `zuc_int_memory_or` */
  function MemoryOr(st: Status, starved: bool): Status {
    if st != Ok && starved then Memory else st
  }

  /** A failure is a lack of memory exactly when it was one, or an allocation failed on the way to it; every other
      failure, and every success, keeps its status. */
  lemma MemoryOrExactly(st: Status, starved: bool)
    ensures MemoryOr(st, starved) == Memory <==> st == Memory || (st != Ok && starved)
    ensures MemoryOr(st, starved) != Memory ==> MemoryOr(st, starved) == st
  {
  }
}
