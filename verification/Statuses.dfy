/** The status codes of the adapter (inst/include/zucrypt.h). */
module Statuses {
  datatype Status =
    | Ok
    | InvalidArgument
    | Unsupported
    | BadLength
    | Overlap
    | Memory
    | Backend
    | Internal
    | NotReady
    | Entropy
    | Auth
}
