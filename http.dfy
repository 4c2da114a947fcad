/** The JSON responses of the edge functions: a status code and a body. */
module Http {
  import opened Wrappers
  import opened Capsules

  datatype Body =
    | Error(message: string)             // { error }
    | InternalError                      // { error: error.message } of a caught exception
    | Hash(hash: string)                 // { hash }
    | Validity(isValid: bool)            // { isValid }
    | Verdict(isValid: bool, reason: Option<string>, capsule: Option<PublicCapsule>)
                                         // { isValid, error?, capsule? }
    | SignedUrl(url: string)             // { signedUrl }
    | NothingToNotify                    // { message: "No capsules to notify", count: 0 }
    | Notified(success: nat, failed: nat, successIds: seq<string>, failedIds: seq<string>)
                                         // { message, success, failed, details }

  datatype Response = Response(status: int, body: Body)
}
