/** The ways the authorizer's pipeline can throw. Every one of them ends in a
    Deny decision; they differ only in what is logged. */
module AuthErrors {

  datatype AuthError =
    | NoAuthenticationHeader       // the header is absent or empty
    | InvalidAuthenticationHeader  // the header does not start with "bearer " in any casing
    | TokenNotDecoded              // `decode` gave null, and destructuring its header throws
    | KeySetUnavailable            // the key set could not be fetched, or held no `keys` array
    | CertificateNotMatched        // `cert.match(...)` gave null, and `.join` throws
    | NoSigningKey                 // no signing key carries the requested key identifier
    | VerificationFailed           // `verify` rejected the token

}
