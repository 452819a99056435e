/** The errors `sign` and `recover` can raise: one constructor per distinct
    `throw` in `sign`, the failures of the external libraries, and
    `NotHexString`, the outcome for a number given to a hex field. */
module Errors {

  datatype Error =
    | NotAnObject
    | KeyNotString
    | InvalidPrivateKey
    | NotHexString(field: string)
    | InvalidLength(field: string, expected: nat, got: nat)
    | TooLong(field: string, max: nat, got: nat)
    | MalformedEncoding
    | RecoveryFailed
}
