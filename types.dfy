/** The values the tester's helpers exchange: call parameters, script
    entries and signing key pairs. */
module Types {
  import opened Wrappers

  /** The integers a JavaScript number holds exactly and prints digit for
      digit: magnitude at most 2^53 - 1 (`Number.MAX_SAFE_INTEGER`). */
  type SafeInt = n: int | -9007199254740991 <= n <= 9007199254740991

  /** One argument of a scripted call, as it arrives from the configuration
      file: one of the JSON scalars a string, a safe integer number or a
      boolean. `null`, arrays and objects are not modelled. */
  datatype TxParam = Str(s: string) | Num(n: SafeInt) | Bool(b: bool)

  /** A signing key pair; the helpers use only its address. */
  datatype KeyringPair = KeyringPair(address: string)

  /** One script entry: either a bare dotted call path, or a record with the
      call path, optional parameters and an optional signer name. */
  datatype Tx =
    | Bare(path: string)
    | Call(tx: string, params: Option<seq<TxParam>>, signer: Option<string>)
}
