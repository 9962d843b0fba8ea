# substrate-rpc-tester helpers, modelled in Dafny

The Substrate RPC tester replays a script of chain calls against many
connections. Each script entry is a bare call path or a record with a path,
parameters and a signer name. Its transaction dispatcher relies on a set of
small pure helpers in `substrate-rpc-tester/src/utils.ts`. This project
models those helpers and proves what they promise:

- `transformParams` swaps signer names for signer addresses in call arguments.
- `getSigner` finds the key pair of a write entry, or reports one of two errors.
- `isWriteOp` decides whether an entry is a write.
- `getTxCall` resolves a dotted call path such as `api.tx.balances.transfer`
  against the API object. The model represents that object as a tree of named
  members.
- `txDisplay` builds the text shown for an entry.
- `stringify` joins an array of strings into indented lines.

Files:

- `wrappers.dfy`: `Option` stands for `undefined`. `Result` stands for a
  value or a thrown `Error`.
- `text.dfy`: the JavaScript built-ins the helpers use. These are
  `split` on one character, `join`, `includes`, `repeat`, and the decimal
  text of an integer. Both split/join round trips are proved.
- `types.dfy`: call parameters (`TxParam`), script entries (`Tx`) and key
  pairs (`KeyringPair`). `types.ts` is not part of this model. A parameter
  is one of the JSON scalars a configuration file can hold: a string, a
  number or a boolean. An entry is a bare path or a record, as `utils.ts`
  tests it.
- `utils.dfy`: the helpers and their properties.

Two points about the code that shape the model:

- A script entry is a string or a record. A record is a write when its path
  contains `tx.` anywhere (`IsWriteOp`, `SegmentEndingInTxIsWrite`).
- A missing middle segment of a call path makes the next lookup throw. A
  missing last segment yields `undefined`. The model gives `None` for both.

## Model

| member | source | states |
|---|---|---|
| `Utils.TransformParams` | substrate-rpc-tester/src/utils.ts:10-19 | the result has the input's length. Each string parameter that is a signer key becomes that signer's address. Every other parameter, strings included, stays the same and in the same position |
| `Utils.TransformParamsAppend` | substrate-rpc-tester/src/utils.ts:11-19 | the transformation is an element-wise map, so transforming `a + b` equals transforming `a` then appending transformed `b` |
| `Utils.TransformParamsIdentity` | substrate-rpc-tester/src/utils.ts:13-18 | when no parameter is a signer name, the result equals the input |
| `Utils.TransformParamsIdempotent` | substrate-rpc-tester/src/utils.ts:10-19 | transforming twice equals transforming once, provided no signer's address is itself a signer name |
| `Utils.GetSigner` | substrate-rpc-tester/src/utils.ts:22-33 | an absent or empty name gives "no signer specified". A non-empty name missing from the map gives "not recognized" for that name. Otherwise the result is exactly the map's key pair. Each case holds if and only if its condition holds |
| `Utils.ErrorMessageInjective` | substrate-rpc-tester/src/utils.ts:26-31 | the two thrown messages never coincide, and the "not recognized" message determines the name |
| `Utils.EmptySignerNameRefused` | substrate-rpc-tester/src/utils.ts:26-27 | the empty name is refused even when a key pair is registered under `""` |
| `Utils.SignerNameBecomesSignerAddress` | substrate-rpc-tester/src/utils.ts:10-33 | when `getSigner` finds a key pair under a name, that name used as a parameter is replaced by the same key pair's address |
| `Utils.IsWriteOp` | substrate-rpc-tester/src/utils.ts:46-47 | a bare-string entry is never a write |
| `Utils.IsWriteOpIff` | substrate-rpc-tester/src/utils.ts:46-49 | an entry is a write if and only if it is a record and `tx.` occurs at some index of its path |
| `Utils.SegmentEndingInTxIsWrite` | substrate-rpc-tester/src/utils.ts:48 | in a record path, any segment that ends in `tx` and has another segment after it makes the entry a write. This covers `api.tx.…` and also a segment such as `ctx` |
| `Utils.GetTxCall` | substrate-rpc-tester/src/utils.ts:52-59 | resolving a path equals descending from the API member by member (`Descend`) along its `.`-separated segments, after dropping a leading `api` segment. A missing member anywhere gives `None` |
| `Utils.ReduceIsDescent` | substrate-rpc-tester/src/utils.ts:54-58 | after index 0 the reduction is an ordinary descent, even at a segment named `api`. Once a lookup has failed, the result stays failed |
| `Utils.ApiPrefixSkipped` | substrate-rpc-tester/src/utils.ts:53-58 | when the first segment of `p` is not `api`, `api.` + `p` resolves to the same result as `p` |
| `Utils.ResolveRootedPath` | substrate-rpc-tester/src/utils.ts:53-58 | `api.` followed by `.`-free segments joined with `.` resolves by descending along all those segments. A later `api` segment is looked up like any other |
| `Utils.ResolveBarePath` | substrate-rpc-tester/src/utils.ts:53-58 | `.`-free segments joined with `.`, the first not `api`, resolve by descending along all of them |
| `Utils.DescendAppend` | substrate-rpc-tester/src/utils.ts:55 | descending along `a + b` equals descending along `a` and then along `b` from the node reached |
| `Utils.ResolvedPrefix` | substrate-rpc-tester/src/utils.ts:55 | if a path resolves, every prefix of it resolves |
| `Utils.MissingSegmentFails` | substrate-rpc-tester/src/utils.ts:55 | a member missing at any position, in the middle or last, makes the whole descent fail |
| `Utils.GetTxCallMissingSegment` | substrate-rpc-tester/src/utils.ts:52-59 | `getTxCall` gives `None` when a looked-up segment is missing from the node reached before it |
| `Utils.ParamText` | substrate-rpc-tester/src/utils.ts:69 | `join` writes a string parameter as it is, a number as canonical decimal text that reads back as the same integer, and a boolean as `true` or `false` according to its value |
| `Utils.ParamsText` | substrate-rpc-tester/src/utils.ts:69 | absent parameters and an empty array both give the empty text. When no string parameter contains a comma, splitting the text on `,` recovers each parameter's text in order. All pieces but the first begin with the space of the `", "` separator |
| `Utils.TxText` | substrate-rpc-tester/src/utils.ts:66-71 | the text begins with the path, `(`, the parameter text (empty for a bare entry, so a bare entry gives `s()`) and `)`. After that comes ` \| ✍️  ` + signer exactly when a non-empty signer is named, and nothing otherwise. The stated length, prefix and suffix fix the text character for character. When the path contains no `(`, the text up to the first `(` is exactly the path |
| `Utils.TxDisplay` | substrate-rpc-tester/src/utils.ts:61-73 | every display is `🔗 ` followed by exactly the entry's text. So the path reads back up to the first `(` when it contains none, and the display ends with the signer mark and name exactly when a signer is named, and with `)` otherwise |
| `Utils.Stringify` | substrate-rpc-tester/src/utils.ts:79-84 | a non-empty array whose first element is a string, with spacing of at least 0, gives joined lines. The same array with negative spacing gives the `RangeError` of `repeat`. Every other array goes to the JSON branch. Each of these holds if and only if its condition holds |
| `Utils.StringifyOneLinePerElement` | substrate-rpc-tester/src/utils.ts:80-81 | when no string element contains a line break, the output splits into exactly one line per element. Lines after the first start with `spacing` spaces |
| `Text.Join` | substrate-rpc-tester/src/utils.ts:69 | `join` of no pieces is the empty text. The join of one or more pieces begins with the first piece and ends with the last |
| `Text.Split` | substrate-rpc-tester/src/utils.ts:53 | `split` returns at least one piece, and no piece contains the separator |
| `Text.JoinSplit` | substrate-rpc-tester/src/utils.ts:53 | joining the pieces of a split with the separator gives back the original string |
| `Text.SplitJoin` | substrate-rpc-tester/src/utils.ts:53 | splitting a join of one or more separator-free pieces gives back those pieces |
| `Text.Contains` | substrate-rpc-tester/src/utils.ts:48 | `includes` is false for a needle longer than the text, and true whenever the text begins with the needle (the empty needle included) |
| `Text.ContainsIff` | substrate-rpc-tester/src/utils.ts:48 | `includes` holds if and only if the needle occurs at some index |
| `Text.Spaces` | substrate-rpc-tester/src/utils.ts:81 | `" ".repeat(n)` has exactly `n` characters, each a space |
| `Text.IntToDecimal` | substrate-rpc-tester/src/utils.ts:69 | the text of an integer is non-empty and made of digits and `-`. It starts with `-` if and only if the integer is negative, and with `0` if and only if the integer is zero |
| `Text.IntToDecimalRoundTrip` | substrate-rpc-tester/src/utils.ts:69 | the text `join` writes for an integer parameter is canonical: an optional `-` before digits with no leading zero, never `-0`. It reads back as the same integer. Parameters are safe integers (magnitude at most 2^53 - 1), where JavaScript prints the exact value |
| `Text.DecimalToIntRoundTrip` | substrate-rpc-tester/src/utils.ts:69 | every canonical integer text is exactly the text written for its value, so the text of a number is the only canonical spelling of it |

## Left out

- `transformResult` (utils.ts:39-44): it calls `toJSON` on dynamically typed
  chain values that the model cannot see.
- `stringify`'s `JSON.stringify` and `toString` branches: these are foreign
  serialisation. `Stringify` returns the `JsonText` marker instead of the JSON
  text. It models only arrays of the values a `TxParam` can hold, not objects.
- `txDisplay`'s `chalk.underline` styling: `TxDisplay` is the undecorated
  text.
- `displayTimingReport`: it is console output only.
- `TxParam` values are strings, safe integers (magnitude at most 2^53 - 1)
  and booleans. `null`, array and object parameters are not modelled. The
  configuration leaves call parameters unchecked, so they can occur, and
  `transformParams` passes them through unchanged. `join` would print them
  as `""`, as their elements joined with `,`, and as `[object Object]`.
  Fractional numbers and integers of larger magnitude are not modelled
  either: a JavaScript number cannot hold every such integer, and its
  `toString` prints the shortest digits that round-trip rather than the
  exact value (and exponent form from 1e21).
- Stringify: `spacing` is an integer. JavaScript would truncate a fractional
  spacing first, and that is not modelled.
- The nonce coordinator, connection pool, dispatcher and timing reporter live
  in `substrateRpcTester.ts`, which is not part of this model. Their substance
  is concurrent coordination and I/O.
- `main.ts`, `configSchema.ts` and `endpoint-tester`: CLI wiring, schema
  validation by a library, and network I/O.
- `getTxCall` returns the member itself. Calling a resolved member, and the
  JavaScript properties that every object or function inherits, are not
  modelled: a node's members are exactly those in its map.
