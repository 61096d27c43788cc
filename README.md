# ABIProcessor: a verified model of the contract-call decoder

The node manager's `contractclient` package decodes a contract-call payload
into rows. Each row pairs a parameter name with a value in text form. The
package keeps a cache of ABI metadata for each contract address.

- **First call for an address.** `ABIParser` stores the ABI text. It then
  walks every non-constant method. For each one it checks each declared
  input type against eight anchored type patterns. If every type is
  supported, it writes three entries keyed by the address and the method
  selector:
  - the comma-joined types;
  - the comma-joined names;
  - the display text `name(types)`.

  The selector is the lowercase hex of the first four bytes of the
  Keccak-256 hash of the display text. If any input type is unsupported,
  the address is marked `"Unsupported"`, and the call answers
  with a single `decodeFailed` row.
- **Later calls for a registered address.** These go straight to `Decode`. It reads the selector at
  `payload[2..10]`.
  - **Miss:** it answers "ABI Mismatch" and resets only the address's
    registration.
  - **Hit:** it pairs the stored names with the values that the external
    decoder produces from the rest of the payload.

The project has six modules.

- `Hex`: lowercase hex encoding, as `hex.EncodeToString` produces it, and
  its inverse.
- `GoStrings`: Go's `strings.Join`, `strings.Split` and `strings.TrimSuffix`,
  plus the accumulate-then-trim idiom the source uses to join a list.
- `AbiTypes`: the eight supported-type patterns. A hand-written recogniser
  (`Matches`, `IsSupported`) is proved equal to a declarative statement of
  each pattern's language (`PatternSpec`).
- `ContractClient`:
  - the four tables as one value (`Tables`);
  - the registration loop (`Register`);
  - `Decode` and the entry operation `AbiParser`, written as functions from
    the old tables to the new tables and the output;
  - the invariants the tables keep (`WellFormed`, `Consistent`).
- `AbiProcessor`: the source's imperative code, written as a class
  `Processor` with the four maps as fields. It keeps the source's counting
  loop, its scratch slices addressed by the slot index `i`, its per-type
  mismatch counter, its string accumulation and its slot-by-slot row table.
  Every method is proved to make exactly the transition that the
  corresponding `ContractClient` function describes.
- `CacheProperties`: what the package promises about its cache.
  - Registration: the entries each method writes, constant methods never
    being checked, and every method getting an entry.
  - The address lifecycle: unsupported on first contact, then unsupported
    for ever, across any later sequence of `ABIParser` calls.
  - Decoding: a hit, a miss, and the end-to-end round trip from
    registration to decoded rows.

Keccak-256, the value decoder `FunctionProcessor.GetResults` and `fmt.Sprint`
are parameters, given to the `Processor` constructor as functions. The only
thing assumed about the value decoder (`Covers`) is this: for every type text
and every encoded payload, it returns at least as many values as the type text
has comma-separated pieces. The parsed ABI is passed to `AbiParser` as a list
of methods (`methods`) next to the ABI text. The list can be in any order,
because Go's map iteration order is unspecified. Every property is proved for
every order.

Three edges of the code that the model keeps:

- **Scalar `bytes32` is rejected.** No pattern matches it; only `bytes32[]`
  and `bytes32[N]` are accepted (`AbiTypes.RejectedBytes32`).
- **A short payload panics.** `r[2:10]` panics on a payload shorter than ten
  bytes. So `Decode` requires `|r| >= 10`, and the empty-payload branch at
  lines 104-105 is unreachable. A sequence of calls (`CacheProperties.Run`)
  stops at the first call whose short payload would reach that slice. Calls
  that return before `Decode` accept any payload.
- **"Unsupported" is permanent for `ABIParser`.** No call of `ABIParser`
  resets the marker (`CacheProperties.UnsupportedForever`). `Decode` is
  exported too, and a direct call of it that misses overwrites the
  registration with `""` at line 98, the marker included
  (`CacheProperties.DecodeMissClears`).

## Model

| member | source | states |
|---|---|---|
| Hex.Digit | contractclient/ABIProcessor.go:73 | each nibble becomes one lowercase hex digit |
| Hex.DigitValue | contractclient/ABIProcessor.go:73 | a character has a nibble value exactly when it is a lowercase hex digit, and that value's digit is the character, so uppercase hex is not a digit |
| Hex.Encode | contractclient/ABIProcessor.go:73 | the hex text has two characters per byte, all lowercase hex digits |
| Hex.DecodeEncode | contractclient/ABIProcessor.go:73 | decoding the hex text of any byte string gives back that byte string |
| Hex.EncodeDecode | contractclient/ABIProcessor.go:73 | a text decodes exactly when it has even length and only lowercase hex digits, and re-encoding the result gives the text back |
| Hex.EncodeInjective | contractclient/ABIProcessor.go:73 | distinct byte strings have distinct hex texts, so the selector text keeps all of the 4-byte prefix |
| GoStrings.Split | contractclient/ABIProcessor.go:102 | strings.Split on a one-character separator always yields at least one piece, even for the empty string |
| GoStrings.Terminated | contractclient/ABIProcessor.go:68-69 | the text the accumulating loop builds: every item followed by the separator; its properties are stated by `TerminatedAppend`, `TerminatedIsJoinPlusSep` and `TrimTerminated` |
| GoStrings.TrimSuffix | contractclient/ABIProcessor.go:71-77 | strings.TrimSuffix: the result is the text itself, or the text with the suffix removed exactly when the text ends in the suffix; with `Terminated` it gives the join (`TrimTerminated`) |
| GoStrings.TerminatedAppend | contractclient/ABIProcessor.go:68-69 | appending `x + ","` to the accumulated text is the accumulated text of the list extended by `x` |
| GoStrings.TrimTerminated | contractclient/ABIProcessor.go:71-77 | trimming one trailing separator off the accumulated text gives the join of the items, and the empty text for an empty list |
| GoStrings.SplitAround | contractclient/ABIProcessor.go:102 | splitting `a + sep + b` gives the pieces of `a` followed by the pieces of `b` |
| GoStrings.SplitJoin | contractclient/ABIProcessor.go:102-107 | when no item contains the separator, splitting a non-empty list's join gives back the list |
| GoStrings.JoinSplit | contractclient/ABIProcessor.go:102 | joining the pieces of a split gives the text back, and no piece contains the separator |
| GoStrings.SplitJoinLength | contractclient/ABIProcessor.go:107 | whatever the items hold, splitting the join of n items gives at least n pieces |
| AbiTypes.BracketAt | contractclient/ABIProcessor.go:21-26 | the position of the first `[` in the type: no `[` before it, and a `[` at it unless it is the length |
| AbiTypes.Matches | contractclient/ABIProcessor.go:18-26 | the hand-written recogniser of one anchored pattern, splitting the type at its first `[`; proved equal to the pattern's language by `MatchesIffSpec` |
| AbiTypes.IsSupported | contractclient/ABIProcessor.go:55-61 | a type is supported when some pattern of the list matches it; characterised by `SupportedIffSpec` and computed by the counting loop `CountMismatches` |
| AbiTypes.IntOrAddressIffSpec | contractclient/ABIProcessor.go:19 | the base recogniser accepts exactly `address` and `int`/`uint` followed by zero to three digits |
| AbiTypes.IntOrAddressPlain | contractclient/ABIProcessor.go:19 | an accepted integer or address base contains neither `[` nor `,` |
| AbiTypes.FixedSuffixIffSpec | contractclient/ABIProcessor.go:21 | the fixed-length suffix recogniser accepts exactly `[N]` with N one or more digits |
| AbiTypes.FixedArrayIffSpec | contractclient/ABIProcessor.go:21 | the third pattern matches exactly `e[N]` for an integer or address base e and digits N |
| AbiTypes.DynArrayIffSpec | contractclient/ABIProcessor.go:23 | the fifth pattern matches exactly `e[]` for an integer or address base e |
| AbiTypes.Bytes32FixedArrayIffSpec | contractclient/ABIProcessor.go:26 | the eighth pattern matches exactly `bytes32[N]` for digits N |
| AbiTypes.MatchesIffSpec | contractclient/ABIProcessor.go:18-26 | each of the eight recognisers accepts exactly the language of its anchored pattern |
| AbiTypes.SupportedIffSpec | contractclient/ABIProcessor.go:18-26 | a type is supported exactly when it lies in the language of some pattern of the list |
| AbiTypes.SupportedHasNoComma | contractclient/ABIProcessor.go:18-26 | no supported type contains a comma, so a comma-joined type list splits back into its types |
| AbiTypes.BracketFreeSupported | contractclient/ABIProcessor.go:18-26 | a type without `[` is supported exactly when it is an integer or address type, `bool`, `bytes` or `string` |
| AbiTypes.AcceptedScalars | contractclient/ABIProcessor.go:19-24 | `uint256`, `int`, `uint999`, `address`, `bool`, `bytes` and `string` are accepted |
| AbiTypes.AcceptedUintDynArray | contractclient/ABIProcessor.go:23 | `uint8[]` is accepted |
| AbiTypes.AcceptedAddressArray | contractclient/ABIProcessor.go:21 | `address[3]` is accepted |
| AbiTypes.AcceptedZeroLengthArray | contractclient/ABIProcessor.go:21 | `int16[0]` is accepted: any digits are a length |
| AbiTypes.AcceptedBytes32Arrays | contractclient/ABIProcessor.go:25-26 | `bytes32[]` and `bytes32[12]` are accepted |
| AbiTypes.AcceptedArray | contractclient/ABIProcessor.go:21-26 | every dynamic integer or address array, and every fixed integer, address or bytes32 array, is supported |
| AbiTypes.RejectedTuple | contractclient/ABIProcessor.go:18-26 | `tuple` is rejected |
| AbiTypes.RejectedFixed | contractclient/ABIProcessor.go:18-26 | `fixed128x18` is rejected |
| AbiTypes.RejectedBytes4 | contractclient/ABIProcessor.go:18-26 | `bytes4` is rejected |
| AbiTypes.RejectedBytes32 | contractclient/ABIProcessor.go:18-26 | scalar `bytes32` is rejected: none of the patterns matches it |
| AbiTypes.RejectedWideInt | contractclient/ABIProcessor.go:19 | `uint1234` is rejected: four digits are one too many |
| AbiTypes.RejectedUpperAndEmpty | contractclient/ABIProcessor.go:18-26 | matching is case-sensitive (`UINT256` is rejected) and the empty type is rejected |
| ContractClient.GoKeyInjective | contractclient/ABIProcessor.go:74-77 | with 8-character selectors, `addr + ":" + sel` texts are equal exactly when address and selector are, so a pair key is equivalent |
| ContractClient.Signature | contractclient/ABIProcessor.go:72-77 | the text `name(types)` is the method name, an opening parenthesis, the comma-joined input types and a closing parenthesis; it is both hashed and displayed (`RegisterEntry`) |
| ContractClient.Selector | contractclient/ABIProcessor.go:73 | a selector is always eight lowercase hex digits |
| ContractClient.StoredTypesSplit | contractclient/ABIProcessor.go:75-76 | the stored type list of a supported method with inputs splits back into exactly its declared types |
| ContractClient.Store | contractclient/ABIProcessor.go:74-77 | the three writes for one method under the key of address and selector; what they keep is stated by `StorePreserves`, what they hold by `RegisterEntry` and `EntryCounts` |
| ContractClient.StorePreserves | contractclient/ABIProcessor.go:71-77 | writing one method's three entries keeps the three tables on one key set, keeps at least as many names as types per key, and keeps every selector equal to the hash prefix of its display text |
| ContractClient.Register | contractclient/ABIProcessor.go:50-80 | the registration loop reports success exactly when every non-constant method has only supported inputs; it keeps the registration text and the table invariants, touches no other address, and removes no key |
| ContractClient.Decode | contractclient/ABIProcessor.go:92-115 | decoding keeps the three selector tables unchanged and the invariant intact, and changes the registration of no other address |
| ContractClient.FirstContact | contractclient/ABIProcessor.go:35-80 | the call for an address seen for the first time: store the ABI text, register the methods, and either mark the address on an unsupported input or decode; see `FirstContactPreserves`, `UnsupportedOnFirstContact` and `RegisterThenDecode` |
| ContractClient.FirstContactPreserves | contractclient/ABIProcessor.go:35-80 | a first contact, whether aborted or decoded, keeps the table invariants and changes nothing for other addresses |
| ContractClient.AbiParser | contractclient/ABIProcessor.go:33-90 | every call keeps the table invariants and changes no other address's entries or registration |
| AbiProcessor.NonConstCount | contractclient/ABIProcessor.go:39-44 | there are never more slots than methods |
| AbiProcessor.CountMismatches | contractclient/ABIProcessor.go:55-61 | the mismatch count reaches the number of patterns exactly when the type is unsupported |
| AbiProcessor.AccumulateInputs | contractclient/ABIProcessor.go:54-70 | the input loop succeeds exactly when every input type is supported; it then returns every type, and every name, each followed by a comma, in declared order |
| AbiProcessor.FillTable | contractclient/ABIProcessor.go:103-112 | the table has n rows, and row q pairs the q-th name with the stringified q-th value |
| AbiProcessor.CountNonConst | contractclient/ABIProcessor.go:39-44 | the counting loop gives the number of non-constant methods |
| AbiProcessor.Processor.constructor | contractclient/ABIProcessor.go:28-31 | the four maps start empty |
| AbiProcessor.Processor.AbiParser | contractclient/ABIProcessor.go:33-90 | the imperative entry operation makes exactly the state change and returns exactly the output of `ContractClient.AbiParser`, and keeps the cache invariant |
| AbiProcessor.Processor.RegisterMethod | contractclient/ABIProcessor.go:51-79 | one pass of the registration loop either marks the address unsupported, exactly when an input is unsupported, or writes exactly the method's three entries |
| AbiProcessor.Processor.StoreEntry | contractclient/ABIProcessor.go:74-77 | the three map writes for one key, nothing else changed |
| AbiProcessor.Processor.Decode | contractclient/ABIProcessor.go:92-115 | the imperative Decode makes exactly the state change and returns exactly the output of `ContractClient.Decode` |
| CacheProperties.RegisterUntouched | contractclient/ABIProcessor.go:50-80 | a selector that no method of the ABI produces keeps its three entries through registration |
| CacheProperties.RegisterEntry | contractclient/ABIProcessor.go:68-77 | after registration, the entry under a method's selector holds its types and names comma-joined in declared order and its display text `name(types)`, the text whose hash prefix is the selector |
| CacheProperties.EntryCounts | contractclient/ABIProcessor.go:68-77 | the stored type and name lists of a method with inputs split back into one piece per input, so they have equal counts |
| CacheProperties.RegisterCovers | contractclient/ABIProcessor.go:50-80 | every non-constant method of a fully supported ABI gets an entry, whatever the order and collisions |
| CacheProperties.ConstInputsNeverChecked | contractclient/ABIProcessor.go:41-51 | replacing a constant method by any other constant method changes nothing in registration |
| CacheProperties.UnsupportedOnFirstContact | contractclient/ABIProcessor.go:35-66 | first contact with an unsupported non-constant input returns exactly the one "Unsupported Datatype" row with no name, marks the address, and does not depend on the payload |
| CacheProperties.UnsupportedIsTerminal | contractclient/ABIProcessor.go:82-87 | a marked address gets the same single failure row whatever the ABI and payload, and the state does not change |
| CacheProperties.Run | contractclient/ABIProcessor.go:33-93 | a sequence of calls keeps the invariant and gives one output per call up to the first call that would panic on its short payload; with every payload at least ten characters long, nothing panics |
| CacheProperties.UnsupportedForever | contractclient/ABIProcessor.go:82-87 | through any later sequence of `ABIParser` calls, whatever their payloads, a marked address stays marked, every call for it returns the failure row, and no call for it panics |
| CacheProperties.MarkedStep | contractclient/ABIProcessor.go:82-87 | one call, for any address, keeps another address's mark, and a call for the marked address returns the failure row |
| CacheProperties.RegisteredIgnoresAbi | contractclient/ABIProcessor.go:35-89 | for a registered address the result does not depend on the ABI text or methods passed, and the selector tables are untouched |
| CacheProperties.DecodeHitIsRepeatable | contractclient/ABIProcessor.go:101-114 | a decode hit changes no state, so repeating the call gives the same result |
| CacheProperties.DecodeMissClears | contractclient/ABIProcessor.go:93-99 | a direct `Decode` call that misses answers "ABI Mismatch" and resets the address's registration to empty whatever it held, an "Unsupported" mark included; nothing else changes |
| CacheProperties.SelectorMiss | contractclient/ABIProcessor.go:93-99 | a selector with an empty type list gives exactly the "ABI Mismatch" row with no name; only the address's registration is reset and the three selector tables are kept |
| CacheProperties.NonLowercaseSelectorMisses | contractclient/ABIProcessor.go:93-94 | a payload whose selector has any character other than a lowercase hex digit always misses |
| CacheProperties.StoredSelectorsLowercase | contractclient/ABIProcessor.go:73 | every stored selector is eight lowercase hex digits |
| CacheProperties.DecodeEntry | contractclient/ABIProcessor.go:101-114 | a hit on a method's entry gives one row per input, each with that input's name and its stringified decoded value, plus the display name, and changes nothing |
| CacheProperties.RegisterThenDecode | contractclient/ABIProcessor.go:33-114 | end to end: registering an ABI and decoding a call of one of its methods with inputs gives its names paired with the decoded values, one per input in order, and the name `name(types)`; the address's registration text is the ABI text passed |
| CacheProperties.ZeroInputMethodMismatches | contractclient/ABIProcessor.go:75-99 | a method without inputs stores an empty type list, so calling it is always reported as a mismatch and leaves the address unregistered |
| CacheProperties.EmptyContentStaysUnregistered | contractclient/ABIProcessor.go:35-36 | an empty ABI text leaves the address unregistered even when the payload decodes |
| CacheProperties.MismatchThenReregister | contractclient/ABIProcessor.go:93-99 | after a mismatch, a call with a corrected ABI stores that ABI text as the address's registration and decodes the payload |

## Left out

- Keccak-256 (`crypto.Keccak256`) is a parameter: any function from text to a 32-byte digest. The conversion of the text to UTF-8 bytes is folded into it.
- `abi.UnmarshalJSON` is not modelled. The parsed method list is a parameter next to the ABI text. A parse error, which the source ignores, shows up as the list it would produce (for example an empty one).
- `FunctionProcessor.GetResults` (package `contracthandler`) is not part of this model. It is a parameter, and the only assumption about it (`Covers`) is that it returns at least one value per stored type, so that `resultArray[i]` is in range.
- `fmt.Sprint` is a parameter (`sprint`).
- The Go `regexp` engine is replaced by a hand-written recogniser of the eight patterns, proved equal to their languages.
- Go's map iteration order is unspecified. The model takes the methods in any given order, so a selector collision is last-write-wins in that order. `RegisterEntry`, `EntryCounts`, `RegisterThenDecode`, `ZeroInputMethodMismatches` and `MismatchThenReregister` assume the method has no collision (`OnlyMethodWith`); `RegisterCovers` holds with collisions.
- Concurrent calls on the package-level maps are not modelled, because the source has no synchronisation. Calls are sequential.
- The JSON tags of `ParamTableRow` are not modelled.
- Processor.AbiParser: requires a payload of at least ten characters whenever the call reaches `Decode`, because the source panics on a shorter one. The branch at lines 104-105 is therefore unreachable and is written as such.
- ContractClient.Decode: requires `|r| >= 10` for the same reason. Go slices `r[2:10]` and `r[10:]` and measures the length in bytes, while the model indexes characters. The two agree exactly on ASCII payloads, which the `0x`-prefixed hex wire format of a call payload always is. A payload with a multi-byte character would give Go a different selector and a different panic threshold, and that case is not modelled.
- The body of the registration loop and the input loop are separate methods (`RegisterMethod`, `AccumulateInputs`, `CountMismatches`, `FillTable`, `CountNonConst`). Their loops, scratch slices and write order are those of the source.
- EntryCounts: equal counts of names and types are proved only when no parameter name contains a comma. A name containing a comma splits into more pieces, and the rows then take names from the wrong positions. This is also why `DecodeEntry` and `RegisterThenDecode` assume comma-free names.
