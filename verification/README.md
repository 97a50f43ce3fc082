# lookup: compiler-version extraction, network tables and analytics-query decoding

This project models the pure logic inside the helper modules of a Farcaster
lookup app. The app answers questions about an address or transaction. Three
pieces are modelled, and properties of each are proved:

- **Compiler-version extraction** (`getCompilerVersion`). It scans contract
  bytecode, as hex text, for the Solidity metadata trailer. That trailer is
  CBOR-encoded (section 3.1 of RFC 8949). `a2 64 "ipfs" 58 22` opens a
  two-entry map whose first value is a 34-byte hash. `64 "solc" 43` is the
  key "solc" followed by the header of a 3-byte value: the compiler version.
  - The code tries three regular expressions in priority order: IPFS prefix
    then marker, the bare marker, and the marker with optional brackets. It
    then tries a looser two-field fallback. If nothing matches, the result is
    `"Unknown"`.
  - Each expression is modelled as a search for its leftmost match over
    `seq<char>`. The lazy `.*?` is modelled with JavaScript's rule that `.`
    does not match a line terminator.
  - `parseInt(pair, 16)` is modelled exactly for two word characters, the
    only characters the capture `(\w{6})` can hold: a `0x`/`0X` pair gives
    NaN, a non-hex first character gives NaN, and a non-hex second character
    gives a one-digit value.
  - The code prints `0.` in front of the three decoded bytes. So bytes
    `00 08 13` give `"0.0.8.19"`, and the model keeps that behaviour.
- **Network tables**.
  - `getViemNetwork` maps four names to viem chains and throws for any other
    name (modelled as a `Result`).
  - `getNetworkId` maps three names to Chainbase identifiers and returns null
    otherwise (modelled as an `Option`).
  - The two tables disagree on `"mainnet"`.
- **Analytics query run** (`getQueryResults`). The service is not modelled.
  What it answers is an input:
  - whether submission succeeded;
  - the sequence of replies to the status checks;
  - the reply to the results request.

  The do-while poll stops at the first `FINISHED` or `FAILED` reply, or at an
  exception. `FAILED` gives null. The success guard needs code 200 and at
  least one row. Row 0 is then decoded positionally, with the layout chosen
  by query id (690032, 690033, 690035). Any other id gives null. A short row
  leaves the fields of its missing columns absent.

Modules:
- `Wrappers`: `Option` and `Result`.
- `Text`: decimal text of integers and splitting at `.`.
- `Bytecode`: the scanner.
- `BytecodeFacts`: its properties.
- `Networks`: the two network tables.
- `Query`: the decoder, the poll loop and the decision function.

Three behaviours of the code are kept as they are:
- Bytes `00 08 13` give `"0.0.8.19"`, because
  app/utis/viem/constants.ts:65 prints `0.` before the three decoded bytes.
- The decoder has no row-length check, so the fields of missing columns
  stay absent.
- The poll loop has no bound. The model reports `StillPolling` when the
  given replies run out before any reply stops the loop.

## Model

| member | source | states |
|---|---|---|
| `Bytecode.StripHexPrefix` | app/utis/viem/constants.ts:49 | Text starting with `0x` is `"0x"` followed by the result. Any other text is returned unchanged. |
| `BytecodeFacts.StripRemovesOnePrefix` | app/utis/viem/constants.ts:49 | Only one `0x` is removed: stripping `"0x"+b` gives `b`, even when `b` itself starts with `0x`. |
| `BytecodeFacts.PrefixIsOptional` | app/utis/viem/constants.ts:49 | When `b` does not start with `0x`, `getCompilerVersion("0x"+b)` equals `getCompilerVersion(b)`. |
| `Bytecode.FindCapture` | app/utis/viem/constants.ts:54 | Returns the leftmost index at or after `from` where the marker and six word characters occur, or none when there is no such index. |
| `Bytecode.LazyMarker` | app/utis/viem/constants.ts:53 | The lazy `.*?` tail stops at the first marker-plus-six-word-characters it reaches without crossing a line terminator. None means no such marker is reachable. |
| `Bytecode.IpfsSearch` | app/utis/viem/constants.ts:53 | Returns the leftmost start where the IPFS prefix occurs and the lazy tail after it succeeds, or none when no start works. |
| `Bytecode.BracketSearch` | app/utis/viem/constants.ts:55 | Any group it returns follows a full marker match. None means there is no marker match at or after `from`. |
| `Bytecode.MatchPattern` | app/utis/viem/constants.ts:52-59 | When a pattern matches, its six-character group directly follows an occurrence of `64736f6c6343` plus six word characters. |
| `Bytecode.PatternGroup` | app/utis/viem/constants.ts:52-67 | The `for` loop over the three patterns: any group it chooses follows a full marker match. It finds nothing exactly when none of the three patterns matches. |
| `Bytecode.MarkerImpliesLoose` | app/utis/viem/constants.ts:54-70 | Every match of `64736f6c6343(\w{6})` is also a match of the fallback `64736f6c63(\w{6})` at the same index. |
| `Bytecode.ParseHexPair` | app/utis/viem/constants.ts:62-64 | `parseInt` in base 16 of two word characters: two hex digits give their base-16 value, a hex digit followed by a non-hex character gives that one digit's value, `0x`/`0X` and a non-hex first character give NaN, and every finite value is below 256. |
| `Bytecode.NumberText` | app/utis/viem/constants.ts:65 | A printed `parseInt` result, `NaN` included, is non-empty and holds no `.`, so it never adds a field. |
| `Bytecode.ThreeFieldVersion` | app/utis/viem/constants.ts:65 | The full-match text begins with the digit `0`. Its fields are stated by `BytecodeFacts.ThreeFieldShape`. |
| `Bytecode.TwoFieldVersion` | app/utis/viem/constants.ts:72 | The fallback text begins with the digit `0`. Its fields are stated by `BytecodeFacts.TwoFieldShape`. |
| `Bytecode.FullVersion` | app/utis/viem/constants.ts:60-65 | The three-field text of a chosen group is never `"Unknown"`, and a fallback marker occurs in the text. |
| `Bytecode.FallbackVersion` | app/utis/viem/constants.ts:69-75 | The fallback gives `"Unknown"` exactly when `64736f6c63` followed by six word characters occurs nowhere in the text. |
| `Bytecode.VersionFromHex` | app/utis/viem/constants.ts:51-75 | The result is `"Unknown"` exactly when `64736f6c63` followed by six word characters occurs nowhere in the text. |
| `Bytecode.GetCompilerVersion` | app/utis/viem/constants.ts:48-76 | Sentinel: the result is `"Unknown"` exactly when the text without its `0x` has no `64736f6c63` followed by six word characters. |
| `BytecodeFacts.MarkerStartsWithSix` | app/utis/viem/constants.ts:54 | An occurrence of the marker begins with the character `6`. |
| `BytecodeFacts.BracketSearchIsBare` | app/utis/viem/constants.ts:54-55 | From every start index, the bracket pattern finds the same group as the bare pattern. |
| `BytecodeFacts.BracketMatchesIffBare` | app/utis/viem/constants.ts:54-55 | The bracket pattern matches exactly when the bare pattern does, with the same capture. |
| `BytecodeFacts.ThirdPatternNeverDecides` | app/utis/viem/constants.ts:52-60 | The chosen group is the IPFS pattern's when it matches and otherwise the bare pattern's, so the bracket pattern never decides the result. |
| `BytecodeFacts.GroupDecides` | app/utis/viem/constants.ts:60-65 | The version is the three-field text of the six characters after the marker whose group the loop chose. |
| `BytecodeFacts.FirstPatternDecides` | app/utis/viem/constants.ts:58-60 | Whenever the IPFS pattern matches, its group is the one chosen: the loop returns on the first match. |
| `BytecodeFacts.LazyReaches` | app/utis/viem/constants.ts:53 | From a start with no line terminator up to the first full marker `j`, the lazy tail stops at `j`. |
| `BytecodeFacts.IpfsSearchFindsFirstPrefix` | app/utis/viem/constants.ts:53 | When the lazy tail succeeds after the first IPFS prefix, the IPFS pattern starts at that prefix. |
| `BytecodeFacts.IpfsPatternMatches` | app/utis/viem/constants.ts:53 | The IPFS pattern's group is the one after the marker that its lazy tail reaches. |
| `BytecodeFacts.IpfsGroup` | app/utis/viem/constants.ts:53-60 | When the IPFS pattern starts at `i` and its tail reaches the marker at `j`, the loop chooses the group after `j`. |
| `BytecodeFacts.IpfsPriority` | app/utis/viem/constants.ts:52-65 | Suppose `j` is the first full marker after the first IPFS prefix, with no line terminator in between. Then the version is decoded from the bytes after `j`, even if an earlier bare marker exists. |
| `BytecodeFacts.BareDecides` | app/utis/viem/constants.ts:52-65 | When the IPFS pattern does not match, the version is decoded from the leftmost full marker. |
| `BytecodeFacts.FullMatchUsesAMarker` | app/utis/viem/constants.ts:52-65 | Whenever a full marker occurs, the loop chooses the group after some full marker `m`, and the result is the three-field text of the six characters after `m`. With `ThreeFieldShape` it has four fields; with `FullMatchFields` they are the decoded bytes when that capture is lowercase hex. |
| `BytecodeFacts.ThreeFieldShape` | app/utis/viem/constants.ts:65 | A full-match result has exactly four dot-separated fields: `"0"`, then the three printed `parseInt` results. This holds for any captured characters. |
| `BytecodeFacts.TwoFieldShape` | app/utis/viem/constants.ts:72 | A fallback result has exactly three dot-separated fields: `"0"`, then two printed `parseInt` results. |
| `BytecodeFacts.LowerHexFieldText` | app/utis/viem/constants.ts:62-64 | A lowercase-hex pair prints as the decimal digits of its base-16 value, and reading those digits back gives that value. |
| `BytecodeFacts.ThreeFieldDecodes` | app/utis/viem/constants.ts:61-65 | For a lowercase-hex capture, the four fields are `"0"` followed by the decimal values of bytes 0, 1 and 2, each below 256. |
| `BytecodeFacts.TwoFieldDecodes` | app/utis/viem/constants.ts:72 | For a lowercase-hex capture, the three fallback fields are `"0"` followed by the decimal values of bytes 0 and 1. |
| `BytecodeFacts.FullMatchFields` | app/utis/viem/constants.ts:58-65 | When the loop chooses the group after the marker at `m` and those six characters are lowercase hex, the result has four dot-separated fields: `"0"`, then the decimal values of the three captured bytes, each below 256. |
| `BytecodeFacts.TwoFieldFallback` | app/utis/viem/constants.ts:69-73 | With no full marker anywhere, the leftmost `64736f6c63(\w{6})` decides. The result is the two-field text with three dot-separated fields, decoding bytes 0 and 1 when the capture is lowercase hex. |
| `BytecodeFacts.NoLowercaseFNoMarker` | app/utis/viem/constants.ts:70-75 | Text without a lowercase `f` contains no fallback marker, so its result is `"Unknown"`. |
| `BytecodeFacts.UppercaseNotRecognised` | app/utis/viem/constants.ts:52-75 | Matching is case-sensitive: bytecode with its letters upper-cased always gives `"Unknown"`. |
| `BytecodeFacts.HexBytes` | app/utis/viem/constants.ts:53-55 | Three bytes written in hex are six lowercase hex characters, the shape the capture `(\w{6})` takes in a compiler trailer. |
| `BytecodeFacts.HexBytesParse` | app/utis/viem/constants.ts:62-64 | Parsing each pair of the hex of bytes `x y z` gives that byte back. |
| `BytecodeFacts.MarkerAloneDecides` | app/utis/viem/constants.ts:54-65 | The marker followed by six word characters, with nothing else around it, is decided by the bare pattern. |
| `BytecodeFacts.HexBytesPrint` | app/utis/viem/constants.ts:61-65 | The hex of bytes `x y z` prints as `0.x.y.z`. |
| `BytecodeFacts.MinimalTrailerRoundTrip` | app/utis/viem/constants.ts:52-65 | The marker followed by the hex of bytes `x y z` decodes to `"0."+x+"."+y+"."+z`. |
| `BytecodeFacts.TrailerText000813` | app/utis/viem/constants.ts:49 | With its `0x` removed, `0x64736f6c6343000813` is the full marker followed by the hex of bytes `00 08 13`. |
| `BytecodeFacts.SolcBytes000813` | app/utis/viem/constants.ts:65 | Bytes `00 08 13` give `"0.0.8.19"`, with a leading `0.` before the three bytes. |
| `Text.Decimal` | app/utis/viem/constants.ts:65 | The decimal text printed for a number is non-empty and all digits. It starts with `0` exactly when the number is 0. |
| `Text.DecimalRoundTrip` | app/utis/viem/constants.ts:65 | Reading back the decimal text of `n` gives `n`. |
| `Text.SplitConcat` | app/utis/viem/constants.ts:65 | Joining two texts with a `.` joins their dot-separated fields, which is how the fields of a version text are counted. |
| `Text.SplitJoinFour` | app/utis/viem/constants.ts:65 | Four dot-free fields joined with dots split back into exactly those four fields. |
| `Text.SplitJoinThree` | app/utis/viem/constants.ts:72 | Three dot-free fields joined with dots split back into exactly those three fields. |
| `Networks.GetViemNetwork` | app/utis/viem/constants.ts:21-34 | Defined exactly on `mainnet`, `base`, `optimism` and `arbitrum`, each mapped to the chain that carries its own name. Every other string fails with `Unsupported network: <name>`. |
| `Networks.ViemNetworkRoundTrip` | app/utis/viem/constants.ts:21-34 | Each chain is reached from its own name and from no other, so the four chains are distinct. |
| `Networks.GetNetworkId` | app/utis/chainbase/constants.ts:3-15 | Gives a value exactly for `base`, `optimism` and `arbitrum`, and that value is the name followed by `-mainnet`. Every other input, `mainnet` included, gives null. |
| `Networks.NetworkTablesDisagreeOnMainnet` | app/utis/chainbase/constants.ts:3-15 | The Chainbase table covers exactly the viem table minus `mainnet`. `mainnet` has a viem chain but no Chainbase identifier. |
| `Query.Column` | app/utis/chainbase/constants.ts:227-253 | Reading column `k` gives the cell when `k` is inside the row, and an absent value past the end. |
| `Query.Decode` | app/utis/chainbase/constants.ts:229-257 | A record is produced exactly for the ids 690032, 690033 and 690035. Any other id gives null. |
| `Query.Schema` | app/utis/chainbase/constants.ts:229-253 | The column layout is non-empty exactly for the three known ids, and no field appears twice in a layout. |
| `Query.DecodeFollowsSchema` | app/utis/chainbase/constants.ts:229-256 | Columns are decoded in order. 690032 sets `txCount` and `lastTxTimestamp`. 690033 sets `address`, `fromAddress`, `hash`, `blockTimestamp`, `isErc20`, `isErc721` and `txCount`. 690035 sets `hash`, `fromAddress`, `toAddress`, `gas`, `value` and `blockTimestamp`. No other field is set. Missing columns stay absent. |
| `Query.DecodeEncode` | app/utis/chainbase/constants.ts:229-253 | Decoding the row written from a record that fits its query's layout gives that record back. |
| `Query.EncodeDecode` | app/utis/chainbase/constants.ts:229-253 | Suppose a row has at least the layout's columns. Its decoded record fits the layout, and writing it back gives the row's first columns. |
| `Query.FirstStop` | app/utis/chainbase/constants.ts:212-218 | Returns the index of the first reply that is `FINISHED`, `FAILED` or an exception. None means no such reply exists. |
| `Query.PollUntilDone` | app/utis/chainbase/constants.ts:212-218 | The loop checks at least once. It stops at the first `FINISHED`/`FAILED` (or exception), so the number of checks is that index plus one, and it keeps polling on every other status. |
| `Query.GetQueryResults` | app/utis/chainbase/constants.ts:209-265 | A result is returned exactly when: the query was submitted, polling stopped on `FINISHED`, the results reply has code 200 and at least one row, and the id is known. The result is then the decode of row 0. Otherwise the result is null, or the run is still polling when no reply stops it. |
| `Query.FailedNeverFetches` | app/utis/chainbase/constants.ts:220-224 | A run stopped by `FAILED` gives null, whatever the results reply would have been, so results are never used. |
| `Query.LaterRepliesIgnored` | app/utis/chainbase/constants.ts:212-218 | Replies after the one that stops polling never change the outcome. |
| `Query.OnlyFirstRowDecoded` | app/utis/chainbase/constants.ts:226-227 | Only row 0 is decoded: replacing the rows after it never changes the outcome. |

## Left out

- `getEthCode`, `getBalance` and `getTxCount` (app/utis/chainbase/constants.ts:17-120) are JSON-RPC fetches. They are I/O and are not part of this model.
- `executeQuery`, `checkStatus` and `getResults` (app/utis/chainbase/constants.ts:183-207) are HTTP calls. Their answers, or the exceptions they throw, enter the model only as the `Service` inputs.
- The balance conversion (`hexToNumber`, `formatEther`, `toFixed(4)`) uses floating point through a library that is not part of this model.
- The one-second `setTimeout` between status checks and the progress and error logging are timing and output, not decision logic.
- `getClient`, `getMainnetClient` and `getEnsAddress` build viem clients and resolve ENS names. Those are calls into a foreign library.
- app/actions/chainbase.ts, app/page.tsx, app/layout.tsx, app/utis/frog/ui.ts and the route handler are I/O, UI and layout. They are not part of this model.
- Result cells are modelled as integers or strings. JavaScript numbers are floating point, but the decoder never computes with them.
- `Bytecode.ParseHexPair` does not model `parseInt` on whitespace or a sign (`" f"`, `"-f"`), and `Bytecode.JsNumber` holds no negative value, because the capture `(\w{6})` never contains those characters.
- Strings are modelled as sequences of Unicode characters, not UTF-16 code units. Bytecode text is ASCII, so the two agree there.
- `BytecodeFacts.FullMatchFields` states the byte values and the range below 256 only when the deciding capture is lowercase hex. Uppercase hex digits also decode to their byte value (the two-hex-digit clause of `Bytecode.ParseHexPair`); any other word character gives NaN or a one-digit value.
- `BytecodeFacts.IpfsPriority` is stated for the first IPFS prefix, with no line terminator before the marker. When a line terminator intervenes, the first pattern moves on to a later prefix, as `Bytecode.IpfsSearch` states.
