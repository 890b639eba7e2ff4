# TraceContext.Net, modelled in Dafny

TraceContext.Net carries W3C trace context between services. A `TraceContext`
is built from the incoming `traceparent` and `tracestate` header values and a
component name. It holds:

- a version byte;
- a 16-byte trace id;
- a fresh random 8-byte span id;
- the parent's span id;
- a flags byte;
- a `SortedDictionary` from vendor names to states.

`GetOutgoingHeaderValues` writes the two headers back out, and
`OverrideState` sets the component's own entry. `ByteConverter` converts
between hex strings and byte arrays. `TraceContext` carries private copies
of the same two conversions.

The model follows the code statement by statement:

| file | module | what it holds |
|---|---|---|
| `wrappers.dfy` | `Wrappers` | `Option`, `Result`, `Outcome` |
| `dotnet.dfy` | `DotNet` | the framework calls the code relies on: `byte`, the exception kinds it can throw, `char.IsWhiteSpace`, `string.IsNullOrWhiteSpace`, `Trim`, `Split`, `string.Join`, and `Equals` with `OrdinalIgnoreCase` |
| `sorted_dictionary.dfy` | `SortedDictionary` | `SortedDictionary<string, V>` as a strictly key-ordered sequence of pairs, with `Add` (throws on a null or present key) and the indexer set (`Store`: insert or replace) |
| `byte_converter.dfy` | `ByteConverter` | `Convert.ToByte(s, 16)` on two characters; `StringToByteArray` as a loop over an array, proved against the function `DecodeHex`; `BitConverter.ToString(..).Replace("-", "")` |
| `trace_parent.dfy` | `TraceParent` | the traceparent pattern, `Convert.ToByte(string)` on its two-digit tokens, and the outgoing `X2-HEX-HEX-X2` layout |
| `trace_state.dfy` | `TraceState` | the tracestate split/trim/filter/`Add` loop as a function, and the `k=v,...` rendering |
| `trace_context.dfy` | `Tracing` | the class `TraceContext`, whose fields the methods update in place |

Conventions of the model:

- **Exceptions.** A thrown exception is a `Failure` (or `Fail`) result that
  names the exception type. A method that throws keeps the field updates it
  made before the throw, as the object does.
- **Nulls.** A null string is `None`.
- **Randomness.** The random bytes of `GetRandomBytes` are parameters:
  `spanBytes` (8) and `traceBytes` (16).
- **The match test.** `parentMatch.Groups.Count == 5` holds exactly when the
  pattern matched, because a failed match is `Match.Empty`, with one group.
  `TraceParent.Match` therefore returns the four groups or `None`.
- **Line endings.** The pattern's `$` also accepts one trailing `"\n"`, so a
  matching header is 55 or 56 characters long.

### Where the code departs from the documented behaviour

The model follows the code:

- **Version.** A context that parsed nothing has version 1, so it emits
  `01-...`, not `00-...`. The pattern accepts any two hex digits as the
  version; `00` is not required.
- **Flags.** Any two hex digits pass the pattern as flags, not just `00` and
  `01`.
- **Reading tokens.** The version and flags tokens are read with
  `Convert.ToByte(string)`, which is decimal. With a component name set, a
  token with a hex letter throws `FormatException`, and `10` reads as ten.
  In the constructor as written the null-key `Add` throws first, so this
  shows only once the name is stored before the parse
  (`Tracing.TokenBaseHiddenByNullName`).
- **Malformed tracestate.** A malformed tracestate is not rejected. Elements
  that do not split into exactly two parts on `=` are skipped. A duplicate
  key throws in `Add` after the earlier elements are stored.
- **Entry order.** No entry is moved to the front. Entries are emitted in
  key order, and `Tracing.NoMoveToFront` proves that the component's entry
  comes first only when its name sorts first.
- **The name.** The component name is assigned after the parse. Every
  matching traceparent therefore reaches `Add` with a null key and the
  constructor throws `ArgumentNullException`. The tracestate is never read.
  See Findings.

## Model

| member | source | states |
|---|---|---|
| DotNet.Trim | TraceContext.Net/TraceContext.cs:85 | the result has no leading or trailing white space (the .NET `char.IsWhiteSpace` set) and an already trimmed string is returned unchanged |
| DotNet.TrimStart | TraceContext.Net/TraceContext.cs:85 | the result is a suffix of the input, everything dropped is white space, and the result does not start with white space |
| DotNet.TrimEnd | TraceContext.Net/TraceContext.cs:85 | the result is a prefix of the input, everything dropped is white space, and the result does not end with white space |
| DotNet.Split | TraceContext.Net/TraceContext.cs:83 | `Split` yields at least one part and no part contains the separator |
| DotNet.JoinSplit | TraceContext.Net/TraceContext.cs:83 | joining the parts of a split with the separator gives back the original string |
| DotNet.SplitJoin | TraceContext.Net/TraceContext.cs:38 | splitting a join of separator-free parts gives back the parts |
| DotNet.SplitCount | TraceContext.Net/TraceContext.cs:85 | `Split` yields exactly one more piece than the string has separators |
| SortedDictionary.LessTotal | TraceContext.Net/TraceContext.cs:11-12 | the key order is total on distinct keys (with LessIrreflexive and LessTransitive it is a strict order) |
| SortedDictionary.Put | TraceContext.Net/TraceContext.cs:44 | inserting or replacing a key keeps the entries strictly sorted, maps the key to the new value, leaves every other key's value unchanged, and adds no other entry |
| SortedDictionary.PutGreatest | TraceContext.Net/TraceContext.cs:11-12 | a key greater than every present key is appended at the end |
| SortedDictionary.Add | TraceContext.Net/TraceContext.cs:60 | `Add` succeeds iff the key is not null and not present; a null key throws ArgumentNullException and a present key ArgumentException; on success the key gains the value and nothing else changes |
| SortedDictionary.Store | TraceContext.Net/TraceContext.cs:44 | the indexer set throws ArgumentNullException exactly for a null key, otherwise inserts or replaces that key's value and leaves the others unchanged |
| SortedDictionary.SortedUnique | TraceContext.Net/TraceContext.cs:11-12 | two sorted dictionaries with the same lookups are the same sequence: enumeration order is determined by the contents |
| SortedDictionary.FirstIsLeast | TraceContext.Net/TraceContext.cs:38 | the first entry enumerated holds the least key present |
| ByteConverter.HexChar | TraceContext.Net/ByteConverter.cs:20 | each digit value is written as an upper-case hex digit that reads back as that value |
| ByteConverter.X2 | TraceContext.Net/TraceContext.cs:37 | the `X2` format of a byte is two upper-case hex digits |
| ByteConverter.ParseHexByte | TraceContext.Net/ByteConverter.cs:14 | `Convert.ToByte(s, 16)` on two characters: two hex digits give 16*high+low; fails exactly unless the second is a hex digit and the first is a hex digit or '+'; a leading '-' throws ArgumentException, other failures FormatException |
| ByteConverter.DecodeHex | TraceContext.Net/ByteConverter.cs:9-16 | a successful decode has an even-length input and half as many bytes as characters |
| ByteConverter.StringToByteArray | TraceContext.Net/ByteConverter.cs:9-16 | the loop computes exactly DecodeHex: the bytes of the pairs, or the exception of the first pair that fails (ArgumentOutOfRange for a lone last character); the private copy at TraceContext.cs:91-98 is the same loop |
| ByteConverter.DecodeHexPairs | TraceContext.Net/ByteConverter.cs:13-14 | an even-length all-hex string decodes, and byte k is 16 times the value of character 2k plus that of character 2k+1 |
| ByteConverter.DecodeHexOdd | TraceContext.Net/ByteConverter.cs:11-14 | an odd-length string never decodes; if all its characters are hex, the error is ArgumentOutOfRangeException |
| ByteConverter.DecodeHexFirstFailure | TraceContext.Net/ByteConverter.cs:11-14 | the decode succeeds iff the length is even and every pair is readable by `Convert.ToByte(.., 16)`; on failure the first unreadable pair decides the exception, and with every complete pair readable it is the ArgumentOutOfRangeException of the odd last character |
| ByteConverter.BitConverterWithoutDashes | TraceContext.Net/ByteConverter.cs:20 | removing the dashes from `BitConverter.ToString` leaves the bytes' two-digit renderings side by side |
| ByteConverter.ByteArrayToString | TraceContext.Net/ByteConverter.cs:18-21 | the string has two upper-case hex characters per byte, the high nibble at 2k and the low nibble at 2k+1; the private copy at TraceContext.cs:107-110 is the same expression |
| ByteConverter.DecodeEncode | TraceContext.Net/ByteConverter.cs:9-21 | decoding the encoding of any byte array gives the array back |
| ByteConverter.EncodeDecode | TraceContext.Net/ByteConverter.cs:9-21 | encoding the decoding of an even-length hex string gives the string in upper case |
| TraceParent.Match | TraceContext.Net/TraceContext.cs:47 | a match yields four groups of 2, 32, 16 and 2 hex digits |
| TraceParent.MatchIff | TraceContext.Net/TraceContext.cs:47 | the pattern matches s with groups g iff g is well formed and s is the four groups joined by dashes, optionally followed by one "\n" |
| TraceParent.ParseDecimalByte | TraceContext.Net/TraceContext.cs:62 | `Convert.ToByte(string)` on a two-hex-digit token succeeds iff both characters are decimal digits, and otherwise throws FormatException |
| TraceParent.DecimalRereadOfX2 | TraceContext.Net/TraceContext.cs:37 | reading an emitted X2 token in decimal gives 10*high+low when both nibbles are below 10 and FormatException otherwise, so the byte comes back iff it is below 10 |
| TraceParent.ReadToken | TraceContext.Net/TraceContext.cs:65 | read in base 16 a token is 16*high+low; only the decimal reading can fail, with FormatException |
| TraceParent.HexRereadOfX2 | TraceContext.Net/TraceContext.cs:37 | reading an X2 token in base 16 gives back every byte |
| TraceParent.FormatLayout | TraceContext.Net/TraceContext.cs:37 | with a 16-byte trace id and an 8-byte span id the outgoing traceparent is 55 characters, dashes at 2, 35 and 52, upper-case hex elsewhere, and it matches the pattern with the four renderings as groups |
| TraceState.Element | TraceContext.Net/TraceContext.cs:85-86 | an accepted element's key is never the component name, ignoring case |
| TraceState.ElementIff | TraceContext.Net/TraceContext.cs:85-86 | Element decides every element as ElementByText does: an element is accepted iff it has exactly one '=' and its trimmed left side is not the name ignoring case, and the pair is then the trimmed text on either side of the '=' |
| TraceState.ElementIffOne | TraceContext.Net/TraceContext.cs:85-86 | the same for an element with exactly one '=' |
| TraceState.ElementAt | TraceContext.Net/TraceContext.cs:85-86 | an element whose only '=' stands at index i yields SidesAt: (Trim(left), Trim(right)) unless the trimmed key is the name |
| TraceState.ElementSkips | TraceContext.Net/TraceContext.cs:86 | an element with no '=' or with more than one is skipped |
| TraceState.ElementWithoutSeparator | TraceContext.Net/TraceContext.cs:86 | an element without '=', such as `foo` or an empty one, is skipped |
| TraceState.ElementWithTwoSeparators | TraceContext.Net/TraceContext.cs:86 | an element with two '=', such as `a=b=c`, is skipped |
| TraceState.Elements | TraceContext.Net/TraceContext.cs:83-86 | one decision per comma-separated element, in order, none of them for the component's own key |
| TraceState.AddElements | TraceContext.Net/TraceContext.cs:83-88 | adding the accepted elements in turn keeps the dictionary sorted |
| TraceState.Parse | TraceContext.Net/TraceContext.cs:78-89 | a null or blank tracestate leaves the dictionary unchanged and throws nothing; in every case the dictionary stays sorted |
| TraceState.MalformedElementSkipped | TraceContext.Net/TraceContext.cs:83-88 | the tracestate `foo=bar=baz` is not rejected: the parse adds nothing and throws nothing |
| TraceState.AddElementsOutcome | TraceContext.Net/TraceContext.cs:87 | the elements are all stored iff their keys are pairwise distinct and absent from the dictionary; otherwise `Add` throws ArgumentException |
| TraceState.AddElementsContents | TraceContext.Net/TraceContext.cs:83-88 | when no exception is thrown, each key maps to the accepted element's value when one has that key, and otherwise keeps its old value |
| TraceState.ParseSparesComponent | TraceContext.Net/TraceContext.cs:86 | whatever the tracestate says, the entry for any key equal to the component name ignoring case is left as it was |
| TraceState.EntryTexts | TraceContext.Net/TraceContext.cs:38 | one `key=value` text per entry, in enumeration order, with a null value written as nothing |
| TraceState.RenderEmpty | TraceContext.Net/TraceContext.cs:38 | the outgoing tracestate is empty iff the dictionary is empty |
| TraceState.ElementOfEntry | TraceContext.Net/TraceContext.cs:85-86 | an emitted `key=value` with trimmed, separator-free parts and a key other than the name is read back as that pair |
| TraceState.RenderParse | TraceContext.Net/TraceContext.cs:38 | reading back the emitted tracestate into an empty dictionary, with a name none of the keys equals, rebuilds the same dictionary without an exception |
| Tracing.MatchHeader | TraceContext.Net/TraceContext.cs:54-57 | the header is matched iff it is not null and the pattern matches it (a matching string is never blank) |
| Tracing.ParseTraceParentMatched | TraceContext.Net/TraceContext.cs:52-67 | on a match: success iff the name is non-null and absent and both tokens can be read; the exception otherwise (ArgumentNull, Argument, Format); on success the trace and parent ids are the bytes their hex groups spell and the dictionary gains exactly name -> header |
| Tracing.NullNameRejectsEveryMatch | TraceContext.Net/TraceContext.cs:29-31 | with the name still null, every matching traceparent ends in ArgumentNullException |
| Tracing.ReparseOwnHeader | TraceContext.Net/TraceContext.cs:37 | re-reading an emitted traceparent with decimal tokens succeeds iff no token has a hex letter; the trace id returns, the span id becomes the parent id, the state is name=header, and version and flags return iff below 10 |
| Tracing.TokenBaseHiddenByNullName | TraceContext.Net/TraceContext.cs:60-65 | with the name null, reading the tokens in decimal or in base 16 gives the same fields and outcome, because the Add throws first |
| Tracing.ReparseOwnHeaderCorrected | TraceContext.Net/TraceContext.cs:62-65 | with base-16 tokens re-reading an emitted traceparent always succeeds and gives back version, flags and trace id, with the span id as the parent id |
| Tracing.OwnEntryIsIncomingHeader | TraceContext.Net/TraceContext.cs:60 | with the name set before the parse, the component's final entry is exactly the incoming traceparent, whatever the tracestate says |
| Tracing.NoMoveToFront | TraceContext.Net/TraceContext.cs:38 | the component's entry is not first when another present key sorts before its name |
| Tracing.TraceContext.Init | TraceContext.Net/TraceContext.cs:10-26 | the field initialisers: version 0, no ids, flags 0, an empty dictionary, no name, and the fresh span id |
| Tracing.TraceContext.New | TraceContext.Net/TraceContext.cs:23-32 | construction fails iff the traceparent matches, always with ArgumentNullException; otherwise the context has version 1, the random trace id, no parent, flags 0, an empty dictionary, the fresh span id and the name |
| Tracing.TraceContext.NewCorrected | TraceContext.Net/TraceContext.cs:23-32 | with the name set first and base-16 tokens: the traceparent parse, then, if it matched, the tracestate parse; the first exception is the result; otherwise a valid context with those fields |
| Tracing.TraceContext.GetOutgoingHeaderValues | TraceContext.Net/TraceContext.cs:34-40 | the traceparent is 55 characters and matches the pattern with X2(version), the trace id, the span id and X2(flags) as groups; the tracestate is empty iff the dictionary is |
| Tracing.TraceContext.OverrideState | TraceContext.Net/TraceContext.cs:42-45 | keeps the class invariant Valid; throws ArgumentNullException iff the name is null, leaving the dictionary unchanged; otherwise the dictionary is Put of name -> state: the name maps to the state and every other key is unchanged |
| Tracing.TraceContext.TryParseTraceParent | TraceContext.Net/TraceContext.cs:52-76 | the new fields and the result are exactly ParseTraceParent of the old fields: on a match the header is added and then version, trace id, parent id and flags are assigned in turn until the first exception; otherwise the defaults with the random trace id, returning false |
| Tracing.TraceContext.TryParseTraceState | TraceContext.Net/TraceContext.cs:78-89 | the new dictionary and the outcome are exactly TraceState.Parse of the old dictionary, stopping at the first duplicate key |

## Left out

- `GetRandomBytes` and `Random`: the random bytes are parameters of the constructor model, so nothing is said about their distribution.
- The `TraceState` property (a read-only view of the dictionary) has no behaviour beyond exposing the field, which the model reads directly.
- SortedDictionary.Less: the default string comparer is culture-aware; the model orders keys ordinally by character code.
- DotNet.EqualsOrdinalIgnoreCase: folds only ASCII letters; .NET also folds other Unicode letters.
- Strings are sequences of Unicode scalar values, not UTF-16 code units, so lengths, lone surrogates and the ordinal order of supplementary characters differ from .NET; the pattern, the separators and the hex digits are all ASCII, so the core's behaviour does not depend on this.
- ByteConverter.StringToByteArray: a null argument (NullReferenceException) is not modelled; the argument is a string.
- ByteConverter.ByteArrayToString: a null argument (ArgumentNullException from `BitConverter.ToString`) is not modelled; the argument is a sequence.
- Byte arrays are immutable sequences, so the model does not capture aliasing of the returned arrays.
- Tracing.TraceContext.TryParseTraceParent: takes the token base as a parameter; the constructor as written passes `Decimal`.
- Tracing.TraceContext.New: `TryparseTraceState` is never reached, so its call is a dead branch here; the tracestate parse as evidently intended runs in `NewCorrected`.

## Findings

| source | as written | input that shows it | evidently intended | confidence | as-written member | corrected member |
|---|---|---|---|---|---|---|
| TraceContext.Net/TraceContext.cs:29-31 | `_componentName` is assigned after `TryParseTraceParent`, which calls `_traceState.Add(_componentName, traceparent)` with the still-null name | any matching traceparent, e.g. `00-0af7651916cd43dd8448eb211c80319c-b7ad6b7169203331-01`: the constructor throws ArgumentNullException | assign the name first, so a matching traceparent is stored under the component's name and the tracestate is read | not executed | Tracing.NullNameRejectsEveryMatch | Tracing.TraceContext.NewCorrected |
| TraceContext.Net/TraceContext.cs:62-65 | version and flags tokens are read with `Convert.ToByte(string)` (decimal) but written with `X2` (hex) | once the name is stored before the parse (first row), `00-…-…-0a` throws FormatException and version 16, written `10`, is read back as 10; in the constructor as written the null-key Add at :60 throws first | read the tokens in base 16, so an emitted traceparent reads back to the same version and flags | not executed | Tracing.ReparseOwnHeader | Tracing.ReparseOwnHeaderCorrected |
