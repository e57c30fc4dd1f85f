# api_tool_me: request URL builder

A Dafny model of the part of the API request tool (`src/main.rs`) that turns
the user's answers into the request URL. It covers:

- the platform gate: an empty platform selection ends the program with exit
  status 1 before any URL is built;
- the builder: it starts from the configured base URL and pushes one
  `platform%5B%5D=<name>` parameter per selected platform index. It then
  pushes `configType=<type>` when a config type other than "None" (index 0)
  was chosen, and `searchPackage=<term>` when the search term is non-empty.
  The parameters are appended after `?`, joined by `&`, unless there are none;
- the fixed option lists `["windows", "mac", "linux"]` and
  `["None", "computer", "user"]`;
- percent-encoding of the values, as the `urlencoding` crate's `encode`
  does it (section 2.1 of RFC 3986). Each character is taken as its UTF-8
  bytes. An unreserved byte (section 2.3: letters, digits, `-`, `.`, `_`,
  `~`) is kept. Every other byte becomes `%` and two upper-case hex digits.

The prompts are not modelled. Their answers are the inputs of the builder:

- `selected`: the indices returned by the multi-select;
- `configIndex`: the index returned by the config type select;
- `search`: the typed search term.

Modules:

- `Wrappers`: `Option`.
- `PercentEncoding`: `Encode` (the model of `urlencoding::encode`) and its
  partner `Decode`, with the round trip `Decode(Encode(s)) == Some(Utf8(s))`.
- `QueryString`: `Join`, plus `Split` and `ParseQuery`, which read a query
  back into decoded key/value pairs. They exist so that what a built query
  carries can be stated.
- `RequestUrl`: the selections and two specification functions.
  `QueryParams` gives the parameters as the source formats them: literal
  keys, encoded values. `Fields` gives the logical key/value pairs before
  any encoding. `QueryParamsEncodeFields` proves that the first is exactly
  the percent-encoding of the second. The module also holds the method
  `BuildUrl` (the loop of the source), the method `Run` (the gate, then the
  builder), and the properties of the URL.

The platform parameters come out in the order of the `selected` indices,
the order in which the loop at src/main.rs:87 visits them. When the indices
arrive in increasing order, `AscendingSelectionIsCanonical` shows that this
is the list's own order (windows, mac, linux) restricted to the chosen
platforms.

## Model

| member | source | states |
|---|---|---|
| RequestUrl.BuildUrl | src/main.rs:83-104 | The URL is the base URL when there are no query parameters. Otherwise it is base + "?" + the parameters joined by "&". The parameters are exactly QueryParams: a loop invariant ties the pushed vector to the platform parameters of the indices visited so far. |
| RequestUrl.Run | src/main.rs:57-60 | An empty platform selection gives exit status 1, and only an empty selection does. Otherwise the outcome is the URL base + "?" + the joined parameters, so it always has a query. |
| RequestUrl.PlatformStep | src/main.rs:87-89 | Visiting one more selected index appends exactly `platform%5B%5D=` and the encoded name of that platform. |
| RequestUrl.PlatformParams | src/main.rs:87-89 | One platform parameter per selected index. |
| RequestUrl.QueryParams | src/main.rs:84-99 | Defines the vector the builder pushes: the platform parameters, then the optional configType parameter, then the optional searchPackage parameter. Its meaning is stated by `QueryParamsShape`, `QueryParamsEncodeFields` and `NoParamsIff`. |
| RequestUrl.ConfigParams | src/main.rs:92-94 | Defines the configType parameter: `configType=` and the encoded type when configIndex > 0, and nothing for index 0 ("None"). `ConfigParamsEncodeFields` relates it to the logical pair. |
| RequestUrl.SearchParams | src/main.rs:97-99 | Defines the searchPackage parameter: `searchPackage=` and the encoded term when the term is non-empty, and nothing otherwise. `SearchParamsEncodeFields` relates it to the logical pair. |
| RequestUrl.QueryParamsEncodeFields | src/main.rs:87-99 | Every parameter the source formats, with a literal key and an encoded value, is exactly its logical pair of Fields with both key and value percent-encoded. |
| RequestUrl.PlatformParamsEncodeFields | src/main.rs:87-89 | The platform parameters are the encoded platform pairs ("platform[]", name). |
| RequestUrl.ConfigParamsEncodeFields | src/main.rs:92-94 | The configType parameter, when present, is the encoded pair ("configType", type), and both are absent for index 0. |
| RequestUrl.SearchParamsEncodeFields | src/main.rs:97-99 | The searchPackage parameter, when present, is the encoded pair ("searchPackage", term), and both are absent for an empty term. |
| RequestUrl.PlatformNames | src/main.rs:87-88 | One platform name per selected index. |
| RequestUrl.PlatformFields | src/main.rs:87-88 | One platform pair per selected index. |
| RequestUrl.PlatformKeyIsEncodedName | src/main.rs:88 | The literal key `platform%5B%5D` is what the encoder makes of `platform[]`: the brackets are encoded and `platform` is unchanged. |
| RequestUrl.EncodeBracketed | src/main.rs:88 | Any unreserved name followed by "[]" encodes to the name followed by "%5B%5D". |
| RequestUrl.EncodeBrackets | src/main.rs:88 | "[]" encodes to "%5B%5D". |
| RequestUrl.PlatformParamText | src/main.rs:88 | The encoded pair ("platform[]", v) is the text the source formats: `platform%5B%5D=` followed by the encoded v. |
| RequestUrl.ConfigParamText | src/main.rs:93 | The encoded pair ("configType", v) is `configType=` followed by the encoded v. |
| RequestUrl.SearchParamText | src/main.rs:98 | The encoded pair ("searchPackage", v) is `searchPackage=` followed by the encoded v. |
| RequestUrl.FixedNamesUnencoded | src/main.rs:50 | Every platform name and every config type name is left unchanged by the encoder. |
| RequestUrl.EncodeOptionName | src/main.rs:65 | A name from either fixed list encodes to itself. |
| RequestUrl.ConfigTypeNameUnencoded | src/main.rs:93 | The key "configType" encodes to itself. |
| RequestUrl.SearchPackageNameUnencoded | src/main.rs:98 | The key "searchPackage" encodes to itself. |
| RequestUrl.QueryParamsShape | src/main.rs:87-99 | Parameter i is the platform parameter of the i-th selected index, for each i. There is one more parameter, configType, exactly when configIndex > 0, and then it comes right after the platforms. There is one more, searchPackage, exactly when the term is non-empty, and then it is last. |
| RequestUrl.NoParamsIff | src/main.rs:102-104 | There are no parameters if and only if nothing was selected, no config type was chosen and the term is empty. |
| RequestUrl.FieldsCarry | src/main.rs:87-99 | Under "platform[]" the request carries the selected names, in selection order. Under "configType" it carries the chosen type once when configIndex > 0, and nothing otherwise. Under "searchPackage" it carries the term once when it is non-empty, and nothing otherwise. |
| RequestUrl.FieldsValues | src/main.rs:87-99 | The values under any one key are the platform names, the config type and the term, each kept only when its key matches. |
| QueryString.ValuesAppend | src/main.rs:87-99 | The values under a key in a concatenation are those of the first part followed by those of the second. |
| RequestUrl.PlatformFieldValues | src/main.rs:87-89 | The platform pairs carry the selected names under "platform[]", in order, and nothing under any other key. |
| RequestUrl.FieldOrder | src/main.rs:87-99 | All platform pairs come before the configType pair, which comes before the searchPackage pair. |
| RequestUrl.BuiltQueryParsesBack | src/main.rs:102-104 | The joined query of a non-empty selection parses back into exactly Fields, in order, with each key and value as its UTF-8 bytes. |
| RequestUrl.ChosenInOrder | src/main.rs:50-55 | Every index it returns lies in the range it scans. |
| RequestUrl.AscendingIsChosenInOrder | src/main.rs:52-55 | A strictly ascending sequence of indices with the same members as `chosen` is the chosen indices taken in increasing order. |
| RequestUrl.AscendingTail | src/main.rs:52-55 | Proof helper for `AscendingIsChosenInOrder`: without its first element, an ascending index sequence stays ascending and covers the chosen indices of the remaining range. |
| RequestUrl.FirstIsLeast | src/main.rs:52-55 | Proof helper for `AscendingIsChosenInOrder`: the first element of an ascending sequence is its least. |
| RequestUrl.NonEmptyRange | src/main.rs:52-55 | Proof helper for `AscendingIsChosenInOrder`: a non-empty sequence of indices in [from, n) implies from < n. |
| RequestUrl.AscendingSelectionIsCanonical | src/main.rs:87-89 | For an ascending selection, the platform names come in the list's own order (windows, mac, linux), restricted to the chosen ones. |
| RequestUrl.MacOnlyExample | src/main.rs:87-104 | With only "mac" selected, no config type and no term, the only parameter is `platform%5B%5D=mac`, and the joined query is that text. Together with the ensures of `BuildUrl`, the URL is then base + "?platform%5B%5D=mac". |
| RequestUrl.MacOnlyParams | src/main.rs:87-89 | With only "mac" selected, the one parameter is the literal key, "=", and "mac". |
| RequestUrl.MacOnlyText | src/main.rs:88 | Proof helper for the example: the literal key, "=", and "mac" spell `platform%5B%5D=mac`. |
| RequestUrl.WindowsLinuxUserExample | src/main.rs:87-99 | With windows and linux selected, config type "user" and term "7zip", the parameters are `platform%5B%5D=windows`, `platform%5B%5D=linux`, `configType=user`, `searchPackage=7zip`, in that order. |
| RequestUrl.TwoPlatformsConfigSearch | src/main.rs:87-99 | Two selected indices, a config type and a term give exactly four parameters: two platform parameters in selection order, then configType, then searchPackage. |
| RequestUrl.SevenZipUnencoded | src/main.rs:98 | The term "7zip" encodes to itself. |
| RequestUrl.PlatformParamLiteral | src/main.rs:88 | Proof helper for the example: the literal key, "=", and "windows" or "linux" spell the platform parameter of the example. |
| RequestUrl.ConfigParamLiteral | src/main.rs:93 | Proof helper for the example: "configType", "=", and "user" spell `configType=user`. |
| RequestUrl.SearchParamLiteral | src/main.rs:98 | Proof helper for the example: "searchPackage", "=", and "7zip" spell `searchPackage=7zip`. |
| PercentEncoding.IsUnreserved | src/main.rs:88-98 | Defines the characters the encoder keeps: the unreserved set of section 2.3 of RFC 3986, letters, digits, "-", ".", "_" and "~". `EncodeUnreserved` and `EncodeSafe` state its role. |
| PercentEncoding.Encode | src/main.rs:88-98 | `encode` never makes a string shorter. |
| PercentEncoding.EncodeChar | src/main.rs:88-98 | An unreserved character is kept as it is. Any other character becomes three output characters per UTF-8 byte, starting with "%". |
| PercentEncoding.EncodeByte | src/main.rs:88-98 | A byte becomes "%" and two upper-case hex digits whose value is the byte. |
| PercentEncoding.EncodeByteUnique | src/main.rs:88-98 | Any "%" followed by two upper-case hex digits of value b is exactly the encoding of b, so the form of EncodeByte's contract pins its output. |
| PercentEncoding.UpperHexDigitUnique | src/main.rs:88-98 | Two upper-case hex digits with the same value are the same digit. |
| PercentEncoding.EncodeBytes | src/main.rs:88-98 | Three output characters per byte. |
| PercentEncoding.HexDigit | src/main.rs:88-98 | The digit is unreserved and upper-case ("0"-"9" or "A"-"F"), and its hex value is the given value. |
| PercentEncoding.HexValue | src/main.rs:88-98 | A hex digit has a value below 16. |
| PercentEncoding.Utf8Char | src/main.rs:88-98 | A character has one to four UTF-8 bytes, and exactly one when it is ASCII, namely its own code. |
| PercentEncoding.Utf8 | src/main.rs:88-98 | A string has at least as many UTF-8 bytes as characters. |
| PercentEncoding.DecodeEncode | src/main.rs:88-98 | Round trip: decoding the encoded string gives back exactly its UTF-8 bytes. |
| PercentEncoding.DecodeAfterEncodedChar | src/main.rs:88-98 | Decoding an encoded character followed by any text gives the character's UTF-8 bytes, then the decoding of the text. |
| PercentEncoding.DecodeAfterEncodedBytes | src/main.rs:88-98 | Decoding the "%XX" form of some bytes followed by any text gives those bytes, then the decoding of the text. |
| PercentEncoding.DecodeAfterEncodedByte | src/main.rs:88-98 | The same for one byte. |
| PercentEncoding.PrependPrepend | src/main.rs:88-98 | Prefixing a decode result twice is prefixing it once with both prefixes. |
| PercentEncoding.EncodeAppend | src/main.rs:88-98 | Encoding distributes over concatenation. |
| PercentEncoding.EncodeUnreserved | src/main.rs:88-98 | A string made only of unreserved characters is left unchanged. |
| PercentEncoding.EncodeSafe | src/main.rs:88-98 | The output contains only unreserved characters and "%". |
| PercentEncoding.EncodeCharSafe | src/main.rs:88-98 | The same for one character. |
| PercentEncoding.EncodeBytesSafe | src/main.rs:88-98 | The same for the "%XX" form of bytes. |
| PercentEncoding.EncodeHasNoDelimiters | src/main.rs:88-98 | None of "&", "=", "?" or "#" ever occurs in an encoded value, so a value cannot break the query apart. |
| QueryString.Join | src/main.rs:103 | Defines `join("&")`: the parts with the separator between neighbours, none before the first or after the last. `SplitJoin` is its partner. |
| QueryString.Split | src/main.rs:103 | There is always at least one piece, and no piece contains the separator. |
| QueryString.SplitJoin | src/main.rs:103 | Splitting at the separator undoes `join` when no part contains it. |
| QueryString.SplitWithout | src/main.rs:103 | A text without the separator is a single piece. |
| QueryString.SplitAfterPiece | src/main.rs:103 | A separator-free piece followed by the separator splits off as the first piece. |
| QueryString.SplitOnceAt | src/main.rs:88-98 | The first "=" after a key without "=" splits the parameter back into that key and its value. |
| QueryString.EncodedParams | src/main.rs:87-99 | One parameter per pair. |
| QueryString.KeyParams | src/main.rs:87-89 | One parameter per value. |
| QueryString.KeyParamsPush | src/main.rs:87-89 | One more value appends exactly its parameter: the key, "=", and the encoded value. |
| QueryString.EncodedParamsAppend | src/main.rs:87-99 | The parameters of a concatenation are those of each part, in order. |
| QueryString.EncodedParamsTail | src/main.rs:87-99 | The first parameter is that of the first pair, and the rest are those of the remaining pairs. |
| QueryString.Utf8Fields | src/main.rs:87-99 | One byte pair per key/value pair. |
| QueryString.Utf8FieldsCons | src/main.rs:87-99 | The byte pairs of a list are those of its head followed by those of its tail. |
| QueryString.ParseEncodedParam | src/main.rs:88-98 | One encoded parameter parses back into the UTF-8 bytes of its key and value. |
| QueryString.ParseEncodedParams | src/main.rs:87-99 | A list of encoded parameters parses back into the byte pairs of its key/value pairs. |
| QueryString.ParseParamsCons | src/main.rs:87-99 | Parsing a list whose head and tail parse gives the head's pair followed by the tail's pairs. |
| QueryString.ParseJoinedParams | src/main.rs:102-104 | Round trip: a non-empty list of encoded parameters joined by "&" parses back into exactly its keys and values, in order. |

## Left out

- The interactive prompts (token, platforms, config type, search term, and the final confirmation). Their answers are the inputs. The model assumes the indices are in range (`ValidSelection`, `configIndex < |ConfigTypes|`), as the select widgets guarantee. It takes the search term exactly as returned; any trimming the prompt library may do is not modelled.
- The order in which the multi-select returns indices is decided by the prompt library, which is not part of this model. `AscendingSelectionIsCanonical` covers the case where the indices arrive in increasing order.
- Loading `API_HOST` and `API_URL` from the environment (src/main.rs:22-31). The base URL is a parameter, and the host is not used by the builder.
- The HTTP request: the client, the headers, the disabled TLS certificate check, and the async runtime (src/main.rs:141-159). This is network I/O.
- `format_json_simple` (src/main.rs:9-16). It calls a JSON library with no logic of its own.
- All printing: the error message before exit, the separators, the request summary, the response, and the final read from standard input. This is output only.
- The source of the `urlencoding` crate is not part of this model. `Encode` follows section 2.1 of RFC 3986 over the UTF-8 bytes of each character, with upper-case hex digits, which is that crate's documented behaviour.
