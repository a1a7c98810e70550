# Materal.Extensions core, modelled in Dafny

This project models the self-contained algorithmic core of the Materal.Extensions
C# library and proves properties of the model:

- **Fence cipher.** `ToFenceEncode` writes the characters at even positions, then
  those at odd positions. `FenceDecode` interleaves the two halves again.
- **Displacement (shift) cipher.** `ToDisplacementEncode` first applies the
  letters-only check and upper-cases the text. It then replaces each letter A-Z at
  alphabet index `j` with the letter at `j + key`: a 32-bit sum, corrected once by
  +26 when negative and reduced by 26 while it is 26 or more. Spaces are copied.
  `DisplacementDecode` encodes with the negated key.
- **PEM framing of the RSA helpers.**
  - `FormatPEM` writes the BEGIN label line, the base64 text in lines of 64 and the END label.
  - `GetBytesFromPEM` removes the matches of `-----BEGIN .+?-----|\r?\n|-----END .+?-----` and decodes what is left.
  - `GetXmlKeyFromPEM` picks the label "PRIVATE KEY" or "PUBLIC KEY".
- **AES IV-prefix framing.** The key-only `ToAESEncode` puts the generated
  16-byte IV in front of the cipher text. The key-only `AESDecode` cuts it off
  again, with `Buffer.BlockCopy` into fresh arrays. The cipher itself is a pair
  of function parameters.
- **ConfigurationExtensions.**
  - `GetConfigItem(section)` turns a configuration section tree into nested dictionaries and lists. Leaf values are typed by `ParseConfigValue`: bool, then long, then double, then string.
  - The two `GetConfigItemToString` overloads.
  - The null checks and the empty-value early return of `GetConfigItem<T>`.
- **MinAttribute.** Both constructors and `IsValid`. The first constructor is
  the datatype constructor `MinAttribute(minValue)`, with `None` for null.
  The DateTime constructor is modelled down to `DateTime.Ticks`.

Modules, one per file:

- `Wrappers`: `Option`, `Result`.
- `Primitives`: `byte`, `Int32`, `Int64`, and the 32-bit wrap-around `Wrap32`.
- `Fence`.
- `Displacement`.
- `Pem`.
- `AesFraming`.
- `Configuration`.
- `Validation`.

Where the runtime does the work, the model takes it as a parameter:

- base64 encoding and decoding (`toBase64`, `fromBase64`)
- `IsLetter`
- `bool.TryParse`, `long.TryParse` and `double.TryParse`
- the inner AES encryption and decryption
- `ToJson`
- `IConfiguration.GetSection`
- the generated IV
- `Environment.NewLine` (LF or CRLF)

Exceptions raised by the modelled code itself become the `Err` side of a `Result`; failures inside the parameter functions are not modelled (see "## Left out"). In `Configuration` and `Validation`, where the source checks for `null` or receives it, `null` becomes `None`; the string arguments of the ciphers and of the PEM functions are non-null (see "## Left out").

## Model

| member | source | states |
|---|---|---|
| Fence.Encoded | Materal.Extensions/StringExtensions.Encryption.Fence.cs:13-30 | The cipher text has the input's length. Position k < ceil(n/2) holds input character 2k; the rest hold the odd-position characters in order. |
| Fence.ToFenceEncode | Materal.Extensions/StringExtensions.Encryption.Fence.cs:13-30 | The two-rail loop returns exactly Encoded(inputStr). |
| Fence.FenceDecode | Materal.Extensions/StringExtensions.Encryption.Fence.cs:36-66 | The split at count/2 (even count) or count/2 + 1 (odd count), then the interleaving loop, returns exactly Decoded(inputStr). |
| Fence.DecodeEncode | Materal.Extensions/StringExtensions.Encryption.Fence.cs:13-66 | FenceDecode(ToFenceEncode(s)) == s for every string. |
| Fence.EncodeDecode | Materal.Extensions/StringExtensions.Encryption.Fence.cs:13-66 | ToFenceEncode(FenceDecode(t)) == t for every string, so the cipher is a bijection on each length. |
| Displacement.Upper | Materal.Extensions/StringExtensions.Encryption.Displacement.cs:18 | Upper-casing keeps the length and maps each character by UpperChar: a-z to A-Z, everything else unchanged. |
| Displacement.LetterIndex | Materal.Extensions/StringExtensions.Encryption.Displacement.cs:26-28 | For an upper-case letter, the search of the alphabet finds index j in [0, 26) with alphabet[j] == c. |
| Displacement.Reduce | Materal.Extensions/StringExtensions.Encryption.Displacement.cs:34-37 | The subtracting loop ends below 26, and non-negative exactly when it started non-negative. |
| Displacement.ToDisplacementEncode | Materal.Extensions/StringExtensions.Encryption.Displacement.cs:14-48 | The key defaults to 3. A text the letters-only check refuses raises NotLetters. Otherwise the nested loops return exactly Displaced(inputStr, key): the first failing alphabet access raises IndexOutOfRange. |
| Displacement.ShiftLetter | Materal.Extensions/StringExtensions.Encryption.Displacement.cs:26-40 | The alphabet search, the wrapped index arithmetic and the break give exactly the character's output or its exception. |
| Displacement.DisplacementDecode | Materal.Extensions/StringExtensions.Encryption.Displacement.cs:55 | The key defaults to 3. Decoding is encoding with the 32-bit negation of the key. |
| Displacement.ReduceIsMod | Materal.Extensions/StringExtensions.Encryption.Displacement.cs:34-37 | For a non-negative index the loop computes the remainder mod 26. |
| Displacement.ShiftedIndexMod | Materal.Extensions/StringExtensions.Encryption.Displacement.cs:29-37 | While -26 <= j + key fits in an int, the final index is (j + key) mod 26, inside the alphabet. |
| Displacement.ShiftedIndexNegative | Materal.Extensions/StringExtensions.Encryption.Displacement.cs:29-33 | Below -26 the single +26 correction leaves the index negative. |
| Displacement.ShiftedIndexOverflow | Materal.Extensions/StringExtensions.Encryption.Displacement.cs:29-33 | When j + key passes int.MaxValue it wraps around and the index stays negative. |
| Displacement.EncodeLetter | Materal.Extensions/StringExtensions.Encryption.Displacement.cs:24-40 | A letter becomes alphabet[(j + key) mod 26] exactly in the range where j + key neither falls below -26 nor passes int.MaxValue; outside it, IndexOutOfRange. |
| Displacement.EncodeOther | Materal.Extensions/StringExtensions.Encryption.Displacement.cs:24-45 | A space is copied. Any other non-letter adds nothing. |
| Displacement.ErrorPropagates | Materal.Extensions/StringExtensions.Encryption.Displacement.cs:22-47 | Once a prefix raises, the whole text raises the same exception. |
| Displacement.EncodeTextShift | Materal.Extensions/StringExtensions.Encryption.Displacement.cs:22-47 | For text of letters and spaces and -26 <= key < int.MaxValue - 24, encoding never fails and shifts each letter by key mod 26, position by position. |
| Displacement.ShiftTextInverse | Materal.Extensions/StringExtensions.Encryption.Displacement.cs:55 | Shifting by key, then by -key, restores the text for -26 <= key <= 26. |
| Displacement.RoundTrip | Materal.Extensions/StringExtensions.Encryption.Displacement.cs:14-55 | For -26 <= key <= 26, letters-and-spaces input always encodes. If the check also accepts the cipher text, DisplacementDecode returns the upper-cased input. |
| Displacement.RoundTripFailsBeyond26 | Materal.Extensions/StringExtensions.Encryption.Displacement.cs:29-38 | Beyond the bound the round trip breaks: "Z" with key 27 encodes to "A", and decoding "A" with key 27 raises IndexOutOfRange. |
| Displacement.KeyWrapsAround | Materal.Extensions/StringExtensions.Encryption.Displacement.cs:29-55 | "Z" with key int.MaxValue raises IndexOutOfRange through the wrap-around, and DisplacementDecode with int.MinValue keeps int.MinValue. |
| Pem.NewLineText | Materal.Extensions/StringExtensions.Encryption.RSA.cs:189-195 | AppendLine ends a line with LF or CRLF. |
| Pem.ChunksShape | Materal.Extensions/StringExtensions.Encryption.RSA.cs:192-196 | The lines cut from the base64 text join back to it. There are ceil(n/64) of them, every one but the last is 64 long, and the last has 1 to 64 characters. |
| Pem.FormatPEM | Materal.Extensions/StringExtensions.Encryption.RSA.cs:185-200 | The StringBuilder loop stepping by 64 returns exactly PemText: the BEGIN line, each line with its terminator, then the END label. |
| Pem.PemTextFrame | Materal.Extensions/StringExtensions.Encryption.RSA.cs:189-198 | The PEM text starts with "-----BEGIN keyType-----" and a line terminator, and ends with "-----END keyType-----" with no terminator. |
| Pem.LazyClose | Materal.Extensions/StringExtensions.Encryption.RSA.cs:209 | The lazy ".+?-----" match, when there is one, takes at least one character before the dashes and stays within the text. |
| Pem.MatchLength | Materal.Extensions/StringExtensions.Encryption.RSA.cs:209 | A match of the pattern starts only at '-', '\r' or '\n' and never runs past the text. |
| Pem.StripHeader | Materal.Extensions/StringExtensions.Encryption.RSA.cs:209 | For a safe label, the whole BEGIN line is removed by the first alternative. |
| Pem.StripFooter | Materal.Extensions/StringExtensions.Encryption.RSA.cs:209 | For a safe label, the END line is removed completely. |
| Pem.StripNewLine | Materal.Extensions/StringExtensions.Encryption.RSA.cs:209 | Both line terminators are removed. |
| Pem.Strip | Materal.Extensions/StringExtensions.Encryption.RSA.cs:209 | Removing every match, left to right, never lengthens the text, and leaves text of base64 characters unchanged. |
| Pem.GetBytesFromPEM | Materal.Extensions/StringExtensions.Encryption.RSA.cs:207-211 | Bare base64 text is decoded as it is; with PemRoundTrip, the output of FormatPEM decodes to the original bytes. |
| Pem.StripBase64 | Materal.Extensions/StringExtensions.Encryption.RSA.cs:209 | Base64 characters never start a match, so the replacement keeps them. |
| Pem.StripLines | Materal.Extensions/StringExtensions.Encryption.RSA.cs:209 | The body lines strip to their concatenation. |
| Pem.StripPemText | Materal.Extensions/StringExtensions.Encryption.RSA.cs:185-211 | Regex.Replace on FormatPEM's output leaves exactly the base64 text, for a safe label on either terminator. |
| Pem.PemRoundTrip | Materal.Extensions/StringExtensions.Encryption.RSA.cs:185-211 | For a base64 codec that round-trips and a safe label, GetBytesFromPEM(FormatPEM(data, keyType)) == data. |
| Pem.TrailingDashLeftOver | Materal.Extensions/StringExtensions.Encryption.RSA.cs:209 | A label ending in '-' is not safe: the lazy match closes one dash early and leaves a '-' in the base64 text. |
| Pem.XmlKeyLabel | Materal.Extensions/StringExtensions.Encryption.RSA.cs:168-177 | The label is "PRIVATE KEY" exactly when the XML key contains "<P>", and "PUBLIC KEY" exactly when it does not. |
| Pem.XmlKeyLabelSafe | Materal.Extensions/StringExtensions.Encryption.RSA.cs:168-177 | Both labels GetXmlKeyFromPEM uses are safe, so its PEM output always round-trips. |
| AesFraming.Framed | Materal.Extensions/StringExtensions.Encryption.AES.cs:99-101 | The result buffer is IV then cipher text: the length is the sum, and both slices are exact. |
| AesFraming.Split | Materal.Extensions/StringExtensions.Encryption.AES.cs:115-119 | The split succeeds exactly when the data holds at least 16 bytes; the IV is 16 bytes and the two parts join back to the data. |
| AesFraming.BlockCopy | Materal.Extensions/StringExtensions.Encryption.AES.cs:99-101 | Buffer.BlockCopy writes exactly the count bytes from the source offset at the destination offset; the rest of the destination is unchanged. |
| AesFraming.Frame | Materal.Extensions/StringExtensions.Encryption.AES.cs:97-101 | Allocating the result array and the two block copies produce Framed(iv, cipher text). |
| AesFraming.Unframe | Materal.Extensions/StringExtensions.Encryption.AES.cs:115-119 | The two array allocations and block copies produce Split(data). A negative array length raises for input under 16 bytes. |
| AesFraming.ToAESEncode | Materal.Extensions/StringExtensions.Encryption.AES.cs:89-103 | The key-only encoding returns the generated IV followed by the inner encryption under that IV. |
| AesFraming.AESDecode | Materal.Extensions/StringExtensions.Encryption.AES.cs:111-123 | The key-only decoding returns exactly Decoded: the error for short input, or the inner decryption of the split parts. |
| AesFraming.DecodedCases | Materal.Extensions/StringExtensions.Encryption.AES.cs:111-123 | Input under 16 bytes raises. Otherwise the inner decryption gets bytes 16.. as cipher text and bytes ..16 as IV. |
| AesFraming.SplitFramed | Materal.Extensions/StringExtensions.Encryption.AES.cs:99-119 | Splitting a buffer framed with a 16-byte IV gives back the IV and the cipher text. |
| AesFraming.FramedSplit | Materal.Extensions/StringExtensions.Encryption.AES.cs:99-119 | Framing a split buffer gives back the buffer. |
| AesFraming.KeyOnlyRoundTrip | Materal.Extensions/StringExtensions.Encryption.AES.cs:89-123 | The key-only decoding hands the inner decryption exactly the IV and cipher text the encoding used, so the key-only pair round-trips whenever the inner pair does. |
| Configuration.ParseConfigValue | Materal.Extensions/ConfigurationExtensions.cs:120-142 | Bool when bool.TryParse accepts, holding the parsed boolean. Otherwise long when long.TryParse accepts, holding the parsed number. Otherwise double when double.TryParse accepts, otherwise the string itself. Never a list or a dictionary. |
| Configuration.GetConfigItem | Materal.Extensions/ConfigurationExtensions.cs:70-113 | A null section raises ArgumentNull("configSection"). Otherwise the loop, with its continue and its recursion, returns exactly Flatten(section). |
| Configuration.FlattenShape | Materal.Extensions/ConfigurationExtensions.cs:74-112 | A section gives null exactly when it has no children. Otherwise a successful result is a list exactly when the first child's key is "0", and a dictionary exactly when it is not. |
| Configuration.DuplicateKeyRaises | Materal.Extensions/ConfigurationExtensions.cs:88-104 | In dictionary mode, two included children with the same key make the call raise. When no earlier child raised, the exception is DuplicateKey for that key. |
| Configuration.CollectErrorPropagates | Materal.Extensions/ConfigurationExtensions.cs:88-104 | Once Dictionary.Add raises on a duplicate key, the later children do not matter: the call raises the same exception. |
| Configuration.CollectMonotone | Materal.Extensions/ConfigurationExtensions.cs:81-110 | Each step only adds: after m >= n children the list extends the list after n, and every dictionary entry after n is kept with its value. |
| Configuration.DictHasEveryIncludedChild | Materal.Extensions/ConfigurationExtensions.cs:83-103 | In dictionary mode every child with a value, or with a non-null nested object, appears under its key; a valued child appears with its parsed value. |
| Configuration.DictKeysAreChildKeys | Materal.Extensions/ConfigurationExtensions.cs:88-104 | Every dictionary key is the key of some child that contributed. |
| Configuration.CollectIgnoresOwnKey | Materal.Extensions/ConfigurationExtensions.cs:70-113 | The section's own key and value do not affect the result; only its children do. |
| Configuration.ListModeIgnoresKeys | Materal.Extensions/ConfigurationExtensions.cs:92-108 | In list mode the children's keys are ignored (only the first one's was read, to choose the mode). |
| Configuration.ListInOrder | Materal.Extensions/ConfigurationExtensions.cs:81-112 | In list mode the list is exactly the included children's values, in child order. |
| Configuration.SectionToString | Materal.Extensions/ConfigurationExtensions.cs:167-173 | A null section raises. The section's text is null when it has no children. It is the JSON of the nested object when the flattening gives one. The call raises exactly when the flattening raises, with the same exception. |
| Configuration.GetConfigItemToString | Materal.Extensions/ConfigurationExtensions.cs:151-159 | A null configuration or key raises ArgumentNull with that name. A non-blank section value is returned verbatim; otherwise the section's JSON text. |
| Configuration.GetConfigItemTyped | Materal.Extensions/ConfigurationExtensions.cs:32-37 | A null section raises. The result is default exactly when the section's text is null or empty. Non-empty text goes on to the typed conversion as it is. An exception from the section's text is passed on. |
| Configuration.GetConfigItemByKey | Materal.Extensions/ConfigurationExtensions.cs:16-23 | A null configuration or key raises ArgumentNull with that name, before the section is looked up. Otherwise the result is GetConfigItem<T> on GetSection(key). |
| Configuration.TypedDefaultWithoutChildren | Materal.Extensions/ConfigurationExtensions.cs:36-37 | A section without children makes GetConfigItem<T> return default. |
| Configuration.TypedIgnoresLeafValue | Materal.Extensions/ConfigurationExtensions.cs:16-37 | As written, key "Port" holding the leaf value "5" gives default from GetConfigItem<T>, while GetConfigItemToString on the same key gives "5". |
| Configuration.CorrectedReadsLeafValue | Materal.Extensions/ConfigurationExtensions.cs:16-37 | The corrected GetConfigItem<T> converts a leaf's own value. On every key it converts exactly the text GetConfigItemToString returns. |
| Validation.TimeTicks | Materal.Extensions/ValidationAttributes/MinAttribute.cs:25 | The time of day adds between 0 and one day's worth of ticks. |
| Validation.YearLength | Materal.Extensions/ValidationAttributes/MinAttribute.cs:25 | In the Gregorian day count, a year has 366 days exactly when it is a leap year. |
| Validation.TicksChronological | Materal.Extensions/ValidationAttributes/MinAttribute.cs:25 | For valid components, one DateTime's Ticks are below another's exactly when its components come first in calendar order; equal Ticks mean equal components. |
| Validation.CompareToOrder | Materal.Extensions/ValidationAttributes/MinAttribute.cs:37 | CompareTo on each comparable type is reflexive, antisymmetric (zero only for equal values) and transitive. |
| Validation.MinAttribute.FromDate | Materal.Extensions/ValidationAttributes/MinAttribute.cs:23-26 | The DateTime constructor succeeds exactly for valid components (year 1-9999, month 1-12, day within the month, hour < 24, minute and second < 60, millisecond < 1000), with the bound holding their Ticks. Otherwise it raises ArgumentOutOfRange. |
| Validation.MinAttribute.IsValid | Materal.Extensions/ValidationAttributes/MinAttribute.cs:33-39 | A bound that is not IComparable raises for every value, null included. A comparable bound never raises, and a value then passes exactly when it is non-null, of the bound's runtime type, and not below the bound. |
| Validation.BoundaryPasses | Materal.Extensions/ValidationAttributes/MinAttribute.cs:37 | The bound itself passes. |
| Validation.NullAndOtherTypesFail | Materal.Extensions/ValidationAttributes/MinAttribute.cs:36 | Null and values of another runtime type fail, with no numeric widening. |
| Validation.Monotone | Materal.Extensions/ValidationAttributes/MinAttribute.cs:37 | Passing is upward closed: a larger value of the same type passes too. |
| Validation.FailsBelowBound | Materal.Extensions/ValidationAttributes/MinAttribute.cs:37 | Among values of the bound's type, exactly those that compare below the bound fail. |
| Validation.DateBound | Materal.Extensions/ValidationAttributes/MinAttribute.cs:23-37 | A bound built from date components accepts exactly the dates that are not earlier in calendar order. |
| Validation.IntBoundExamples | Materal.Extensions/ValidationAttributes/MinAttribute.cs:33-39 | With an int bound of 10: 10 and 11 pass; 9, the long 10 and the string "10" fail. A null bound raises. |

## Left out

- RSA key generation, encryption, signing and the XML and PKCS conversions in StringExtensions.Encryption.RSA.cs: they call the platform cryptography. Only the PEM framing and the label choice are modelled.
- The AES cipher: CBC mode and PKCS7 padding are the parameter functions `encrypt` and `decrypt`. The base64 conversions of the key, the IV, the content and the result around the framing are left out, so the framing is modelled on bytes.
- Aes.GenerateIV: randomness; the generated IV is a parameter of `AesFraming.ToAESEncode`.
- The DES, MD5, SHA and Base64 helpers, FileInfoExtensions, Clone, CopyProperties, the JSON helpers and DateTimeHelper: they are not part of this model.
- Base64: `Convert.ToBase64String` and `Convert.FromBase64String` are parameters. The PEM round trip asks for a codec that round-trips and emits only base64 characters.
- Pem.PemRoundTrip: holds only for labels that are non-empty, contain no '\n' and no "-----", and do not end in '-'; `Pem.TrailingDashLeftOver` shows why the last condition is needed.
- `IsLetter` (the letters-only check) is a parameter: its definition is not part of this model.
- Strings are sequences of Unicode scalar values, whereas C# strings are sequences of UTF-16 code units. Outside the Basic Multilingual Plane, the source's `Length`, indexing and the fence cipher act on code units and can split a surrogate pair ("😀a" has length 3 and its encoding separates the pair). The model permutes whole code points, and its length and position facts count code points.
- The errors of the AES runtime are not modelled, because `encrypt` and `decrypt` are total functions. These include `aes.Key` rejecting a key of the wrong size and the inner `AESDecode` failing on bad padding or on an empty cipher text after a 16-byte input. The model raises only the framing's own NegativeArrayLength.
- Null arguments of the ciphers and of the PEM functions. A null `inputStr` of `ToFenceEncode` or `FenceDecode`, a null `pemString` of `GetBytesFromPEM` and a null `key` of `GetXmlKeyFromPEM` raise NullReferenceException or ArgumentNullException in the source. For `ToDisplacementEncode` and `DisplacementDecode` the first use of a null `inputStr` is `inputStr.IsLetter()`, so the exception depends on `IsLetter`: it raises itself, or it returns false and the cipher raises its own letters-only exception. So does a null `data` of `FormatPEM`, in `Convert.ToBase64String`; a null `keyType` there is written as an empty label, which the model covers as "". In the model these arguments are `seq<char>` and `seq<byte>` values, which cannot be null, so these exceptions are not modelled.
- Displacement.Upper: `string.ToUpper` is culture-aware; only ASCII a-z is upper-cased.
- Validation.CompareTo: `string.CompareTo` is culture-aware; strings are compared by character code.
- The typed conversion of GetConfigItem<T> (CanConvertTo, Enum.Parse, JsonToObject): it depends on the .NET type system. The model stops at `ConvertText(text)`.
- `ToJson` is a parameter: JSON rendering is not part of this model.
- `double.TryParse`: a parsed double keeps its text, since floating point is not modelled.
- Configuration.GetConfigItem: the Dictionary is a `map`, so the insertion order of the keys is lost. Duplicate keys still raise.
- `IConfiguration.GetSection` is a function of the key, and `GetChildren` is the sequence of a section's children.
- Validation: the DateTime Kind and other IComparable types (decimal, double, enums and so on) are not modelled; those types are represented by `Int32`, `Int64`, `bool`, `string` and `DateTime` values and one non-comparable kind.
- The MinValue property setter: the bound is a datatype field, so a new bound is a new value.

## Findings

| source | as written | input that shows it | evidently intended | confidence | as-written member | corrected member |
|---|---|---|---|---|---|---|
| Materal.Extensions/ConfigurationExtensions.cs:32-37 | `GetConfigItem<T>(section)` reads only `GetConfigItemToString(section)`, the JSON of the section's children. A leaf section's own value is never read. | Configuration with key "Port" = "5" (no children): `GetConfigItem<int>("Port")` returns default, while `GetConfigItemToString("Port")` returns "5". | Read a non-blank section value before the children, as `GetConfigItemToString(configuration, key)` does, converting "5" to 5. | medium, not executed | Configuration.TypedIgnoresLeafValue | Configuration.CorrectedReadsLeafValue |
