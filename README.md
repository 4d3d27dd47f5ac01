# RTEncryption in Dafny

This project models the two reversible string obfuscation codecs of RTEncryption and proves their round trips, their shapes and their failure cases.

- **Substitution codec** (`RTEncryptionV3`, module `SubstitutionCodec`).
  - `Midencrypt` writes the decimal code of every character, joined by the separator U+026F ('ɯ').
  - `converter` then swaps each digit for a letter 'A'..'J' and each separator for 'R', through the fixed table `hm`.
  - `Middecrypt` reverses this. `deconverter` rebuilds the inverse table `rev` and swaps the letters back. The result is split on the separator, and each numeral becomes a character again.
- **Multiplicative key-embedding codec** (`RTEncryptionV2`, module `KeyEmbeddingCodec`).
  - `asciiencrypt` multiplies each character code by a key in [10, 99] and writes each product in decimal, followed by the separator.
  - It cuts one unit off the end and reads the new last unit as a check digit d. It then splices the key's two digits in before index d.
  - `asciidecrypt` reads d from the last unit and takes the units at d and d + 1 as the key. It splits the rest on the separator and divides every product by the key.
- **Java runtime behaviour** (module `JavaText`). Both codecs rely on these parts of java.lang, modelled over UTF-16 code units:
  - `String.trim`;
  - `Integer.toString` and `Integer.parseInt`;
  - `String.split` with a literal separator;
  - the `(char)` narrowing cast;
  - `int` division.

Conventions of the model:

- A Java `char` is a `CodeUnit`, an int in 0..65535. A `String` is a `Text`, a sequence of code units.
- Each public operation returns an `Outcome`:
  - `Ok(text)` for a normal result;
  - `Sentinel` for "NULVAL" in V3 or "NullValue" in V2;
  - `Err(Block1)` for "ERRBL1~…";
  - `Err(Block2)` for "ERRBL2~…";
  - `Err(Null)` where V3 returns `null`.
- Every loop of the source is a `method` with a `while` loop. It is proved equal to a specification function (`Encoding`, `Decoding`, `Encryption`, `Decryption` and the functions they use). The lemmas state the source's promises about those functions.
- V2's random key is a parameter with `10 <= key <= 99`.
- V2's separator is also a parameter, because the source spells it differently from what its comment says (see Findings):
  - `LiteralSeparator` is the string as written, `"ß€"`.
  - `IntendedSeparator` is the single unit U+07C0 that the comment names.

On one point the natural reading of V2 is narrower than its code, and the model follows the code. The key reaches the output, and the round trip holds, whenever the check digit d is an index of `encval` (`KeyInserted`), not only when d is small. When it is not, the key is silently dropped, and decoding then fails in Block 2 (`KeyLostFails`).

## Model

| member | source | states |
|---|---|---|
| JavaText.Trim | RTEncryptionV3.java:93 | `trim()` leaves a text that is empty or starts and ends above U+0020 |
| JavaText.Lead | RTEncryptionV3.java:93 | the number of leading units `trim()` drops: all of them are at or below U+0020, and the unit after them, if any, is above it |
| JavaText.TrimSlice | RTEncryptionV3.java:93 | `trim()` keeps exactly the slice of the text that starts after the leading units at or below U+0020, and only such units follow it |
| JavaText.TrimEmptyIffBlank | RTEncryptionV3.java:93 | `trim().isEmpty()` holds exactly when every code unit is at or below U+0020, the empty string included |
| JavaText.Decimal | RTEncryptionV3.java:104 | `append(int)` of a non-negative code writes a non-empty run of ASCII digits whose last digit is the value mod 10, a single digit exactly when the value is below 10 |
| JavaText.ParseDecimal | RTEncryptionV3.java:200 | `Integer.parseInt` reads back every non-negative int that `append(int)` wrote |
| JavaText.ParseOneUnit | RTEncryptionV2.java:86 | a one-unit string parses exactly when that unit is an ASCII digit, and then to the digit's value |
| JavaText.ParseInt | RTEncryptionV3.java:200 | a successful `Integer.parseInt` always yields a value in int range |
| JavaText.IntDiv | RTEncryptionV2.java:155 | Java int division agrees with exact division for a non-negative dividend and a positive divisor |
| JavaText.ToUnit | RTEncryptionV3.java:201 | the `(char)` cast keeps every value already in 0..65535 unchanged |
| JavaText.Split | RTEncryptionV3.java:198 | `split` with a literal separator leaves no empty piece at the end, unless the whole result is that single piece |
| JavaText.SplitMeaning | RTEncryptionV3.java:198 | `split` keeps a prefix of the pieces between separators, which rejoin to the text, and leaves off only empty pieces; with a one-unit separator no piece holds it, and a text without it is `[t]` |
| JavaText.PiecesRejoin | RTEncryptionV2.java:151 | the pieces between the separators, joined by the separator, give the text back |
| JavaText.DropTrailingEmpty | RTEncryptionV2.java:151 | dropping the trailing empty strings leaves a list that is empty or ends in a non-empty piece |
| JavaText.SplitJoin | RTEncryptionV3.java:198 | `split` on a one-unit separator gives back the pieces it joined, when no piece holds the separator and the last is non-empty |
| JavaText.JoinCount | RTEncryptionV3.java:104 | a one-unit separator absent from the pieces occurs in the joined text exactly once between each two pieces |
| JavaText.JoinEnds | RTEncryptionV3.java:102-105 | a joined text starts with its first piece's first unit and ends with its last piece's last unit |
| SubstitutionCodec.TableInjective | RTEncryptionV3.java:61-75 | `hm` has exactly the ten ASCII digits and the separator as keys, and no two keys share an image |
| SubstitutionCodec.ReverseInvertsTable | RTEncryptionV3.java:61-75 | the inverse table has the images of `hm` as keys and maps each image back to its key |
| SubstitutionCodec.ReverseUndoesKey | RTEncryptionV3.java:61-75 | the inverse table sends the image of each key of `hm` back to that key |
| SubstitutionCodec.ReverseIsImage | RTEncryptionV3.java:61-75 | each key of the inverse table is the image under `hm` of the unit it is sent to |
| SubstitutionCodec.InverseIsUnique | RTEncryptionV3.java:152-156 | any map that inverts `hm` is the inverse table, so the order in which `rev` is filled does not matter |
| SubstitutionCodec.ReverseTable | RTEncryptionV3.java:152-156 | the loop over `hm.keySet()` builds a `rev` that is the exact inverse of `hm` |
| SubstitutionCodec.SubstituteUnit | RTEncryptionV3.java:63-73 | one unit through `hm`: a digit d becomes 'A' + d, the separator becomes 'R', any other unit is unchanged |
| SubstitutionCodec.RestoreUnit | RTEncryptionV3.java:159-163 | one unit through `rev`: 'A' + d becomes digit d, 'R' becomes the separator, any unit not in 'A'..'J' or 'R' is unchanged |
| SubstitutionCodec.Substituted | RTEncryptionV3.java:129-141 | `converter` keeps the length, turns each digit into its letter and each separator into 'R', and leaves every other unit unchanged |
| SubstitutionCodec.Restored | RTEncryptionV3.java:150-166 | `deconverter` keeps the length, turns each letter 'A'..'J' into its digit and each 'R' into the separator, and leaves every other unit unchanged |
| SubstitutionCodec.RestoreSubstituted | RTEncryptionV3.java:129-166 | `deconverter(converter(x)) == x` for every x that contains none of 'A'..'J' and 'R' |
| SubstitutionCodec.Converter | RTEncryptionV3.java:129-141 | the loop appends each unit's image under `hm` (or the unit itself) to `cnv`, giving `Substituted(a)` |
| SubstitutionCodec.Deconverter | RTEncryptionV3.java:150-166 | builds `rev`, then appends each unit's image under `rev` (or the unit itself), giving `Restored(a)` |
| SubstitutionCodec.Serialize | RTEncryptionV3.java:96-105 | Block 1 of `Midencrypt` leaves `ascii` holding a separator before each character's decimal code, i.e. a separator followed by the codes joined by the separator |
| SubstitutionCodec.MidEncrypt | RTEncryptionV3.java:90-120 | `Midencrypt` returns "NULVAL" for a blank input, and otherwise `converter` applied to the decimal codes joined by the separator, with the leading separator cut off |
| SubstitutionCodec.MidDecrypt | RTEncryptionV3.java:181-209 | `Middecrypt` deconverts, splits on the separator and narrows each parsed segment to a character; it returns null as soon as a segment fails to parse |
| SubstitutionCodec.EncodingSentinelIffBlank | RTEncryptionV3.java:93-95 | `Midencrypt` returns "NULVAL" exactly when every unit is at or below U+0020, the empty string included, and a text otherwise |
| SubstitutionCodec.SerializedShape | RTEncryptionV3.java:102-114 | the joined codes of a non-empty text contain only digits and separators, start and end with a digit, and hold one separator fewer than s has characters |
| SubstitutionCodec.EncodingShape | RTEncryptionV3.java:63-114 | for non-blank s, `Midencrypt(s)` uses only 'A'..'J' and 'R', contains one 'R' fewer than s has characters, and neither starts nor ends with 'R' |
| SubstitutionCodec.SubstitutedShape | RTEncryptionV3.java:114-141 | `converter` on digits and separators that start and end with a digit writes only code letters, one 'R' per separator and none at either end |
| SubstitutionCodec.SubstitutedLetters | RTEncryptionV3.java:129-141 | `converter` writes a text of digits and separators entirely in code letters, with an 'R' exactly where a separator was |
| SubstitutionCodec.SubstitutedCount | RTEncryptionV3.java:129-141 | `converter` turns the separators of a text of digits and separators into exactly as many 'R's |
| SubstitutionCodec.RestoreWithin | RTEncryptionV3.java:129-166 | `deconverter` undoes `converter` on every text of digits and separators |
| SubstitutionCodec.CharactersMeaning | RTEncryptionV3.java:199-203 | the decoding loop succeeds exactly when every segment parses; it then yields one character per segment, the segment's value narrowed |
| SubstitutionCodec.CharactersFailureSticks | RTEncryptionV3.java:197-207 | once one segment fails to parse, the whole of Block 2 fails |
| SubstitutionCodec.DecodingFailsIff | RTEncryptionV3.java:197-208 | `Middecrypt` returns null exactly when some segment of the split, deconverted input is not an int numeral |
| SubstitutionCodec.CharactersOfCodes | RTEncryptionV3.java:199-203 | parsing and narrowing each character's decimal code gives the character back |
| SubstitutionCodec.SplitSerialized | RTEncryptionV3.java:198 | splitting the joined codes on the separator gives back each character's numeral |
| SubstitutionCodec.RoundTrip | RTEncryptionV3.java:90-209 | `Middecrypt(Midencrypt(s)) == s` for every non-blank s |
| SubstitutionCodec.EncodeLetterA | RTEncryptionV3.java:102-114 | "A" (code 65) encodes as "GF" |
| SubstitutionCodec.DecodeEmptyFails | RTEncryptionV3.java:197-208 | the empty string decodes to null: it splits into one empty segment, which does not parse |
| SubstitutionCodec.DecodeMalformedFails | RTEncryptionV3.java:197-208 | "GX" deconverts to "6X", which does not parse, so it decodes to null |
| KeyEmbeddingCodec.Product | RTEncryptionV2.java:67-72 | with the key in [10, 99], `temp * key` is at most 65535 * 99, fits in an int, and divides back exactly to the code |
| KeyEmbeddingCodec.Serialize | RTEncryptionV2.java:65-74 | Block 1 of `asciiencrypt` leaves `envval` holding the products joined by the separator, followed by one more separator |
| KeyEmbeddingCodec.MixKey | RTEncryptionV2.java:87-96 | the key-mixing loop copies `encval` and inserts the key's digits before index d when d is an index, so the result is `encval` with the key spliced in or `encval` itself |
| KeyEmbeddingCodec.MixedStep | RTEncryptionV2.java:89-95 | one iteration of the key-mixing loop extends the mixed prefix by the next unit, with the key placed before it when `count` equals d |
| KeyEmbeddingCodec.AsciiEncrypt | RTEncryptionV2.java:56-102 | `asciiencrypt` returns "NullValue" for blank input; otherwise "ERRBL2~" when the last unit of `encval` is not a digit, else `encval` with the key mixed in at that digit |
| KeyEmbeddingCodec.ExtractKey | RTEncryptionV2.java:127-139 | the Block 1 loop of `asciidecrypt` puts the units at d and d + 1 into `key` (null when d is not an index) and every other unit into `tmp1` |
| KeyEmbeddingCodec.DivideParts | RTEncryptionV2.java:152-159 | the Block 2 loop parses each non-empty part, divides it by the key and narrows it, and fails once a part does not parse or the key is zero |
| KeyEmbeddingCodec.AsciiDecrypt | RTEncryptionV2.java:119-166 | `asciidecrypt` returns "NullValue" for blank input, "ERRBL1~" when the last unit is not a digit, "ERRBL2~" when the key is null or unparsable or a part fails, and otherwise the quotients |
| KeyEmbeddingCodec.QuotientsFailureSticks | RTEncryptionV2.java:153-159 | once one part fails, the whole of Block 2 fails |
| KeyEmbeddingCodec.EncryptionSentinelIffBlank | RTEncryptionV2.java:58-60 | `asciiencrypt` returns "NullValue" exactly when every unit is at or below U+0020, the empty string included |
| KeyEmbeddingCodec.DecryptionSentinelIffBlank | RTEncryptionV2.java:121-123 | `asciidecrypt` returns "NullValue" exactly when every unit is at or below U+0020, the empty string included |
| KeyEmbeddingCodec.DecryptionBlock1Iff | RTEncryptionV2.java:130-143 | `asciidecrypt` fails in Block 1 exactly when the input is not blank and its last unit is not an ASCII digit |
| KeyEmbeddingCodec.OneUnitSeparatorProductText | RTEncryptionV2.java:79-86 | with a one-unit separator, cutting one unit off removes exactly the trailing separator, so `encval` ends in the last digit of the last product and the check digit is in 0..9 |
| KeyEmbeddingCodec.LiteralSeparatorFails | RTEncryptionV2.java:39-100 | with the two-unit separator as written, `encval` ends in 'ß' and `asciiencrypt` fails in Block 2 for every non-blank input and every key |
| KeyEmbeddingCodec.EncryptionMixesAtLastDigit | RTEncryptionV2.java:79-96 | with a one-unit separator, `asciiencrypt` returns `encval` with the key mixed in at the last digit of the last product |
| KeyEmbeddingCodec.ExtractMixed | RTEncryptionV2.java:87-139 | after the key is inserted at an index d, the result is two units longer with an unchanged last unit, and decoding's Block 1 takes back exactly the key's digits and the original `encval` |
| KeyEmbeddingCodec.EndsInDigitNotBlank | RTEncryptionV2.java:121 | a text whose last unit is a digit is not blank, so decoding passes the "NullValue" check |
| KeyEmbeddingCodec.QuotientsOfProducts | RTEncryptionV2.java:153-159 | dividing each product by the key that made it, and narrowing, gives the original text back |
| KeyEmbeddingCodec.RecoverProducts | RTEncryptionV2.java:148-160 | Block 2, given the key's digits and the products joined by a one-unit separator that is not an ASCII digit, returns the original text |
| KeyEmbeddingCodec.DecryptionAtDigit | RTEncryptionV2.java:119-150 | a text whose last unit is the digit d passes the blank check and Block 1's check-digit parse, and goes on to Block 2 with the key digits at d and the rest |
| KeyEmbeddingCodec.DecryptMixed | RTEncryptionV2.java:119-166 | decoding the products with the key mixed in at the last digit of the last product gives the text back |
| KeyEmbeddingCodec.RoundTrip | RTEncryptionV2.java:56-166 | `asciidecrypt(asciiencrypt(s)) == s` for non-blank s, a key in [10, 99], a one-unit separator that is not an ASCII digit, and a check digit that is an index of `encval` |
| KeyEmbeddingCodec.KeyLostFails | RTEncryptionV2.java:89-164 | when the check digit is not an index of `encval`, encoding returns `encval` without the key, and decoding that fails in Block 2 because `key` stays null |
| KeyEmbeddingCodec.IntendedSeparatorRoundTrip | RTEncryptionV2.java:39 | with the separator U+07C0 named in the comment, the codec round-trips whenever the key was inserted |
| KeyEmbeddingCodec.KeyLostExample | RTEncryptionV2.java:85-96 | "A" under key 13 encodes as "845": check digit 5 lies past the end, so the key is lost and decoding fails in Block 2 |
| KeyEmbeddingCodec.GreetingRoundTrip | RTEncryptionV2.java:56-166 | "Hi" under key 10 encodes with the key at the front (last product 1050) and decodes back to "Hi" |

## Left out

- `SecureRandom`, the key source (RTEncryptionV2.java:66-67), is not modelled. The key is a parameter with `10 <= key <= 99`.
- The `main` demonstration methods and all `System.err` logging are not modelled, because they are console I/O only.
- The exception text after the "ERRBL1~" and "ERRBL2~" tags is not modelled. Only the tag is kept, as `Err(Block1)` or `Err(Block2)`.
- Null inputs are not modelled, because a Dafny sequence is never null. `Midencrypt`, `asciiencrypt` and `asciidecrypt` call `trim()` before their null check, so a null input throws out of them. `Middecrypt` never calls `trim()`: with a null input the exceptions in `deconverter` (line 189) and in `split` (line 198) are both caught, and it returns null.
- The "ERRBL1~" path of `asciiencrypt` (RTEncryptionV2.java:75-78) has no model, because its loop cannot throw: `charAt` stays within bounds, and neither int `*` nor `append` throws. What `Product` adds is that no product wraps around.
- JavaText.ParseInt accepts only ASCII digits. Java's `Integer.parseInt` also accepts other Unicode decimal digits, which only malformed decode input can contain. The intended V2 separator U+07C0 (NKo digit zero) is itself such a digit, so for input that ends in it, or whose key digits include it, `KeyEmbeddingCodec.DecryptionBlock1Iff` and `Decryption` depart from Java. For example, on "1" followed by U+07C0 the model reports a Block 1 error. Java instead reads check digit 0 and key 10, and returns the empty string. The round trip is unaffected, because encoded text ends in an ASCII digit and its key digits are ASCII.
- JavaText.Split treats the separator literally. Java's `split` takes a regular expression, but neither separator ('ɯ', "ß€", U+07C0) contains a metacharacter.
- Surrogate pairs and code points above U+FFFF are not modelled separately. The source works on UTF-16 code units, and so does the model.
- KeyEmbeddingCodec.AsciiDecrypt requires a non-empty separator. `split` with an empty separator is not used by the source.
- The separator of `Midencrypt` is not a parameter. The V3 separator is a single unit, so only the constant is modelled.

## Findings

| source | as written | input that shows it | evidently intended | confidence | as-written member | corrected member |
|---|---|---|---|---|---|---|
| RTEncryptionV2.java:39 | the separator is the two-unit string "ß€" (U+00DF U+20AC). Line 79 cuts off only one unit, so `encval` ends in 'ß', `parseInt` at line 86 throws, and `asciiencrypt` returns "ERRBL2~" | any non-blank input: "A" with key 10 gives `envval` "650ß€", `encval` "650ß", and the result "ERRBL2~…" | the single unit U+07C0 that the comment names ("ß€" is how its UTF-8 bytes DF 80 read in a Windows-1252 editor) | not executed | KeyEmbeddingCodec.LiteralSeparatorFails | KeyEmbeddingCodec.IntendedSeparatorRoundTrip |
