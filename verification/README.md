# Verified model of the iRODS REST client's token stack, connection pool and text codecs

The iRODS REST service authenticates a client with HTTP Basic credentials, hands it a signed JSON web token, and from
then on serves the client's requests over iRODS connections that it caches under that token. This project models the
self-contained logic underneath and proves what it is for.

* **JSON** (`Json*.dfy`): the value type, serializer and recursive-descent parser of picojson. `JsonValue` and
  `JsonGrammar` say what is written and read, as functions of plain byte strings and an index. `JsonWriter`,
  `JsonReader` and `JsonParser` are the code as it runs: an output iterator, a reader whose cursor lags one byte behind
  and can push that byte back, and mutually recursive methods, each proved against those functions. `JsonLayout` says
  what the text looks like, character by character, and `JsonTexts` proves that the parser decides a declarative grammar;
  `JsonNumbers`, `JsonEscapes`, `JsonRoundTrip` and `JsonContexts` hold the other laws.
* **base64 and base64url** (`Base64*.dfy`): both codecs at once, for any alphabet and fill string; the loops, the round
  trip, an exact account of which texts are accepted and which of them mean the same bytes, and the texts as digits in
  base 64.
* **JWT** (`Jwt*.dfy`): building, taking apart and verifying tokens, the token of the auth endpoint, and the theorem
  that stacks the three layers: what was signed is what is read back and accepted. `JwtAcceptance` says what an accepted
  token is known to say.
* **The connection pool** (`Pool*.dfy`): `Pool` has the entries, `get`, the two stores of a release, and the sweep as a
  class that changes a map in place. `PoolRuns` turns them into a transition system in which any number of callers, the
  releases and the sweeper interleave, and proves invariants and idle-time guarantees over all runs. `PoolCache` joins
  the pool to the token stack: whose connection does a cached key lead to? `PoolAccess` says what was verified before a
  connection is handed out and what is not verified again, `PoolSweeps` what a sweep achieves under interleaving, and
  `PoolDraws` when calls that are not to be cached get in each other's way.
* **The edges of a request** (`BasicAuth`, `AuthHeader`, `UrlDecode`, `Paging`): the second, table-driven base64 decoder
  and the Basic credentials, the token taken out of a header, URL decoding, and offset/limit paging.

Conventions. A `std::string` is a sequence of bytes 0 to 255. Where the source throws, a result type has a case for it.
A method proved equal to a function of its inputs is listed with what that function means; the theorems about the
function are then theorems about the method. A keyed hash is an arbitrary function from data to an optional byte
string, so every result about tokens holds for every key. Clocks, random bytes and the success of a login are
parameters.

Some claims that one would like to make are false of the code; in each case the exact condition is proved.

* An entry is not always released: if making a connection throws, its entry stays in use without a connection for
  ever, and the key is refused from then on (`InUseIffHeldOrFailed`, `FailedKeyStaysBusy`).
* A cached connection does not always belong to the user whom the presented token names. The key is the token followed
  by the hint with nothing between them, so a cut token with the rest put in front of the hint is served unverified
  (`CutTokenServed`). It does belong to that user exactly when the presented token decodes, whatever else has been
  presented to the pool (`CacheAgreement`).
* A token that the verifier rejects is not always refused: past its expiry it is still served, exactly while its entry
  is connected and free (`ExpiredServedIff`, `ExpiredTokenServed`).
* The two parse contexts do not accept the same texts: they do exactly when no number that validating reads overflows
  (`SameAcceptance`).
* A serialized bare integer is not read back when a number character follows it (`JsonRoundTrip.RoundTrip`).
* base64 decoding is not injective: unused low bits of the last symbol are dropped (`ReencodesIffCanonical`,
  `DecodeEqualIff`).
* Basic credentials are not read back when the user name has a colon (`CredentialsRoundTrip`).

## Model

| member | source | states |
|---|---|---|
| `Bytes.Sorted` | jwt-cpp/picojson.h:607-620 | the keys of an object in the order its `std::map` yields them: each exactly once, ascending in `std::string` order |
| `Bytes.LessByIndex` | jwt-cpp/picojson.h:607-620 | `std::string`'s `<`, stated without recursion: up to some index the two are the same, and there the first ends or has the smaller byte |
| `Bytes.SortedByIndex` | jwt-cpp/picojson.h:607-620 | so one index decides between any two keys in map order |
| `JsonWriter.WriteString` | jwt-cpp/picojson.h:522-557 | what is appended is the quoted, escaped text that `StringReadsBack` shows to be read back |
| `JsonWriter.WriteValue` | jwt-cpp/picojson.h:574-637 | the recursive writer appends exactly the value's text at that indentation and touches nothing before it |
| `JsonWriter.WriteArray` | jwt-cpp/picojson.h:579-601 | separators, indentation and elements of an array are appended in order |
| `JsonWriter.WriteObject` | jwt-cpp/picojson.h:602-629 | keys, separators, indentation and members of an object are appended in key order |
| `JsonWriter.Serialize` | jwt-cpp/picojson.h:563-565 | the text of a value, compact or pretty, as the function that `JsonRoundTrip.RoundTrip` inverts |
| `JsonLayout.LiteralTexts` | jwt-cpp/picojson.h:473-478 | null, true and false as these words |
| `JsonLayout.DigitByPosition` | jwt-cpp/picojson.h:480-484 | counted from the right, each digit written stands for its power of ten |
| `JsonLayout.DigitsNeeded` | jwt-cpp/picojson.h:480-484 | no more digits are written than the number needs |
| `JsonLayout.IntegerText` | jwt-cpp/picojson.h:480-484 | a minus sign before the digits of a negative number; the range is that of 63 bits and a sign |
| `JsonLayout.EscapedAs` | jwt-cpp/picojson.h:522-550 | the escape of each byte, character by character |
| `JsonLayout.StringText` | jwt-cpp/picojson.h:552-557 | a string is escaped byte by byte, between quotes |
| `JsonLayout.ArrayLayout` | jwt-cpp/picojson.h:579-601 | brackets around the joined elements; in pretty mode each on a line of its own, indented by two spaces a level, and the closing bracket on the line after |
| `JsonLayout.ObjectLayout` | jwt-cpp/picojson.h:602-629 | braces around the joined members, in the one order in which an index decides between any two keys; key, colon, a space in pretty mode, value |
| `JsonLayout.SerializedLayout` | jwt-cpp/picojson.h:563-572 | compact text is the bare layout, pretty text the layout at level 0 and a line feed |
| `JsonReader.Input.GetC` | jwt-cpp/picojson.h:654-667 | the lagging cursor with its consumed flag refines a plain index; `line()` is one more than the line feeds before the cursor |
| `JsonReader.Input.UngetC` | jwt-cpp/picojson.h:668-670 | the byte just read will be read again |
| `JsonReader.Input.Cur` | jwt-cpp/picojson.h:671-678 | the position handed out is the plain index; the line count is left as it was, even when a line feed is passed |
| `JsonReader.Input.SkipBlanks` | jwt-cpp/picojson.h:682-690 | ends at the first byte that is not blank |
| `JsonReader.Input.ExpectByte` | jwt-cpp/picojson.h:691-698 | on failure only the blanks are consumed |
| `JsonReader.Input.MatchBytes` | jwt-cpp/picojson.h:699-707 | on failure the mismatching byte is not consumed |
| `JsonGrammar.HexValueExact` | jwt-cpp/picojson.h:716-724 | a character has a hexadecimal value exactly when it stands in the table of upper-case or of lower-case digits, and then its place there |
| `JsonGrammar.SpacesExact` | jwt-cpp/picojson.h:685-685 | the blanks are space, tab, line feed and carriage return |
| `JsonGrammar.QuadHex` | jwt-cpp/picojson.h:710-729 | four hexadecimal digits are a 16-bit code; a bad digit stops the reader in front of it |
| `JsonGrammar.NumberEnd` | jwt-cpp/picojson.h:849-867 | the longest run of number characters |
| `JsonGrammar.StringStepAt` | jwt-cpp/picojson.h:772-811 | every round of the string loop that does not fail consumes a byte |
| `JsonGrammar.StringBody` | jwt-cpp/picojson.h:772-811 | a string that is read consumes at least its closing quote |
| `JsonGrammar.ParseValue` | jwt-cpp/picojson.h:869-921 | the mutually recursive parser terminates on every byte string, and each success consumes at least one byte |
| `JsonGrammar.ParseItems` | jwt-cpp/picojson.h:813-828 | the same for the array loop |
| `JsonGrammar.ParseMembers` | jwt-cpp/picojson.h:830-847 | the same for the object loop, where a repeated key overwrites |
| `JsonParser.ReadQuadHex` | jwt-cpp/picojson.h:710-729 | the loop over the push-back reader ends where the index-based scan ends, with the same code |
| `JsonParser.PushCodePoint` | jwt-cpp/picojson.h:752-769 | the nested pushes give the bytes that `PushedBytesAreUtf8` shows to be UTF-8 |
| `JsonParser.ReadCodePoint` | jwt-cpp/picojson.h:731-770 | accepts, rejects and stops where the index-based grammar does |
| `JsonParser.ReadString` | jwt-cpp/picojson.h:772-811 | the same for strings |
| `JsonParser.ReadNumber` | jwt-cpp/picojson.h:849-867 | returns the number characters and leaves the reader in front of the next byte |
| `JsonParser.ParseNumber` | jwt-cpp/picojson.h:891-916 | an int64 where the text is one, else a double, else a syntax error; building an infinite double throws |
| `JsonParser.Parse` | jwt-cpp/picojson.h:869-921 | the recursive parser on the push-back reader refines the grammar on a plain index: same verdict, value and position, line count exact |
| `JsonParser.ParseArray` | jwt-cpp/picojson.h:813-828 | the same for arrays |
| `JsonParser.ParseObject` | jwt-cpp/picojson.h:830-847 | the same for objects |
| `JsonParser.ParseRange` | jwt-cpp/picojson.h:1072-1088 | no error on success; on failure the error has the printable rest of the line where parsing stopped and that line's number (a line feed just read is counted or not), and the position returned is after that line |
| `JsonParser.NearIsLine` | jwt-cpp/picojson.h:1078-1085 | what an error quotes are the visible characters up to the end of the line, and the reader stops behind it |
| `JsonTexts.StepExactly` | jwt-cpp/picojson.h:772-811 | one round of the string loop reads exactly an unescaped character, a one-letter escape or the escape of a scalar value, as the bytes it stands for; control characters and other escapes are rejected |
| `JsonTexts.ValueSound` | jwt-cpp/picojson.h:813-921 | every text that the parser accepts is in the declarative grammar, with the value that the parser built: no trailing comma, no missing bracket, no number cut off |
| `JsonTexts.ValueComplete` | jwt-cpp/picojson.h:813-921 | every text of the grammar is accepted with its value, wherever it stands, with any blanks between its parts and any escapes in its strings; a repeated key overwrites |
| `JsonTexts.ParsesExactly` | jwt-cpp/picojson.h:813-921 | hence `_parse` accepts a text as a value up to an index if and only if the grammar reads it so |
| `JsonTexts.ReadsOnce` | jwt-cpp/picojson.h:813-921 | so the grammar is unambiguous: a text begins with at most one value, and it ends at one place |
| `JsonNumbers.NumberCharsAre` | jwt-cpp/picojson.h:853-856 | the characters of numbers |
| `JsonNumbers.DigitsValueJoins` | jwt-cpp/picojson.h:902-902 | digits denote a number in base ten |
| `JsonNumbers.IntegerExactly` | jwt-cpp/picojson.h:900-908 | a text is an integer if and only if it is a sign and digits that denote a number of 64 bits, and then that number |
| `JsonNumbers.DoubleExactly` | jwt-cpp/picojson.h:910-913 | a text is a double if and only if it is a sign, digits, digits after a point and an exponent, and then its decimal value |
| `JsonNumbers.IntegersRead` | jwt-cpp/picojson.h:899-913 | an integer is read as an integer when it fits 64 bits, and otherwise as the double of that value |
| `JsonNumbers.OverflowThreshold` | jwt-cpp/picojson.h:238-252 | a decimal overflows from halfway between the largest double and the next power of two on |
| `JsonRoundTrip.StringReadsBack` | jwt-cpp/picojson.h:522-557 | the parser's string loop undoes the serializer's escapes, for every byte string |
| `JsonRoundTrip.IntegerReadsBack` | jwt-cpp/picojson.h:480-484 | the decimal text of every int64 is one whole number for `strtoimax`, and that number |
| `JsonRoundTrip.ValueReadsBack` | jwt-cpp/picojson.h:869-921 | a value's text, standing anywhere in a text at any indentation, is read back as the value and the reader stops at its end |
| `JsonRoundTrip.ArrayReadsBack` | jwt-cpp/picojson.h:813-828 | the same for arrays, empty or not |
| `JsonRoundTrip.ItemsReadBack` | jwt-cpp/picojson.h:813-828 | from any element on, the array loop reads the remaining elements |
| `JsonRoundTrip.ObjectReadsBack` | jwt-cpp/picojson.h:830-847 | the same for objects |
| `JsonRoundTrip.MembersReadBack` | jwt-cpp/picojson.h:830-847 | from any member on, the object loop reads the remaining members |
| `JsonRoundTrip.RoundTrip` | jwt-cpp/picojson.h:522-642 | parsing a serialization followed by any rest gives the value and stops at the rest (pretty: before the final line feed), if and only if it is not a compact bare integer that the rest continues |
| `JsonRoundTrip.SerializedInjective` | jwt-cpp/picojson.h:574-642 | different values have different texts |
| `JsonContexts.ContextsAgree` | jwt-cpp/picojson.h:959-1063 | validating ends in the same verdict at the same position as building, unless building throws |
| `JsonContexts.OverflowExactly` | jwt-cpp/picojson.h:238-252 | building throws if and only if one of the numbers that validating reads is a double that overflows; runs of number characters inside strings, or in the tail of a number, do not matter |
| `JsonContexts.SameAcceptance` | jwt-cpp/picojson.h:959-1063 | the two contexts accept or reject alike, at the same position, if and only if no number that validating reads overflows |
| `JsonEscapes.PushedBytesAreUtf8` | jwt-cpp/picojson.h:752-769 | for every Unicode scalar value the pushed bytes are a shortest-form UTF-8 sequence that decodes to it |
| `JsonEscapes.HexCodeOfDigits` | jwt-cpp/picojson.h:710-729 | four digits of either case are the number they denote in base 16 |
| `JsonEscapes.HexCodeNeedsDigits` | jwt-cpp/picojson.h:710-729 | no other four characters are a code |
| `JsonEscapes.QuadHexReadsCode` | jwt-cpp/picojson.h:710-729 | four digits of either case are read, as the number they denote, and nothing else is |
| `JsonEscapes.EscapesExact` | jwt-cpp/picojson.h:731-770 | an escape is accepted if and only if it spells a scalar value, as one code or as a surrogate pair, and then exactly its bytes are pushed |
| `JsonEscapes.SpelledOnce` | jwt-cpp/picojson.h:731-770 | a text spells at most one scalar value |
| `JsonEscapes.PairRead` | jwt-cpp/picojson.h:736-751 | two codes with "\u" between them are read as the scalar value whose halves they are |
| `JsonEscapes.LoneSurrogatesRejected` | jwt-cpp/picojson.h:736-751 | a second half without a first and a first half without a second are rejected |
| `Base64.VariantsUsable` | jwt-cpp/base.h:7-34 | both alphabets have 64 distinct symbols, none of them the first character of the fill; base64url has neither '.' nor '%' |
| `Base64Digits.AlphabetsAreTables` | jwt-cpp/base.h:7-34 | the k-th symbol of each alphabet is that of tables 1 and 2 of RFC 4648 |
| `Base64Digits.FillsAre` | jwt-cpp/base.h:16-19 | the fills are "=" and "%3d" |
| `Base64.Sextet` | jwt-cpp/base.h:120-126 | a byte has an index exactly when it is a symbol |
| `Base64Codec.Encode` | jwt-cpp/base.h:49-97 | the index-driven loop and the last block give the text that `Base64Laws.RoundTrip` inverts, for any alphabet and fill |
| `Base64Digits.SymbolsAreDigits` | jwt-cpp/base.h:49-97 | the symbols of a byte string are the base-64 digits of the number that its bytes are the base-256 digits of, shifted to fill the last one; with their number this determines each |
| `Base64Digits.UrlSafeBody` | jwt-cpp/base.h:21-34 | the base64url symbols are the standard ones with '-' for '+' and '_' for '/' (section 5 of RFC 4648) |
| `Base64Codec.GetGroup` | jwt-cpp/base.h:131-139 | the shifted sextets add up to the 24-bit group, and one byte that is no symbol spoils it |
| `Base64Codec.Decode` | jwt-cpp/base.h:99-166 | fill stripping, block loop and last block give what the recursive decoder gives, including every rejection |
| `Base64Laws.BodyDecodes` | jwt-cpp/base.h:129-165 | the symbols of any byte string, without their fills, decode to it |
| `Base64Laws.StripFindsBody` | jwt-cpp/base.h:102-111 | taking fills off the end stops exactly where the symbols end |
| `Base64Laws.RoundTrip` | jwt-cpp/base.h:49-166 | decoding undoes encoding, for every byte string and every usable alphabet and fill |
| `Base64Shape.AcceptsExactly` | jwt-cpp/base.h:99-126 | a text is accepted if and only if it is symbols followed by the 0, 1 or 2 fills that its length calls for |
| `Base64Shape.Reencoded` | jwt-cpp/base.h:146-165 | encoding what was decoded gives the text with the unused bits of its last symbol cleared |
| `Base64Shape.ReencodesIffCanonical` | jwt-cpp/base.h:146-165 | an accepted text is its own re-encoding if and only if those bits are zero |
| `Base64Shape.DecodeEqualIff` | jwt-cpp/base.h:99-166 | two accepted texts decode to the same bytes if and only if they differ at most in those bits |
| `BasicAuth.DecodeWithTable` | irods_specific_implementation/irods_rest_auth_api_implementation.h:62-110 | both advancing indices stay in range, and the buffer ends up holding the first bytes of the decoded blocks, cut to the output length |
| `BasicAuth.PutBlock` | irods_specific_implementation/irods_rest_auth_api_implementation.h:104-106 | the guarded stores of a round put three bytes, or as many as the buffer still takes, after the earlier ones |
| `BasicAuth.DecodersAgree` | irods_specific_implementation/irods_rest_auth_api_implementation.h:62-110 | on every non-empty text that `base::decode` accepts, canonical or not, the table-driven decoder gives the same bytes |
| `BasicAuth.TableRoundTrip` | irods_specific_implementation/irods_rest_auth_api_implementation.h:62-110 | the table-driven decoder undoes `base::encode` on every non-empty byte string |
| `BasicAuth.EntryIs` | irods_specific_implementation/irods_rest_auth_api_implementation.h:64-101 | a symbol counts as its place in the alphabet, a '=' as nothing, and every other character as 64, in the table and in the decoder |
| `BasicAuth.TableTakesAll` | irods_specific_implementation/irods_rest_auth_api_implementation.h:85-107 | the table-driven decoder refuses only a length that is no multiple of four; a '=' anywhere counts as an 'A', and each of the last two takes a byte off |
| `BasicAuth.CredentialsRoundTrip` | irods_specific_implementation/irods_rest_auth_api_implementation.h:112-148 | for a scheme without spaces, the header for a user and a password is read back as these three if and only if the user name has no colon; the password may have any bytes |
| `BasicAuth.BasicHeaderText` | irods_specific_implementation/irods_rest_auth_api_implementation.h:112-148 | that header is the scheme, a space and the base64 text of user name, colon and password |
| `BasicAuth.HeaderNeedsSpace` | irods_specific_implementation/irods_rest_auth_api_implementation.h:120-123 | a header is refused exactly when it has no space |
| `BasicAuth.SpaceEndsScheme` | irods_specific_implementation/irods_rest_auth_api_implementation.h:120-128 | the first space ends the scheme, and the rest is the token |
| `BasicAuth.CredentialsWithoutColon` | irods_specific_implementation/irods_rest_auth_api_implementation.h:142-143 | without a colon, both the user name and the password are the whole credentials |
| `JwtBuilder.CopyClaims` | jwt-cpp/jwt.h:1335-1341 | copying claims one by one, in any order, gives the earlier members overridden by the claims |
| `JwtBuilder.EncodeSegment` | jwt-cpp/jwt.h:1343-1348 | encoding and cutting at the first fill, as the segment that `SegmentRoundTrip` inverts |
| `JwtBuilder.FixPadding` | jwt-cpp/jwt.h:1139-1165 | the fall-through switch appends exactly the missing fills |
| `JwtBuilder.Builder.SetHeaderClaim` | jwt-cpp/jwt.h:1244-1244 | one header claim is set and nothing else changes |
| `JwtBuilder.Builder.SetPayloadClaim` | jwt-cpp/jwt.h:1251-1251 | one payload claim is set and nothing else changes |
| `JwtBuilder.Builder.Sign` | jwt-cpp/jwt.h:1332-1356 | the token is the function of claims and algorithm that `SignedTokenDecodes` inverts, and there is none when the hash fails |
| `JwtAcceptance.SignedText` | jwt-cpp/jwt.h:1343-1355 | a token is three segments with dots between them: header, payload, and the signature of the first two |
| `JwtAcceptance.SignedHeader` | jwt-cpp/jwt.h:1333-1337 | the decoded header has the header claims, and the algorithm's name unless they give one |
| `JwtBuilder.ReadClaims` | jwt-cpp/jwt.h:1174-1183 | claims from a text that begins with a JSON object; separate failures for bad syntax, a non-object and an overflowing number |
| `JwtAcceptance.ClaimsExactly` | jwt-cpp/jwt.h:1174-1183 | the claims in a text are exactly the object that the grammar reads at its beginning; another value there is refused as no object |
| `JwtBuilder.Decode` | jwt-cpp/jwt.h:1125-1187 | the split, decoded and parsed token, or the first failure in the order in which the constructor would throw |
| `JwtAcceptance.TokenNeedsDots` | jwt-cpp/jwt.h:1128-1133 | a token is refused for its form exactly when it has fewer than two dots |
| `JwtRoundTrip.SegmentIsBody` | jwt-cpp/jwt.h:1343-1348 | cutting at the first "%3d" leaves exactly the symbols |
| `JwtRoundTrip.SegmentSymbols` | jwt-cpp/jwt.h:1343-1348 | a segment has neither a dot nor a percent sign |
| `JwtRoundTrip.SegmentRoundTrip` | jwt-cpp/jwt.h:1139-1172 | encoding, cutting the fills, restoring them and decoding is the identity on all byte strings |
| `JwtRoundTrip.SignatureShape` | jwt-cpp/jwt.h:1355-1355 | a 32-byte signature is a segment of 43 characters without dots |
| `JwtRoundTrip.SplitJoined` | jwt-cpp/jwt.h:1128-1136 | joining two dot-free parts and any third with dots, and splitting at the first two dots, gives the parts back |
| `JwtRoundTrip.SignedTokenDecodes` | jwt-cpp/jwt.h:1125-1187 | for all double-free claims, decoding a signed token gives exactly the payload claims, the header claims plus "alg", the signature, and the signing input |
| `JwtRoundTrip.SignedInjective` | jwt-cpp/jwt.h:1332-1356 | tokens signed from different claims are different |
| `JwtVerifier.CheckSignature` | jwt-cpp/jwt.h:182-197 | the loop that never stops early accepts exactly the recomputed signature; "none" accepts exactly the empty one |
| `JwtVerifier.AsSet` | jwt-cpp/jwt.h:861-869 | the set of strings of an array of strings, and nothing else |
| `JwtVerifier.SetsMatch` | jwt-cpp/jwt.h:1490-1499 | the paired walk over two ordered sets decides set equality |
| `JwtAcceptance.ClaimMetExactly` | jwt-cpp/jwt.h:1479-1545 | what each required claim asks, member by member: the same string or date; an array of exactly the same strings; for the audience, each required string among the token's; for the times, nothing more |
| `JwtAcceptance.WindowExactly` | jwt-cpp/jwt.h:1510-1527 | with a leeway of its own or the default one (an unsigned number taken as signed), a token is in its window from its beginnings less the leeway up to and including its end plus the leeway |
| `JwtAcceptance.TimesAreIntegers` | jwt-cpp/jwt.h:1510-1527 | a time that is no integer is refused, and so is a leeway that is none |
| `JwtVerifier.CheckClaim` | jwt-cpp/jwt.h:1479-1506 | accepts exactly a present claim of the same type and value, for dates, strings and sets of strings |
| `JwtVerifier.CheckAudience` | jwt-cpp/jwt.h:1533-1541 | accepts exactly when the required audience is a subset of the token's |
| `JwtVerifier.CheckTime` | jwt-cpp/jwt.h:1510-1527 | accepts exactly up to and including the bound widened by the leeway |
| `JwtVerifier.Verifier.WithClaim` | jwt-cpp/jwt.h:1453-1453 | one required claim is set and nothing else changes |
| `JwtVerifier.Verifier.AllowAlgorithm` | jwt-cpp/jwt.h:1461-1464 | one algorithm is allowed under its name and nothing else changes |
| `JwtVerifier.Verifier.CheckClaims` | jwt-cpp/jwt.h:1528-1545 | in whatever order the hash map yields them, all required claims are met or the token is rejected |
| `JwtVerifier.Verifier.Verify` | jwt-cpp/jwt.h:1471-1546 | accepts if and only if the algorithm is allowed, the signature is the recomputed one, the time lies in the widened window, and every required claim and audience is met |
| `JwtAcceptance.AcceptedMatches` | jwt-cpp/jwt.h:1479-1506 | an accepted token carries every required string and date with its value, and every required set of strings |
| `JwtAcceptance.AcceptedIsSigned` | jwt-cpp/jwt.h:1472-1477 | an accepted token's signature is the one that the algorithm named in its header gives for its first two parts; with "none" it is empty |
| `JwtEndToEnd.SignDecodeVerify` | jwt-cpp/jwt.h:1332-1546 | sign, decode and verify end to end: the claims come back exactly, and a verifier with the same algorithm accepts if and only if the time window and the required claims hold of the signed payload |
| `JwtEndToEnd.IssueToken` | irods_specific_implementation/irods_rest_auth_api_implementation.h:32-42 | the endpoint's chain of setters gives the signature of the named claim sets |
| `JwtAcceptance.IssuedHeaderText` | irods_specific_implementation/irods_rest_auth_api_implementation.h:32-42 | the header of every issued token is the text {"alg":"HS256","typ":"JWS"} |
| `JwtAcceptance.IssuedClaims` | irods_specific_implementation/irods_rest_auth_api_implementation.h:32-42 | decoded, an issued token has exactly these two header claims and the payload claims iss, sub, aud, nbf, iat and user_name, with the values of the source |
| `JwtEndToEnd.GetUserNameFromKey` | irods_specific_implementation/indexed_connection_pool_with_expiry.hpp:182-197 | the user named in the payload if and only if the token is signed under the key, in time, and from the issuer |
| `JwtAcceptance.UserClaimExactly` | irods_specific_implementation/indexed_connection_pool_with_expiry.hpp:194-196 | a token names a user exactly when it decodes and its payload has that string under "user_name" |
| `JwtAcceptance.PoolAcceptsIssuer` | irods_specific_implementation/indexed_connection_pool_with_expiry.hpp:190-192 | a token that the pool accepts is from the issuer, names HS256, and is signed under the key |
| `JwtAcceptance.OtherIssuerRefused` | irods_specific_implementation/indexed_connection_pool_with_expiry.hpp:190-192 | a token signed under the key but of another issuer, or of none, is refused |
| `JwtEndToEnd.IssuedTokenNamesUser` | irods_specific_implementation/irods_rest_auth_api_implementation.h:32-42 | the token issued for any user name names that user, and is accepted by the pool from the second of its issue on, for ever |
| `Bytes.BlanksAre` | irods_specific_implementation/irods_rest_api_base.h:161-161 | the blanks that are removed are space, tab, line feed, vertical tab, form feed and carriage return |
| `AuthHeader.RemoveBlanks` | irods_specific_implementation/irods_rest_api_base.h:157-162 | the array begins with the characters that are not blank, in order |
| `AuthHeader.TokenOfHeader` | irods_specific_implementation/irods_rest_api_base.h:152-162 | what stands after the first colon, or the whole header when there is none, without its blanks |
| `AuthHeader.ColonEndsName` | irods_specific_implementation/irods_rest_api_base.h:154-154 | the first colon ends the header's name; without a colon the whole header is taken |
| `AuthHeader.TokenReadBack` | irods_specific_implementation/irods_rest_api_base.h:153-162 | a token without colons and blanks is taken out of a header unchanged, with or without the header's name and whatever blanks surround it |
| `AuthHeader.SignedTokenReadBack` | irods_specific_implementation/irods_rest_api_base.h:153-162 | every signed token reaches the pool unchanged |
| `Pool.First` | irods_specific_implementation/indexed_connection_pool_with_expiry.hpp:149-150 | `begin()`: the least key, or the end exactly when the pool is empty |
| `Pool.After` | irods_specific_implementation/indexed_connection_pool_with_expiry.hpp:170-172 | `++itr`: the least greater key, or the end when there is none |
| `Pool.ConnectionPool.Get` | irods_specific_implementation/indexed_connection_pool_with_expiry.hpp:278-310 | granted, busy or connect-failed, with the whole resulting map: only this key changes, a busy call changes nothing, a failed one leaves the entry in use without a connection |
| `PoolDraws.LetterOfByte` | irods_specific_implementation/indexed_connection_pool_with_expiry.hpp:237-240 | each random byte, taken as signed, gives the character that lies its truncated remainder by 26 away from 'a' |
| `PoolDraws.SameHintIff` | irods_specific_implementation/indexed_connection_pool_with_expiry.hpp:232-244 | two draws give the same random hint if and only if they have the same length and, byte by byte, the same remainders |
| `PoolDraws.KeyIs` | irods_specific_implementation/indexed_connection_pool_with_expiry.hpp:280-285 | the key is token and hint, or token, three underscores and one letter for each random byte |
| `PoolDraws.SameKeyIff` | irods_specific_implementation/indexed_connection_pool_with_expiry.hpp:280-285 | for one token, keys not to be cached are the same if and only if the draws agree |
| `PoolDraws.GrantedIff` | irods_specific_implementation/indexed_connection_pool_with_expiry.hpp:289-308 | a connection is handed out if and only if the entry is free, and connected or else the token is accepted, names a user and the login succeeds |
| `PoolDraws.BusyOnlyAfterSameDraw` | irods_specific_implementation/indexed_connection_pool_with_expiry.hpp:291-295 | in every run, a call that is not to be cached is refused as busy only after an earlier fetch of the same key; if that was for the same token without caching, the draws agree |
| `PoolDraws.OverlappingDraws` | irods_specific_implementation/indexed_connection_pool_with_expiry.hpp:278-310 | of two overlapping calls for one accepted token without caching, the second is served, too, if and only if the draws differ in a letter |
| `Pool.ConnectionPool.ReleaseTime` | irods_specific_implementation/indexed_connection_pool_with_expiry.hpp:121-121 | the first store of a release |
| `Pool.ConnectionPool.ReleaseFlag` | irods_specific_implementation/indexed_connection_pool_with_expiry.hpp:122-122 | the second store of a release |
| `Pool.ConnectionPool.VisitEntry` | irods_specific_implementation/indexed_connection_pool_with_expiry.hpp:152-174 | one visit: erase and start over, or move on |
| `Pool.ConnectionPool.Sweep` | irods_specific_implementation/indexed_connection_pool_with_expiry.hpp:147-174 | an uninterrupted sweep terminates and leaves exactly the entries that are in use, or neither older than the cutoff nor marked, with unchanged contents |
| `Pool.VisitProgress` | irods_specific_implementation/indexed_connection_pool_with_expiry.hpp:152-174 | each visit makes the pool smaller or leaves fewer keys to visit, and leaves no expired entry behind the iterator |
| `PoolRuns.StepIsSafe` | irods_specific_implementation/indexed_connection_pool_with_expiry.hpp:110-180 | every step keeps: live proxies have distinct keys, each one's entry is present, in use and connected, the iterator denotes an entry or the end, and an unheld entry is free or stuck |
| `PoolRuns.RunIsSafe` | irods_specific_implementation/indexed_connection_pool_with_expiry.hpp:110-310 | hence so does every reachable state, under all interleavings |
| `PoolRuns.StuckStep` | irods_specific_implementation/indexed_connection_pool_with_expiry.hpp:297-302 | an entry becomes stuck exactly by a failed connection, and then stays so through every step |
| `PoolRuns.StuckIffFailed` | irods_specific_implementation/indexed_connection_pool_with_expiry.hpp:297-302 | in every run, a key is stuck if and only if making its connection has failed before |
| `PoolRuns.InUseIffHeldOrFailed` | irods_specific_implementation/indexed_connection_pool_with_expiry.hpp:289-308 | in every reachable state a key is in use if and only if a live proxy holds it or its connection has failed, and never both |
| `PoolRuns.FailedKeyStaysBusy` | irods_specific_implementation/indexed_connection_pool_with_expiry.hpp:291-302 | after a failed connection every later `get` of that key is refused |
| `PoolRuns.RunKeepsTime` | irods_specific_implementation/indexed_connection_pool_with_expiry.hpp:119-123 | a connected entry's access time is the second of its last fetch or release |
| `PoolRuns.RunKeepsHint` | irods_specific_implementation/indexed_connection_pool_with_expiry.hpp:297-298 | an entry is marked for eviction if and only if its last fetch asked for no caching |
| `PoolRuns.RunKeepsCutoff` | irods_specific_implementation/indexed_connection_pool_with_expiry.hpp:148-148 | with a fixed timeout, the cutoff of a sweep in progress is never later than the current one |
| `PoolRuns.ErasedOnlyWhenIdle` | irods_specific_implementation/indexed_connection_pool_with_expiry.hpp:147-174 | only the sweeper erases, never an entry in use, and an entry last fetched for caching only when strictly more than the timeout has passed since its last fetch or release |
| `PoolRuns.DoNotCacheErasedAtVisit` | irods_specific_implementation/indexed_connection_pool_with_expiry.hpp:155-168 | a released entry whose last fetch asked for no caching is erased at the next visit, whatever its age |
| `PoolCache.TokenRecovered` | irods_specific_implementation/indexed_connection_pool_with_expiry.hpp:280-285 | a token with two dots and a 43-character signature part is recovered from every key made of it |
| `PoolCache.KeysInjective` | irods_specific_implementation/indexed_connection_pool_with_expiry.hpp:280-285 | for such tokens, equal keys mean equal tokens and equal hints |
| `PoolCache.SignedIsWellShaped` | jwt-cpp/jwt.h:1343-1355 | every token signed with a 32-byte hash is one |
| `PoolCache.SignaturePartShape` | jwt-cpp/jwt.h:1136-1172 | a signature part that decodes to 32 bytes has 43 characters and no dot |
| `PoolCache.AcceptedIsWellShaped` | irods_specific_implementation/indexed_connection_pool_with_expiry.hpp:182-197 | with a 32-byte hash, every token that the verifier accepts has two dots and a 43-character signature part |
| `PoolCache.RunKeepsAgreement` | irods_specific_implementation/indexed_connection_pool_with_expiry.hpp:216-230 | with a 32-byte hash, in every reachable state, whatever tokens and hints have been presented: the key of each connection begins with a token of that shape, which names the user the connection was made for |
| `PoolCache.PresentedNamesUser` | irods_specific_implementation/indexed_connection_pool_with_expiry.hpp:280-285 | a token presented under such a key names the same user if and only if it decodes |
| `PoolCache.CacheAgreement` | irods_specific_implementation/indexed_connection_pool_with_expiry.hpp:278-310 | with a 32-byte hash, in every run: the connection that `get` hands out, new or cached, belongs to the user whom the presented token names, if and only if that token decodes |
| `PoolCache.IssuedTokenServesItsUser` | irods_specific_implementation/indexed_connection_pool_with_expiry.hpp:278-310 | with a 32-byte hash, in every run: a token that the auth endpoint issued for a user is only ever served with that user's connection |
| `PoolAccess.RunEarnsConnections` | irods_specific_implementation/indexed_connection_pool_with_expiry.hpp:214-230 | with a 32-byte hash, in every run: the token that the key of a connection begins with was presented, and accepted by the verifier, at an earlier step |
| `PoolAccess.GrantedWasAccepted` | irods_specific_implementation/indexed_connection_pool_with_expiry.hpp:278-310 | hence every granted `get` of a token of that shape presents one that the verifier accepted at that step or an earlier one |
| `PoolAccess.RejectedServedIff` | irods_specific_implementation/indexed_connection_pool_with_expiry.hpp:300-302 | a token that the verifier rejects is served if and only if its key's entry is connected and free |
| `PoolAccess.ExpiredServedIff` | irods_specific_implementation/indexed_connection_pool_with_expiry.hpp:300-302 | the same for a token past its expiry, which the verifier rejects |
| `PoolAccess.ServedAgain` | irods_specific_implementation/indexed_connection_pool_with_expiry.hpp:278-310 | a run in which an accepted token is served and released, and any later token and hint with the same key get that connection |
| `PoolAccess.ExpiredTokenServed` | irods_specific_implementation/indexed_connection_pool_with_expiry.hpp:300-302 | a run in which an expired token is served |
| `PoolAccess.CutTokenServed` | irods_specific_implementation/indexed_connection_pool_with_expiry.hpp:280-285 | a run in which a token cut before its second dot, with the rest put in front of the hint, is served though it does not decode |
| `PoolAccess.IssuedTokenAsHint` | irods_specific_implementation/indexed_connection_pool_with_expiry.hpp:280-285 | in particular, for every user: after the token issued for that user was served and released, an empty token with it in front of the hint gets the connection |
| `PoolSweeps.RunKeepsPending` | irods_specific_implementation/indexed_connection_pool_with_expiry.hpp:145-180 | while a sweep runs and nobody fetches the key, an expired entry is erased or still stands unchanged before the iterator, under all interleavings |
| `PoolSweeps.ErasureStartsOver` | irods_specific_implementation/indexed_connection_pool_with_expiry.hpp:157-172 | a visit that erases sends the iterator back before every entry left; another moves on past this one entry only |
| `PoolSweeps.SweepErases` | irods_specific_implementation/indexed_connection_pool_with_expiry.hpp:145-180 | an entry that is free and expired when a sweep begins, and that nobody fetches before it ends, is gone by then |
| `PoolSweeps.IdleIsErased` | irods_specific_implementation/indexed_connection_pool_with_expiry.hpp:119-174 | so is every unheld connection last fetched without caching, or untouched for more than the timeout in whole seconds |
| `UrlDecode.DecodeUrl` | irods_specific_implementation/irods_rest_api_base.h:177-211 | the loop gives what the recursive decoder gives on every input, including where it throws |
| `UrlDecode.EscapeDecodes` | irods_specific_implementation/irods_rest_api_base.h:185-192 | '%' and two digits of the literal tables, upper or lower case, are the byte they denote, whatever follows |
| `UrlDecode.PlusDecodes` | irods_specific_implementation/irods_rest_api_base.h:203-205 | '+' is a space |
| `UrlDecode.PlainDecodes` | irods_specific_implementation/irods_rest_api_base.h:206-208 | every other character is itself |
| `UrlDecode.BadEscapeThrows` | irods_specific_implementation/irods_rest_api_base.h:193-201 | a '%' near the end, or before a character that is no digit, sign or blank, makes the whole text fail |
| `UrlDecode.DecodeUndoesEncode` | irods_specific_implementation/irods_rest_api_base.h:177-211 | decoding undoes every encoder that escapes at least '%' and '+', in either case of digits, with a space written in any of three ways |
| `UrlDecode.WellFormedDecodes` | irods_specific_implementation/irods_rest_api_base.h:185-201 | when two hex digits follow each '%', decoding never throws and gives a text that the input spells |
| `UrlDecode.SpellsExactly` | irods_specific_implementation/irods_rest_api_base.h:177-211 | a text spells some plain text if and only if it is well formed, and then exactly the decoded one |
| `UrlDecode.DecodeDistributes` | irods_specific_implementation/irods_rest_api_base.h:177-211 | a well-formed beginning is decoded independently of what follows |
| `Paging.ListPage` | irods_specific_implementation/irods_rest_list_api_implementation.h:90-121 | the loop with its `continue` and `break` gives the page that `PageIsSlice` and `FollowedCovers` describe, for every 32-bit offset and limit |
| `Paging.PageIsSlice` | irods_specific_implementation/irods_rest_list_api_implementation.h:90-121 | entry by entry, a page is the listing from the offset to the offset plus the limit, clipped to the listing; a limit that is not positive does not limit, an offset that is not positive skips nothing |
| `Paging.FollowedCovers` | irods_specific_implementation/irods_rest_list_api_implementation.h:53-168 | following `next` from any offset ends after finitely many pages, and yields the rest of the listing, each entry once and in order, if and only if `stoi` accepts the limit and the last offset |
| `Paging.WholeListing` | irods_specific_implementation/irods_rest_list_api_implementation.h:53-168 | from the first page on that is the whole listing, under the same condition, which holds whenever the entries and one page less one together fit 32 bits and the limit does |
| `Paging.PrevUndoesNext` | irods_specific_implementation/irods_rest_list_api_implementation.h:162-175 | `prev` undoes `next` and never goes before the beginning; `next` undoes `prev` if and only if `prev` did not stop at the beginning |

## Left out

- `JsonParser.ParseNumber`: a double keeps the exact decimal value of its text; IEEE rounding is not modelled, and the decimal point is that of the C locale.
- `JsonWriter.WriteValue`: requires a double-free value, because what `snprintf` writes for a double is not part of this model.
- `JsonWriter.WriteArray`: requires double-free elements, for the same reason.
- `JsonWriter.WriteObject`: requires double-free members, for the same reason.
- `JsonWriter.Serialize`: requires a double-free value, for the same reason.
- `JwtBuilder.Builder.Sign`: requires double-free claims, for the same reason.
- `JsonParser.ParseRange`: when parsing stops right after a line feed, it is left open whether that line feed is in the line number; the call without an error string is not modelled.
- What a failed parse leaves in the value it was building, and `picojson::operator==`, which compares int64 values through double; equality here is structural.
- The `deny_parse_context`, stream operators, and picojson's accessors.
- HMAC is an arbitrary function, and a hash of 32 bytes is a hypothesis where it matters. RSA, ECDSA and PSS are not modelled, and no cryptographic strength is claimed.
- `JwtVerifier.CheckTime`: times are unbounded integers, in ticks of a nanosecond; the 64-bit overflow of clock arithmetic for dates and leeways beyond some 292 years from the epoch is not modelled.
- `JwtVerifier.CheckClaim`: required int64 claims are compared as they are; the source first converts them to clock ticks, which overflows beyond the same range.
- `JwtVerifier.Verifier.Verify`: inherits both.
- `JwtEndToEnd.IssueToken`: the two clock readings are parameters, and the login before it is not modelled.
- The iteration order of `std::unordered_map` is arbitrary; nothing proved depends on it. Which of several reasons is reported first may.
- `BasicAuth.DecodeWithTable`: requires a non-empty input of characters below 0x80; the source reads out of range on others.
- The pool's `get` is one atomic step under its lock, and each access without the lock (the start of a sweep, the two stores of a release) is one atomic step too; the C++ memory model is not modelled. The clock never runs backwards within a run. The timeout may change between steps; the idle guarantee is for runs in which it does not.
- The start and the end of the sweeper's thread, its sleep, and the exit flag. Returned proxies are not copied.
- Connecting and logging in are a success or a failure chosen by the environment; all other iRODS calls, HTTP, configuration and logging are left out, with the remaining endpoints.
- `get_connection` logs in once more after `get`; that call and its failure are not modelled.
- `Paging.FollowedCovers`: the listing is fixed, not recursive, and does not change between requests; of `stoi` only its range is modelled, and of the links only their offsets. The query endpoint's link arithmetic, in IEEE doubles, is left out.
- `Paging.ListPage`: is the branch for a collection. The path of a data object returns its one entry for every offset (lines 67-79 of the list endpoint), so that there `next` never leads to an empty page.
- `UrlDecode.DecodeUrl`: malformed escapes are decoded as `operator>>` with `std::hex` extracts them in the C locale (a lone digit, a sign or a blank before a digit, no digit after "0x"); nothing but equality with the recursive decoder is claimed about them.
