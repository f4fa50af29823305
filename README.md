# aliyun message client: request signing

This project models the request-signing path of the aliyun SMS and voice-call
client in `message/client.go`, and proves what that path promises.

A request is built in four steps:

- `SetDefaultCommonParams` writes the common parameters into a `url.Values`.
- `SendSMS` or `MakeSingleCallByTTS` adds the action, version, region and business parameters. Then it applies the caller's overrides in order.
- `url.Values.Encode` gives the canonical query string: keys in ascending byte order, `QueryEscape(k)=QueryEscape(v)`, joined by `&`.
- `SignedString` signs `GET&%2F&` followed by the `SpecialURLEncode` of that string. The MAC is HMAC-SHA1 keyed with the secret plus `&`. The digest is base64-encoded, then encoded again with `SpecialURLEncode`. The request is sent as `Signature=<sign>&<sorted>`.

The decoded response counts as a success exactly when the upper-cased `Code` is `OK`.

Modules:

- `Wrappers` (`wrappers.dfy`): the `Option` and `Result` types.
- `ByteStrings` (`bytestrings.dfy`): Go strings as byte sequences. It has `strings.Replace` with no limit, `Split`, `Join`, `IndexOf` and ASCII `ToUpper`.
- `UrlEscape` (`urlescape.dfy`): `url.QueryEscape`, the strict percent-encoding of section 2 of RFC 3986, `SpecialURLEncode`, and the decoder that undoes them.
- `Base64` (`base64.dfy`): standard base64 with padding (section 4 of RFC 4648), with a decoder and the round trip.
- `ByteOrder` (`byteorder.dfy`): Go's string order, and the ascending listing of a set of keys.
- `Query` (`query.dfy`): `url.Values` as a class whose `entries` map `Set` updates in place. It also has `Values.Encode` and a reference query parser that the encoding is proved against.
- `Message` (`message.dfy`): the client, the parameter sets, the string to sign, the signature, the final query, the receiver check it passes (the parsed parameters re-encoded with `url.Values.Encode`), the success rule, and the two request methods.

Library calls are modelled by their documented behaviour: `url.QueryEscape`, `url.Values.Encode`, `sort.Strings`, `strings.Replace`, `strings.ToUpper` and `base64.StdEncoding`. HMAC-SHA1 is a parameter `hmac(key, message)`. The HTTP round trip, reading the body and JSON decoding are one parameter `exchange(host, rawQuery)`. It returns the decoded response, or the stage that failed. The clock and the UUID generator are replaced by the timestamp and nonce strings passed in.

The encoding does not avoid double-encoding. One might expect that `SpecialURLEncode` leaves already-encoded text alone. The code encodes `%` like any other reserved byte, so `"%20"` becomes `"%2520"`. The model follows the code (`UrlEscape.SpecialURLEncodeEncodesAgain`). The signing scheme relies on this: the canonical query, already escaped, is escaped a second time inside the string to sign.

## Model

| member | source | states |
|---|---|---|
| UrlEscape.QueryEscape | message/client.go:63 | Output holds only unreserved bytes, `%` and `+`, and is at least as long as the input |
| UrlEscape.QueryEscapeRoundTrip | message/client.go:63 | Percent-decoding the output of `url.QueryEscape` gives the input back |
| UrlEscape.StrictEscape | message/client.go:62-68 | The strict RFC 3986 encoding holds only unreserved bytes and `%` |
| UrlEscape.StrictEscapeRoundTrip | message/client.go:62-68 | Decoding the strict encoding gives the input back |
| UrlEscape.PlusRewrite | message/client.go:64 | Replacing every `+` by `%20` in `QueryEscape(s)` gives exactly the strict encoding of `s` |
| UrlEscape.TildeRewrite | message/client.go:66 | The `%7E` to `~` rewrite changes nothing in the strict encoding |
| UrlEscape.NoEscapedTilde | message/client.go:66 | The strict encoding never contains `%7E` |
| UrlEscape.RewritesGiveStrict | message/client.go:63-66 | The three rewrites applied in order to `QueryEscape(s)` give the strict encoding of `s` |
| UrlEscape.SpecialURLEncode | message/client.go:62-68 | `SpecialURLEncode` is the strict RFC 3986 percent-encoding |
| UrlEscape.SpecialURLEncodeProperties | message/client.go:62-68 | Output has no `+`, no `*`, no `%7E`, and decodes back to the input |
| UrlEscape.SpecialURLEncodeByte | message/client.go:63-66 | Space becomes `%20`; letters, digits and `-_.~` pass unchanged; every other byte becomes its upper-case `%XX` triple |
| UrlEscape.SpecialURLEncodeAppend | message/client.go:62-68 | Encoding works byte by byte: encoding a concatenation concatenates the encodings |
| UrlEscape.SpecialURLEncodeEscapesPercent | message/client.go:62-68 | A leading `%` is encoded as `%25`, followed by the encoding of the rest |
| UrlEscape.SpecialURLEncodeEncodesAgain | message/client.go:62-68 | Already-encoded text is encoded again: any escape `%XY` becomes `%25XY` |
| UrlEscape.StrictEscapeNoPlusStar | message/client.go:64-65 | The strict encoding contains no `+` and no `*`, so the last two rewrites find nothing to replace in it |
| UrlEscape.UnreservedUnchanged | message/client.go:62-68 | Text made only of unreserved bytes is its own encoding |
| UrlEscape.EscapedRootPath | message/client.go:87 | `url.QueryEscape("/")` is `"%2F"` |
| UrlEscape.UnescapeUnreserved | message/client.go:142 | Text of unreserved bytes, such as the key `Signature`, decodes to itself |
| ByteStrings.ReplaceAll | message/client.go:64-66 | A pattern whose first byte is absent leaves the text unchanged; replacing a one-byte pattern removes every occurrence of it |
| ByteStrings.ReplaceAfterFreePrefix | message/client.go:64-66 | A prefix free of the pattern's first byte is copied through, and replacing goes on after it |
| ByteStrings.ToUpper | message/client.go:174 | Same length; each byte is upper-cased on its own |
| ByteStrings.UpperByte | message/client.go:174 | A lower-case ASCII letter moves to upper case; every other byte is kept |
| ByteStrings.Split | message/client.go:142 | Reads back the `&`-joined output of lines 136 and 142 (the client itself never splits). At least one piece, no piece holds the separator, and joining the pieces gives the text back |
| ByteStrings.SplitJoin | message/client.go:142 | Reads back the `&`-joined output of lines 136 and 142: splitting pieces that were joined with a separator they do not contain gives the pieces back |
| Base64.Encode | message/client.go:94 | The text is empty exactly for empty input |
| Base64.EncodeLength | message/client.go:94 | Four symbols for every three input bytes begun |
| Base64.EncodeAlphabet | message/client.go:94 | Only symbols of the RFC 4648 alphabet, plus padding in the last two places |
| Base64.EncodePadding | message/client.go:94 | No padding, `==`, or a symbol then `=`, as the input length is 0, 1 or 2 mod 3 |
| Base64.DecodeEncode | message/client.go:94 | Decoding the base64 text gives the bytes back |
| ByteOrder.LessIrreflexive | message/client.go:136 | No string sorts before itself |
| ByteOrder.LessAsymmetric | message/client.go:136 | Two strings never sort before each other |
| ByteOrder.LessTransitive | message/client.go:136 | Go's string order is transitive |
| ByteOrder.LessTotal | message/client.go:136 | Any two different strings are ordered one way or the other |
| ByteOrder.LeastExists | message/client.go:136 | Every non-empty set of keys has a smallest key |
| ByteOrder.SortedKeys | message/client.go:136 | The keys listed once each, strictly ascending, nothing else |
| ByteOrder.SortedUnique | message/client.go:136 | A strictly ascending listing of a set of keys is unique |
| Query.Values.constructor | message/client.go:115 | `url.Values{}` holds no keys |
| Query.Values.Set | message/client.go:73-81 | `Set` gives the key the value and changes no other key |
| Query.Values.Encode | message/client.go:136 | `v.Encode()` is empty exactly when the values hold no keys; it is `Query.EncodeEntries` of the entries |
| Query.EncodeEntries | message/client.go:136 | `url.Values.Encode`: empty exactly when there are no keys. Its round trip is carried by `Query.Pairs`, `Query.EncodeParse` and `Query.ToMapPairs` |
| Query.EncodeEntriesAlphabet | message/client.go:136 | The canonical query string holds only unreserved bytes, `%`, `+`, `=` and `&` |
| Query.Pairs | message/client.go:136 | Each key of the map once, in strictly ascending order, with its value |
| Query.EncodeParse | message/client.go:136 | Parsing the canonical query string gives every entry once, in ascending key order |
| Query.ParseKeyValue | message/client.go:142 | `key=escaped` parses to the key and the decoded value |
| Query.ParseKeyedQuery | message/client.go:142 | `key=escaped&rest` parses to the key with the decoded value, followed by the pairs of `rest` |
| Query.ParseQueryCons | message/client.go:142 | A segment without `&` in front of `&rest` parses to its pair followed by the pairs of `rest` |
| Query.ParseEncodedPair | message/client.go:136 | One `QueryEscape(k)=QueryEscape(v)` item parses back to `(k, v)` |
| Query.ToMapPairs | message/client.go:136 | Folding the sorted pairs back into a map gives the map |
| Query.EncodeInjective | message/client.go:136 | Different parameter maps give different canonical query strings |
| Message.WithCommonParams | message/client.go:71-82 | `AccessKeyId` is the key ID; `Timestamp` and `SignatureNonce` are the given strings; `Format`, `SignatureMethod` and `SignatureVersion` are `JSON`, `HMAC-SHA1` and `1.0`; other keys are unchanged |
| Message.Client.SetDefaultCommonParams | message/client.go:71-82 | The `url.Values` now holds the old entries with the common parameters written over them |
| Message.ApplyOverrides | message/client.go:130-133 | The keys afterwards are the keys before plus the keys the overrides name |
| Message.LastWriteWins | message/client.go:130-133 | A key holds the value of the last override naming it |
| Message.Untouched | message/client.go:130-133 | A key that no override names keeps its earlier value, or stays absent |
| Message.Client.SmsValues | message/client.go:115-128 | A new `url.Values` that holds exactly the SMS defaults: the common parameters, then the action, version, region and the four SMS arguments |
| Message.Client.TtsValues | message/client.go:198-211 | A new `url.Values` that holds exactly the voice-call defaults |
| Message.Client.ApplyParams | message/client.go:130-133 | Applying the overrides in order leaves the entries that `ApplyOverrides` gives |
| Message.SmsDefaults | message/client.go:115-128 | Before overrides an SMS request holds exactly the six common keys and seven SMS keys |
| Message.SmsDefaultsValues | message/client.go:120-128 | `Action`, `Version` and `RegionId` hold `SendSms`, `2017-05-25` and `cn-hangzhou`; the four SMS keys hold the caller's arguments |
| Message.TtsDefaults | message/client.go:198-211 | Before overrides a voice-call request holds exactly the six common keys and seven call keys |
| Message.TtsDefaultsValues | message/client.go:203-211 | `Action`, `Version` and `RegionId` hold `SingleCallByTts`, `2017-05-25` and `cn-hangzhou`; the four call keys hold the caller's arguments |
| Message.StringToSign | message/client.go:87 | The string to sign is the method, `&`, `%2F`, `&`, then the strict encoding of the sorted query |
| Message.StringToSignFields | message/client.go:87 | For a method without `&`, the string to sign splits into exactly the method, `%2F` and the encoded query, which decodes back to the query |
| Message.StringToSignInjective | message/client.go:87 | Different sorted queries give different strings to sign |
| Message.Client.Digest | message/client.go:91-93 | The HMAC of the string to sign keyed with the secret plus `&`. No contract of its own: `Message.Client.SignedString` proves the signature decodes back to it |
| Message.Client.SignedString | message/client.go:86-96 | The signature holds letters, digits and `%`. It decodes to the base64 text of the HMAC of the string to sign under secret plus `&`, and that decodes to the digest |
| Message.SignatureCharacters | message/client.go:94-95 | Every `%` in the signature starts `%2B`, `%2F` or `%3D`, the escapes of base64 `+`, `/` and `=` |
| Message.SignatureEscapes | message/client.go:94-95 | `SpecialURLEncode` of any base64 text has the signature's character form |
| Message.EscapedBase64Form | message/client.go:95 | The strict encoding of base64 text has the signature's character form |
| Message.Client.SignedStringEscapes | message/client.go:94-95 | The signature is the strict encoding of the base64 text of the digest |
| Message.EscapedBase64PadAtEnd | message/client.go:94-95 | For a digest whose length is 2 mod 3, the encoded base64 text ends in `%3D` |
| Message.EscapedPadAtEnd | message/client.go:95 | Text ending in `=` encodes to text ending in `%3D` |
| Message.SignatureEndsInEscapedPad | message/client.go:91-95 | A 20-byte digest gives a signature ending in `%3D` |
| Message.FinalQuery | message/client.go:142 | The raw query starts with `Signature=`, ends with the sorted query, and is two bytes longer than the key, signature and query together. `Message.FinalQueryParse` reads it back |
| Message.Client.SignedQuery | message/client.go:136-142 | The final query for a parameter map. No contract of its own: `Message.SignedQueryParse` and `Message.SignedQueryVerifies` state what it reads back to |
| Message.FinalQueryParse | message/client.go:142 | `Signature=<sign>&<sorted>` parses to the signature pair followed by the pairs of the sorted query |
| Message.SignedQueryParse | message/client.go:136-142 | The final query parses to the base64 signature under `Signature`, then every parameter once in ascending key order |
| Message.SignedQueryVerifies | message/client.go:136-142 | If no parameter is already named `Signature`, the final query is accepted by a receiver that parses it, re-encodes the other parameters with `url.Values.Encode` and recomputes the HMAC |
| Message.SmsRequestVerifies | message/client.go:114-142 | The SMS request is accepted by that receiver unless an override sets `Signature` |
| Message.TtsRequestVerifies | message/client.go:197-225 | The voice-call request is accepted by that receiver unless an override sets `Signature` |
| Message.IsSuccess | message/client.go:174-177 | Success holds exactly for the two-byte codes `OK`, `Ok`, `oK` and `ok` |
| Message.Client.SignAndSend | message/client.go:136-177 | Sends `Signature=<sign>&<sorted>` for the current entries to the host. A failed exchange gives its failure and no response; otherwise the response, no error, and `ok` exactly when the code passes the success rule |
| Message.Client.SendSMS | message/client.go:114-179 | Sends the signed query of the defaults plus overrides to the SMS host. A failed exchange gives its failure and no response. Otherwise the response is returned with no error, and `ok` is the success rule applied to its code |
| Message.Client.MakeSingleCallByTTS | message/client.go:197-261 | The same for the voice-call parameters and the voice host |

## Left out

- HTTP request construction, `c.Do`, reading the body, and the URL built from scheme, host and path (message/client.go:145-166, 228-249). These are network I/O. They are the `exchange(host, rawQuery)` parameter, which also stands for the error returns of those steps.
- JSON decoding (message/client.go:169-172, 252-255) is a library call. It is part of `exchange`, which yields the decoded response.
- HMAC-SHA1 and SHA-1 are crypto library calls. They are the `hmac(key, message)` parameter. `Message.SignatureEndsInEscapedPad` takes the 20-byte digest length as a precondition.
- `time.Now`/`GenTimestamp` and `uuid.New` are the clock and randomness. The timestamp and nonce are inputs. The error that `uuid.New` can return, dropped at message/client.go:80, is not modelled: the nonce is always some string.
- `GenPhoneNumbersStr` and the `Param` type are not part of this model. The phone-number string is an input, and each `Param` is one `Set` of a key and a value (`Message.Param`).
- `NewClient` (message/client.go:54-59) is the `Message.Client` datatype constructor. The embedded `http.Client` is not modelled.
- `url.Values` holds one value per key here. The client only ever calls `Set`, so `Add` and multi-valued keys never arise.
- ByteStrings.ToUpper: upper-cases ASCII letters only, while Go's also maps non-ASCII letters. The success check is unaffected only because no non-ASCII character upper-cases to `O` or `K`, and that fact about the Unicode tables is not proved here.
- The provider's own signature check is not part of this model: `Message.Verifies` is a receiver that re-encodes with `url.Values.Encode` (a space as `+`). A provider that re-encodes each field with the strict encoding (a space as `%20`) would compute a different string to sign for any value holding a space.
- `Query.ParseQuery` is a reference decoder, not part of the client. Unlike `url.ParseQuery` it does not reject `;` and it stops at the first bad segment.
