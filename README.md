# Completeness wire codec of BricklinkSharp

BricklinkSharp is a C# client for the BrickLink marketplace REST API. Its
JSON layer maps compact wire codes to domain enums. This project models one
such converter, `CompletenessStringConverter`. It maps the single-letter
completeness code of a lot to the `Completeness` enum (`Complete`,
`Incomplete`, `Sealed`) and back.

- `Read` decodes the string that the JSON reader returns for the current
  token. `"C"` gives `Complete`, `"B"` gives `Incomplete` and `"S"` gives
  `Sealed`. Every other input gives `Complete` through the switch's
  `default` branch. That covers a JSON null, the empty string, lower-case
  letters and longer strings. The decoder is total and never reports an
  error. This permissive default is modelled as written.
- `Write` emits one JSON string, the result of the `ToDomainString()`
  extension on the value. That extension's source is not part of this
  model. It is therefore a parameter `toDomainString`, and each round-trip
  fact is stated for the encodings that satisfy it. `AssumedDomainString`
  is the mapping C/B/S that the wire protocol expects. The ghost predicate
  `RoundTrips(toDomainString)` says that `Read` undoes an encoding on all
  three values; `RoundTripsIff` characterises it exactly.
- The reader's `GetString()` is modelled as `Option<string>`, where `None`
  is the `null` returned for a JSON null. The writer's output is the
  sequence of JSON tokens emitted so far, and `Write` appends exactly one.

All definitions are in `completeness_converter.dfy`. The module `Wrappers`
holds the `Option` type. The module `CompletenessStringConverter` holds the
model and its lemmas.

## Model

| member | source | states |
|---|---|---|
| CompletenessStringConverter.GetString | BricklinkSharp.Client/Json/CompletenessStringConverter.cs:38 | the reader gives null exactly for a JSON null and the token's text for a string token |
| CompletenessStringConverter.Read | BricklinkSharp.Client/Json/CompletenessStringConverter.cs:36-50 | the result is `Incomplete` iff the token is exactly "B", `Sealed` iff exactly "S", and `Complete` for every other token, null included |
| CompletenessStringConverter.Write | BricklinkSharp.Client/Json/CompletenessStringConverter.cs:52-56 | writing keeps the tokens already written and appends exactly one string token, `ToDomainString(value)` |
| CompletenessStringConverter.ReadKnownCodes | BricklinkSharp.Client/Json/CompletenessStringConverter.cs:41-46 | "C", "B" and "S" decode to `Complete`, `Incomplete` and `Sealed` |
| CompletenessStringConverter.ReadDefaultsToComplete | BricklinkSharp.Client/Json/CompletenessStringConverter.cs:38-49 | any token other than the three codes, null included, decodes to `Complete` |
| CompletenessStringConverter.ReadIsExact | BricklinkSharp.Client/Json/CompletenessStringConverter.cs:39-48 | matching is case-sensitive and exact: null, "", "b", "s", " B", "S ", "CB" and "BS" all decode to `Complete` |
| CompletenessStringConverter.ReadIsSurjective | BricklinkSharp.Client/Json/CompletenessStringConverter.cs:41-46 | every `Completeness` value is the decoding of some token |
| CompletenessStringConverter.ReadIsNotInjective | BricklinkSharp.Client/Json/CompletenessStringConverter.cs:41-48 | two distinct tokens ("C" and "X") decode to the same value |
| CompletenessStringConverter.ReencodeIsNotIdentity | BricklinkSharp.Client/Json/CompletenessStringConverter.cs:38-55 | for every encoding, some string token is not reproduced by decoding and then encoding it |
| CompletenessStringConverter.WriteDependsOnlyOnValue | BricklinkSharp.Client/Json/CompletenessStringConverter.cs:52-56 | for one value, `Write` appends the same single token `ToDomainString(value)` whatever was written before |
| CompletenessStringConverter.AssumedDomainString | BricklinkSharp.Client/Json/CompletenessStringConverter.cs:54 | the assumed C/B/S mapping of the unseen `ToDomainString`, not a model of shown code: each code it gives decodes back to its value |
| CompletenessStringConverter.RoundTripsIff | BricklinkSharp.Client/Json/CompletenessStringConverter.cs:41-54 | decoding undoes an encoding iff it maps `Incomplete` to "B", `Sealed` to "S", and `Complete` to anything but "B" or "S" |
| CompletenessStringConverter.WriteThenReadRoundTrip | BricklinkSharp.Client/Json/CompletenessStringConverter.cs:38-55 | with `ToDomainString` giving C/B/S, reading back the token `Write` appended gives the written value |
| CompletenessStringConverter.ReencodeNormalises | BricklinkSharp.Client/Json/CompletenessStringConverter.cs:41-54 | with `ToDomainString` giving C/B/S, the three codes survive decode-then-encode and every other token becomes "C" |
| CompletenessStringConverter.ReadAfterReencodeIsStable | BricklinkSharp.Client/Json/CompletenessStringConverter.cs:38-54 | for any encoding that round-trips, decoding the re-encoded token gives the same value as decoding the original token (a corollary of the round-trip predicate) |

## Left out

- `ToDomainString()` is not part of this model. `Write` takes it as a parameter, and the round-trip lemmas either characterise the encodings that round-trip or assume the C/B/S mapping.
- `ToDomainString` is assumed total and non-null over the three named members. A C# `Completeness` variable can hold an undefined integer value, which the three-constructor datatype cannot. `WriteStringValue(null)` would write a JSON null rather than a string. Neither case is modelled.
- `Utf8JsonReader` and `Utf8JsonWriter` are library code. Only the string or null that the reader yields and the string token the writer emits are modelled. The reader's own failure on a non-string token, such as a number, is not modelled.
- `HttpClientExtensions.ExecuteRequest` is left out. It is HTTP I/O: it builds the request, serialises the body, sends it and reads the response asynchronously with cancellation.
- `HttpClientExtensions.GetAuthorizationHeader` is left out. It reads the process-wide configuration singleton and calls the OAuth 1.0a signer (`OAuthRequest`), which is not part of this model. It also needs HMAC-SHA1, a random nonce and the clock.
- `BricklinkClientTests` is left out. These are live-network integration tests of endpoints whose implementations are not part of this model.
