# Customer-support intake server: a Dafny model of its core

The server lets an operator pick a canned customer-support message from a
directory of `.txt` files, preview it, and submit it. The submitted text
becomes a JSON event ("envelope") that is published to a Kafka intake topic,
and the operator is redirected to a confirmation page.

This project models the deterministic decisions inside `server.js` and proves
what they promise:

- **Display names** (`IntakeCatalog.DisplayName`). The first `.txt` is
  dropped, hyphens become spaces, and each word character that follows a
  regex word boundary is upper-cased.
- **The intake catalog** (`IntakeCatalog.LoadIntakeFiles`). This is a `while`
  loop over the directory listing, taken as a sequence of (name, raw
  contents) pairs. It keeps the names ending in `.txt` and stores a record
  under each one: name, display name and trimmed text.
- **The Kafka client configuration** (`KafkaClientConfig.BuildKafkaConfig`).
  A record is built and then updated in place: `ssl` is added when a
  security protocol is set, and `sasl` is added only when mechanism, user
  name and password are all set.
- **The `/submit` handler** (`Submit.HandleSubmit`). It validates the form,
  derives the message id from a UUID and the timestamp from an ISO clock
  reading, and builds the ten-field envelope. It publishes the envelope keyed
  by its id, then responds with a 400, a redirect or a 500.
- **The JavaScript primitives these rely on** (`JsStrings`, `UriComponent`):
  `indexOf`, `replace` with a string pattern and with a one-character global
  regex, `endsWith`, `trim`, `\b\w` upper-casing, and
  `encodeURIComponent`. `decodeURIComponent` and a query-string reader are
  defined so that the redirect's content can be stated.

The UUID, the clock reading, the directory listing, the file contents, the
environment variables and the producer's outcome are all parameters.

JavaScript's `undefined` is `None`. "Truthy" for a string means set and
non-empty. Strings are sequences of Unicode scalar values.

Some consequences of the code that the model keeps:

- The display name drops the first `.txt` anywhere in the name, not just a
  final extension, so `a.txt.txt` shows as `A.Txt` (server.js:77).
- `ssl` is set whenever `KAFKA_SECURITY_PROTOCOL` is non-empty. It is `true`
  only for `SSL` and `SASL_SSL`, and `false` for any other value, such as
  `PLAINTEXT` or `SASL_PLAINTEXT` (server.js:50-52).
- A `disconnect` that throws after a successful `send` gives the 500 page
  although the message was published (server.js:136, 141-149).
  `Submit.HandleSubmit` records that message as published.
- An error from `readdirSync` is not caught (server.js:70). Listing failures
  are outside this model.

## Model

| member | source | states |
|---|---|---|
| `JsStrings.EndsWith` | server.js:70 | `endsWith`: the last characters of the name are the suffix; its use as the filter is stated by `IntakeCatalog.TxtFiles` and `IntakeCatalog.CatalogKeys` |
| `JsStrings.Trim` | server.js:76 | `trim()`; stated by `TrimSlice` and `TrimIdempotent` |
| `JsStrings.IndexOf` | server.js:77 | a result is the first index where the pattern occurs; None exactly when it occurs nowhere |
| `JsStrings.IndexOfChar` | server.js:112 | `indexOf` of a one-character pattern is the index of its first occurrence |
| `JsStrings.ReplaceFirstChar` | server.js:112 | replacing a one-character pattern cuts the string at its first occurrence only |
| `JsStrings.ReplaceFirst` | server.js:77 | a string pattern replaces only its first occurrence (the length changes by the difference); with no occurrence the string is unchanged |
| `JsStrings.ReplaceAllChar` | server.js:77 | `/-/g` → `' '` keeps the length and changes exactly the hyphens, position by position |
| `JsStrings.RemoveAllChar` | server.js:111 | `/-/g` → `''` leaves no dash, never lengthens the string, and leaves a dash-free string as it is |
| `JsStrings.RemoveAllCharCounts` | server.js:111 | only dashes are removed: every other character occurs as often as before (multisets) |
| `JsStrings.RemoveAllCharAppend` | server.js:111 | removing dashes distributes over concatenation |
| `JsStrings.RemoveCharBefore` | server.js:111 | removing dashes from `x-y`, when `y` has none, gives the cleaned `x` followed by `y` |
| `JsStrings.TrimStart` | server.js:76 | the result is a suffix of the input, everything removed is white space, and it does not start with white space |
| `JsStrings.TrimEnd` | server.js:76 | the result is a prefix of the input, everything removed is white space, and it does not end with white space |
| `JsStrings.TrimSlice` | server.js:76 | `trim()` returns a slice `s[i..j]` whose outside is all white space and whose ends are not |
| `JsStrings.SpaceMargins` | server.js:76 | a suffix of `s` after white space, cut before white space, is the slice `s[i..j]`; everything outside it is white space and its ends are not |
| `JsStrings.TrimIdempotent` | server.js:76 | trimming trimmed text changes nothing |
| `JsStrings.ToUpperAscii` | server.js:77 | a lower-case ASCII letter becomes the same letter in upper case, and every other word character stays as it is; word characters stay word characters |
| `JsStrings.UpperFrom` | server.js:77 | the one-pass regex scan upper-cases exactly the word characters that follow a non-word character (or the start) |
| `JsStrings.UpperWordStarts` | server.js:77 | `replace(/\b\w/g, …)` keeps the length and upper-cases exactly the characters at word starts |
| `IntakeCatalog.DisplayName` | server.js:77 | the display-name chain; its properties are stated by `DisplayNameLength`, `DisplayNameWords`, `StemOfPlainTxtName`, `StemDisplayName` and `HyphenatedWordsDisplayName` |
| `IntakeCatalog.DisplayNameLength` | server.js:77 | a name containing `.txt` (in particular one ending in it) gives a display name 4 characters shorter; without `.txt`, only the hyphen swap and the upper-casing apply |
| `IntakeCatalog.DisplayNameWords` | server.js:77 | a display name has no `-`, and no word character at a word boundary is a lower-case letter |
| `IntakeCatalog.StemOfPlainTxtName` | server.js:77 | for a name ending in `.txt` with no earlier `.txt` in it, the replaced name is the name without the suffix |
| `IntakeCatalog.StemDisplayName` | server.js:77 | a stem with `.txt` appended, where no `.txt` starts inside the stem, shows as the stem with hyphens made spaces and word starts upper-cased |
| `IntakeCatalog.HyphenatedWordsDisplayName` | server.js:77 | a name of lower-case words joined by hyphens (`billing-inquiry.txt`) shows, character by character, as those words separated by spaces with each first letter upper-cased (`Billing Inquiry`) |
| `IntakeCatalog.TxtFiles` | server.js:70 | the filter keeps exactly the listing's entries whose names end in `.txt` |
| `IntakeCatalog.Records` | server.js:74-83 | the `forEach` builds one record per `.txt` file, in order: the file's name, its display name and its trimmed text |
| `IntakeCatalog.Index` | server.js:72-84 | the object filled by `intakeFiles[file] = …`, a later record replacing an earlier one; stated by `IndexAppend`, `IndexHasKey`, `IndexEntry` and `IndexDistinct` |
| `IntakeCatalog.Catalog` | server.js:68-84 | what `loadIntakeFiles` returns; stated by `CatalogKeyListed`, `ListedInCatalog`, `CatalogKeys`, `CatalogEntry` and `CatalogOfDistinctListing` |
| `IntakeCatalog.TxtFilesDistinct` | server.js:70 | filtering a listing with distinct names keeps the names distinct |
| `IntakeCatalog.IndexHasKey` | server.js:72-84 | the filled object has a key exactly when some stored record carries that file name |
| `IntakeCatalog.IndexEntry` | server.js:79-83 | each stored value is a record whose `filename` is its key |
| `IntakeCatalog.IndexDistinct` | server.js:79-83 | with distinct names, each record is stored under its own name, and no later record overwrites it |
| `IntakeCatalog.IndexAppend` | server.js:79 | one more loop step updates the object at that record's name only |
| `IntakeCatalog.CatalogKeyListed` | server.js:70-84 | every catalog key is the name of a listed file that ends in `.txt` |
| `IntakeCatalog.ListedInCatalog` | server.js:70-84 | every listed file whose name ends in `.txt` has a catalog entry |
| `IntakeCatalog.CatalogKeys` | server.js:70-84 | the catalog's keys are exactly the listing's names that end in `.txt` |
| `IntakeCatalog.CatalogEntry` | server.js:74-83 | each entry's `filename` is its key, its `displayName` is derived from the key, and its `content` is the trimmed text of a file of that name |
| `IntakeCatalog.CatalogOfDistinctListing` | server.js:74-83 | in a listing with distinct names, each `.txt` file's own record (name, display name, trimmed text) is stored under its name |
| `IntakeCatalog.LoadIntakeFiles` | server.js:68-87 | the loop builds exactly the catalog of the listing: its keys are the `.txt` names and each entry's `filename` equals its key |
| `KafkaClientConfig.OrElse` | server.js:34-39 | `v \|\| fallback`: the variable when set and non-empty, else the default (`localhost:9092`, `intake`) |
| `KafkaClientConfig.Broker` | server.js:34 | KAFKA_BROKER when set and non-empty, `localhost:9092` otherwise |
| `KafkaClientConfig.IntakeTopic` | server.js:39 | KAFKA_INTAKE_TOPIC when set and non-empty, `intake` otherwise |
| `KafkaClientConfig.BuildKafkaConfig` | server.js:44-61 | `ssl` is present iff a security protocol is set, and it is `true` iff that protocol is `SSL` or `SASL_SSL`. `sasl` is present iff mechanism, user name and password are all set, and then it carries exactly those three. The client id and the one broker are fixed |
| `UriComponent.EncodeURIComponent` | server.js:139 | the encoding holds only unreserved characters and `%`, so it cannot add a query separator; a file name of unreserved characters is unchanged |
| `UriComponent.DecodeEncode` | server.js:139 | `decodeURIComponent(encodeURIComponent(s))` gives back `s` for every string |
| `UriComponent.DecodeURIComponent` | server.js:159 | `decodeURIComponent`, applied once to the redirect's raw `file` value; stated by `DecodeEncode`, which shows it inverts `EncodeURIComponent` |
| `UriComponent.DecodeUtf8` | server.js:139 | the escaped UTF-8 bytes of any scalar value decode to that value |
| `UriComponent.Utf8` | server.js:139 | a scalar value takes 1 to 4 bytes, and the first byte is below 0x80 exactly for the one-byte form |
| `UriComponent.HexDigit` | server.js:139 | the encoder's hex digit is `0`-`9` or upper-case `A`-`F` and reads back as its value |
| `UriComponent.PercentBytes` | server.js:139 | n bytes become 3n characters, each `%` or unreserved |
| `UriComponent.EscapeAt` | server.js:139 | byte `i` becomes the `%XY` escape at index `3 * i`, in order |
| `UriComponent.ReadEncodedByte` | server.js:139 | each escape of an encoding reads back as its own byte, whatever follows |
| `UriComponent.Split` | server.js:139 | splitting the query at `&` gives pieces that contain no `&` |
| `UriComponent.SplitFirst` | server.js:139 | splitting cuts at the first separator |
| `Submit.MissingFields` | server.js:106 | `!selectedFile \|\| !content`; stated by `IncompleteFormRejected` |
| `Submit.MessageId` | server.js:111 | the UUID with its dashes removed; stated by `MessageIdOfUuid` |
| `Submit.Timestamp` | server.js:112 | the ISO reading with its first `T` made a space and its first `Z` dropped; stated by `TimestampOfIso`, `TimestampText` and `TimestampShapeOf` |
| `Submit.SuccessLocation` | server.js:139 | the redirect URL; stated by `SuccessQuery` and `RedirectCarriesId` |
| `Submit.FailurePage` | server.js:143-149 | the 500 page with the error message, broker, topic and security protocol; stated by `RedirectOnlyOnSuccess` |
| `Submit.HandleSubmit` | server.js:102-151 | the whole `/submit` handler; stated by `IncompleteFormRejected`, `PublishedEnvelope`, `RedirectOnlyOnSuccess`, `RedirectCarriesId` and `PlainFileSubmission` |
| `Submit.NewEnvelope` | server.js:114-125 | the envelope carries the given id, text and timestamp; the six reserved fields are null and `error` is empty |
| `Submit.UuidGroups` | server.js:111 | a v4 UUID is five dash-free groups of 8, 4, 4, 4 and 12 lower-case hex digits joined by dashes, the third starting with `4` |
| `Submit.MessageIdOfUuid` | server.js:111 | the id of a v4 UUID is its 32 lower-case hex digits in order, with no dash and the version digit `4` at index 12 |
| `Submit.UuidLayout` | server.js:111 | a v4 UUID has dashes at 8, 13, 18 and 23, the version digit `4` at 14, and lower-case hex digits elsewhere |
| `Submit.TimestampOfIso` | server.js:112 | `YYYY-MM-DDTHH:MM:SS.sssZ` becomes `YYYY-MM-DD HH:MM:SS.sss`: 23 characters with no `T` or `Z`, and nothing else changed |
| `Submit.TimestampText` | server.js:112 | on an ISO instant, the two replacements turn the `T` at index 10 into a space and drop the final `Z` |
| `Submit.TimestampShapeOf` | server.js:112 | the result fits `dddd-dd-dd dd:dd:dd.ddd` and holds no `T` or `Z` |
| `Submit.IsoLayout` | server.js:112 | an ISO instant's only `T` is at index 10 and its only `Z` is at index 23 |
| `Submit.IncompleteFormRejected` | server.js:106-107 | the 400 response comes exactly when `selectedFile` or `content` is empty or absent, and then nothing is published |
| `Submit.PublishedEnvelope` | server.js:110-136 | at most one message is published, exactly when the form is complete and `send` succeeded. It goes to the intake topic, its key is its envelope's id, and it carries the submitted text, the timestamp and the reserved defaults |
| `Submit.RedirectOnlyOnSuccess` | server.js:128-149 | the redirect comes exactly when the form is complete and connect, send and disconnect all succeed. Otherwise a complete form gets the 500 page with the error message, broker, topic and security protocol, and no credentials |
| `Submit.RedirectCarriesId` | server.js:132-139 | the redirect's raw `id` value equals the Kafka message key, and its raw `file` value, decoded once, is the selected file |
| `Submit.SuccessQuery` | server.js:139 | the confirmation URL's `id` and `file` parameters read back as the id and the encoded file |
| `Submit.PlainFileSubmission` | server.js:102-139 | for a file name of unreserved characters (such as `billing-inquiry.txt`) and a successful producer, exactly one envelope of the submitted text is published, keyed by its 32-character id, and the redirect is `/success?id=<id>&file=<file name unchanged>` |

## Left out

- The order of the catalog's keys. The returned object keeps its keys in listing order, and the `/` page iterates it in that order. `Catalog` is a map, so it has no key order.
- The second decoding on the `/success` page (server.js:154, 159). Express's query parser has already percent-decoded `file`, and the page applies `decodeURIComponent` to it again. So a catalog file named `50%.txt` makes the page throw a URIError, and one named `a%41.txt` is shown as `aA.txt`. The page is outside this model, and `Submit.RedirectCarriesId` states only the single decoding of the raw redirect value.
- Concurrent requests sharing the one `producer` (server.js:65). One request's `disconnect` can make another request's `send` fail. `Submit.HandleSubmit` handles one request, and the `BrokerOutcome` parameter stands for whatever the shared producer did, including such interference.
- The `console.error` of the failure (server.js:142). It is console output and changes no response.
- Express routing, Handlebars rendering, static files, the `/` listing page and the `/success` page (server.js:8-31, 89-100, 153-164). These are framework glue and presentation.
- kafkajs `connect`/`send`/`disconnect` and the SIGINT shutdown (server.js:63-65, 128-136, 182-186). These are network calls into a library. Their outcome is the `BrokerOutcome` parameter, and a `send` that throws is taken to mean that the broker did not accept the message.
- `readdirSync`/`readFileSync` (server.js:70, 76), `uuidv4()` (server.js:111) and `new Date()` (server.js:112). These are I/O, randomness and the clock. They are the parameters `dir`, `uuid` and `isoNow`. Years outside 0–9999 (`toISOString`'s six-digit form) are not covered by `Submit.TimestampOfIso`.
- Uniqueness of ids across submissions. This is a property of the random generator, which is a parameter here.
- `JSON.stringify` of the envelope (server.js:133). It is a library call, and the envelope is modelled as a record.
- The start-up log lines (server.js:166-179). These are console output.
- Form fields that Express parses into arrays or objects. `SubmitForm` holds only absent or string fields.
- Lone UTF-16 surrogates. Dafny characters are scalar values, so the `URIError` that `encodeURIComponent` throws on a lone surrogate cannot arise.
- `public/js/app.js`. It is browser UI code.
