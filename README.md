# TR4C3 Twitter bot: the OAuth 1.0a signer and the worker's request rules

This project models the core of the Cloudflare worker that posts the bot's
tweets (`twitter-bot/worker.js`). It covers two things:

- `generateOAuthSignature`, the OAuth 1.0a signer;
- the sequential rules of the worker around it:
  - the six protocol parameters of each request;
  - the signature stored in the protocol object;
  - the `Authorization` header;
  - the three signed requests;
  - the optional `reply` field of a post;
  - the clean-up of the language model's text;
  - the reply loop of the scheduled run.

The modules, in dependency order:

- `Wrappers`: `Option`.
- `PercentEncoding`: `encodeURIComponent`, with the full UTF-8 escaping and
  upper-case hexadecimal. Its partner is a decoder in the manner of
  `decodeURIComponent`, with the round trip proved.
- `Text`:
  - `join`, one-character `split` and its first piece, `toUpperCase` on ASCII;
  - `trim` with the ECMAScript white-space set;
  - the decimal `toString` of a non-negative integer.
- `KeyOrder`: the default `sort` order on keys, i.e. UTF-16 code-unit order
  (`LessMatchesUnits` relates it to the code units of whole strings). It
  is proved a strict total order. Since object keys are distinct, the sorted
  list is unique, so insertion sort stands for the engine's algorithm.
- `JsObject`: a plain object as a list of distinct-key entries in insertion
  order. Property assignment is `Put`, the object spread is `Spread`, and the
  mapping an object stands for is `ToMap`.
- `OAuthSigner`, the signer as written:
  - the normalised parameter string;
  - the signature base;
  - the signing key;
  - the signature, through an HMAC-SHA1-plus-base64 parameter;
  - the header built from an object.
- `Content`: the trim and quote strip applied to the model's answers.
- `Worker`:
  - the protocol object and the request builders, written out to their exact
    wire strings;
  - the tweet body;
  - the reply loop and the scheduled cycle.

The signer follows the source, and differs from RFC 5849 in three ways that the
model keeps:

- `!`, `'`, `(`, `)` and `*` stay unescaped.
- Pairs are ordered by the raw key only; the values are not compared.
- The query of the mentions URL is cut off before signing and never enters the
  parameter string. `MentionsRequest` states this: for a user id without `?`,
  the signed URL is the path alone, whatever `since_id` is.

## Model

| member | source | states |
|---|---|---|
| PercentEncoding.DecodeEncode | twitter-bot/worker.js:271-272 | decoding the encoding of any string gives that string back |
| PercentEncoding.EncodeInjective | twitter-bot/worker.js:271-272 | two different strings never have the same encoding |
| PercentEncoding.Utf8RoundTrip | twitter-bot/worker.js:265 | the UTF-8 bytes escaped for a character decode to that character, and the lead byte announces their number |
| PercentEncoding.EncodeAlphabet | twitter-bot/worker.js:265 | every character of an encoding is unreserved or `%` |
| PercentEncoding.EncodeHasNoSeparators | twitter-bot/worker.js:265-266 | no encoding contains `&`, `=`, `"`, `,`, space, `?` or `#`, so the joins built from encoded fields can be split back |
| PercentEncoding.EncodeIdentity | twitter-bot/worker.js:265 | a string is its own encoding exactly when all of its characters are unreserved |
| PercentEncoding.EncodeAsciiReserved | twitter-bot/worker.js:276 | a reserved ASCII character becomes `%` and two upper-case hexadecimal digits of its code |
| PercentEncoding.DecodeEncodeChar | twitter-bot/worker.js:265 | decoding reads one encoded character back off the front of any text |
| KeyOrder.CodeUnitRankMatchesUtf16 | twitter-bot/worker.js:263-264 | the character order used for keys agrees with comparing their UTF-16 code units, and distinct characters never tie |
| KeyOrder.LessMatchesUnits | twitter-bot/worker.js:264 | one key sorts before another exactly when its UTF-16 code-unit sequence is lexicographically smaller, the comparison JavaScript's default sort uses |
| KeyOrder.CharUnitsDecide | twitter-bot/worker.js:264 | the code units of two different characters already decide the comparison, whatever follows them |
| KeyOrder.UnitsLessCommonPrefix | twitter-bot/worker.js:264 | a shared prefix of code units does not change how two unit sequences compare |
| KeyOrder.LessIrreflexive | twitter-bot/worker.js:263-264 | no key sorts before itself |
| KeyOrder.LessAsymmetric | twitter-bot/worker.js:263-264 | two keys never sort before each other |
| KeyOrder.LessTransitive | twitter-bot/worker.js:263-264 | the key order is transitive |
| KeyOrder.LessTotal | twitter-bot/worker.js:263-264 | of two different keys, one sorts before the other |
| KeyOrder.LessCommonPrefix | twitter-bot/worker.js:263-264 | a shared prefix does not change how two keys compare |
| KeyOrder.LessProperPrefix | twitter-bot/worker.js:263-264 | a key sorts before every longer key it is a prefix of |
| KeyOrder.Insert | twitter-bot/worker.js:264 | insertion adds exactly one element, keeping all the others |
| KeyOrder.Sort | twitter-bot/worker.js:264 | sorting is a permutation of the keys |
| KeyOrder.SortSorted | twitter-bot/worker.js:264 | the sorted list is ascending |
| KeyOrder.SortStrictlySorted | twitter-bot/worker.js:263-264 | sorting distinct keys gives each of them once, strictly ascending |
| KeyOrder.SortedUnique | twitter-bot/worker.js:263-264 | two strictly ascending lists of the same keys are equal, so any correct sort gives this result |
| KeyOrder.SortIndependentOfOrder | twitter-bot/worker.js:263-264 | the sorted keys do not depend on the order in which the keys were listed |
| JsObject.ToMapDomain | twitter-bot/worker.js:263 | the keys an object lists are exactly the keys of its mapping |
| JsObject.ToMapValue | twitter-bot/worker.js:265 | looking up the key of an entry gives that entry's value |
| JsObject.ToMapReplace | twitter-bot/worker.js:218 | overwriting an entry's value updates the mapping at that key only |
| JsObject.KeysDistinct | twitter-bot/worker.js:263 | an object lists each key once |
| JsObject.IndexOf | twitter-bot/worker.js:218 | a listed key is found at a position holding it |
| JsObject.Put | twitter-bot/worker.js:218 | assigning a property maps the key to the value and leaves the rest of the mapping alone; a new key goes last, an existing key keeps its place |
| JsObject.Spread | twitter-bot/worker.js:260 | the spread of two objects maps every key of either, with the second object winning |
| JsObject.SpreadUnion | twitter-bot/worker.js:260 | the keys of a spread are those of either object, and each value comes from the second object when it has the key and from the first otherwise |
| OAuthSigner.SortedKeys | twitter-bot/worker.js:263-264 | the sorted keys list every key of the object once, strictly ascending |
| OAuthSigner.NormalizedParamsFields | twitter-bot/worker.js:263-266 | the parameter string splits on `&` into one field per key, in key order, and each field splits on `=` into the encoded key and the encoded value |
| OAuthSigner.PairSplit | twitter-bot/worker.js:265 | a pair holds no `&` and splits on `=` into exactly its encoded key and encoded value |
| OAuthSigner.PairInjective | twitter-bot/worker.js:265 | a pair determines its key and its value |
| OAuthSigner.NormalizedParamsOrderIndependent | twitter-bot/worker.js:260-266 | the parameter string depends only on the merged mapping, not on insertion order |
| OAuthSigner.NormalizedParamsInjective | twitter-bot/worker.js:263-266 | two objects with the same parameter string stand for the same mapping |
| OAuthSigner.NonEmptyNormalizedInjective | twitter-bot/worker.js:263-266 | two non-empty objects with the same parameter string stand for the same mapping |
| OAuthSigner.SameMappingBySortedKeys | twitter-bot/worker.js:263-265 | equal sorted keys with equal values under each of them mean equal mappings |
| OAuthSigner.EmptyNormalized | twitter-bot/worker.js:263-266 | the parameter string of an object without keys is empty |
| OAuthSigner.SignatureBaseSplit | twitter-bot/worker.js:269-273 | the base splits on `&` into exactly the upper-cased method, the encoded URL and the encoded parameter string |
| OAuthSigner.SignatureBaseFields | twitter-bot/worker.js:269-273 | the base has three fields; the second decodes to the URL and the third to the parameter string |
| OAuthSigner.SignatureBaseInjective | twitter-bot/worker.js:269-273 | equal bases come from the same upper-cased method, the same URL and the same merged mapping |
| OAuthSigner.SigningKeyFields | twitter-bot/worker.js:276 | the signing key splits on `&` into exactly the two encoded secrets |
| OAuthSigner.SigningKeyInjective | twitter-bot/worker.js:276 | different pairs of secrets give different signing keys |
| OAuthSigner.SignatureOrderIndependent | twitter-bot/worker.js:258-276 | the signature depends only on the method, the URL, the merged mapping and the secrets |
| OAuthSigner.QuotedShape | twitter-bot/worker.js:223 | a `k="v"` entry of separator-free fields has no comma and splits on `"` into `k=`, `v` and an empty tail |
| OAuthSigner.EntrySplit | twitter-bot/worker.js:223 | a header entry has no comma and holds its encoded value between exactly two double quotes |
| OAuthSigner.AuthorizationHeaderFields | twitter-bot/worker.js:221-224 | the header starts with `OAuth `, then lists one entry per key in key order, separated by `, `, each entry carrying its encoded value between quotes |
| OAuthSigner.AuthorizationHeaderOrderIndependent | twitter-bot/worker.js:221-224 | the header depends only on the mapping, not on insertion order |
| OAuthSigner.SignedHeaderCarriesSignature | twitter-bot/worker.js:218-224 | adding `oauth_signature` to an object without it gives one more header entry, holding the signature |
| Text.Split | twitter-bot/worker.js:86 | splitting gives at least one piece, and no piece contains the separator |
| Text.SplitNoSeparator | twitter-bot/worker.js:86 | a text without the separator splits into itself alone |
| Text.SplitAtFirst | twitter-bot/worker.js:86 | splitting at the first separator gives the text before it and then the pieces of the rest |
| Text.SplitJoin | twitter-bot/worker.js:266 | splitting a join of separator-free parts gives the parts back |
| Text.Before | twitter-bot/worker.js:86 | the first piece of a split is the longest separator-free prefix |
| Text.BeforeIsPrefix | twitter-bot/worker.js:86 | the first piece is a prefix, followed by the separator when it is shorter |
| Text.TrimStartSpec | twitter-bot/worker.js:139 | trimming the start drops exactly the leading white space |
| Text.TrimEndSpec | twitter-bot/worker.js:139 | trimming the end drops exactly the trailing white space |
| Text.TrimSpec | twitter-bot/worker.js:139 | trimming keeps a contiguous middle, removes only white space, and leaves no white space at either end |
| Text.DecimalString | twitter-bot/worker.js:203 | the decimal string is a non-empty run of digits with no leading zero: it starts with `0` only when it is `"0"` |
| Text.DecimalUnique | twitter-bot/worker.js:203 | a digit string without a leading zero is the decimal string of its value, so a number has exactly one such spelling |
| Text.DecimalRoundTrip | twitter-bot/worker.js:203 | reading the decimal string back gives the number |
| Content.StripQuotes | twitter-bot/worker.js:140 | the quote strip removes at most two characters |
| Content.StripQuotesSpec | twitter-bot/worker.js:140 | the strip removes a leading quote exactly when present, and a trailing quote exactly when present and not that same quote; the rest stays in order |
| Content.StripQuotesUnchanged | twitter-bot/worker.js:140 | text comes back unchanged exactly when it neither starts nor ends with a quote |
| Content.StripQuotesUnwraps | twitter-bot/worker.js:140 | text between a pair of quotes is unwrapped to exactly itself, even when it starts or ends with a quote |
| Content.StripQuotesLeadingOnly | twitter-bot/worker.js:178 | only the leading quote goes when there is no trailing one |
| Content.StripQuotesTrailingOnly | twitter-bot/worker.js:178 | only the trailing quote goes when there is no leading one |
| Content.StripQuotesLoneQuote | twitter-bot/worker.js:178 | a lone quote becomes empty |
| Content.Cleanup | twitter-bot/worker.js:177-178 | the cleaned text is never longer than the answer |
| Content.TrimLength | twitter-bot/worker.js:177 | trimming never lengthens a text |
| Content.TrimStartPrefix | twitter-bot/worker.js:139 | trimming the start removes exactly a leading white-space run |
| Content.TrimEndSuffix | twitter-bot/worker.js:139 | trimming the end removes exactly a trailing white-space run |
| Content.CleanupQuotedCompletion | twitter-bot/worker.js:139-140 | a quoted text surrounded by white space cleans up to exactly the text |
| Content.CleanupSpec | twitter-bot/worker.js:177-178 | the cleaned text is the trimmed text with its first character removed exactly when that is a quote, and its last character removed exactly when that is a quote other than the first character; nothing else is removed |
| Worker.Timestamp | twitter-bot/worker.js:203 | the timestamp is a non-empty run of digits without a leading zero whose value is the clock's whole seconds, so by `Text.DecimalUnique` it is the one string `toString` gives |
| Worker.SixKeysSorted | twitter-bot/worker.js:263-264 | the six protocol keys in the written order are strictly ascending |
| Worker.SevenKeysSorted | twitter-bot/worker.js:221-222 | the seven keys of the signed object in the written order are strictly ascending |
| Worker.SignatureKeyIsNew | twitter-bot/worker.js:218 | `oauth_signature` is not one of the six protocol keys |
| Worker.ProtocolKeys | twitter-bot/worker.js:199-206 | the protocol object lists its six keys in source order |
| Worker.ProtocolKeysSorted | twitter-bot/worker.js:199-206 | sorting the protocol object's keys gives the six keys in ascending order, whatever the credentials |
| Worker.ProtocolMapping | twitter-bot/worker.js:199-206 | the protocol object maps each key to its credential, the fixed method and version, the timestamp or the nonce |
| Worker.ProtocolNormalized | twitter-bot/worker.js:209-216 | the signer's parameter string for every request is exactly the six written-out pairs |
| Worker.SignedKeysSorted | twitter-bot/worker.js:218-222 | after the signature is stored, the sorted keys are the seven keys |
| Worker.SignedMapping | twitter-bot/worker.js:218 | after the signature is stored, the object maps the seven keys to their values, the signature under `oauth_signature` |
| Worker.SignedProtocolHeader | twitter-bot/worker.js:218-224 | the header of every request is exactly the seven written-out entries |
| Worker.AuthorizeRequest | twitter-bot/worker.js:199-224 | the signature is the HMAC of the written-out base under the signing key, and the header carries exactly the seven entries with that signature |
| Worker.UserLookupRequest | twitter-bot/worker.js:42-58 | the lookup is a GET of the `users/me` URL carrying the header for that URL |
| Worker.MentionsPathHasNoQuestionMark | twitter-bot/worker.js:72 | the mentions path has no `?` when the user id has none |
| Worker.SignedMentionsUrl | twitter-bot/worker.js:86 | for a user id without `?`, whatever the query holds, the URL signed is the mentions path alone |
| Worker.MentionsRequest | twitter-bot/worker.js:72-92 | `&since_id=` is appended exactly for a truthy id; the signed URL is the part before the first `?`; the header is a GET header for that signed URL |
| Worker.PrepareTweet | twitter-bot/worker.js:191-230 | the post carries the POST header for the tweets URL; its body holds the text, and a reply field exactly when a truthy reply id is given, holding that id |
| Worker.ReplyOutcome | twitter-bot/worker.js:315-324 | attempt `i` fails in generation exactly when that attempt's model call throws, and succeeds exactly when that attempt's post of the cleaned reply, as an answer to the mention, succeeds |
| Worker.ReplyToMentions | twitter-bot/worker.js:314-325 | exactly the first three mentions, or all if fewer, are attempted in order; attempt `i` goes to mention `i` and ends as that attempt's calls decide, whatever became of the earlier attempts |
| Worker.ScheduledCycle | twitter-bot/worker.js:303-332 | the cleaned tweet is posted exactly when generation and its post succeed; otherwise no reply is attempted; after a posted tweet the reply loop runs over the mentions |

## Left out

- HMAC-SHA1, the UTF-8 encoding of the key and the message, and the base64
  step are the function parameter `hmac` of type `Hmac`. The model proves what
  goes into it, not what comes out.
- `Date.now()` is the parameter `nowMs`.
- The random base-36 nonce is the string parameter `nonce`.
- `fetch`, status checks and JSON parsing are left out:
  - The `users/me` answer becomes the parameter `userId`.
  - `getMentions`, which returns `[]` on any error, becomes the parameter
    `mentions` of the scheduled cycle.
  - Whether the tweet's `postTweet` returns or throws is the parameter
    `tweetPosted`; for reply attempt `i` it is the oracle `post`, which is
    given the attempt number, so a rate limit or a network failure can hit any
    attempt.
  - The language model's raw answer, or its failure, is the parameter
    `generated` for the tweet and the oracle `complete` for each reply attempt.
    `complete` is given the attempt number as well as the mention text, so a
    sampled model may answer the same text differently on two attempts. The
    oracles are otherwise fixed in advance: the model does not capture a
    failure whose cause is the outcome of an earlier attempt, other than
    through the attempt number.
- The JSON serialisation of the tweet body is left out; `TweetBody` holds the
  fields it serialises.
- The two-second `setTimeout` between replies and the logging are left out.
- The worker's `fetch` handler (the `/tweet` and `/init` endpoints) is left
  out.
- `twitter-bot/bot.js` and `config.js` are not part of this model.
- Text.UpperAscii: models `toUpperCase` on ASCII letters only. The signer is
  only ever given `GET` and `POST`, and non-ASCII case mapping is not
  modelled.
- The order `Object.keys` lists integer-like keys in is not modelled. Every
  use of the key list sorts it first, so this order cannot change a result.
- Environment values that are `undefined` are not modelled; the four
  credentials are strings.
- `encodeURIComponent` throws on a lone surrogate. A Dafny `char` is a Unicode
  scalar value, so that case does not arise here.
- No length limit on tweets is checked, since the source checks none; the
  280-character rule lives only in the prompt.
- The timestamp is `Math.floor` of a non-negative clock reading; negative
  clock readings are not modelled.
