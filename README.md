# MAC "Authorization" header codec

A Dafny model of `Oauth2HmacHeader::AuthorizationHeader`, the class that
writes and reads the HTTP `Authorization` request header of the OAuth 2 MAC
(HMAC) scheme:

    MAC id="<id>", ts="<ts>", nonce="<nonce>"[, ext="<ext>"], mac="<mac>"

- `generate` appends the attributes to a buffer that starts with `MAC `; the
  `ext` attribute is written only when it is neither nil nor empty.
- `generate_with_new_signature` asks the signature library for `ts`, `nonce`,
  `ext` and `mac` and hands them to `generate`.
- `parse` scans the header for `(id|ts|nonce|ext|mac)=("[^"]+")`, builds a
  hash from the matches (a later duplicate overwrites an earlier one), raises
  `KeyError` naming the first of `id`, `ts`, `nonce`, `mac` that is missing,
  strips the quotes from every value and returns the five values, `ext` being
  nil when the header has none.

Files:

- `wrappers.dfy`: `Option`, which stands for a value or Ruby's `nil`.
- `authorization_header.dfy`: module `AuthorizationHeader`, the operations.
  `Generate` is a method that appends literal pieces to a buffer, proved equal
  to the specification function `Wire`. `Parse` is a function over the scanner
  `Scan`, the hash builder `ToHash`, the key check `FirstMissing` and the
  unquoting `CleanAll`. The two private helpers are methods with the source's
  loops: `ValidatePresenceOfKeys` is proved equal to `FirstMissing` and
  `CleanQuotes` to `CleanAll`.
- `authorization_header_properties.dfy`: module
  `AuthorizationHeaderProperties`, lemmas that relate the operations. These
  cover what the scan finds in a generated header, the round trip through
  `Parse`, the headers `Parse` rejects and the last-duplicate-wins rule.

The regular expression is modelled by a scanner for this one pattern. At a
position the scanner tries the keys in the order `id`, `ts`, `nonce`, `ext`,
`mac`; no two of them start with the same letter, so at most one can match.
The scanner then needs `="` and the longest run of non-quote characters,
which must be non-empty and followed by `"`. When nothing matches at a
position the scan moves on by one character; after a match it continues
behind the match. `MatchAtIff` states that a match is found at the start of a
text exactly when the text starts with `key="value"` and the value is
non-empty and quote-free.

Where the code and its documentation differ, the model follows the code:

- The doc comment of `parse` (lib/oauth2_hmac_header/authorization_header.rb:91-93)
  says a missing `ext` comes back as an empty string. The code
  (lib/oauth2_hmac_header/authorization_header.rb:102) returns `results['ext']`,
  which is `nil` for a missing key. `Parse` returns `None` there.

`clean_quotes` removes every `"` from each value, not only the two
delimiters. A captured value always has exactly two quotes, one at each end,
so this is the same as dropping the delimiters. `StripQuotesOfCapture` proves
this.

## Model

| member | source | states |
|---|---|---|
| AuthorizationHeader.Generate | lib/oauth2_hmac_header/authorization_header.rb:32-40 | the buffer built by the literal appends equals `Wire`: `MAC `, then id, ts, nonce, ext only when non-nil and non-empty, and mac, each as `key="value"` and separated by `, `; the header starts with `MAC ` and ends with `mac="<mac>"` |
| AuthorizationHeader.WireWithExt | lib/oauth2_hmac_header/authorization_header.rb:33-38 | with a non-empty ext, the header is the literal concatenation `MAC `, `id="<id>", `, `ts="<ts>", `, `nonce="<nonce>", `, `ext="<ext>", `, `mac="<mac>"` |
| AuthorizationHeader.WireWithoutExt | lib/oauth2_hmac_header/authorization_header.rb:33-38 | with a nil or empty ext, the header is the same concatenation without the ext piece |
| AuthorizationHeader.AppendSegment | lib/oauth2_hmac_header/authorization_header.rb:34-37 | appending `key="value", ` to a buffer that holds the scheme and the segments so far, each followed by the separator, gives the same with one more segment |
| AuthorizationHeader.AppendLastSegment | lib/oauth2_hmac_header/authorization_header.rb:38 | appending the final `mac="value"` completes the joined segments without a trailing separator |
| AuthorizationHeader.GenerateWithNewSignature | lib/oauth2_hmac_header/authorization_header.rb:70-75 | the header is `Wire` of the id and the ts, nonce, ext and mac that the signature collaborator returns for the request |
| AuthorizationHeader.KeyAt | lib/oauth2_hmac_header/authorization_header.rb:98 | the alternative found starts the text; when none is found no key name starts the text |
| AuthorizationHeader.KeyNamesDistinct | lib/oauth2_hmac_header/authorization_header.rb:98 | at most one key name starts a text, so the order of the alternatives does not matter |
| AuthorizationHeader.NonQuoteRun | lib/oauth2_hmac_header/authorization_header.rb:98 | `[^"]+` is greedy: the run is quote-free and is followed by a quote or by the end of the text |
| AuthorizationHeader.CaptureAfter | lib/oauth2_hmac_header/authorization_header.rb:98 | a capture found after a key is `=` followed by a quoted value of at least one non-quote character |
| AuthorizationHeader.MatchAt | lib/oauth2_hmac_header/authorization_header.rb:98 | a match found at the start of a text covers a prefix of it and captures a quoted, non-empty, quote-free value |
| AuthorizationHeader.MatchAtFinds | lib/oauth2_hmac_header/authorization_header.rb:98 | `key="c"` with `c` non-empty and quote-free is matched whatever follows it |
| AuthorizationHeader.MatchAtIff | lib/oauth2_hmac_header/authorization_header.rb:98 | a match starts a text if and only if the text starts with `key="value"`, the value non-empty and quote-free |
| AuthorizationHeader.Scan | lib/oauth2_hmac_header/authorization_header.rb:99 | every value the scan captures is a quoted, non-empty, quote-free value |
| AuthorizationHeader.ToHash | lib/oauth2_hmac_header/authorization_header.rb:99 | the hash has exactly the keys of the matches, and each entry is one of the matches |
| AuthorizationHeader.LastOccurrenceWins | lib/oauth2_hmac_header/authorization_header.rb:99 | a key that occurs several times maps to the value of its last match |
| AuthorizationHeader.FirstMissing | lib/oauth2_hmac_header/authorization_header.rb:115-119 | `None` if and only if every key is in the hash; otherwise the first key, in list order, that the hash lacks |
| AuthorizationHeader.ValidatePresenceOfKeys | lib/oauth2_hmac_header/authorization_header.rb:115-119 | the loop stops at the first missing key and reports it, or reports none when all are present; the result equals `FirstMissing` |
| AuthorizationHeader.MandatoryCheck | lib/oauth2_hmac_header/authorization_header.rb:100 | the check of `id`, `ts`, `nonce`, `mac` on the hash fails if and only if one of them is not among the matched keys, and names the first such key |
| AuthorizationHeader.StripQuotes | lib/oauth2_hmac_header/authorization_header.rb:109 | the result has no quote, is no longer than the input, and a quote-free input is unchanged |
| AuthorizationHeader.StripQuotesAppend | lib/oauth2_hmac_header/authorization_header.rb:109 | removing quotes distributes over concatenation |
| AuthorizationHeader.StripQuotesOfQuote | lib/oauth2_hmac_header/authorization_header.rb:109 | removing the quotes from `"c"` with `c` quote-free gives `c` back |
| AuthorizationHeader.StripQuotesOfCapture | lib/oauth2_hmac_header/authorization_header.rb:109 | on a captured value, removing every quote equals dropping the two delimiters, and leaves a non-empty, quote-free text |
| AuthorizationHeader.CleanAll | lib/oauth2_hmac_header/authorization_header.rb:108-111 | the cleaned hash has the same keys as the input |
| AuthorizationHeader.CleanQuotes | lib/oauth2_hmac_header/authorization_header.rb:108-111 | the loop over the entries keeps the keys and replaces every value by that value without quotes; the result equals `CleanAll` |
| AuthorizationHeader.CleanedScan | lib/oauth2_hmac_header/authorization_header.rb:101 | every value of the cleaned hash of a scan is non-empty and quote-free |
| AuthorizationHeader.FromMatches | lib/oauth2_hmac_header/authorization_header.rb:99-102 | fails if and only if a mandatory key is not matched, naming the first in the order id, ts, nonce, mac; otherwise every returned value is non-empty and quote-free, and ext is nil exactly when no ext was matched |
| AuthorizationHeader.Parse | lib/oauth2_hmac_header/authorization_header.rb:97-103 | raises the key error if and only if a mandatory key is missing from the scan, naming the first missing one; otherwise every returned value is non-empty and quote-free, and ext is nil (not an empty string) exactly when the header has no ext match |
| AuthorizationHeaderProperties.SkipUnmatched | lib/oauth2_hmac_header/authorization_header.rb:99 | text in which no match starts at any position adds nothing to the scan |
| AuthorizationHeaderProperties.SkipNoKey | lib/oauth2_hmac_header/authorization_header.rb:98-99 | text in which no key name can start adds nothing to the scan |
| AuthorizationHeaderProperties.SkipPunctuation | lib/oauth2_hmac_header/authorization_header.rb:98-99 | text made of characters no key name starts with (such as `MAC ` and `, `) adds nothing to the scan |
| AuthorizationHeaderProperties.EmptySegmentUnmatched | lib/oauth2_hmac_header/authorization_header.rb:98 | `key=""` is not matched, because `[^"]+` needs one character, and adds nothing to the scan |
| AuthorizationHeaderProperties.ScanSegment | lib/oauth2_hmac_header/authorization_header.rb:98-99 | a quote-free attribute `key="value"` yields one match when the value is non-empty and none when it is empty |
| AuthorizationHeaderProperties.ScanJoined | lib/oauth2_hmac_header/authorization_header.rb:98-99 | attributes joined by `, ` scan to their matches in order |
| AuthorizationHeaderProperties.ScanWire | lib/oauth2_hmac_header/authorization_header.rb:32-40 | the scan of a generated header with quote-free values finds exactly its non-empty attributes, in the order written |
| AuthorizationHeaderProperties.FieldMembers | lib/oauth2_hmac_header/authorization_header.rb:33-38 | the matches of a header's attributes are one per key with a non-empty value, carrying that value quoted |
| AuthorizationHeaderProperties.FromFieldMatches | lib/oauth2_hmac_header/authorization_header.rb:99-102 | for matches that hold exactly the non-empty values, the result is the first empty mandatory key or all values, with ext present exactly when non-empty |
| AuthorizationHeaderProperties.ParseGenerated | lib/oauth2_hmac_header/authorization_header.rb:97-103 | parsing a generated header with quote-free values fails on the first of id, ts, nonce, mac written empty; otherwise it returns every value, and ext exactly when it was written |
| AuthorizationHeaderProperties.RoundTrip | spec/oauth2_hmac_header/authorization_header_spec.rb:44-54 | parsing what `generate` wrote with non-empty, quote-free values returns the same values; an ext that was nil or empty comes back as nil |
| AuthorizationHeaderProperties.ExtNilSameAsEmpty | lib/oauth2_hmac_header/authorization_header.rb:37 | for any values, a nil ext and an empty ext give the same header |
| AuthorizationHeaderProperties.ExtNilNotScanned | lib/oauth2_hmac_header/authorization_header.rb:37 | a header written with a nil ext and quote-free values has no ext match for the scan to find |
| AuthorizationHeaderProperties.ParseWithoutMacFails | spec/oauth2_hmac_header/authorization_header_spec.rb:56-62 | a generated header with its trailing `mac="..."` cut off fails with the mac key named |
| AuthorizationHeaderProperties.ParseEmptyMacFails | spec/oauth2_hmac_header/authorization_header_spec.rb:61-63 | a generated header whose mac value is emptied to `mac=""` fails with the mac key named |
| AuthorizationHeaderProperties.ParseTakesLast | lib/oauth2_hmac_header/authorization_header.rb:99-102 | for a key matched several times, a successful parse returns the last match's value without its quotes |
| AuthorizationHeaderProperties.ParseIgnoresScheme | lib/oauth2_hmac_header/authorization_header.rb:98 | the `MAC ` scheme name is not checked: the header with or without it parses the same |

## Left out

- `is_valid?` (lib/oauth2_hmac_header/authorization_header.rb:7-8) only delegates to the signature library, which is not part of this model.
- `Oauth2HmacSign::Signature.generate` (lib/oauth2_hmac_header/authorization_header.rb:71-73) computes the signature with HMAC, a clock and a random nonce. It is the function parameter `sign` of `GenerateWithNewSignature`.
- The default `ext = ''` of `generate_with_new_signature` has no counterpart: Dafny has no default arguments, so the caller always passes the request's `ext`.
- The `attr_reader` accessors (lib/oauth2_hmac_header/authorization_header.rb:10) belong to instances that no code creates, so there is no state to model.
- The text of the `KeyError` message (lib/oauth2_hmac_header/authorization_header.rb:117) is not modelled. `MissingKey` carries only the key it names.
- Generate: every value is taken as text. `generate` interpolates whatever value it is given, so `ts` may be a number and a nil id, nonce or mac becomes an empty string. The model does not cover that conversion.
- Only the one regular expression `parse` uses is modelled, by a scanner written for it. Ruby's general regular-expression engine is not part of this model.
- `clean_quotes` edits the strings of the hash in place with `gsub!`. The model works on values; no other code sees those strings, so the aliasing is not observable.
- Strings are sequences of characters. Encodings and invalid byte sequences are not modelled.
- `Parse` returns a datatype instead of a five-element array, and `MissingKey` instead of raising `KeyError`.
