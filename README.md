# Twim: xAuth signing, authorisation, timeline paging, the overlay menu

Twim is a Java ME Twitter client. This project models four parts of it in Dafny and proves
properties of the model:

- `XAuth`: the OAuth 1.0a / xAuth request signer. It covers:
  - percent-encoding;
  - reading the caller's query parameters;
  - adding the protocol parameters, sorting them by name and normalising them;
  - the normalised URL and the signature base string;
  - the signing key;
  - the request that is finally sent.
- `TwitterApi`: the authorisation state machine (authorize, bypassAuthorization, resetToken), the
  authorisation guard and retry loop of `requestTimeline`, and the paged URLs of the home timeline
  and "retweets of me".
- `Menu`: the cyclic selection, the active flag and the size and position computed from the labels.
- `VectorUtil.convertToStringArray`.

The modules follow the program:

- `Wrappers`: `Option` and `Result`.
- `JavaString`: the `java.lang.String` and `StringUtil` operations the code relies on, with Java's
  truncating `int` division.
- `Percent`: `encode`, with a decoder that proves it injective.
- `Parameters`: `QueryParameter`, `getQueryParameters` and `normalizeRequestParameters`.
- `ParameterSort`: the bubble sort `sortParameters`, in place on an array.
- `Signing`: the pure signing rules.
- `XAuthClient`: the class `XAuth` and the steps of `xAuthWebRequest`.
- `Twitter`: the class `TwitterApi`.
- `Views`: the class `Menu`.
- `Utils`: `VectorUtil`.

Several things outside these classes become parameters, mostly bundled in `Twitter.Environment`:

- the network (`webRequest` and `HttpUtil`);
- the response parsers;
- HMAC-SHA1 with Base64;
- the clock and the random nonce;
- `Throwable.getMessage` and the runtime class name of an exception.

A Java `null` string is `None`. A Java exception is the `Err` case of a `Result`, so
`StringIndexOutOfBoundsException` from `substring`, `ArrayIndexOutOfBoundsException` and
`ClassCastException` are all modelled.

## Model

| member | source | states |
|---|---|---|
| Percent.Encode | trunk/Twim/src/com/substanceofcode/twitter/XAuth.java:393-410 | a null or empty string encodes to ""; otherwise the result is `Encoded` of the string: unreserved characters are kept and every other character becomes %XX of its UTF-8 bytes |
| Percent.UnreservedTable | trunk/Twim/src/com/substanceofcode/twitter/XAuth.java:390-391 | a character is in the unreserved table exactly when it is an ASCII letter, a digit, '-', '.', '_' or '~' |
| Percent.EncodedAppend | trunk/Twim/src/com/substanceofcode/twitter/XAuth.java:397-409 | encoding works character by character: encoding a concatenation gives the concatenation of the encodings |
| Percent.EncodedUnchanged | trunk/Twim/src/com/substanceofcode/twitter/XAuth.java:399-406 | encoding leaves a string unchanged if and only if every character of it is unreserved |
| Percent.EncodedHasNo | trunk/Twim/src/com/substanceofcode/twitter/XAuth.java:399-406 | an encoded string never contains '&', '=' or '?' |
| Percent.EncodedLength | trunk/Twim/src/com/substanceofcode/twitter/XAuth.java:399-406 | encoding never shortens a string, and it lengthens it whenever some character is reserved |
| Percent.DecodeEncoded | trunk/Twim/src/com/substanceofcode/twitter/XAuth.java:393-410 | percent-decoding undoes the encoding for every string |
| Percent.EncodedInjective | trunk/Twim/src/com/substanceofcode/twitter/XAuth.java:393-410 | two strings with the same encoding are equal |
| Parameters.NormalizeRequestParameters | trunk/Twim/src/com/substanceofcode/twitter/XAuth.java:362-376 | the loop builds the name=value pairs joined by '&', with no separator after the last pair |
| Parameters.NormalizedPieces | trunk/Twim/src/com/substanceofcode/twitter/XAuth.java:362-376 | no parameters give ""; otherwise, when no name or value holds '&', splitting at '&' gives back exactly the pairs, in order |
| Parameters.GetQueryParameters | trunk/Twim/src/com/substanceofcode/twitter/XAuth.java:185-203 | no '?' gives no parameters; otherwise each '&'-piece of the query not starting "oauth_" becomes a parameter; a piece without '=' throws ArrayIndexOutOfBounds |
| Parameters.CallerParametersFailFast | trunk/Twim/src/com/substanceofcode/twitter/XAuth.java:195-201 | once a piece fails, the later pieces do not matter: the whole query fails with that piece's error |
| Parameters.QueryParametersRoundTrip | trunk/Twim/src/com/substanceofcode/twitter/XAuth.java:185-203 | reading back URL + "?" + normalised parameters gives exactly the parameters not named "oauth_...", in order (names and values free of '&' and '=') |
| ParameterSort.SortParameters | trunk/Twim/src/com/substanceofcode/twitter/XAuth.java:293-310 | the in-place bubble sort leaves the array sorted by name by String.compareTo. It is a permutation. It is stable: each name keeps its values in their original order. It equals the reference insertion sort `SortByName` |
| ParameterSort.BubblePass | trunk/Twim/src/com/substanceofcode/twitter/XAuth.java:297-309 | one pass of the inner for loop keeps the sorted prefix and carries the least remaining name to its front. It reports no swap only when the whole array is sorted by name. It keeps each name's values in order |
| ParameterSort.SwapDown | trunk/Twim/src/com/substanceofcode/twitter/XAuth.java:302-306 | swapping neighbours i-1 and i, where i's name sorts first, exchanges exactly those two entries. It keeps each name's values in order and keeps the least entry at the front of the unsorted part |
| ParameterSort.SortByNameCorrect | trunk/Twim/src/com/substanceofcode/twitter/XAuth.java:293-310 | the reference sort is sorted by name, keeps each name's values in order and is a permutation |
| ParameterSort.SortedRunsDetermine | trunk/Twim/src/com/substanceofcode/twitter/XAuth.java:293-310 | two sequences that are sorted by name and have the same values for every name are equal, so every stable sort gives the same result |
| ParameterSort.StableSortIsSortByName | trunk/Twim/src/com/substanceofcode/twitter/XAuth.java:293-310 | any sorted sequence with the same per-name values as the input is the reference sort of the input |
| ParameterSort.SortExample | trunk/Twim/src/com/substanceofcode/twitter/XAuth.java:293-310 | a concrete case: two equal names keep their relative order |
| JavaString.IndexOfStringFirst | trunk/Twim/src/com/substanceofcode/twitter/TwitterApi.java:90 | String.indexOf(String) returns the first occurrence, and -1 means there is none |
| JavaString.CompareToAntisymmetric | trunk/Twim/src/com/substanceofcode/twitter/XAuth.java:302 | swapping the arguments of String.compareTo negates its result |
| JavaString.LessTransitive | trunk/Twim/src/com/substanceofcode/twitter/XAuth.java:302 | the order compareTo defines is transitive |
| JavaString.SplitJoin | trunk/Twim/src/com/substanceofcode/twitter/XAuth.java:194 | splitting at a separator and joining again gives back the string, and no piece contains the separator |
| JavaString.JoinSplit | trunk/Twim/src/com/substanceofcode/twitter/XAuth.java:194 | joining separator-free pieces and splitting again gives back the pieces |
| JavaString.NatToStringRoundTrip | trunk/Twim/src/com/substanceofcode/twitter/TwitterApi.java:185 | the decimal text of a page number is all digits, reads back as that number and has no leading zero |
| Signing.NormalizedUrlShape | trunk/Twim/src/com/substanceofcode/twitter/XAuth.java:260-261 | scheme-and-host plus the absolute path exist exactly when a '/' follows the host and does not come after the query. They are then the URL without its query, and the path starts with '/' |
| Signing.SignedFixedParameters | trunk/Twim/src/com/substanceofcode/twitter/XAuth.java:230-258 | the signed parameters are sorted by name and carry exactly one each of the version "1.0", the nonce, the timestamp, the signature method and the consumer key |
| Signing.SignedTokenAndVerifier | trunk/Twim/src/com/substanceofcode/twitter/XAuth.java:237-256 | oauth_token is signed exactly when a non-empty token is held, and oauth_verifier exactly when a non-empty verifier is held |
| Signing.SignedXAuthParameters | trunk/Twim/src/com/substanceofcode/twitter/XAuth.java:237-251 | without a token, a non-empty user name adds x_auth_username, and a non-empty password adds x_auth_password and x_auth_mode=client_auth; with a token, none of them is added |
| Signing.SignedParametersNonEmpty | trunk/Twim/src/com/substanceofcode/twitter/XAuth.java:230-263 | at least five parameters are signed, so the normalised parameters are never empty |
| Signing.SignatureBaseParts | trunk/Twim/src/com/substanceofcode/twitter/XAuth.java:258-273 | the base string splits at '&' into the method, the encoded normalised URL and the encoded normalised parameters, and each encoded part decodes back |
| Signing.SigningKeyParts | trunk/Twim/src/com/substanceofcode/twitter/XAuth.java:337-341 | the key splits into the encoded consumer secret and the encoded token secret, each of which decodes back; a null token secret gives the same key as an empty one |
| Signing.RequestQuery | trunk/Twim/src/com/substanceofcode/twitter/XAuth.java:136-157 | the request's URL is the normalised URL, '?', and the signed parameters followed by oauth_signature, normalised; its method and post data are the ones prepared |
| Signing.RequestCarriesSignedParameters | trunk/Twim/src/com/substanceofcode/twitter/XAuth.java:136-157 | reading the sent URL's query back gives the signed parameters whose names do not start with oauth_, in signed order: the caller's parameters and, without a token, the x_auth_ ones |
| Signing.PostParametersSigned | trunk/Twim/src/com/substanceofcode/twitter/XAuth.java:95-117 | a POST's parameters are appended to the signed URL with their values encoded and read back as such |
| XAuthClient.AppendProtocol | trunk/Twim/src/com/substanceofcode/twitter/XAuth.java:231-256 | appends the five fixed parameters, then the token or the xAuth user parameters, then the verifier |
| XAuthClient.CollectParameters | trunk/Twim/src/com/substanceofcode/twitter/XAuth.java:230-258 | the caller's parameters and the protocol parameters, sorted by name, or the error of reading the URL |
| XAuthClient.EncodePostData | trunk/Twim/src/com/substanceofcode/twitter/XAuth.java:99-107 | the loop builds name=encode(value) pairs joined by '&' |
| XAuthClient.PrepareRequest | trunk/Twim/src/com/substanceofcode/twitter/XAuth.java:87-118 | the method is POST or GET; a POST with parameters adds its post data to the URL after '&' when a '?' sits past index 0, else after '?' |
| XAuthClient.AssembleRequest | trunk/Twim/src/com/substanceofcode/twitter/XAuth.java:136-157 | the sent URL is the normalised URL, '?', the normalised parameters, '&', and oauth_signature= with the encoded signature (a null signature becomes "") |
| XAuthClient.XAuth.constructor | trunk/Twim/src/com/substanceofcode/twitter/XAuth.java:69-75 | holds the user name and password, with no token, secret or verifier, and empty normalised strings |
| XAuthClient.XAuth.SetTokenAndSecret | trunk/Twim/src/com/substanceofcode/twitter/XAuth.java:77-80 | replaces the token and secret and nothing else |
| XAuthClient.XAuth.GenerateSignatureBase | trunk/Twim/src/com/substanceofcode/twitter/XAuth.java:205-274 | returns the signature base of the specification function, and leaves its normalised URL and parameters in the fields; a failing URL leaves the error |
| XAuthClient.XAuth.GenerateSignature | trunk/Twim/src/com/substanceofcode/twitter/XAuth.java:312-343 | the MAC of the signature base under the encoded consumer secret, '&' and the encoded token secret (null treated as "") |
| XAuthClient.XAuth.XAuthWebRequest | trunk/Twim/src/com/substanceofcode/twitter/XAuth.java:82-160 | the held credentials are unchanged; the answer is what the network gives for exactly the request `RequestOf` describes, or the signing error |
| Twitter.HandshakeGranted | trunk/Twim/src/com/substanceofcode/twitter/TwitterApi.java:80-109 | authorisation succeeds if and only if the request answered and its text contains "oauth_token_secret" somewhere past the first character |
| Twitter.MarkerFirstIsRefused | trunk/Twim/src/com/substanceofcode/twitter/TwitterApi.java:90-102 | an answer that begins with "oauth_token_secret" is a refusal, with the "Couldn't find OAuth token" status |
| Twitter.PageUrlQuery | trunk/Twim/src/com/substanceofcode/twitter/TwitterApi.java:182-212 | page 1 and below ask for the bare URL with no parameters; a later page adds the one parameter page=n, whose digits read back as n |
| Twitter.AsWrittenKeepsRetrying | trunk/Twim/src/com/substanceofcode/twitter/TwitterApi.java:294-321 | as written, one malformed empty answer followed by any number of well-formed empty feeds keeps the loop asking again |
| Twitter.TimelineNonEmpty | trunk/Twim/src/com/substanceofcode/twitter/TwitterApi.java:285-339 | a timeline request never returns an empty list: there is always a status or an explanation |
| Twitter.TakeFeed | trunk/Twim/src/com/substanceofcode/twitter/TwitterApi.java:304-318 | one parsed answer gives its statuses, or one "Twitter" status when the feed is empty. A malformed empty answer flips the retry flag; any other answer clears it (the corrected step, see Findings) |
| Twitter.FetchTimeline | trunk/Twim/src/com/substanceofcode/twitter/TwitterApi.java:293-338 | the loop makes at most two requests and returns `Timeline`. That is the statuses or an explanation, or the one or two statuses for an exception. The credentials are unchanged |
| Twitter.TwitterApi.constructor | trunk/Twim/src/com/substanceofcode/twitter/TwitterApi.java:62-68 | not authenticated, no error status, no XAuth object |
| Twitter.TwitterApi.SetUsername | trunk/Twim/src/com/substanceofcode/twitter/TwitterApi.java:154-156 | replaces the user name and nothing else |
| Twitter.TwitterApi.SetPassword | trunk/Twim/src/com/substanceofcode/twitter/TwitterApi.java:158-160 | replaces the password and nothing else |
| Twitter.TwitterApi.BypassAuthorization | trunk/Twim/src/com/substanceofcode/twitter/TwitterApi.java:70-78 | a non-empty token gives a new XAuth holding it and its secret, and marks the API authenticated; otherwise only the flag is cleared |
| Twitter.TwitterApi.Authorize | trunk/Twim/src/com/substanceofcode/twitter/TwitterApi.java:80-109 | already authenticated: true, nothing changes. Otherwise a new tokenless XAuth makes the handshake. The result, the flag, the error status and the token pair follow `HandshakeOutcome` |
| Twitter.TwitterApi.Settle | trunk/Twim/src/com/substanceofcode/twitter/TwitterApi.java:89-108 | on the handshake's answer: granted sets the parsed token pair, the flag and no error status; refused or failed clears the flag and sets the matching status |
| Twitter.TwitterApi.ResetToken | trunk/Twim/src/com/substanceofcode/twitter/TwitterApi.java:401-404 | the token pair becomes empty and the API is no longer authenticated |
| Twitter.TwitterApi.RequestTimeline | trunk/Twim/src/com/substanceofcode/twitter/TwitterApi.java:285-339 | not authorised: exactly the error status. Authorised: `Timeline` of the held credentials. The flag ends up set exactly when it was set or the handshake succeeded. Already authenticated: the same XAuth object, credentials and error status, and the timeline of those credentials. Otherwise a fresh XAuth whose credentials, error status and entries follow the handshake outcome |
| Twitter.TwitterApi.RequestHomeTimeline | trunk/Twim/src/com/substanceofcode/twitter/TwitterApi.java:182-188 | the same guard, flag, frame and credential clauses as RequestTimeline, for the home URL of that page |
| Twitter.TwitterApi.RequestRetweetsOfMe | trunk/Twim/src/com/substanceofcode/twitter/TwitterApi.java:206-212 | the same guard, flag, frame and credential clauses as RequestTimeline, for the retweets-of-me URL of that page |
| Views.SelectionCycles | Twim/src/com/substanceofcode/twitter/views/Menu.java:137-149 | next and previous stay on a label, wrap at the ends, and undo each other |
| Views.AdvanceWraps | Twim/src/com/substanceofcode/twitter/views/Menu.java:137-142 | k steps forward move k places, wrapping once past the end; one step per label returns to the start |
| Views.MenuCentred | Twim/src/com/substanceofcode/twitter/views/Menu.java:199-204 | on a screen at least as tall as the menu, the menu is centred to within a pixel and starts inside the screen |
| Views.Menu.constructor | Twim/src/com/substanceofcode/twitter/views/Menu.java:57-69 | inactive, titled "Menu", not aligned left, on the first label, rows per screen by int division, and sized like calculateSize (height and top 0 without labels) |
| Views.Menu.SelectNext | Twim/src/com/substanceofcode/twitter/views/Menu.java:137-142 | the selection moves to the next label, wrapping to the first; it stays on a label; the screen size, row height, rows per screen, title and alignment (`Layout`) are kept |
| Views.Menu.SelectPrevious | Twim/src/com/substanceofcode/twitter/views/Menu.java:144-149 | the selection moves to the previous label, wrapping to the last; it stays on a label; the screen size, row height, rows per screen, title and alignment (`Layout`) are kept |
| Views.Menu.GetSelectedLabel | Twim/src/com/substanceofcode/twitter/views/Menu.java:155-160 | null without labels; the selected label when the index is in range; ArrayIndexOutOfBounds otherwise; a valid menu with labels always answers with one of them |
| Views.Menu.Activate | Twim/src/com/substanceofcode/twitter/views/Menu.java:166-169 | shown, on the first label; the screen size, row height, rows per screen, title and alignment (`Layout`) are kept |
| Views.Menu.Deactivate | Twim/src/com/substanceofcode/twitter/views/Menu.java:177-179 | hidden, with the selection kept; the screen size, row height, rows per screen, title and alignment (`Layout`) are kept |
| Views.Menu.CalculateSize | Twim/src/com/substanceofcode/twitter/views/Menu.java:199-204 | with labels, one row per label plus the title row, placed by `MenuTop`; without labels nothing changes; the screen size, row height, rows per screen, title and alignment (`Layout`) are kept |
| Views.Menu.SetLabels | Twim/src/com/substanceofcode/twitter/views/Menu.java:185-189 | new labels, resized, back on the first label; the screen size, row height, rows per screen, title and alignment (`Layout`) are kept |
| Views.Menu.SetLabel | Twim/src/com/substanceofcode/twitter/views/Menu.java:191-193 | that one label is replaced and the others are kept |
| Utils.ConvertToStringArray | Twim/src/com/substanceofcode/utils/VectorUtil.java:22-31 | succeeds exactly when every element is a string, and then gives a new array of the strings in order; otherwise it fails with ClassCast |

## Left out

- HMAC-SHA1 and Base64 (`getSignature`) are the parameter `mac`. `None` stands for the
  UnsupportedEncodingException path that returns null.
- `generateTimeStamp` and `generateNonce` read the clock and a random generator; they are inputs,
  one per request of a call: the handshake is request 0 and the timeline requests are 1 and 2.
- `webRequest` and `HttpUtil` do network I/O; they are the parameter `send`. That `webRequest`
  also ignores its post data on the wire is not modelled.
- Percent.Encode: strings are sequences of Unicode scalar values, and a supplementary character
  is escaped as its 4-byte UTF-8 sequence. Java's loop visits UTF-16 code units and passes each
  half of a surrogate pair to `urlEncode` on its own; that is not modelled.
- JavaString.CompareTo: compares scalar values. Java compares UTF-16 code units, which orders a
  supplementary character before U+E000..U+FFFF; that order is not modelled.
- `StringUtil.split` and `StringUtil.urlEncode` are not part of this model. `Split` is the usual
  split that keeps empty pieces, and `urlEncode` of one character is taken to be %XX of its
  UTF-8 bytes (section 2.1 of RFC 3986).
- `HttpUtil.parseParameter` and `StatusFeedParser` are parameters, because the parsers are not
  part of this model.
- The other `TwitterApi` requests (update status, follow, favourites, lists, search and others)
  are network wrappers outside the modelled core.
- The `TwitterApi` state is static in Java and shared by every instance. Here it is the fields of
  one object, used sequentially, with no concurrency.
- Menu drawing (`draw`, which also moves `top` when aligned left), the actions and
  `activateSelected`, `alignLeft`, `setTitle` and the getters are screen code and not modelled.
  The font's row height is a constructor argument.
- Views.Menu.SelectNext: requires labels, because Java throws NullPointerException without them;
  that exception is not modelled.
- Views.Menu.SelectPrevious: requires labels, for the same reason as SelectNext.
- Views.Menu.SetLabel: requires labels and an index in range; the NullPointerException and
  ArrayIndexOutOfBoundsException are not modelled.
- Twitter.TwitterApi.ResetToken: requires an XAuth object. On an API that was never authorised,
  Java throws NullPointerException; that is not modelled.
- Menu labels are non-null strings; a null element of the array is not modelled.
- Java `int` overflow in the menu arithmetic is not modelled: the integers are unbounded.
- Utils.ConvertToStringArray: a null vector element (which Java casts without error) is not
  modelled.
- Exception messages of library exceptions come from `getMessage` in the environment, and the
  runtime class that `Throwable.toString` prints comes from `className`, because a thrown
  exception may be any subclass.
- The verifier field of `XAuth` is never set anywhere in this code, so it is always absent. The
  signing rules still cover a held verifier.
- Twitter.TwitterApi.RequestTimeline: uses the corrected retry step (see Findings), not the
  loop as written. The current time is one `now` value per call.
- Twitter.FetchTimeline: clears the retry flag after a well-formed empty feed, where
  TwitterApi.java:314-317 as written keeps it; so it makes at most two requests (see Findings).
- Twitter.TakeFeed: clears the retry flag after a well-formed empty feed, where the code as
  written keeps it (see Findings).
- The files ListsParser, SendPhotoTask, UserList and ComicTalkBalloon are outside the modelled core.

## Findings

| source | as written | input that shows it | evidently intended | confidence | as-written member | corrected member |
|---|---|---|---|---|---|---|
| trunk/Twim/src/com/substanceofcode/twitter/TwitterApi.java:294-321 | the branch for a well-formed empty feed leaves `retry` as it was, so after one malformed empty answer the do-while asks again after every well-formed empty feed, for ever | first answer: no statuses and not a well-formed empty feed; every later answer: a well-formed empty feed | a well-formed empty feed ends the loop, so at most two requests are made | not executed | Twitter.AsWrittenKeepsRetrying | Twitter.FetchTimeline |
