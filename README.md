# Jeeves chat bot: message posting, `!!docs` and `tweet2`, in Dafny

This project models three parts of the Jeeves chat bot for Stack Overflow chat and proves properties of each.

- **Posting a message** (`PostMessage`, PostMessageAction.dfy). This is the action that reads the chat server's JSON acknowledgement and then does one of three things:
  - it records the posted message and succeeds;
  - it fails with `MessagePostFailureException`;
  - or it asks for a retry after `attempt * 1000` ms.

  The action is a class with the shared tracker and its own future as fields. Its identity check, `isValid`, stops a message that has already been posted from being sent again.
- **The `!!docs` plugin** (`Docs`, Docs.dfy), all of it pure functions:
  - which messages it answers;
  - the lookup pattern (`::` becomes `.`);
  - the mysql warning short-cut;
  - the lookup URL, with `rawurlencode` (`UrlEncoding`);
  - the page kind read from the manual URL;
  - the four detail builders, with `normalizeMessageContent`;
  - the reply it formats.

  A fetched manual page is abstracted to the text of its first `h1`, its first `h2`, and its first `para` and `dc-title` elements.
- **The `tweet2` command** (`BetterTweet`, BetterTweet.dfy):
  - the transcript-link matcher and message-id extractor;
  - `removePings`, as PCRE's left-to-right replacement;
  - the 140-character limit;
  - the tweet link and its read-back by the status-id pattern;
  - the plugin's per-room client cache. This is a class whose `GetClientForRoom` loops over the configuration keys like the source's `foreach`;
  - `tweet` with its guards in the source's order.

Shared modules:
- `Wrappers`: `Option` and `Result`.
- `Strings`: PCRE's `\s` and `\d` without the `u` modifier, words and tokens, decimal digits, and ASCII case folding.
- `UrlEncoding`: RFC 3986 percent-encoding, with the section 2.1 decoder as its partner, and UTF-8 encoding.

PHP strings are byte strings. Here a string is a sequence of Unicode scalar values, standing for its UTF-8 bytes. The classes `\s`, `\d`, `[^\s]`, `[^/]` and `[^.]` match a multi-byte character exactly when they match each of its bytes, so for them the two readings agree. The one place they differ is the unescaped `.` of the status-id pattern (BetterTweet.php:85), which matches a single byte: `StatusIdAtStart` therefore admits only an ASCII character there. `rawurlencode` is applied to the UTF-8 bytes, and `mb_strlen` counts scalar values.

`$` in the source's regexes has no `D` modifier, so it also matches before one final newline. The model follows this in every anchored pattern.

Two regexes differ in their capture groups. `isMessageValid` (line 56) has `(#\d+)?` and the id extractor (lines 61 and 97) has `(?:#\d+)?`. Both accept the same links, so one matcher models both.

I/O is replaced by parameters:
- `BetterTweet.World` holds the answers of the chat server, the admin storage and Twitter.
- `BetterTweet.KeyValueStore` is an abstract map from (key, room) to a value.
- The access-token and client factories are opaque constructors, `AccessToken` and `ApiClient`.
- The posted-message tracker is an abstract per-room map. `PushMessage` fills the room's slot and `PeekMessage` reads the pending message recorded there.

## Model

| member | source | states |
|---|---|---|
| PostMessage.PostMessageAction.ExceptionKind | src/Chat/Client/Actions/PostMessageAction.php:32-35 | the action's error kind is always the class name `Room11\Jeeves\Chat\Client\MessagePostFailureException`, and the failure branch of `ProcessResponse` fails with that kind |
| PostMessage.PostedMessageTracker.PeekMessage | src/Chat/Client/Actions/PostMessageAction.php:39 | models `peekMessage($room)`: the pending message recorded in the room's slot, or none |
| PostMessage.PostMessageAction.IsValid | src/Chat/Client/Actions/PostMessageAction.php:37-40 | the action is invalid exactly when the tracker's slot for its room holds this very `PendingMessage` object; it reads only the tracker |
| PostMessage.Classify | src/Chat/Client/Actions/PostMessageAction.php:44-66 | success exactly when `id` and `time` are both present and non-null, with their values; failure exactly when the `id` key is missing; retry exactly when `id` is null, or set with `time` null or missing |
| PostMessage.MissingTimeRetries | src/Chat/Client/Actions/PostMessageAction.php:44-58 | a set `id` without a `time` key takes the retry branch, not the failure branch |
| PostMessage.BackoffDelay | src/Chat/Client/Actions/PostMessageAction.php:63 | models `$attempt * 1000`, the delay in milliseconds |
| PostMessage.BackoffIsLinear | src/Chat/Client/Actions/PostMessageAction.php:63 | each further attempt waits 1000 ms more, and attempt 1 or later waits at least 1000 ms |
| PostMessage.PostedMessageTracker.PushMessage | src/Chat/Client/Actions/PostMessageAction.php:47 | pushing records the posted message in its room's slot and changes no other room |
| PostMessage.PostMessageAction.ProcessResponse | src/Chat/Client/Actions/PostMessageAction.php:42-67 | exactly one branch runs. On success: `PostedMessage(room, id, time, message)` is pushed, the future succeeds with it, SUCCESS is returned, and the action is no longer valid. On failure: the response is logged at ERROR, the future fails with "Invalid response from server", and nothing is pushed. On retry: `attempt * 1000` is returned, the warning is logged, and the future stays pending |
| Docs.ValidMessage | src/Chat/Plugin/Docs.php:35-39 | true exactly for a `docs` command with at least one parameter |
| Docs.Implode | src/Chat/Plugin/Docs.php:42 | models PHP's `implode`: the pieces joined with the glue between neighbours |
| Docs.ReplaceDoubleColons | src/Chat/Plugin/Docs.php:42 | models `str_replace('::', '.', …)`: the scan replaces each `::` from the left and resumes after it |
| Docs.Pattern | src/Chat/Plugin/Docs.php:42 | the pattern is the parameters joined by one space, then `::` replaced; it never contains `::` |
| Docs.ReplaceLeavesNoDoubleColon | src/Chat/Plugin/Docs.php:42 | no `::` is left in the pattern after the left-to-right replacement |
| Docs.ReplaceColonRun | src/Chat/Plugin/Docs.php:42 | a run of k colons becomes k/2 dots followed by k mod 2 colons |
| Docs.ReplaceWithoutColons | src/Chat/Plugin/Docs.php:42 | text without colons is left unchanged |
| Docs.LookupFor | src/Chat/Plugin/Docs.php:44-52 | a pattern starting `mysql_` (and only such a pattern) gets the fixed warning and no fetch. Any other pattern is fetched from the lookup base followed by an RFC 3986 encoded query that percent-decodes to exactly the pattern's UTF-8 bytes |
| Docs.GetResult | src/Chat/Plugin/Docs.php:42-52 | models the first step of `getResult`: the lookup for the pattern built from the command's parameters |
| UrlEncoding.RawUrlEncode | src/Chat/Plugin/Docs.php:52 | models `rawurlencode` byte by byte: an unreserved byte is kept, any other becomes `%` and two upper-case hex digits |
| UrlEncoding.DecodeRawUrlEncode | src/Chat/Plugin/Docs.php:52 | percent-decoding what `rawurlencode` produced gives back the original bytes |
| UrlEncoding.RawUrlEncodeIsEncoded | src/Chat/Plugin/Docs.php:52 | `rawurlencode` output is canonical: unreserved characters stand for themselves, and each `%XX` escape has upper-case hex digits and stands for a byte that is not unreserved |
| UrlEncoding.EncodedIsRawUrlEncode | src/Chat/Plugin/Docs.php:52 | canonical encoded text that decodes to some bytes is exactly `rawurlencode` of those bytes, so the `LookupFor` contract allows one URL only |
| Docs.Normalize | src/Chat/Plugin/Docs.php:205-208 | models `trim(preg_replace('/\s+/', ' ', …))` |
| Docs.NormalizeIsNormal | src/Chat/Plugin/Docs.php:205-208 | normalized text holds only single spaces as whitespace, has no two adjacent whitespace characters, and has nothing `trim` would strip at either end |
| Docs.NormalIsFixpoint | src/Chat/Plugin/Docs.php:205-208 | normal text is left unchanged by normalization |
| Docs.NormalizeIdempotent | src/Chat/Plugin/Docs.php:205-208 | normalizing twice gives the same result as normalizing once |
| Docs.CollapseMeaning | src/Chat/Plugin/Docs.php:207 | replacing every `\s+` run by one space gives the `\s`-separated words joined by single spaces, with one extra space in front when the text starts with whitespace and one at the end when it ends with whitespace after a word |
| Docs.NormalizeMeaning | src/Chat/Plugin/Docs.php:205-208 | the normalized text is exactly the `\s`-separated words of the message joined by single spaces and then trimmed by `trim` (which can still strip a NUL at either end: `trim` removes NUL, `\s` does not match it) |
| Docs.PageOfUrl | src/Chat/Plugin/Docs.php:105 | models the `preg_match` of the page pattern as a leftmost-match search, with `$` also matching before a final newline |
| Docs.PageOfUrlSound | src/Chat/Plugin/Docs.php:105 | a URL classified as book, class or function ends in `/<kind>.<dot-free name>.php`, optionally followed by one newline |
| Docs.PageOfUrlComplete | src/Chat/Plugin/Docs.php:105 | every URL with such an ending is classified with that kind |
| Docs.PageOfUrlMeaning | src/Chat/Plugin/Docs.php:105-107 | the URL's kind is k exactly when the URL ends in a k page. Every other URL goes to the h2 builder |
| Docs.PageDetailsFromH2 | src/Chat/Plugin/Docs.php:123-138 | missing `h2` is the "No h2 elements in HTML" error. Otherwise the symbol is the normalized `h2`, and the description is the normalized `para`, or the symbol when there is none; both are normal text |
| Docs.FunctionDetails | src/Chat/Plugin/Docs.php:145-160 | missing `h1` is the "No h1 elements in HTML" error. Otherwise the name is the normalized `h1` plus `()`, and the description is the normalized `dc-title`, or the name plus " function"; both are normal text |
| Docs.BookDetails | src/Chat/Plugin/Docs.php:168-177 | missing `h1` is the "No h1 elements in HTML" error. Otherwise the details are the normalized title and the title plus " book". Both are normal text whenever the title is not empty |
| Docs.ClassTitleMatch | src/Chat/Plugin/Docs.php:194 | the captured class name is non-empty and has no whitespace |
| Docs.ClassTitleMatchMeaning | src/Chat/Plugin/Docs.php:194-196 | the title regex captures x exactly when the title's words are three: `the` in any letter case, x, and `class` in any letter case |
| Docs.ClassDetails | src/Chat/Plugin/Docs.php:184-202 | missing `h1` is the "No h1 elements in HTML" error. Otherwise the symbol is the captured class name, or the whole normalized title when the regex fails. The description is the normalized `para`, or the title; the description is normal text |
| Docs.DetailsFor | src/Chat/Plugin/Docs.php:105-107 | models the dispatch: book, class and function pages go to their builders, every other URL to the h2 builder |
| Docs.MessageFromMatch | src/Chat/Plugin/Docs.php:100-110 | with details, the reply is "[ [\`symbol\`](url) ] description"; when the page is not understood, it is the "seems to be in a format I don't understand" apology |
| Docs.NotUnderstoodExactly | src/Chat/Plugin/Docs.php:104-110 | the apology is given exactly when the heading the URL's builder needs is missing: `h1` for book, class and function pages, `h2` otherwise |
| BetterTweet.MessageId | src/Plugins/BetterTweet.php:61 | models the anchored transcript-link regex and `(int) $matches[1]`: the first digit group's value, or none when the link does not match |
| BetterTweet.IsMessageValid | src/Plugins/BetterTweet.php:54-57 | models `isMessageValid`: the link matches the transcript regex |
| BetterTweet.MessageIdComplete | src/Plugins/BetterTweet.php:54-57 | every link made of the transcript prefix, one or more digits, an optional `#digits` and an optional final newline is valid, and its id is the value of the first digit group |
| BetterTweet.MessageIdSound | src/Plugins/BetterTweet.php:97 | every link the extractor accepts has exactly that shape, with the id it returns |
| BetterTweet.MessageIdMeaning | src/Plugins/BetterTweet.php:61 | the extractor gives id n exactly for the links of that shape whose digit group reads n |
| BetterTweet.MessageIdRoundTrip | src/Plugins/BetterTweet.php:97-99 | the transcript link to message n carries id n back |
| BetterTweet.MessageIdRejects | src/Plugins/BetterTweet.php:56 | the `https` scheme, another host, a missing id and a bare fragment are all rejected |
| BetterTweet.RemovePings | src/Plugins/BetterTweet.php:159-162 | models `preg_replace` with the ping pattern: the scan deletes each match and resumes after it |
| BetterTweet.RemovePingsShorter | src/Plugins/BetterTweet.php:159-162 | removing pings never makes the text longer |
| BetterTweet.RemovePingsNoAt | src/Plugins/BetterTweet.php:161 | text without `@` is left unchanged |
| BetterTweet.RemovePingsInside | src/Plugins/BetterTweet.php:161 | for any `@`-free text `a`, non-empty ping name without whitespace and `@`-free rest `b`, `a @name b` becomes `ab`: the ping takes one whitespace character on each side with it |
| BetterTweet.RemovePingsAtStart | src/Plugins/BetterTweet.php:161 | for any non-empty ping name and `@`-free rest `b`, `@name b` becomes `b`: a ping at the start takes the whitespace after it |
| BetterTweet.RemovePingsAtEnd | src/Plugins/BetterTweet.php:161 | for any `@`-free text `a` and non-empty ping name, `a @name` becomes `a`: a ping at the end takes the whitespace before it |
| BetterTweet.RemovePingsBeforeFinalNewline | src/Plugins/BetterTweet.php:161 | `a @name` followed by a final newline becomes `a` and the newline: `$` matches before that newline, so the newline is kept |
| BetterTweet.RemovePingsAdjacent | src/Plugins/BetterTweet.php:161 | in "a @b @c" the second ping is kept, because the first match consumed the whitespace before it |
| BetterTweet.TweetUri | src/Plugins/BetterTweet.php:214 | models the link `https://twitter.com/<screen_name>/status/<id_str>` |
| BetterTweet.StatusIdAtStart | src/Plugins/BetterTweet.php:85-89 | models the status-id pattern tried at the start of an `href`, with `(int)` of its digit group |
| BetterTweet.TweetUriReadBack | src/Plugins/BetterTweet.php:85 | the status-id pattern reads the posted tweet link back. The id it finds is the `id_str` the link was built from (lines 214 and 228) |
| BetterTweet.ClientFor | src/Plugins/BetterTweet.php:166-187 | models `getClientForRoom`'s result: the cached client, the `NotConfiguredException` for the first missing key, or a new client from the two values |
| BetterTweet.LookupCalls | src/Plugins/BetterTweet.php:168-181 | models the store questions `getClientForRoom` asks: none on a hit, else `exists` then `get` per key until the first missing one |
| BetterTweet.CacheAfter | src/Plugins/BetterTweet.php:183-184 | models the cache after the lookup: the new client under the room's identifier, or the cache unchanged |
| BetterTweet.FirstMissing | src/Plugins/BetterTweet.php:175-178 | the reported key is one of the configuration keys and is absent from the store; none is reported exactly when all are present |
| BetterTweet.MissingKeyOrder | src/Plugins/BetterTweet.php:172-178 | a missing token is reported ("Missing config key: oauth.access_token") after one `exists` call. A missing secret is reported only after the token was checked and read |
| BetterTweet.CachedClientIsStable | src/Plugins/BetterTweet.php:168-170 | once a room has a client, later lookups return that client and never consult the store, whatever it then holds |
| BetterTweet.CacheAfterOnlyThisRoom | src/Plugins/BetterTweet.php:184 | a lookup changes the cache at most under its own room's identifier |
| BetterTweet.BetterTweetPlugin.GetClientForRoom | src/Plugins/BetterTweet.php:166-187 | the method loop's result, store calls and new cache are those of the cache-or-configure specification. A hit makes no store call. A miss reports the first missing key and leaves the cache alone, or caches the new client for this room |
| BetterTweet.TweetDecision | src/Plugins/BetterTweet.php:189-231 | an invalid link does nothing. A non-admin gets the refusal. A missing configuration gets the "not currently configured" reply. A posted tweet uses the room's client and `https://twitter.com/<screen_name>/status/<id_str>`, and a new tweet's text is at most 140 characters |
| BetterTweet.InvalidLinkIgnoresWorld | src/Plugins/BetterTweet.php:191-193 | for an invalid link the outcome depends on nothing else: no admin, store or Twitter answer changes it |
| BetterTweet.TweetLengthLimit | src/Plugins/BetterTweet.php:219-223 | a new tweet is refused for length exactly when its text, after pings are removed, is longer than 140 characters; exactly 140 is posted |
| BetterTweet.ShortTextFits | src/Plugins/BetterTweet.php:221-223 | a message of at most 140 characters is never refused for length |
| BetterTweet.BetterTweetPlugin.Tweet | src/Plugins/BetterTweet.php:189-231 | the outcome is the decision's. The cache and the store calls come from the client lookup when the link is valid and the user is an admin. Otherwise the cache is unchanged and the store is not consulted |

## Left out

- The executor that calls `processResponse`, its retry loop, the `Action` base class (`succeed`, `fail`, the `SUCCESS`/`FAILURE` values) and any attempt cap are not part of this model. `SUCCESS` and `FAILURE` are the `Success` and `Failure` outcomes.
- PostMessage.PostMessageAction.ProcessResponse: requires a pending future. Settling an action twice is the base class's concern, and that class is not part of this model.
- PostMessage.PostedMessageTracker: its internals are not part of this model. Only a per-room slot with push and peek is assumed.
- JSON values of `id` and `time` other than integers or null are not modelled.
- `attempt * 1000` and `(int) $matches[1]` are unbounded integers. A product past 64 bits, which PHP turns into a float, is not modelled; nor is `(int)` of a digit string too long for 64 bits, which PHP saturates.
- BetterTweet.BetterTweetPlugin.GetClientForRoom: the store is one unchanging value for the whole lookup. At each `yield` (lines 176 and 180) another request could interleave and change the store or the cache; that interleaving is not modelled.
- `handle`, `preProcessMatch`, `getMessageFromSearch`, `getHTMLDocFromResponse`, the chat and HTTP clients, and the `yield` plumbing are left out: they are I/O. The `\Throwable` catch of `getMessageFromMatch` is also left out: it has no counterpart once the page is abstracted to optional texts.
- DOM, libxml and XPath work is left out: it is foreign library code. A page is the four optional texts of `Docs.Doc`. `html_entity_decode`, `replaceEmphasizeTags`, `replaceStrikeTags`, `replaceImages` and `replaceHrefs` are left out; `World.messageText` stands for the flattened text they produce.
- `getRawMessage`, `isRetweet` and `getRetweetId` become answers in `BetterTweet.World`. `TweetOutcome.IdNotFound` stands for the uncaught "ID not found" `LogicException`. `StatusIdAtStart` models the line-85 pattern only for a match at the start of the `href`.
- Twitter's JSON reply is taken as the two strings `screen_name` and `id_str`.
- `tweet` takes its first parameter as a string. A command without parameters is not modelled.
- Invalid UTF-8, which `mb_strlen` would count differently, is not modelled.
- tests/src/Log/NullLoggerTest.php is left out: it checks only interface and return types of the logger.
