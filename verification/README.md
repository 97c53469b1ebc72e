# Link-cleaning bot: a Dafny model

This project models the message-processing core of `clean_links_bot.py`, a
Telegram group bot. The bot finds URLs in a message, strips tracking
parameters from YouTube and Twitter/X links, and answers with the cleaned
text under a short attribution line. The model covers:

- **Cleaner** (`cleaner.dfy`): host classification against the two fixed
  host sets (`YOUTUBE_HOSTS`, `TWITTER_HOSTS`), `clean_youtube`,
  `clean_twitter` and `clean_url`.
  - A short link keeps only `t`; other YouTube hosts keep the five playback
    keys; Twitter/X loses its query; anything else, and anything that does
    not parse, comes back unchanged.
  - The short-link test is case-sensitive (`parsed.netloc in {"youtu.be"}`),
    while classification lower-cases the host first. So `YOUTU.BE` is cleaned
    with the regular allow-list. The model keeps this.
- **Urls** (`urls.dfy`): the parsed form of a URL, and the URL library
  (`urlparse` + `parse_qsl`, `urlencode` + `urlunparse`), taken as a
  parameter.
- **Entities** (`entities.dfy`): message entities and `extract_urls`.
- **Utf16** (`utf16.dfy`): Telegram measures entity positions in UTF-16 code
  units. This module converts them to character positions (see Findings).
  `utf16_example.dfy` (module `Utf16Example`) holds the emoji message that
  shows the difference.
- **Dedup** (`dedup.dfy`): `is_new_message` over a `deque(maxlen=10)`.
- **Reconstruct** (`reconstruct.dfy`): the body rebuilding of
  `handle_message`:
  - the stable descending sort by offset;
  - the right-to-left in-place splicing of `URL` entities;
  - the list of cleaned `TEXT_LINK` targets appended under
    `"\n\nCleaned links:\n"`.
- **Handler** (`handler.dfy`): `handle_message` as a pure function from the
  dedup cache and a message to the new cache and the reply text.
  - `Handle` is the handler as written: the text part reads Telegram's
    UTF-16 entity positions as character positions. `HandleCharEntities`
    converts them first (see Findings). The two agree on text without
    characters outside the Basic Multilingual Plane.
  - It runs, in order: the dedup gate, the bot guard, the text/caption
    choice, the mapping of changed URLs, the no-change guard and the
    attribution.
- `wrappers.dfy` and `sequences.dfy` hold `Option` and Python-style clamped
  slicing.

Python's falsy `None` for `text`, `caption`, `username`, `full_name` and the
entity lists is modelled by the empty string or the empty sequence. The
handler only tests these values for truthiness, so nothing is lost.

## Model

| member | source | states |
|---|---|---|
| Cleaner.Classify | clean_links_bot.py:94-99 | A host is YouTube exactly when its lower-cased form is one of the four YouTube hosts, Twitter exactly when it is one of the five Twitter/X hosts; a host carrying a port (any ':') is never recognised |
| Cleaner.ClassifyIgnoresCase | clean_links_bot.py:94 | Classification gives the same service for a host and its lower-cased form |
| Cleaner.PortIsNotWildcarded | clean_links_bot.py:43-56 | Membership is exact: "youtube.com:443" and "x.com:443" are unknown hosts |
| Cleaner.KeepKeys | clean_links_bot.py:74-75 | Every kept query pair has an allowed key, and a query without allowed keys becomes empty |
| Cleaner.KeepKeysCounts | clean_links_bot.py:74-75 | Each pair with an allowed key is kept exactly as many times as it occurs; pairs with other keys never survive |
| Cleaner.KeepKeysIsSubsequence | clean_links_bot.py:74-75 | The filter keeps the relative order of the retained pairs |
| Cleaner.KeepKeysIdempotent | clean_links_bot.py:74-75 | Filtering an already filtered query changes nothing |
| Cleaner.KeepKeysAllAllowed | clean_links_bot.py:74-75 | A query whose keys are all allowed passes through the filter unchanged |
| Cleaner.CleanYouTube | clean_links_bot.py:62-79 | Only the query changes; on the exact host "youtu.be" it keeps the "t" pairs, on any other YouTube host the pairs whose keys are v, t, time_continue, list or index |
| Cleaner.CleanTwitter | clean_links_bot.py:82-85 | Only the query changes, and it becomes empty |
| Cleaner.CleanUrl | clean_links_bot.py:88-102 | A string that fails to parse, or whose host is unknown, is returned unchanged; a YouTube or Twitter/X URL is rebuilt from its rewritten parsed form |
| Cleaner.CleanUrlIdempotent | clean_links_bot.py:88-102 | Cleaning a cleaned URL changes nothing, when the library reads its own output back faithfully |
| Cleaner.CleanedUrlReadsBack | clean_links_bot.py:62-102 | Read back, a cleaned YouTube/Twitter URL has the original scheme, host, path, params and fragment; its query is an order-preserving selection of the original pairs, only "t" on a short link, only playback keys on YouTube, empty on Twitter/X |
| Cleaner.UpperCaseShortLinkUsesAllowList | clean_links_bot.py:66-75 | Any host that lower-cases to "youtu.be" but is not written exactly so ("YOUTU.BE", "Youtu.be", ...) is classified as YouTube (line 94) but cleaned with the five-key allow-list, not the short-link rule |
| Cleaner.ShortLinkKeepsRepeatedTimestamps | clean_links_bot.py:66-71 | A short link keeps every "t" pair it carries, in order, and drops the rest |
| Cleaner.ShortLinkDropsShareToken | tests/test_clean_links.py:10-13 | The short link's "si" share token is removed, leaving no query |
| Cleaner.ShortLinkKeepsTimestamp | tests/test_clean_links.py:55-61 | A short link keeps "t=42" and drops "utm_source" |
| Cleaner.WatchLinkDropsTracking | tests/test_clean_links.py:16-36 | A watch link keeps "v" and drops "si", "utm_source" and "fbclid" |
| Cleaner.WatchLinkKeepsPlayback | tests/test_clean_links.py:39-52 | A watch link keeps "v", "t", "list" and "index" as they were |
| Entities.ExtractOne | clean_links_bot.py:110-115 | A URL entity yields one pair with the text at its range, a text link with a non-empty target yields its target, any other entity nothing |
| Entities.Extract | clean_links_bot.py:105-116 | Extraction yields at most one pair per entity |
| Entities.ExtractReports | clean_links_bot.py:105-116 | Every extracted pair comes from one of the entities and carries that entity's URL: the text at the range for a URL entity, the target for a text link |
| Entities.ExtractAppend | clean_links_bot.py:109-116 | Extraction is one pass in entity order: it distributes over concatenation of entity lists |
| Entities.ExtractEmitsEach | clean_links_bot.py:110-115 | Each entity's pair sits between the pairs of the entities before and after it, and it contributes exactly one pair when it is a URL or a text link with a target |
| Entities.ExtractInText | clean_links_bot.py:111-113 | A single URL entity inside the text yields exactly the characters at its range |
| Entities.ExtractSingleUrl | clean_links_bot.py:111-113 | A single URL entity yields exactly the text at its range, with that entity |
| Entities.UrlEntitiesExample | tests/test_clean_links.py:89-111 | Two URL entities in "Check this out: ... and also ..." yield the two URLs in order |
| Entities.TextLinkExample | tests/test_clean_links.py:114-126 | A text link labelled "Click here" yields its hidden target |
| Utf16.LengthAppend | clean_links_bot.py:112 | The UTF-16 length of a concatenation is the sum of the lengths |
| Utf16.IndexOfPrefixLength | clean_links_bot.py:112 | Converting the UTF-16 position of any character index back gives that index |
| Utf16.IndexOfMonotone | clean_links_bot.py:112 | A later UTF-16 position never converts to an earlier character index |
| Utf16.CharEntity | clean_links_bot.py:112 | A converted entity keeps its kind and target and its range lies inside the text |
| Utf16.CharEntities | clean_links_bot.py:140 | The entity list is converted element by element |
| Utf16.CharEntityOfReported | clean_links_bot.py:112 | The position Telegram reports for the n characters at index i converts back to exactly that range |
| Utf16.ConvertedUrlEntity | clean_links_bot.py:111-113 | For any text, the URL entity Telegram reports for the n characters at index i converts to exactly the range [i, i + n), and extraction reads the characters at that range |
| Utf16.UnitsOfBmp | clean_links_bot.py:112 | Text with no characters outside the Basic Multilingual Plane is as long in code units as in characters |
| Utf16.IndexOfBmp | clean_links_bot.py:112 | On such text a code-unit position converts to itself, clamped to the end of the text |
| Utf16.CharEntitiesBmp | clean_links_bot.py:140-141 | On such text the conversion leaves every list of in-text entities unchanged |
| Utf16Example.RawOffsetsMissUrl | clean_links_bot.py:111-113 | With an emoji before the URL, reading the reported offset as a character index drops the URL's first character, while the converted entity reads the whole URL |
| Dedup.Offer | clean_links_bot.py:32-39 | An id is new exactly when the cache does not hold it; a held id leaves the cache untouched; a new id is appended and only the newest ten ids are kept |
| Dedup.OfferFreshIds | clean_links_bot.py:32-39 | Offering distinct unseen ids leaves exactly the newest ten of the old cache followed by those ids |
| Dedup.ElevenKeepNewestTen | clean_links_bot.py:32-39 | After eleven distinct ids the cache holds the last ten, in arrival order |
| Dedup.FirstOfElevenIsForgotten | clean_links_bot.py:32-39 | After eleven distinct ids the first is evicted, so it would be admitted again |
| Reconstruct.UrlPairsMembers | clean_links_bot.py:158 | The pairs the splicing loop acts on are exactly the extracted pairs that come from URL entities |
| Reconstruct.Insert | clean_links_bot.py:157 | Insertion adds exactly one element to the multiset of elements |
| Reconstruct.InsertKeepsSorted | clean_links_bot.py:157 | Inserting into a sequence sorted by descending offset keeps it sorted |
| Reconstruct.SortDesc | clean_links_bot.py:157 | The result is sorted by descending offset and is a permutation of the input |
| Reconstruct.UrlPairsOfSortDesc | clean_links_bot.py:157 | When the URL pairs are in ascending offset order, the sort visits them in exactly the reverse order (the sort is stable on what the loop touches) |
| Reconstruct.SpliceSkipsOthers | clean_links_bot.py:157-164 | Pairs that are not from URL entities leave the text untouched, wherever they sit in the loop |
| Reconstruct.SpliceReversed | clean_links_bot.py:155-164 | Splicing well-placed ranges from the last to the first equals the left-to-right reading: the text between ranges copied, each range replaced |
| Reconstruct.CleanedBodyReplacesRanges | clean_links_bot.py:155-164 | For URL ranges inside the text, ascending and non-overlapping, the body is the text with each range replaced by its mapped value (or left as written if unmapped) and everything else kept |
| Reconstruct.CleanedBodySingle | clean_links_bot.py:155-164 | With one URL entity inside the text the body is the text with that one range replaced |
| Reconstruct.BodyWithoutUrlEntities | clean_links_bot.py:155-164 | Without URL entities the body is the original text |
| Reconstruct.ExtraLinks | clean_links_bot.py:166-171 | At most one appended link per pair, each non-empty and a value of the mapping |
| Handler.ChangedOnly | clean_links_bot.py:146-150 | A URL is a key of the mapping exactly when some extracted pair carries it and cleaning changes it; its value is then the cleaned URL |
| Handler.ReplacementIsCleanUrl | clean_links_bot.py:159 | The lookup with default gives the cleaned URL of every extracted URL, changed or not |
| Handler.ExtraLinksAreCleanedTextLinks | clean_links_bot.py:166-171 | The appended links are, in entity order, the cleaned targets of the text links that cleaning changes to a non-empty string |
| Handler.NothingChangedEmptyMapping | clean_links_bot.py:146-153 | When cleaning changes no extracted URL the mapping is empty |
| Handler.UnchangedUrlsAreSilent | clean_links_bot.py:143-153 | A message whose extracted URLs are all unchanged by cleaning produces no reply text |
| Handler.CleanText | clean_links_bot.py:141-178 | Reply text is produced only when it differs from the original or carries appended links |
| Handler.MixedReply | clean_links_bot.py:155-174 | Whenever some text-link target changes, the reply text is the rebuilt body, then "\n\nCleaned links:\n", then the changed targets joined by "\n" in entity order, whatever URL entities the message also has |
| Handler.ExtraLinksShapeReply | clean_links_bot.py:173-178 | With a non-empty mapping and appended links the text part always replies, with body, header and the appended links |
| Handler.CleanTextWithoutExtraLinks | clean_links_bot.py:173-178 | With a non-empty mapping and no appended links, the reply text is the body when it differs from the original, and there is no reply when it does not |
| Handler.BodyReplacesUrlRanges | clean_links_bot.py:146-164 | For well-placed URL entities the body replaces each URL range with the cleaned form of the URL written there and keeps all other text, text-link labels included |
| Handler.TextLinksOnlyReply | clean_links_bot.py:166-178 | With only text links the reply is the unchanged text, the "Cleaned links:" header and the changed targets one per line, and there is no reply when no target changes |
| Handler.SingleUrlBody | clean_links_bot.py:155-164 | One URL entity inside the text: the body is the text with that range replaced by the cleaned URL written there |
| Handler.SingleUrlMapping | clean_links_bot.py:146-171 | A single changed visible URL gives the one-entry mapping from that URL to its cleaned form, and nothing to append |
| Handler.SingleUrlBodyChanges | clean_links_bot.py:155-164 | A single changed visible URL makes the body differ from the text |
| Handler.SingleUrlReplyIsBody | clean_links_bot.py:141-178 | A single changed visible URL gets a reply, and its text is the rebuilt body |
| Handler.SingleUrlReply | clean_links_bot.py:141-178 | A single visible URL that cleaning changes is replaced in place, and the rest of the text is kept |
| Handler.Author | clean_links_bot.py:180-190 | The attribution is "@" + username when there is one, else the full name, else "anon"; never empty |
| Handler.Handle | clean_links_bot.py:121-194 | The gate records the id before any other guard; a repeated id gets no reply and changes nothing; a reply exists exactly when the message is new, not from a bot, has text or caption and its text part, on the entities as Telegram sent them, produces output; the reply is intro, "\nOd ", author, ":\n", cleaned text |
| Handler.HandleCharEntities | clean_links_bot.py:121-194 | The same guards and reply as `Handle`, with the text part reading the entities after conversion from UTF-16 code units to character positions |
| Handler.HandleAgreesOnBmpText | clean_links_bot.py:140-141 | On text with no characters outside the Basic Multilingual Plane and entities inside it, the handler as written and the corrected one give the same cache and reply |
| Handler.DuplicateDeliveryIsSilent | clean_links_bot.py:126-130 | The same message delivered twice in succession is answered at most once |

## Left out

- Telegram I/O: receiving updates, `send_message`, the application builder, `main`, and the `/ping` and `/help` commands. The model ends with the reply text the bot would send.
- Logging, and the `BOT_VERSION` constant.
- The string level of `urllib.parse`: splitting a URL into components, `parse_qsl` decoding, percent-encoding in `urlencode`, and `urlunparse`. These are a library parameter (`Urls.UrlLibrary`). A failing `urlparse` is its `None` result.
- Cleaner.CleanUrlIdempotent: holds only under `ParsesOwnOutput` (the library re-reads its own output as the same record). Real `urllib` satisfies this only up to its normalisations.
- Cleaner.CleanedUrlReadsBack: also assumes `ParsesOwnOutput`, for the same reason.
- `random.choice(FUNNY_INTROS)`: the random pick is the `intro` index parameter of `Handle`.
- Cleaner.Lower: `str.lower` is modelled for ASCII letters only. Every known host is ASCII, but a non-ASCII host whose Unicode lower-casing is a known host is not modelled.
- Utf16.IndexOf: a code-unit position that falls inside a surrogate pair is rounded down to the character that contains it. Telegram never reports such a position.
- Entity offsets and lengths are `nat`. Telegram never sends negative ones, and Python's slicing of negatives is not modelled.
- `User.full_name` is a field. Its computation from first and last names belongs to the Telegram library.
- Concurrency: the handler is one pure step from cache to cache. Interleaving between `await` points is not modelled.
- Deleting the original message and reposting the cleaned text, and the per-chat setting that would choose it: this code has no such mode and always replies. The model follows the code.
- Reconstruct.SortDesc: stability is stated through its consequence for `Url` entities (`UrlPairsOfSortDesc`), not as a general stability theorem.
- Reconstruct.CleanedBodyReplacesRanges: stated only for in-bounds, ascending, non-overlapping `Url` ranges. For overlapping or out-of-range entities the model computes what the loop computes, but no closed form is proved.
- The comment at clean_links_bot.py:68 says to keep only the timestamp "t", but the comprehension at line 69 keeps every `t` pair (`ShortLinkKeepsRepeatedTimestamps`). The model follows the comprehension.

## Findings

| source | as written | input that shows it | evidently intended | confidence | as-written member | corrected member |
|---|---|---|---|---|---|---|
| clean_links_bot.py:111-113 | `text[ent.offset : ent.offset + ent.length]` indexes the Python string, which counts code points, by Telegram's entity offset and length, which count UTF-16 code units | the message "🪲 https://x.com" with its `URL` entity at offset 3, length 13: the slice is "ttps://x.com", and the splice at lines 160-164 lands one character late as well | convert the entity's code-unit range to character positions before slicing or splicing | high (not executed) | Utf16Example.RawOffsetsMissUrl | Handler.HandleCharEntities |

`Handler.Handle` keeps the code as written. `Handler.HandleCharEntities` passes the entities through `Utf16.CharEntities` first, and `Utf16.ConvertedUrlEntity` proves, for every text, that a converted `URL` entity reads exactly the characters Telegram marked.
