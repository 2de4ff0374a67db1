# email2rss in Dafny

email2rss is a Cloudflare Worker that turns email newsletters into RSS feeds. Each feed has an
address `newsletter-<id>@<domain>`. ForwardEmail.net posts every message sent to such an
address to the inbound webhook. The webhook normalises the message into an email record and
stores it in the key-value namespace `EMAIL_STORAGE` under `feed:<id>:<Date.now()>`. It then
puts a pointer to it at the front of the feed's index `feed:<id>:metadata`.

The RSS endpoint reads the twenty newest entries of a feed's index and loads the emails they
point at. It hands them to the `feed` library with the feed's configuration
`feed:<id>:config`. The admin routes create, edit and delete feeds and delete single emails.
They keep the list of all feeds `feeds:list` in step.

This project models that core and proves properties of the model:

- `email_parser.dfy`: the address pattern, the payload normalisation and the header
  extraction. It also covers the RFC 2047 encoded-word decoding, with its Base64 (`atob`) and
  quoted-printable halves.
- `storage.dfy`: the namespace as a class holding a map from keys to records. A ghost log
  records every call made on it, in order. The file also defines the key formats.
- `inbound.dfy`: the webhook handler, and what a series of deliveries does to a feed's index.
- `feed_generator.dfy`: the feed options and the items handed to the `feed` library, and the
  item ids built from the reception time and a Base64 prefix of the subject.
- `rss.dfy`: the RSS handler, and the result that a feed shows its twenty newest emails, newest
  first.
- `admin.ts` helpers and handlers, in `admin.dfy`:
  - form validation and random feed ids;
  - the feed-list helpers;
  - creating, editing and deleting feeds;
  - deleting one email.
- Supporting modules:
  - `text.dfy`: JavaScript string operations (`trim`, `split`, `filter`, `slice`, decimal
    text);
  - `base64.dfy`: `Buffer`'s base64 encoder and the forgiving-base64 decoder of `atob`;
  - `utf8.dfy`: `Buffer.from`'s UTF-8 encoding;
  - `types.dfy`: the stored records and JavaScript's `||` on strings.

Clocks (`Date.now()`, `new Date()`), the parse of a date string, `Math.random()` and
`new URL(..).hostname` are parameters of the operations that use them.

Behaviours of the code worth noting:

- A `B` encoded word whose payload `atob` rejects decodes to its bare payload, not to the whole
  encoded word (`EmailParser.DecodeInvalidBase64Word`, `EmailParser.DecodeInvalidBase64WordThen`).
- A `date` that does not parse gives NaN as the reception time, not the time of ingestion. NaN
  is stored as `null`. So the item id starts with `null`, and the item date is the epoch
  (`Types.TimestampText`, `FeedGenerator.ItemDate`).
- A comment in the webhook gives dotted feed ids such as `apple.mountain.42` as an example.
  The address pattern rejects them (`EmailParser.DottedFeedIdRejected`). The ids the admin
  creates are lower-case alphanumeric and are always accepted
  (`Admin.RandomIdRoutesMail`, `Admin.CreatedFeedAcceptsMail`).
- Headers are collected in a plain object, so a header named `__proto__` (in any case) reaches
  the inherited setter, which ignores a string, and leaves no header behind
  (`EmailParser.SetProperty`, `EmailParser.ProtoHeaderDropped`).

## Model

| member | source | states |
|---|---|---|
| EmailParser.ExtractFeedId | src/utils/email-parser.ts:12-15 | a returned id is a non-empty alphanumeric token sitting between the `newsletter-` prefix at the start and an `@`; an address without `@` has none |
| EmailParser.ExtractFeedIdExact | src/utils/email-parser.ts:13-14 | the id extracted is `token` exactly when the address starts `newsletter-<token>@` with `token` alphanumeric (both directions) |
| EmailParser.ExtractFeedIdOf | src/utils/email-parser.ts:13-14 | every non-empty alphanumeric id is recovered from its own address, whatever the domain |
| EmailParser.DottedFeedIdRejected | src/utils/email-parser.ts:13 | an address whose token contains a dot yields no feed id |
| EmailParser.DecodeQuotedPrintable | src/utils/email-parser.ts:109-113 | decoding never lengthens the text and leaves text without `=` unchanged |
| EmailParser.DecodeEncodeQuotedPrintable | src/utils/email-parser.ts:109-113 | decoding the `=XX` escapes of any byte string gives back those bytes as characters |
| EmailParser.ReplaceUnderscores | src/utils/email-parser.ts:99 | same length, no `_` left, every other character kept in place |
| EmailParser.MatchEncodedWord | src/utils/email-parser.ts:88 | a match is a well-formed encoded word (non-empty charset and payload without `?`, letter B or Q in either case) whose text is the prefix of the input it consumes |
| EmailParser.MatchWordText | src/utils/email-parser.ts:88 | the text of every well-formed encoded word is matched in full, whatever follows it |
| EmailParser.DecodeEncodedWords | src/utils/email-parser.ts:84-103 | the decoded subject is never longer than the input |
| EmailParser.DecodeUnchangedIff | src/utils/email-parser.ts:88-102 | decoding leaves a text unchanged exactly when no encoded word starts anywhere in it |
| EmailParser.DecodeShrinks | src/utils/email-parser.ts:88-102 | a text holding an encoded word decodes to something strictly shorter |
| EmailParser.DecodeKeepsPlain | src/utils/email-parser.ts:88-102 | a text holding no encoded word is returned unchanged |
| EmailParser.DecodePlainPrefix | src/utils/email-parser.ts:88 | text without `=` in front of the rest passes through and the rest decodes on its own |
| EmailParser.DecodeWordText | src/utils/email-parser.ts:88-102 | a leading encoded word is replaced by its decoding and the scan continues after it |
| EmailParser.DecodeAdjacentWords | src/utils/email-parser.ts:88-102 | two encoded words with plain text between them decode independently, the text between kept |
| EmailParser.DecodeBase64Word | src/utils/email-parser.ts:89-93 | a `B` word carrying the base64 of any bytes decodes to those bytes |
| EmailParser.DecodeQuotedWord | src/utils/email-parser.ts:97-99 | a `Q` word carrying the `=XX` escapes of any bytes decodes to those bytes |
| EmailParser.DecodeQuotedUnderscores | src/utils/email-parser.ts:99 | in a `Q` word without escapes every `_` becomes a space and nothing else changes |
| EmailParser.DecodeWord | src/utils/email-parser.ts:89-101 | the replacement of one encoded word is never longer than its payload |
| EmailParser.DecodeInvalidBase64Word | src/utils/email-parser.ts:94-96 | every `B` or `b` word whose payload `atob` rejects decodes to its bare payload |
| EmailParser.DecodeInvalidBase64WordThen | src/utils/email-parser.ts:88-96 | such a word followed by more text gives the bare payload followed by the decoding of that text |
| EmailParser.DecodePercentWord | src/utils/email-parser.ts:94-96 | for instance `=?UTF-8?B?%%?=` decodes to `%%` |
| EmailParser.HeaderLineValue | src/utils/email-parser.ts:63 | the value is no longer than the line and starts and ends with no white space |
| EmailParser.HeaderLineValueOf | src/utils/email-parser.ts:63 | a line `<key in any case>:<spaces><value>` yields exactly the trimmed value |
| EmailParser.SplitLines | src/utils/email-parser.ts:69 | at least one line, and no line holds a `\n` |
| EmailParser.ParseHeaderLine | src/utils/email-parser.ts:70-73 | a parsed header has a non-empty name and a single-line value not starting with white space; a line without `:` is skipped |
| EmailParser.ParseHeaderLineOf | src/utils/email-parser.ts:70-72 | `name:<spaces>value` parses to the lower-cased name and exactly that value |
| EmailParser.StructuredHeaders | src/utils/email-parser.ts:61-62 | one header per header line, named by the lower-cased key |
| EmailParser.ParsedHeaders | src/utils/email-parser.ts:69-74 | at most one header per line of the block |
| EmailParser.ParsedHeadersFrom | src/utils/email-parser.ts:69-74 | every header comes from a line of the block that parses to it |
| EmailParser.ParsedHeadersAll | src/utils/email-parser.ts:69-74 | a block whose lines all parse gives one header per line |
| EmailParser.SetProperty | src/utils/email-parser.ts:64 | assigning on the plain object adds or replaces that name, except `__proto__`, which leaves the object as it was |
| EmailParser.MapOfHeaders | src/utils/email-parser.ts:64 | the header names are exactly the keys assigned, other than `__proto__` |
| EmailParser.MapOfHeadersLastWins | src/utils/email-parser.ts:64 | for a repeated name, the last assignment wins |
| EmailParser.AssignHeaderLines | src/utils/email-parser.ts:60-66 | the loop over `headerLines` builds the map of the structured headers |
| EmailParser.AssignHeaderBlock | src/utils/email-parser.ts:68-75 | the loop over the header block's lines builds the map of the lines that parse |
| EmailParser.HeadersOf | src/utils/email-parser.ts:56-78 | with `headerLines` present the header names are exactly its lower-cased keys other than `__proto__`; with neither field there are no headers |
| EmailParser.ProtoHeaderDropped | src/utils/email-parser.ts:62-64 | a lone header line keyed `__proto__`, in any case, yields no headers |
| EmailParser.ExtractHeaders | src/utils/email-parser.ts:56-78 | `headerLines` wins over the `headers` string, which wins over nothing (an empty map) |
| EmailParser.RecipientOf | src/routes/inbound.ts:44 | the first recipient when there is one, otherwise the empty string |
| EmailParser.FirstAddress | src/utils/email-parser.ts:31 | the first parsed address, only when its address text is non-empty |
| EmailParser.SenderOf | src/utils/email-parser.ts:30-33 | never empty: a non-empty `from.text` as is; else `<name or empty> <<address>>` from the first address with an address; else `Unknown Sender` |
| EmailParser.Normalize | src/utils/email-parser.ts:27-50 | the sender line of `from`; the decoded subject or `No Subject`; non-empty HTML, else the text, else empty, as content; the parsed date when a date is given, else the clock reading; the payload's headers |
| EmailParser.ParseForwardEmailPayload | src/utils/email-parser.ts:21-51 | a missing payload is an error; any other payload gives its normalised email, with the headers the extraction loops build |
| Base64.Encode | src/utils/feed-generator.ts:34 | the base64 text uses only the base64 alphabet and `=` |
| Base64.EncodeLength | src/utils/feed-generator.ts:34 | the padded text has four characters for every started group of three bytes |
| Base64.Atob | src/utils/email-parser.ts:92 | a successful decode is never longer than its input |
| Base64.AtobEncode | src/utils/email-parser.ts:92 | `atob` decodes the base64 of any bytes back to those bytes |
| Base64.AtobRejectsOutsideAlphabet | src/utils/email-parser.ts:92 | `atob` rejects every text holding a character that is neither in the base64 alphabet, nor `=`, nor white space |
| Base64.EncodePrefix | src/utils/feed-generator.ts:34 | byte strings sharing their first 3k+2 bytes share the first 4k+2 base64 characters |
| Utf8.Encode | src/utils/feed-generator.ts:34 | a string encodes to between one and four bytes per character |
| Utf8.EncodeAppend | src/utils/feed-generator.ts:34 | the UTF-8 encoding of a concatenation is the concatenation of the encodings |
| Utf8.EncodeAscii | src/utils/feed-generator.ts:34 | an ASCII subject encodes to one byte per character, its character code |
| Text.TrimStart | src/utils/email-parser.ts:63 | the result is a suffix of the input; everything dropped is white space and the result starts with none |
| Text.TrimEnd | src/utils/email-parser.ts:63 | the result is a prefix of the input; everything dropped is white space and the result ends with none |
| Text.Trim | src/utils/email-parser.ts:63 | the result neither starts nor ends with white space, and a string that does neither is kept as is |
| Text.Split | src/routes/admin.ts:543 | at least one part, and no part contains the separator |
| Text.SplitAfterPrefix | src/routes/admin.ts:543 | splitting `a<sep>b` with `a` free of the separator gives `a` followed by the parts of `b` |
| Text.ToLower | src/utils/email-parser.ts:62 | lower-casing keeps the length |
| Text.ToLowerOf | src/utils/email-parser.ts:62 | no upper-case ASCII letter is left, and every other character is kept |
| Text.Take | src/routes/rss.ts:43 | `slice(0, n)` keeps the first `min(n, length)` elements |
| Text.Filter | src/routes/admin.ts:805 | the kept elements are exactly those of the input that satisfy the predicate |
| Types.TimestampText | src/utils/feed-generator.ts:34 | a time prints as `null` exactly when it was NaN, and otherwise as decimal digits with an optional leading `-` |
| Types.Or | src/utils/email-parser.ts:36 | JavaScript's logical or on an optional string gives the string when it is non-empty and the fallback when it is missing or empty |
| Storage.FeedIdOfKey | src/routes/admin.ts:543 | the feed id read out of a key never contains `:` |
| Storage.FeedIdOfEmailKey | src/routes/admin.ts:543 | the email view recovers the feed id from every email key |
| Storage.EmailKey | src/routes/inbound.ts:65 | an email key is `feed:<id>:` followed by at least one decimal digit and nothing else |
| Storage.EmailKeyDistinct | src/routes/inbound.ts:65 | an email key never equals its feed's configuration key, index key or the feed-list key |
| Storage.EmailKeyInjective | src/routes/inbound.ts:65 | different clock readings give different email keys |
| Storage.FeedKeysDistinct | src/routes/admin.ts:207-218 | a feed's configuration and index keys differ from each other, from the list key, and from another feed's keys |
| Storage.KvStore.GetConfig | src/routes/inbound.ts:54 | a read returns the configuration under the key and only appends the read to the log |
| Storage.KvStore.GetMetadata | src/routes/inbound.ts:72 | a read returns the index under the key and only appends the read to the log |
| Storage.KvStore.GetEmail | src/routes/rss.ts:48 | a read returns the email under the key and only appends the read to the log |
| Storage.KvStore.GetFeedList | src/routes/admin.ts:750 | a read returns the feed list under the key and only appends the read to the log |
| Storage.IndexOf | src/routes/inbound.ts:72 | a missing index reads as `{ emails: [] }`, a stored one as its entries |
| Storage.FeedsOf | src/routes/admin.ts:777 | a missing feed list reads as `{ feeds: [] }`, a stored one as its entries |
| Storage.KvStore.Put | src/routes/inbound.ts:68 | the key maps to the value, every other key is unchanged, and the write is logged |
| Storage.KvStore.Delete | src/routes/admin.ts:394 | the key is gone, every other key is unchanged, and the removal is logged |
| Inbound.Ingest | src/routes/inbound.ts:65-82 | a delivery adds exactly the email's key and the feed's index key, and the index is stored |
| Inbound.IngestEffect | src/routes/inbound.ts:65-82 | a delivery stores the email, puts its entry in front of the previous index, and leaves every other key alone |
| Inbound.IngestOtherFeed | src/routes/inbound.ts:65-82 | a delivery to one feed leaves another feed's configuration and index unchanged |
| Inbound.IndexAfterArrivals | src/routes/inbound.ts:75-79 | after a series of deliveries, the index lists them newest first in front of what it held; none is dropped |
| Inbound.StoredAfterArrivals | src/routes/inbound.ts:65-68 | with distinct clock readings, every delivered email is still stored at the end |
| Inbound.SameMillisecondOverwrites | src/routes/inbound.ts:65-79 | two deliveries in the same millisecond share a key: the second email replaces the first while the index holds two entries for it |
| Inbound.Deliver | src/routes/inbound.ts:65-82 | the email is written, the index is read and written back with the new entry in front |
| Inbound.HandleInbound | src/routes/inbound.ts:27-90 | no body gives 500 and a bad address 400, both without touching storage; an unknown feed gives 404 after one read; otherwise 200 with the email stored and indexed, and the exact calls made |
| FeedGenerator.OptionsOf | src/utils/feed-generator.ts:13-29 | building the options fails exactly when an author is set and the site URL does not parse; otherwise the title and language are the configuration's, the description is the configuration's or `''`, the generator is `Email-to-RSS`, the copyright names the year and title, id and RSS link are the feed URL, the link is the site URL, and a set author is `<author>` with email `noreply@<site host>` |
| FeedGenerator.ItemOf | src/utils/feed-generator.ts:33-48 | the item id is built from the time and subject, the link is the base URL's `/emails/<id>`, title, content and author come from the email, and the date is the reception time |
| FeedGenerator.ItemsOf | src/utils/feed-generator.ts:32-49 | one item per email, in the order given |
| FeedGenerator.Feed.AddItem | src/utils/feed-generator.ts:36-48 | the item is appended to the feed's items |
| FeedGenerator.AddItems | src/utils/feed-generator.ts:32-49 | the loop adds exactly the items of the emails, in order |
| FeedGenerator.GenerateRssFeed | src/utils/feed-generator.ts:7-53 | the document holds the configuration's options and one item per email, or generation fails where the options throw |
| FeedGenerator.ItemId | src/utils/feed-generator.ts:34 | an item id is the reception time and a dash, followed by at most ten more characters |
| FeedGenerator.ItemIdLength | src/utils/feed-generator.ts:34 | the suffix is the subject's padded base64, cut at ten characters: `min(10, 4 * ceil(bytes / 3))` long |
| FeedGenerator.ItemIdEmptySubject | src/utils/feed-generator.ts:34 | an empty subject gives `<time>-` |
| FeedGenerator.ItemDate | src/utils/feed-generator.ts:33 | the item date is the reception time, or the epoch where it was NaN (stored as `null`) |
| FeedGenerator.ItemIdTime | src/utils/feed-generator.ts:34 | the item id starts with the decimal reception time, which reads back to that time |
| FeedGenerator.ItemIdDistinctTimes | src/utils/feed-generator.ts:34 | emails received at different times never share an item id |
| FeedGenerator.ItemIdSharedPrefix | src/utils/feed-generator.ts:34 | subjects whose UTF-8 encodings share eight bytes get the same id at the same time |
| FeedGenerator.ItemIdAsciiPrefix | src/utils/feed-generator.ts:34 | subjects starting with the same eight ASCII characters collide at the same time |
| Rss.DefaultConfig | src/routes/rss.ts:33-40 | the fallback configuration is titled `Newsletter Feed <id>`, described as `Converted email newsletter`, in English, with no author, created now, and with site and feed URL both `https://<domain>/rss/<id>` |
| Rss.Hydrate | src/routes/rss.ts:47-52 | no more emails than entries, and each email is one an entry points at |
| Rss.HydrateAppend | src/routes/rss.ts:47-52 | the emails of two index slices are those of the first followed by those of the second, so index order is kept |
| Rss.HydrateSingle | src/routes/rss.ts:48-51 | an entry yields its stored email, or is skipped when the email is gone |
| Rss.HydrateAllPresent | src/routes/rss.ts:47-52 | when every entry's email is stored, the i-th email is the i-th entry's |
| Rss.FetchEmails | src/routes/rss.ts:44-52 | the loop loads the stored emails in index order and reads each entry's key once |
| Rss.FeedResponse | src/routes/rss.ts:55-68 | 500 with no headers or body exactly when the feed options cannot be built; otherwise 200 with `Content-Type: application/rss+xml`, `Cache-Control: max-age=1800` and the document of those options and one item per email, in order |
| Rss.ServeFeed | src/routes/rss.ts:31-65 | the response is built from the stored or default configuration and the first twenty entries' emails, with the exact reads made |
| Rss.HandleRss | src/routes/rss.ts:8-70 | an empty id gives 400 without reads and a missing index 404; otherwise the feed response; storage is never changed |
| Rss.NewestEntries | src/routes/rss.ts:43 | after deliveries at distinct times into an empty index, the j-th shown entry points at the j-th newest email |
| Rss.IndexEntriesStored | src/routes/inbound.ts:75-79 | after deliveries at distinct times into an empty index, the index has one entry per delivery and the j-th points at the j-th newest email |
| Rss.NewestFirst | src/routes/rss.ts:42-52 | such a feed shows exactly its twenty newest emails, newest first |
| Admin.ValidateForm | src/routes/admin.ts:192-201 | the form is accepted exactly when the title is non-empty; the language is the given one or `en`, never empty |
| Admin.RandomId | src/routes/admin.ts:737-744 | one character per draw, each the alphabet character the draw selects |
| Admin.GenerateRandomId | src/routes/admin.ts:737-744 | the loop spells the id of its draws |
| Admin.CharIndex | src/routes/admin.ts:740 | `Math.floor(r * 36)`: the index is the whole part of the scaled draw, so below 36 |
| Admin.RandomIdChars | src/routes/admin.ts:738-741 | a random id holds only lower-case letters and digits, so no `:` |
| Admin.RandomIdRoutesMail | src/routes/admin.ts:204 | mail sent to `newsletter-<id>@` for a generated id is routed to that id |
| Admin.AddFeedToList | src/routes/admin.ts:775-785 | the entry is appended to the list (empty when absent), with one read and one write |
| Admin.FindFeed | src/routes/admin.ts:792 | the first entry with the id, or none when no entry has it |
| Admin.Retitle | src/routes/admin.ts:794-795 | retitling keeps the length and every entry's id |
| Admin.RetitleEffect | src/routes/admin.ts:792-795 | only the first entry with the id gets the new title; all others are unchanged |
| Admin.UpdateFeedInList | src/routes/admin.ts:788-798 | a feed not in the list leaves storage unchanged after one read; otherwise the list is written back retitled |
| Admin.WithoutFeed | src/routes/admin.ts:805 | no entry with the id is left, and the list shrinks when the feed was listed |
| Admin.WithoutFeedEffect | src/routes/admin.ts:805 | removal drops exactly the entries with the id, and a list without it is unchanged |
| Admin.RemoveFeedFromList | src/routes/admin.ts:801-808 | the list is written back without the feed's entries |
| Admin.Summaries | src/routes/admin.ts:754-765 | at most one summary per listed feed, each for a feed with a stored configuration and carrying its title |
| Admin.SummariesAppend | src/routes/admin.ts:754-765 | the summaries of two list slices are those of the first followed by those of the second, so list order is kept |
| Admin.SummariesSingle | src/routes/admin.ts:755-764 | a listed feed with a configuration is shown with that configuration's title and description; one without is skipped |
| Admin.ListAllFeeds | src/routes/admin.ts:747-772 | the loop yields the summaries of the listed feeds and reads the list and each configuration once |
| Admin.NewConfig | src/routes/admin.ts:207-215 | the new configuration has the form's title, description and language, equal site and feed URLs `https://api.<domain>/rss/<id>`, the creation time and no author |
| Admin.Created | src/routes/admin.ts:206-224 | creation adds the configuration, index and list keys and leaves every other key alone |
| Admin.CreateFeed | src/routes/admin.ts:185-232 | an invalid form gives 400 without touching storage; otherwise a redirect to `/admin` with the configuration, an empty index and a list entry written, in that order |
| Admin.CreatedFeedAcceptsMail | src/routes/admin.ts:204-221 | a created feed accepts mail at its address, and has its configuration and an empty index |
| Admin.CreatedFeedListed | src/routes/admin.ts:224 | a created feed is the last one the dashboard lists, with its title and description |
| Admin.Edited | src/routes/admin.ts:357-363 | editing replaces title, description and language and stamps the update time, keeping creation time, URLs and author |
| Admin.UpdateFeed | src/routes/admin.ts:329-374 | an invalid form gives 400 and an unknown feed 404, neither changing storage; otherwise the configuration is edited and the list entry retitled; the log is the config read and write, the list read, and a list write only when the feed is listed |
| Admin.DeleteEmails | src/routes/admin.ts:393-395 | the loop removes exactly the indexed emails, one call each |
| Admin.RemoveFeedRecords | src/routes/admin.ts:398-402 | the configuration and the index are removed, then the list entry |
| Admin.DeleteFeed | src/routes/admin.ts:377-410 | a feed without an index gives 404 after one read; otherwise its emails, configuration, index and list entry are removed in that order |
| Admin.Deleted | src/routes/admin.ts:392-402 | deletion removes the indexed emails, the configuration and the index, and the feed list is present afterwards |
| Admin.DeletedLeavesNothing | src/routes/admin.ts:385-402 | after deletion no configuration, index, indexed email or list entry of the feed remains, and every other key is unchanged |
| Admin.DeleteEmail | src/routes/admin.ts:700-734 | a missing feed id gives 400 without touching storage; otherwise the email is removed, the index filtered, and a redirect to the feed's email list |
| Admin.WithoutEmail | src/routes/admin.ts:723 | no entry with the key is left, and the index shrinks when the email was indexed |
| Admin.EmailRemoved | src/routes/admin.ts:715-726 | the email's key is removed, the index key is present, and every other key is unchanged |
| Admin.EmailRemovedEffect | src/routes/admin.ts:716-726 | the email is gone and the index keeps exactly the entries with other keys, in order |
| Admin.EmailRemovedUnindexed | src/routes/admin.ts:719-726 | deleting an email the index does not list leaves the index as it was |

## Left out

- Console logging in every handler is left out; it has no effect on the responses or the store.
- Storage failures are not modelled: a `get`, `put` or `delete` always succeeds. So the
  catch-all 500 of the webhook and the RSS handler, and the 400 of the admin handlers, are
  not modelled for them. The model keeps the 500 for a body that is not JSON, for a
  `null` body and for a site URL that does not parse.
- Admin.ListAllFeeds: the catch that returns an empty list when storage throws is not
  modelled, because storage never throws here.
- Storage.ConfigAt, Storage.MetadataAt, Storage.EmailAt and Storage.FeedListAt: a key holding
  a record of another kind reads as absent. The source would return whatever JSON is stored
  there, so a corrupted namespace is not modelled.
- FeedGenerator.GenerateRssFeed: the XML that `rss2()` renders is left out, because the `feed`
  library is outside this model. The document is the options and the items handed to it.
- FeedGenerator.OptionsOf: `new Date()` is a millisecond count and its year a parameter.
  `new URL(..).hostname` is a parameter function, `None` where the constructor throws.
- EmailParser.Normalize: the parse of the `date` string (`new Date(date).getTime()`) is a
  parameter, because date-string parsing is not modelled.
- Admin.GenerateRandomId: `Math.random()` is a sequence of draws in [0, 1) given as a
  parameter.
- Admin.CreateFeed: the hostname in `env.DOMAIN` and the clock are parameters.
- EmailParser.HeaderLineValue: the header key is matched as literal text. The regular
  expression the source builds from it would treat metacharacters specially, or throw on
  an invalid one.
- Text.ToLower: case folding covers ASCII letters only, as does the `i` flag in
  EmailParser.HeaderLineValue and EmailParser.MatchEncodedWord. Non-ASCII case mappings are
  not modelled.
- Strings are sequences of Unicode scalar values. Lone UTF-16 surrogates are not modelled.
- Admin.ValidateForm: the schema's error messages and form fields sent as files are not
  modelled; a field is a string or absent.
- HTML pages, the dashboard, the email viewer, authentication and styling in `admin.ts` are
  left out. Only the key split of the email view is modelled (Storage.FeedIdOfKey).
- `src/utils/id-generator.ts` is not part of this model. The handlers modelled here do not
  use it.
- Concurrency between requests is left out. The read-modify-write of an index or of the feed
  list is modelled as one uninterrupted sequence of calls.
