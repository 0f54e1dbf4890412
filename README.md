# puppeteer-warc, modelled in Dafny

This project models puppeteer-warc, which archives a web page as a WARC file
and reads WARC files back.

**Capture.** A headless browser session sees a stream of `request` and
`response` events. Two handlers join them into a table: URL to bucket, then
request id to entry. Once the page has loaded, the writer emits these
records in order:

1. one `warcinfo` record;
2. a request and response pair for the rendered page, under
   `<url>#rendered-html`;
3. a request and response pair for every captured entry that has a response
   body, bucket by bucket. The bucket of the target URL itself is skipped.

There are two copies of this pipeline:

- `writeWARC` in `src/write-warc.mjs`;
- `archiveWebPage` in the root `write-warc.mjs`.

They differ only in the name of the header that carries the request id. The
model takes that name as a parameter.

Both define their record writers inline (src/write-warc.mjs:82-149,
write-warc.mjs:72-140). `src/write-utils.mjs` holds the same writers as
standalone functions, with the id header of `src/write-warc.mjs`; no file
of the repository imports it. The model defines the writers once, in
`WriteUtils`, and both sessions use that definition.

**Reading.** A WARC reader turns the parser's records into a map from
`Record #n` to per-record details: headers, content type, size, and either
text, octets or an error. The map is then rendered either as a text report
or as a JSON-ready object, where octet content becomes base 64 text.

**Command line.** Two front ends check the argument and derive the output
file name from the URL.

## Modules

The model is split into these modules:

- `Common`, `OrderedMap`: optional values, octets, decimal rendering, and
  insertion-ordered dictionaries. These stand in for JavaScript `Map`s and
  plain objects, which iterate in first-insertion order.
- `RecordModel`: the captured request and response data, the entries and
  buckets, and the WARC records handed to the serializer
  (`src/types/write-warc-output.d.ts`).
- `Correlation`: the shared table as a class with the two event handlers,
  and the replay of an event stream.
- `WriteUtils`: the output stream as a class whose state is the records it
  has received and whether it has been ended, and the records of one entry.
- `WriteWarc`: the emission loops and whole sessions.
- `ArchiveLayout`: what a written archive looks like, proved end to end
  from the event stream.
- `Utf8`, `Base64`: `TextEncoder`/`Buffer.from` encoding (RFC 3629,
  section 3) and `Buffer.toString('base64')` (RFC 4648, section 4).
- `ReadWarc`: the per-record extraction, the record map, `mapToObject` and
  the text report.
- `WriteWarcCli`: argument checking and file-name sanitising.

## Model

| member | source | states |
|---|---|---|
| OrderedMap.Empty | src/write-warc.mjs:16 | a new map iterates over nothing and every lookup in it fails |
| OrderedMap.Get | src/write-warc.mjs:61-62 | a lookup answers exactly for present keys, with the stored value |
| OrderedMap.Put | src/write-warc.mjs:35-39 | setting a key stores its value and changes no other key; an existing key keeps its position and a new key goes last |
| OrderedMap.FromPairs | src/read-warc.mjs:124-127 | definition, no contract: the pairs assigned one after another; see FromPairsLookup |
| OrderedMap.LastIndexOf | src/read-warc.mjs:124-127 | finds the last pair with a given key, or says no pair has it |
| OrderedMap.FromPairsLookup | src/read-warc.mjs:124-127 | copying pairs one by one yields, for every key, the value of its last occurrence, and nothing for absent keys |
| Common.NatToString | src/write-utils.mjs:77-81 | `${n}` is a non-empty string of decimal digits, one digit long exactly for n < 10 |
| Common.NatToStringInjective | src/read-warc.mjs:163 | distinct numbers print differently |
| Common.Repeat | src/read-warc.mjs:43 | `c.repeat(n)` has length n and holds only c |
| Correlation.RecordRequest | src/write-warc.mjs:34-39 | a request stores a fresh entry holding only itself under its URL and id; the URL's bucket is created at the end of the table if new; nothing else changes |
| Correlation.RecordResponse | src/write-warc.mjs:56-63 | a response creates its URL's bucket if needed; it attaches to an existing entry for its id and is lost without one; no other entry and no bucket's keys change |
| Correlation.ResourceTable.constructor | src/write-warc.mjs:16 | the table starts empty |
| Correlation.ResourceTable.OnRequest | src/write-warc.mjs:22-41 | the request handler updates the table as RecordRequest says |
| Correlation.ResourceTable.OnResponse | src/write-warc.mjs:44-67 | the response handler updates the table as RecordResponse says |
| Correlation.Apply | src/write-warc.mjs:22-67 | definition, no contract: one event through its handler; see ReplayCorrelates |
| Correlation.Replay | src/write-warc.mjs:16-67 | definition, no contract: the table after a stream of events from `new Map()`; see ReplayCorrelates and ReplayBuckets |
| Correlation.LastRequestAt | src/write-warc.mjs:39 | finds the last request event for a URL and id, or says there is none |
| Correlation.LastResponseAt | src/write-warc.mjs:63 | finds the last response event for a URL and id, or says there is none |
| Correlation.ReplayCorrelates | src/write-warc.mjs:22-67 | for any interleaving, an entry exists exactly when a request event came; it holds the last request, plus the last response only when that response came after it |
| Correlation.ResponseWithoutRequestIsDropped | src/write-warc.mjs:61-63 | a response that no request preceded leaves no entry |
| Correlation.LaterRequestDiscardsResponse | src/write-warc.mjs:39 | a request event overwrites the entry and drops a response stored before it |
| Correlation.ReplayWellKeyed | src/write-warc.mjs:39 | an entry's request, and its response if any, carry the id the entry is stored under |
| Correlation.ApplyKeys | src/write-warc.mjs:35-37 | an event adds its URL to the end of the table's keys when that URL is new |
| Correlation.FirstSeenMembers | src/write-warc.mjs:57-59 | a URL is first seen exactly when some event names it |
| Correlation.ReplayBuckets | src/write-warc.mjs:35-37 | the table has a bucket for exactly the URLs some event of either kind named, in the order they were first named |
| WriteUtils.InfoRecord | src/write-utils.mjs:16-22 | the warcinfo record names the file, WARC/1.1, the software `puppeteer-warcio-archiver` and the datetime, in that order |
| WriteUtils.RequestHeaders | src/write-utils.mjs:47-50 | definition, no contract: see RequestHeadersLookup |
| WriteUtils.RequestHeadersLookup | src/write-utils.mjs:47-50 | the request header block is the captured headers with the id header set last to the request id; other headers are unchanged |
| WriteUtils.ResponseHeaders | src/write-utils.mjs:77-81 | definition, no contract: see ResponseHeadersLookup |
| WriteUtils.ResponseHeadersLookup | src/write-utils.mjs:77-81 | the response header block is the captured headers, then `Status`, then the id header; each later one wins; names keep their places and new names go last, in that order |
| WriteUtils.RequestPayload | src/write-utils.mjs:53-57 | definition, no contract: see RequestPayloadBytes |
| WriteUtils.RequestPayloadBytes | src/write-utils.mjs:53-57 | the request body is the UTF-8 encoding of `postData` when set; unset or empty `postData` gives no octets |
| WriteUtils.EntryRecords | src/write-utils.mjs:36-98 | definition, no contract: see EntryRecordsShape |
| WriteUtils.EntryRecordsShape | src/write-utils.mjs:36-98 | an entry without a response body gives no records; otherwise it gives a request record and then a response record for the URL, each with its own date, headers and payload |
| WriteUtils.WarcStream.constructor | src/write-utils.mjs:8-10 | a new stream is open and holds no records |
| WriteUtils.WarcStream.Append | src/write-utils.mjs:66-68 | one serializer pipe adds one record at the end and leaves the stream open |
| WriteUtils.WarcStream.WriteWarcInfo | src/write-utils.mjs:14-32 | appends exactly the warcinfo record |
| WriteUtils.WarcStream.WriteRequestResponse | src/write-utils.mjs:36-98 | appends exactly the records of the entry: nothing without a body, else request then response |
| WriteUtils.WarcStream.Close | src/write-utils.mjs:102-104 | ends the stream and keeps its records |
| WriteWarc.RenderedEntry | src/write-warc.mjs:152-170 | definition, no contract: see RenderedEntryShape |
| WriteWarc.ArchiveRecords | src/write-warc.mjs:79-182 | definition, no contract: see WriteArchive, ArchiveOpening and ArchiveBody |
| WriteWarc.RenderedEntryShape | src/write-warc.mjs:152-170 | the rendered page is a GET with no headers and no body, answered with status 200, only `content-type: text/html`, and the UTF-8 page as body, both under id `rendered-html` |
| WriteWarc.WriteEntry | src/write-warc.mjs:174-178 | one inner pass writes the entry's records unless the bucket is the target's |
| WriteWarc.WriteBucket | src/write-warc.mjs:174-178 | the inner loop writes the records of every entry of the bucket in key order, or nothing for the target's bucket |
| WriteWarc.WriteTableStep | src/write-warc.mjs:173-179 | one outer pass extends the output by the records of the next bucket |
| WriteWarc.WriteTable | src/write-warc.mjs:173-179 | the outer loop writes every bucket in first-seen order, skipping the target's |
| WriteWarc.WriteArchive | src/write-warc.mjs:79-182 | a session writes the warcinfo record, the rendered pair, then the table, and closes the stream |
| WriteWarc.Deliver | src/write-warc.mjs:22-67 | each event goes to its own handler |
| WriteWarc.Correlate | src/write-warc.mjs:16-67 | the table after all events equals their replay in delivery order |
| WriteWarc.Capture | src/write-warc.mjs:16-182 | a whole session writes the archive records of the replayed table |
| WriteWarc.WriteWarcSession | src/write-warc.mjs:7-195 | `writeWARC` is that session with id header `x-puppeteer-resource-request-id` |
| WriteWarc.ArchiveWebPage | write-warc.mjs:7-177 | `archiveWebPage` is that session with id header `x-puppeteer-request-id` |
| ArchiveLayout.WellKeyedBuckets | src/write-warc.mjs:39 | in a well-keyed table every bucket stores each entry under its own id |
| ArchiveLayout.RespondsAppend | src/write-warc.mjs:173-179 | joined records hold a response for a URL and id exactly when one of the parts does |
| ArchiveLayout.PairedAppend | src/write-warc.mjs:173-179 | joining two runs of request/response pairs gives such a run |
| ArchiveLayout.UrlsAmongAppend | src/write-warc.mjs:173-179 | joining records for allowed URLs keeps every URL allowed |
| ArchiveLayout.EntryPaired | src/write-utils.mjs:36-98 | an entry's records form a request/response pair with the same URL and id |
| ArchiveLayout.EntryResponds | src/write-utils.mjs:36-98 | an entry's records hold a response for a URL and id exactly when the entry has a body and that URL and response id |
| ArchiveLayout.EntryUrls | src/write-utils.mjs:36-98 | an entry's records are all exchange records for its URL |
| ArchiveLayout.BucketPaired | src/write-warc.mjs:174-178 | a bucket's records form request/response pairs |
| ArchiveLayout.BucketUrls | src/write-warc.mjs:174-178 | a bucket's records are all for the bucket's own URL |
| ArchiveLayout.BucketResponds | src/write-warc.mjs:174-178 | a bucket's records answer exactly the ids of its entries that have a body |
| ArchiveLayout.PairedConcat | src/write-warc.mjs:173-179 | parts made of request/response pairs join into pairs |
| ArchiveLayout.UrlsConcat | src/write-warc.mjs:173-179 | parts made of records for allowed URLs join into such records |
| ArchiveLayout.RespondsConcat | src/write-warc.mjs:173-179 | the joined parts answer a URL and id exactly when some part does |
| ArchiveLayout.PartPaired | src/write-warc.mjs:173-179 | what one outer pass writes is request/response pairs |
| ArchiveLayout.PartUrls | src/write-warc.mjs:175 | what one outer pass writes is for that bucket's URL, and nothing for the target's |
| ArchiveLayout.PartResponds | src/write-warc.mjs:173-179 | one outer pass answers a URL and id exactly when its bucket is that URL's, not the target's, and holds that entry with a body |
| ArchiveLayout.TablePaired | src/write-warc.mjs:173-179 | all the table's records are request/response pairs |
| ArchiveLayout.TableUrls | src/write-warc.mjs:173-179 | the table's records are for URLs of the table, never the target |
| ArchiveLayout.TableResponds | src/write-warc.mjs:173-179 | the table's records answer a URL and id exactly when one outer pass does |
| ArchiveLayout.PartsRespond | src/write-warc.mjs:173-179 | some outer pass answers a URL and id exactly when some bucket keeps that entry |
| ArchiveLayout.KeptSomewhere | src/write-warc.mjs:175 | some bucket keeps an entry exactly when it is outside the target's bucket and has a body |
| ArchiveLayout.RenderedRequest | src/write-warc.mjs:152-159 | the rendered request record is for `url#rendered-html`, dated when made, with id `rendered-html` and no body |
| ArchiveLayout.RenderedResponse | src/write-warc.mjs:160-169 | the rendered response record has status 200, content type `text/html` and the encoded page as its body |
| ArchiveLayout.ArchiveOpening | src/write-warc.mjs:82-170 | every archive opens with the warcinfo record and the rendered pair, followed by the table's records |
| ArchiveLayout.ArchiveTail | src/write-warc.mjs:172-179 | after the first three records come exactly the table's records |
| ArchiveLayout.ArchiveBody | src/write-warc.mjs:172-179 | after the opening, the archive is request/response pairs for table URLs other than the target, with a response exactly for each stored entry that has a body |
| ArchiveLayout.ExpectedHasBody | src/write-warc.mjs:53-63 | the entry read off the events has a body exactly when the last response came after the last request and carried a buffer |
| ArchiveLayout.CaptureWrites | src/write-warc.mjs:22-179 | end to end, the archive holds a response for a URL and id exactly when the URL is not the target, a request event for it came, and its last response came after the last request with a body |
| Utf8.EncodeChar | src/write-utils.mjs:55 | one character takes one to four octets: one exactly for ASCII, equal to its code; the rest are continuation octets |
| Utf8.EncodeCharDecodes | src/write-utils.mjs:55 | a character's octets decode back to that character |
| Utf8.Encode | src/write-utils.mjs:55 | text takes between one and four octets per character |
| Utf8.EncodeAppend | src/write-warc.mjs:168 | encoding distributes over concatenation |
| Utf8.EncodeAsciiLength | src/write-warc.mjs:168 | text is one octet per character exactly when it is ASCII, each octet being its code |
| Base64.ToChar | src/read-warc.mjs:91 | each sextet maps to a character of the RFC 4648 alphabet |
| Base64.FromChar | src/read-warc.mjs:91 | an alphabet character maps back to the sextet whose character it is |
| Base64.ToCharInjective | src/read-warc.mjs:91 | `FromChar` inverts `ToChar` |
| Base64.Encode | src/read-warc.mjs:91 | definition, no contract: groups of three octets as four characters, the last group padded with `=`; see EncodeLength, EncodeAlphabet, DecodeEncode and EncodeExample |
| Base64.Decode | src/read-warc.mjs:91 | definition, no contract: the inverse of Encode, used only to state DecodeEncode |
| Base64.EncodeLength | src/read-warc.mjs:91 | the text takes four characters per started group of three octets |
| Base64.EncodeAlphabet | src/read-warc.mjs:91 | the text uses only alphabet characters, with `=` only as trailing padding |
| Base64.CharOf | src/read-warc.mjs:91 | a sextet's character is an alphabet character other than the padding |
| Base64.GroupDecodes | src/read-warc.mjs:91 | a full group of three octets decodes back to those octets |
| Base64.OneDecodes | src/read-warc.mjs:91 | a final single octet, padded with `==`, decodes back |
| Base64.TwoDecodes | src/read-warc.mjs:91 | two final octets, padded with `=`, decode back |
| Base64.DecodeEncode | src/read-warc.mjs:90-93 | decoding the base 64 text gives back the octets |
| Base64.EncodeExample | src/read-warc.mjs:91 | the octets 0, 1, 2, 3 encode as `AAECAw==` |
| ReadWarc.TextMimeTypes | src/read-warc.mjs:5-29 | definition, no contract: the 23 text MIME types, in source order |
| ReadWarc.IsTextType | src/read-warc.mjs:151 | definition, no contract: some text MIME type occurs in the HTTP content type |
| ReadWarc.WarcContentType | src/read-warc.mjs:140 | definition, no contract: the WARC `Content-Type`, or empty; see HeaderGet |
| ReadWarc.HttpContentType | src/read-warc.mjs:141-142 | definition, no contract: the HTTP `Content-Type`, or empty without HTTP headers or without a match; see HeaderGet |
| ReadWarc.LowerChar | src/read-warc.mjs:140-142 | no upper-case ASCII letter is left; a character changes exactly when it is one, and then becomes its own lower-case letter |
| ReadWarc.LowerCharFolds | src/read-warc.mjs:140-142 | two characters fold alike exactly when they are equal or the two cases of one ASCII letter |
| ReadWarc.SameNameEquivalence | src/read-warc.mjs:140-142 | matching header names ignoring case is reflexive, symmetric and transitive |
| ReadWarc.ContentTypeIgnoresCase | src/read-warc.mjs:140-142 | the `Content-Type` lookups find `content-type` and `CONTENT-TYPE`, and not `content-length` |
| ReadWarc.FirstMatchFrom | src/read-warc.mjs:140-142 | finds the first header whose name matches, ignoring case, or says none does |
| ReadWarc.HeaderGet | src/read-warc.mjs:140-142 | a header lookup answers exactly when some name matches, with the value of the first match |
| ReadWarc.Extract | src/read-warc.mjs:121-160 | headers are copied; a failed read records only its message; otherwise the non-empty HTTP content type wins over the WARC one, size is the octet count, and content is the decoded text exactly when the HTTP type names a text MIME type, else the octets |
| ReadWarc.LabelInjective | src/read-warc.mjs:163 | distinct records get distinct `Record #n` keys |
| ReadWarc.Labels | src/read-warc.mjs:163 | the labels are `Record #1` to `Record #n` in order |
| ReadWarc.FreshLabel | src/read-warc.mjs:163 | the next label is not yet a key |
| ReadWarc.RecordsOf | src/read-warc.mjs:117-164 | definition, no contract: the record map after the loop; see RecordsOfKeys and RecordsOfContents |
| ReadWarc.RecordsOfKeys | src/read-warc.mjs:117-164 | the map's keys are `Record #1` to `Record #n` in stream order |
| ReadWarc.RecordsOfContents | src/read-warc.mjs:117-164 | `Record #j` holds the details of the j-th record, failed ones included |
| ReadWarc.ToJson | src/read-warc.mjs:90-93 | octet content becomes its base 64 text, which decodes back to those octets, marked `base64`; nothing else changes |
| ReadWarc.ContentLines | src/read-warc.mjs:65-73 | the part opens with `Content Error: ` exactly when the error is non-empty, with the text heading exactly when there is no such error and the content is text, and is the binary line otherwise; the error message or the text can be read back from it |
| ReadWarc.ReportStarts | src/read-warc.mjs:38-40 | the report opens with its title, its underline and the record count |
| ReadWarc.TitleShape | src/read-warc.mjs:43 | a section title is the label, a newline, one dash per label character and a blank line |
| ReadWarc.FrameShape | src/read-warc.mjs:43-75 | a section starts with its title and ends with the rule of 80 `=` |
| ReadWarc.Section | src/read-warc.mjs:43-75 | definition, no contract: title, headers, content type and size, content part, rule; see SectionFrame and AppendSection |
| ReadWarc.ReportText | src/read-warc.mjs:37-79 | definition, no contract: the header, then every section in map order; see ReportStarts, ReportOrder and GenerateTextReport |
| ReadWarc.SectionFrame | src/read-warc.mjs:43-75 | each record's section starts with its label and underline and ends with the rule |
| ReadWarc.RuleShape | src/read-warc.mjs:75 | the closing rule is a newline, 80 `=` and a blank line |
| ReadWarc.SectionsPrefix | src/read-warc.mjs:42-76 | the sections of the first j records are a prefix of those of the first n |
| ReadWarc.JoinedPrefix | src/read-warc.mjs:42-76 | rendering fewer entries gives a prefix |
| ReadWarc.ReportOrder | src/read-warc.mjs:37-79 | the j-th record's section follows the header and all earlier sections |
| ReadWarc.SectionsFollow | src/read-warc.mjs:42-76 | whatever precedes them, the sections come in map order |
| ReadWarc.CopyHeaders | src/read-warc.mjs:124-135 | the header copy loop yields the pairs assigned in turn: first position, last value |
| ReadWarc.ExtractRecord | src/read-warc.mjs:121-160 | one loop body computes exactly the details `Extract` specifies |
| ReadWarc.MapToObject | src/read-warc.mjs:86-97 | the object has the map's keys in order, each value converted as `ToJson` says |
| ReadWarc.AppendHeaderLines | src/read-warc.mjs:47-49 | appends one `  key: value` line per header in key order |
| ReadWarc.AppendHeaderBlock | src/read-warc.mjs:46-58 | appends the heading, the header lines and a blank line |
| ReadWarc.AppendContent | src/read-warc.mjs:65-73 | appends exactly the content part |
| ReadWarc.AppendSection | src/read-warc.mjs:43-75 | appends exactly the record's section |
| ReadWarc.AppendSections | src/read-warc.mjs:42-76 | appends one section per record in map order |
| ReadWarc.AppendNextSection | src/read-warc.mjs:42-76 | one loop pass appends the next record's section |
| ReadWarc.GenerateTextReport | src/read-warc.mjs:37-79 | the report is the header followed by every record's section in map order |
| ReadWarc.ReadWarcRecords | src/read-warc.mjs:106-175 | format `text` returns the report of all records; any other format returns the record count and `Record #1` to `Record #n`, each holding its record's details converted for JSON |
| WriteWarcCli.StripProtocol | src/write-warc-cli.mjs:21 | one leading `https://` or `http://` is removed and nothing else changes |
| WriteWarcCli.ProtocolsDisjoint | src/write-warc-cli.mjs:21 | no text starts with both protocols |
| WriteWarcCli.KeepLetters | src/write-warc-cli.mjs:22 | the result holds only ASCII letters and is no longer than the input |
| WriteWarcCli.Sanitize | src/write-warc-cli.mjs:20-22 | definition, no contract: the protocol stripped, then everything but letters removed; see SanitizeShape and SanitizeIdempotent |
| WriteWarcCli.WarcFileName | src/write-warc-cli.mjs:25 | definition, no contract: the sanitised name plus `.warc.gz`; see Plan |
| WriteWarcCli.KeepLettersSubsequence | src/write-warc-cli.mjs:22 | the kept letters appear in the input in the same order |
| WriteWarcCli.KeepLettersAppend | src/write-warc-cli.mjs:22 | filtering distributes over concatenation |
| WriteWarcCli.KeepLettersFixpoint | src/write-warc-cli.mjs:22 | filtering leaves a string unchanged exactly when it is all letters |
| WriteWarcCli.SanitizeShape | src/write-warc-cli.mjs:20-22 | the sanitised name holds only letters and is a subsequence of the argument |
| WriteWarcCli.LettersHaveNoProtocol | src/write-warc-cli.mjs:21 | an all-letter string starts with neither protocol |
| WriteWarcCli.SanitizeIdempotent | src/write-warc-cli.mjs:20-22 | sanitising a sanitised name changes nothing |
| WriteWarcCli.SanitizeWithoutProtocol | src/write-warc-cli.mjs:20-22 | without a leading protocol, the whole argument is filtered |
| WriteWarcCli.SanitizeDropsProtocol | src/write-warc-cli.mjs:20-22 | with a leading protocol, only the rest is filtered |
| WriteWarcCli.SanitizeDerived | src/write-warc-cli.mjs:20-22 | the sanitised form of any argument holds only letters |
| WriteWarcCli.Plan | src/write-warc-cli.mjs:12-27 | a missing or empty argument prints two messages and exits with status 1; otherwise the capture gets the argument, `<name>.warc.gz` and the sanitised name |
| WriteWarcCli.SrcPlan | src/write-warc-cli.mjs:12-27 | a missing or empty argument gives the website-URL messages and exit status 1; otherwise the capture gets the argument, the sanitised name as screenshot name, and that name plus `.warc.gz`, all letters |
| WriteWarcCli.RootPlan | write-warc-cli.mjs:12-27 | the same, with the WARC-path messages |

## Left out

- The browser: launching Puppeteer, request interception, `request.continue()`, navigation, page content, the screenshot and closing the browser. The rendered page's text, the events and their order are inputs.
- Clocks: every `new Date().toISOString()` reading is a parameter.
- Fetching post data and response bodies: these are part of each event. A failed `response.buffer()` arrives as an absent buffer.
- Concurrency: the async handlers interleave arbitrarily, but each one runs as one atomic step in delivery order. The proofs hold for every order. An `await` inside a handler, before its table update, is not split into separate steps.
- The `try`/`catch` with `console.warn` in the response handler, and `console.error` on a failed capture: logging is not modelled.
- The warcio library: record construction is modelled as a value holding the fields given to `WARCRecord.create` and `createWARCInfo`. Serialisation, gzip, `WARC-Record-ID`, digests, lengths and the WARC parser are not modelled.
- Reading: the parser's records are an input sequence. Each record is its WARC headers, its optional HTTP headers, and its octets or the message of a read error.
- File-system streams and `pipeline`: the output stream is the record sequence it receives.
- The file name written into warcinfo: for `src/write-warc.mjs` it is the path given to the session (`warcPath`); for the root `write-warc.mjs` it is `outputPath`.
- Lone surrogates: a JavaScript string can hold an unpaired UTF-16 surrogate, which `TextEncoder` and `Buffer.from` write as the three octets EF BF BD. A Dafny `char` is a Unicode scalar value and cannot hold one, so `Utf8.Encode` covers only well-formed text.
- UTF-8 decoding (`Buffer.prototype.toString()`, src/read-warc.mjs:152) is a function parameter. Invalid-sequence replacement is not modelled.
- WriteUtils.WarcStream.Append: every write requires an open stream. The source would fail on a write after `end()`, and no caller does that.
- Header name case: the parsed headers' `get` compares names ignoring ASCII case and returns the first match. warcio's exact header store is not part of this model.
- Object key order: JavaScript objects list integer-like keys first, in numeric order, before other keys. The model keeps pure insertion order for every key, including request ids and header names.
- `remoteAddress` and `timing` of the type declarations: the handlers never set them. `method` is stored with each request, but no record written contains it.
- `mapToObject` mutates the map's values in place, so after the call the map and the object share them. The model returns fresh values and does not capture that aliasing.
- The response handler drops a response that arrives before any request for its id: `entries[id] || {}` creates an object that nothing stores. Only its bucket is created. The model follows the code here, whatever is said elsewhere about response-only entries being kept.
- The root `write-warc-cli.mjs:9` imports `writeWARC`, which the root `write-warc.mjs` does not export; that script would fail to load. `WriteWarcCli.RootPlan` models the argument checking and naming it is evidently meant to do.
- `.then(() => console.log(...))` and `.catch(console.error)` in the front ends: console output after the capture is not modelled. The usage error's messages and exit code are modelled as an outcome value.
- The root `read-warc.mjs`, `src/read-warc-cli.mjs`, `read-warc-cli.mjs` and `src/utils-error.mjs` are not part of this model.
