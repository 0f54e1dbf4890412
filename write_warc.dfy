/** Emission of a capture session: `writeWARC` in src/write-warc.mjs and
    `archiveWebPage` in the root write-warc.mjs. Both write one `warcinfo`
    record, then the synthetic `#rendered-html` pair, then every captured
    entry bucket by bucket, skipping the bucket of the target URL. They
    differ only in the name of the id header, which is a parameter here. */
module WriteWarc {
  import opened Common
  import opened OrderedMap
  import opened RecordModel
  import opened Correlation
  import opened WriteUtils
  import Utf8

  const RenderedId: string := "rendered-html"

  function RenderedUrl(url: string): string {
    url + "#rendered-html"
  }

  /** The synthetic entry for the rendered page (src/write-warc.mjs:152-170).
      Its lookups `resourceData.get(url)?.request` and `?.response` read the
      id-keyed bucket under the keys "request" and "response", which hold
      entries, not requests or responses; those have no `headers` or
      `timestamp` field, so the request headers are `{}`, the response
      headers only the default content type, and both timestamps are the
      clock readings taken at that point. */
  function RenderedEntry(html: string, requestTime: string, responseTime: string): ResourceEntry {
    ResourceEntry(
      RequestData(RenderedId, "GET", Empty(), None, requestTime),
      Some(ResponseData(RenderedId, 200, Put(Empty(), "content-type", "text/html"),
                        responseTime, Some(Utf8.Encode(html)))))
  }

  /** The rendered entry is a `GET` without headers or body, answered with
      status 200, a single `content-type: text/html` header and the encoded
      page, both under the id `rendered-html`. */
  lemma RenderedEntryShape(html: string, requestTime: string, responseTime: string)
    ensures var e := RenderedEntry(html, requestTime, responseTime);
      && HasBody(e)
      && e.request.id == RenderedId && e.request.httpMethod == "GET"
      && e.request.headers.keys == [] && e.request.postData.None?
      && e.response.value.id == RenderedId && e.response.value.status == 200
      && Get(e.response.value.headers, "content-type") == Some("text/html")
      && e.response.value.headers.keys == ["content-type"]
      && e.response.value.buffer == Some(Utf8.Encode(html))
  {
  }

  /** The records of the first `n` entries of a bucket, in key order. */
  function BucketRecords(url: string, b: Bucket, n: nat, idHeader: string): seq<WarcRecord>
    requires n <= |b.keys|
  {
    if n == 0 then []
    else BucketRecords(url, b, n - 1, idHeader) + EntryRecords(url, b.vals[b.keys[n - 1]], idHeader)
  }

  /** The records of `part(0)`, ..., `part(n - 1)`, one after another. */
  function Concat(n: nat, part: nat -> seq<WarcRecord>): seq<WarcRecord> {
    if n == 0 then [] else Concat(n - 1, part) + part(n - 1)
  }

  /** What the outer loop writes for the `i`-th bucket: nothing for the
      bucket of `target`, all its entries otherwise. */
  function BucketPart(t: ResourceData, i: nat, target: string, idHeader: string): seq<WarcRecord> {
    if i < |t.keys| && t.keys[i] != target then
      var u := t.keys[i];
      BucketRecords(u, t.vals[u], |t.vals[u].keys|, idHeader)
    else []
  }

  /** The parts of the outer loop, bucket by bucket. */
  function Parts(t: ResourceData, target: string, idHeader: string): nat -> seq<WarcRecord> {
    (k: nat) => BucketPart(t, k, target, idHeader)
  }

  /** The records of the first `n` buckets of the table, in key order,
      leaving out the bucket of `target`. */
  function TableRecords(t: ResourceData, n: nat, target: string, idHeader: string): seq<WarcRecord>
    requires n <= |t.keys|
  {
    Concat(n, Parts(t, target, idHeader))
  }

  lemma BucketRecordsStep(url: string, b: Bucket, j: nat, idHeader: string,
                          before: seq<WarcRecord>, after: seq<WarcRecord>, start: seq<WarcRecord>)
    requires j < |b.keys|
    requires before == start + BucketRecords(url, b, j, idHeader)
    requires after == before + EntryRecords(url, b.vals[b.keys[j]], idHeader)
    ensures after == start + BucketRecords(url, b, j + 1, idHeader)
  {
    AppendAssoc(start, BucketRecords(url, b, j, idHeader), EntryRecords(url, b.vals[b.keys[j]], idHeader));
  }

  lemma TableRecordsUnfold(t: ResourceData, n: nat, target: string, idHeader: string)
    requires 0 < n <= |t.keys|
    ensures TableRecords(t, n, target, idHeader)
         == TableRecords(t, n - 1, target, idHeader) + BucketPart(t, n - 1, target, idHeader)
  {
    assert Parts(t, target, idHeader)(n - 1) == BucketPart(t, n - 1, target, idHeader);
  }

  /** Everything one session writes, in order. */
  function ArchiveRecords(t: ResourceData, target: string, warcPath: string, html: string,
                          infoTime: string, renderedRequestTime: string, renderedResponseTime: string,
                          idHeader: string): seq<WarcRecord>
  {
    [InfoRecord(warcPath, infoTime)]
      + EntryRecords(RenderedUrl(target), RenderedEntry(html, renderedRequestTime, renderedResponseTime), idHeader)
      + TableRecords(t, |t.keys|, target, idHeader)
  }

  /** The inner loop of src/write-warc.mjs:174-178 over one bucket: every
      entry is written, unless the bucket is that of the target URL. */
  method WriteBucket(out: WarcStream, resourceUrl: string, entries: Bucket, url: string, idHeader: string)
    requires !out.ended
    modifies out
    ensures !out.ended
    ensures out.records == old(out.records)
      + (if resourceUrl == url then [] else BucketRecords(resourceUrl, entries, |entries.keys|, idHeader))
  {
    ghost var start := out.records;
    AppendEmpty(start);
    var j := 0;
    while j < |entries.keys|
      invariant j <= |entries.keys| && !out.ended
      invariant out.records == start + (if resourceUrl == url then [] else BucketRecords(resourceUrl, entries, j, idHeader))
    {
      WriteEntry(out, resourceUrl, entries, j, url, idHeader, start);
      j := j + 1;
    }
  }

  /** One pass of the inner loop: the `j`-th entry is written unless the
      bucket is that of the target URL. */
  method WriteEntry(out: WarcStream, resourceUrl: string, entries: Bucket, j: nat, url: string, idHeader: string,
                    ghost start: seq<WarcRecord>)
    requires j < |entries.keys| && !out.ended
    requires out.records == start + (if resourceUrl == url then [] else BucketRecords(resourceUrl, entries, j, idHeader))
    modifies out
    ensures !out.ended
    ensures out.records == start + (if resourceUrl == url then [] else BucketRecords(resourceUrl, entries, j + 1, idHeader))
  {
    var id := entries.keys[j];
    if resourceUrl != url {
      ghost var before := out.records;
      out.WriteRequestResponse(resourceUrl, entries.vals[id], idHeader);
      BucketRecordsStep(resourceUrl, entries, j, idHeader, before, out.records, start);
    }
  }

  /** The outer loop of src/write-warc.mjs:173-179: every bucket in the
      order URLs were first seen. */
  method WriteTable(out: WarcStream, t: ResourceData, url: string, idHeader: string)
    requires !out.ended
    modifies out
    ensures !out.ended
    ensures out.records == old(out.records) + TableRecords(t, |t.keys|, url, idHeader)
  {
    ghost var start := out.records;
    AppendEmpty(start);
    var i := 0;
    while i < |t.keys|
      invariant i <= |t.keys| && !out.ended
      invariant out.records == start + TableRecords(t, i, url, idHeader)
    {
      WriteTableStep(out, t, i, url, idHeader, start);
      i := i + 1;
    }
  }

  /** One pass of the outer loop: the `i`-th bucket is written unless it is
      that of the target URL. */
  method WriteTableStep(out: WarcStream, t: ResourceData, i: nat, url: string, idHeader: string,
                        ghost start: seq<WarcRecord>)
    requires i < |t.keys| && !out.ended
    requires out.records == start + TableRecords(t, i, url, idHeader)
    modifies out
    ensures !out.ended
    ensures out.records == start + TableRecords(t, i + 1, url, idHeader)
  {
    var resourceUrl := t.keys[i];
    WriteBucket(out, resourceUrl, t.vals[resourceUrl], url, idHeader);
    TableRecordsUnfold(t, i + 1, url, idHeader);
    AppendAssoc(start, TableRecords(t, i, url, idHeader), BucketPart(t, i, url, idHeader));
  }

  /** The writing half of a session (src/write-warc.mjs:79-182): open a
      stream, write the warcinfo record and the rendered page, walk the
      table bucket by bucket, close the stream. */
  method WriteArchive(t: ResourceData, url: string, warcPath: string, html: string,
                      infoTime: string, renderedRequestTime: string, renderedResponseTime: string,
                      idHeader: string) returns (written: seq<WarcRecord>)
    ensures written == ArchiveRecords(t, url, warcPath, html, infoTime, renderedRequestTime,
                                      renderedResponseTime, idHeader)
  {
    var out := new WarcStream();
    out.WriteWarcInfo(warcPath, infoTime);
    var rendered := RenderedEntry(html, renderedRequestTime, renderedResponseTime);
    out.WriteRequestResponse(RenderedUrl(url), rendered, idHeader);
    WriteTable(out, t, url, idHeader);
    out.Close();
    written := out.records;
    AppendEmpty([InfoRecord(warcPath, infoTime)]);
  }

  /** The event phase of a session: each event goes to its handler, one at a
      time, in delivery order. */
  method Correlate(events: seq<Event>) returns (data: ResourceData)
    ensures data == Replay(events)
  {
    var table := new ResourceTable();
    var k := 0;
    while k < |events|
      invariant 0 <= k <= |events|
      invariant table.data == Replay(events[..k])
    {
      Deliver(table, events[k]);
      ReplayStep(events, k);
      k := k + 1;
    }
    assert events[..k] == events;
    data := table.data;
  }

  /** The `request` or `response` listener registered on the page, run for
      one event. */
  method Deliver(table: ResourceTable, e: Event)
    modifies table
    ensures table.data == Apply(old(table.data), e)
  {
    match e {
      case RequestEvent(u, req) => table.OnRequest(u, req);
      case ResponseEvent(u, resp) => table.OnResponse(u, resp);
    }
  }

  lemma ReplayStep(events: seq<Event>, k: nat)
    requires k < |events|
    ensures Replay(events[..k + 1]) == Apply(Replay(events[..k]), events[k])
  {
    assert events[..k + 1][..k] == events[..k];
  }

  /** A whole session: correlate the events, then write the table out. */
  method Capture(events: seq<Event>, url: string, warcPath: string, html: string,
                 infoTime: string, renderedRequestTime: string, renderedResponseTime: string,
                 idHeader: string) returns (written: seq<WarcRecord>)
    ensures written == ArchiveRecords(Replay(events), url, warcPath, html, infoTime,
                                      renderedRequestTime, renderedResponseTime, idHeader)
  {
    var data := Correlate(events);
    written := WriteArchive(data, url, warcPath, html, infoTime, renderedRequestTime,
                            renderedResponseTime, idHeader);
  }

  /** `writeWARC` of src/write-warc.mjs, id header `x-puppeteer-resource-request-id`. */
  method WriteWarcSession(events: seq<Event>, url: string, warcPath: string, html: string,
                          infoTime: string, renderedRequestTime: string, renderedResponseTime: string)
    returns (written: seq<WarcRecord>)
    ensures written == ArchiveRecords(Replay(events), url, warcPath, html, infoTime,
                                      renderedRequestTime, renderedResponseTime,
                                      "x-puppeteer-resource-request-id")
  {
    written := Capture(events, url, warcPath, html, infoTime, renderedRequestTime,
                       renderedResponseTime, ResourceRequestIdHeader);
  }

  /** `archiveWebPage` of the root write-warc.mjs, id header `x-puppeteer-request-id`. */
  method ArchiveWebPage(events: seq<Event>, url: string, outputPath: string, html: string,
                        infoTime: string, renderedRequestTime: string, renderedResponseTime: string)
    returns (written: seq<WarcRecord>)
    ensures written == ArchiveRecords(Replay(events), url, outputPath, html, infoTime,
                                      renderedRequestTime, renderedResponseTime,
                                      "x-puppeteer-request-id")
  {
    written := Capture(events, url, outputPath, html, infoTime, renderedRequestTime,
                       renderedResponseTime, RequestIdHeader);
  }
}
