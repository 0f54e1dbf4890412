/** src/write-utils.mjs: the WARC output stream and the records written to
    it. The stream is reduced to the sequence of records it has received;
    serialisation and gzip framing belong to the warcio library. */
module WriteUtils {
  import opened Common
  import opened OrderedMap
  import opened RecordModel
  import Utf8

  /** The `warcinfo` record: file name, WARC version, and the software and
      creation time fields (src/write-utils.mjs:16-22). */
  function InfoRecord(warcPath: string, datetime: string): (r: WarcRecord)
    ensures r.WarcInfo? && r.filename == warcPath && r.warcVersion == "WARC/1.1"
    ensures Get(r.info, "software") == Some("puppeteer-warcio-archiver")
    ensures Get(r.info, "datetime") == Some(datetime)
    ensures r.info.keys == ["software", "datetime"]
  {
    WarcInfo(warcPath, WarcVersion, Put(Put(Empty(), "software", Software), "datetime", datetime))
  }

  /** `{...data.request.headers, [idHeader]: data.request.id}`. */
  function RequestHeaders(req: RequestData, idHeader: string): Headers {
    Put(req.headers, idHeader, req.id)
  }

  /** The request headers are the captured ones with the id header set
      last, replacing a same-named one in place. */
  lemma RequestHeadersLookup(req: RequestData, idHeader: string)
    ensures var h := RequestHeaders(req, idHeader);
      && Get(h, idHeader) == Some(req.id)
      && (forall k :: k != idHeader ==> Get(h, k) == Get(req.headers, k))
      && h.keys == if idHeader in req.headers.keys then req.headers.keys else req.headers.keys + [idHeader]
  {
  }

  /** `{...data.response.headers, Status: status, [idHeader]: data.response.id}`. */
  function ResponseHeaders(resp: ResponseData, idHeader: string): Headers {
    Put(Put(resp.headers, "Status", NatToString(resp.status)), idHeader, resp.id)
  }

  /** The response headers are the captured ones, then `Status`, then the id
      header, each later one winning over an earlier same-named one; a name
      already present keeps its place, a new one goes last. */
  lemma ResponseHeadersLookup(resp: ResponseData, idHeader: string)
    ensures var h := ResponseHeaders(resp, idHeader);
      && Get(h, idHeader) == Some(resp.id)
      && (idHeader != "Status" ==> Get(h, "Status") == Some(NatToString(resp.status)))
      && (forall k :: k != idHeader && k != "Status" ==> Get(h, k) == Get(resp.headers, k))
      && (forall k :: k in resp.headers.keys ==> k in h.keys)
      && var withStatus := if "Status" in resp.headers.keys then resp.headers.keys else resp.headers.keys + ["Status"];
         h.keys == if idHeader in withStatus then withStatus else withStatus + [idHeader]
  {
  }

  /** The request body (src/write-utils.mjs:53-57). */
  function RequestPayload(req: RequestData): seq<Byte> {
    match req.postData
    case Some(p) => if p != "" then Utf8.Encode(p) else []
    case None => []
  }

  /** The UTF-8 encoding of `postData` when it is set, nothing otherwise:
      the empty string encodes to nothing either way. */
  lemma RequestPayloadBytes(req: RequestData)
    ensures (req.postData.None? || req.postData.value == "") ==> RequestPayload(req) == []
    ensures req.postData.Some? ==> RequestPayload(req) == Utf8.Encode(req.postData.value)
  {
  }

  /** `data.response?.buffer` is truthy: a response arrived and its body was
      fetched. An empty buffer is still an object, so still truthy. */
  predicate HasBody(entry: ResourceEntry) {
    entry.response.Some? && entry.response.value.buffer.Some?
  }

  /** What `writeRequestResponse(url, data)` appends: nothing without a body,
      otherwise a request record and then a response record for `url`. */
  function EntryRecords(url: string, entry: ResourceEntry, idHeader: string): seq<WarcRecord> {
    if !HasBody(entry) then []
    else
      var req, resp := entry.request, entry.response.value;
      [Exchange(RequestType, url, req.timestamp, WarcVersion, RequestHeaders(req, idHeader), RequestPayload(req)),
       Exchange(ResponseType, url, resp.timestamp, WarcVersion, ResponseHeaders(resp, idHeader), resp.buffer.value)]
  }

  /** The two records of an entry with a body: first the request, then the
      response, both for `url`, each with its own headers, date and body. */
  lemma EntryRecordsShape(url: string, entry: ResourceEntry, idHeader: string)
    ensures |EntryRecords(url, entry, idHeader)| == if HasBody(entry) then 2 else 0
    ensures HasBody(entry) ==>
      EntryRecords(url, entry, idHeader)[0]
        == Exchange(RequestType, url, entry.request.timestamp, "WARC/1.1",
                    RequestHeaders(entry.request, idHeader), RequestPayload(entry.request))
    ensures HasBody(entry) ==>
      EntryRecords(url, entry, idHeader)[1]
        == Exchange(ResponseType, url, entry.response.value.timestamp, "WARC/1.1",
                    ResponseHeaders(entry.response.value, idHeader), entry.response.value.buffer.value)
  {
  }

  /** An open file stream. Every write passes `end: false`, so records
      accumulate in call order until `Close`. */
  class WarcStream {
    var records: seq<WarcRecord>
    var ended: bool

    /** `getWARCOutputStream` (src/write-utils.mjs:8-10). */
    constructor ()
      ensures records == [] && !ended
    {
      records, ended := [], false;
    }

    /** One `pipeline(..., stream, { end: false })`. */
    method Append(r: WarcRecord)
      requires !ended
      modifies this
      ensures records == old(records) + [r] && !ended
    {
      records := records + [r];
    }

    /** `writeWARCInfo` (src/write-utils.mjs:14-32). */
    method WriteWarcInfo(warcPath: string, datetime: string)
      requires !ended
      modifies this
      ensures records == old(records) + [InfoRecord(warcPath, datetime)] && !ended
    {
      Append(InfoRecord(warcPath, datetime));
    }

    /** `writeRequestResponse` (src/write-utils.mjs:36-98); `idHeader` is the
        name of the header that carries the request id. */
    method WriteRequestResponse(url: string, data: ResourceEntry, idHeader: string)
      requires !ended
      modifies this
      ensures records == old(records) + EntryRecords(url, data, idHeader) && !ended
    {
      if !HasBody(data) {
        return;
      }
      var req := data.request;
      Append(Exchange(RequestType, url, req.timestamp, WarcVersion,
                      RequestHeaders(req, idHeader), RequestPayload(req)));
      var resp := data.response.value;
      Append(Exchange(ResponseType, url, resp.timestamp, WarcVersion,
                      ResponseHeaders(resp, idHeader), resp.buffer.value));
    }

    /** `closeWARCOutputStream` (src/write-utils.mjs:102-104). */
    method Close()
      modifies this
      ensures ended && records == old(records)
    {
      ended := true;
    }
  }
}
