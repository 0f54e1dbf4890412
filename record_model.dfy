/** The data captured for one network exchange and the WARC records written
    for it (src/types/write-warc-output.d.ts). Header blocks are ordered
    string dictionaries; byte buffers are octet sequences. */
module RecordModel {
  import opened Common
  import opened OrderedMap

  type Headers = Dict<string>

  /** What the request handler stores about an outgoing request. */
  datatype RequestData = RequestData(
    id: string,
    httpMethod: string,
    headers: Headers,
    postData: Option<string>,
    timestamp: string)

  /** What the response handler stores about a response; `buffer` is `None`
      when fetching the body failed (`buffer: null`). */
  datatype ResponseData = ResponseData(
    id: string,
    status: nat,
    headers: Headers,
    timestamp: string,
    buffer: Option<seq<Byte>>)

  /** One joined entry: a request and, once it arrives, its response. */
  datatype ResourceEntry = ResourceEntry(request: RequestData, response: Option<ResponseData>)

  /** The entries seen for one URL, keyed by request id. */
  type Bucket = Dict<ResourceEntry>

  /** `resourceData`: URL to bucket, in the order URLs were first seen. */
  type ResourceData = Dict<Bucket>

  /** Record types of section 6 of the WARC 1.1 specification (ISO 28500:2017)
      that this archiver writes. */
  datatype ExchangeType = RequestType | ResponseType

  /** A WARC record as handed to the serializer: a `warcinfo` record made by
      `WARCRecord.createWARCInfo`, or a `request`/`response` record made by
      `WARCRecord.create` with its HTTP header block and payload. */
  datatype WarcRecord =
    | WarcInfo(filename: string, warcVersion: string, info: Headers)
    | Exchange(recordType: ExchangeType, url: string, date: string, warcVersion: string,
               httpHeaders: Headers, payload: seq<Byte>)

  const WarcVersion: string := "WARC/1.1"
  const Software: string := "puppeteer-warcio-archiver"

  /** The id header of src/write-warc.mjs and src/write-utils.mjs. */
  const ResourceRequestIdHeader: string := "x-puppeteer-resource-request-id"
  /** The id header of the root write-warc.mjs. */
  const RequestIdHeader: string := "x-puppeteer-request-id"
}
