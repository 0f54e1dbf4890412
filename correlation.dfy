/** The correlation table of src/write-warc.mjs (and, identically, of the root
    write-warc.mjs): the `request` and `response` handlers each update
    `resourceData` in one atomic step. A request stores a fresh entry holding
    only itself; a response is attached to an existing entry, and is lost when
    there is none, because the `{}` made for it is never stored. */
module Correlation {
  import opened Common
  import opened OrderedMap
  import opened RecordModel

  /** The bucket for `url`, or an empty one. */
  function BucketOf(t: ResourceData, url: string): Bucket {
    if url in t.vals then t.vals[url] else Empty()
  }

  /** `resourceData.get(url)?.[id]`. */
  function Lookup(t: ResourceData, url: string, id: string): Option<ResourceEntry> {
    if url in t.vals then Get(t.vals[url], id) else None
  }

  /** The effect of one request event (src/write-warc.mjs:35-39). */
  function RecordRequest(t: ResourceData, url: string, req: RequestData): (r: ResourceData)
    ensures url in r.keys
    ensures r.keys == if url in t.keys then t.keys else t.keys + [url]
    ensures Lookup(r, url, req.id) == Some(ResourceEntry(req, None))
    ensures forall u, i :: (u != url || i != req.id) ==> Lookup(r, u, i) == Lookup(t, u, i)
    ensures forall u :: u != url ==> BucketOf(r, u) == BucketOf(t, u)
    ensures BucketOf(r, url).keys ==
      if req.id in BucketOf(t, url).keys then BucketOf(t, url).keys else BucketOf(t, url).keys + [req.id]
  {
    Put(t, url, Put(BucketOf(t, url), req.id, ResourceEntry(req, None)))
  }

  /** The effect of one response event (src/write-warc.mjs:57-63): the bucket
      always exists afterwards; only an existing entry takes the response. */
  function RecordResponse(t: ResourceData, url: string, resp: ResponseData): (r: ResourceData)
    ensures url in r.keys
    ensures r.keys == if url in t.keys then t.keys else t.keys + [url]
    ensures forall u, i :: (u != url || i != resp.id) ==> Lookup(r, u, i) == Lookup(t, u, i)
    ensures Lookup(t, url, resp.id).None? ==> Lookup(r, url, resp.id).None?
    ensures Lookup(t, url, resp.id).Some? ==>
      Lookup(r, url, resp.id) == Some(ResourceEntry(Lookup(t, url, resp.id).value.request, Some(resp)))
    ensures forall u :: BucketOf(r, u).keys == BucketOf(t, u).keys
  {
    var b := BucketOf(t, url);
    match Get(b, resp.id)
    case None => Put(t, url, b)
    case Some(e) => Put(t, url, Put(b, resp.id, e.(response := Some(resp))))
  }

  /** The in-place table the two handlers share. */
  class ResourceTable {
    var data: ResourceData

    /** `new Map()`. */
    constructor ()
      ensures data == Empty()
    {
      data := Empty();
    }

    /** The `request` handler (src/write-warc.mjs:22-41, write-warc.mjs:17-34). */
    method OnRequest(url: string, req: RequestData)
      modifies this
      ensures data == RecordRequest(old(data), url, req)
    {
      if url !in data.vals {
        data := Put(data, url, Empty());
      }
      var entries := data.vals[url];
      data := Put(data, url, Put(entries, req.id, ResourceEntry(req, None)));
    }

    /** The `response` handler (src/write-warc.mjs:44-67, write-warc.mjs:37-58). */
    method OnResponse(url: string, resp: ResponseData)
      modifies this
      ensures data == RecordResponse(old(data), url, resp)
    {
      if url !in data.vals {
        data := Put(data, url, Empty());
      }
      var entries := data.vals[url];
      match Get(entries, resp.id) {
        case Some(entry) =>
          data := Put(data, url, Put(entries, resp.id, entry.(response := Some(resp))));
        case None =>
          // `entries[id] || {}` yields a fresh object that nothing refers to
      }
    }
  }

  /** A browser event, delivered to its handler as one atomic step. */
  datatype Event =
    | RequestEvent(url: string, request: RequestData)
    | ResponseEvent(url: string, response: ResponseData)

  function Apply(t: ResourceData, e: Event): ResourceData {
    match e
    case RequestEvent(url, req) => RecordRequest(t, url, req)
    case ResponseEvent(url, resp) => RecordResponse(t, url, resp)
  }

  /** The table after a whole stream of events, starting from `new Map()`. */
  function Replay(es: seq<Event>): ResourceData {
    if es == [] then Empty() else Apply(Replay(es[..|es| - 1]), es[|es| - 1])
  }

  predicate IsRequestFor(e: Event, url: string, id: string) {
    e.RequestEvent? && e.url == url && e.request.id == id
  }

  predicate IsResponseFor(e: Event, url: string, id: string) {
    e.ResponseEvent? && e.url == url && e.response.id == id
  }

  /** Position of the last request event for `(url, id)`. */
  function LastRequestAt(es: seq<Event>, url: string, id: string): (r: Option<nat>)
    ensures r.Some? ==> r.value < |es| && IsRequestFor(es[r.value], url, id)
    ensures r.Some? ==> forall j :: r.value < j < |es| ==> !IsRequestFor(es[j], url, id)
    ensures r.None? ==> forall j :: 0 <= j < |es| ==> !IsRequestFor(es[j], url, id)
  {
    if es == [] then None
    else if IsRequestFor(es[|es| - 1], url, id) then Some(|es| - 1)
    else LastRequestAt(es[..|es| - 1], url, id)
  }

  /** Position of the last response event for `(url, id)`. */
  function LastResponseAt(es: seq<Event>, url: string, id: string): (r: Option<nat>)
    ensures r.Some? ==> r.value < |es| && IsResponseFor(es[r.value], url, id)
    ensures r.Some? ==> forall j :: r.value < j < |es| ==> !IsResponseFor(es[j], url, id)
    ensures r.None? ==> forall j :: 0 <= j < |es| ==> !IsResponseFor(es[j], url, id)
  {
    if es == [] then None
    else if IsResponseFor(es[|es| - 1], url, id) then Some(|es| - 1)
    else LastResponseAt(es[..|es| - 1], url, id)
  }

  /** What the table should hold for `(url, id)`, read off the event stream:
      present exactly when some request event for it occurred; it holds the
      last such request, and the last response for it only if that response
      came after that request. */
  function Expected(es: seq<Event>, url: string, id: string): Option<ResourceEntry> {
    match LastRequestAt(es, url, id)
    case None => None
    case Some(j) =>
      var resp :=
        match LastResponseAt(es, url, id)
        case Some(k) => if k > j then Some(es[k].response) else None
        case None => None;
      Some(ResourceEntry(es[j].request, resp))
  }

  /** The handlers correlate as `Expected` says, for every interleaving. */
  lemma {:induction false} ReplayCorrelates(es: seq<Event>, url: string, id: string)
    ensures Lookup(Replay(es), url, id) == Expected(es, url, id)
  {
    if es != [] {
      var p, e := es[..|es| - 1], es[|es| - 1];
      var t := Replay(p);
      ReplayCorrelates(p, url, id);
      assert Replay(es) == Apply(t, e);
      if IsRequestFor(e, url, id) {
        assert LastRequestAt(es, url, id) == Some(|es| - 1);
        assert LastResponseAt(es, url, id) == LastResponseAt(p, url, id);
      } else if IsResponseFor(e, url, id) {
        assert LastRequestAt(es, url, id) == LastRequestAt(p, url, id);
        assert LastResponseAt(es, url, id) == Some(|es| - 1);
        match LastRequestAt(p, url, id)
        case None =>
        case Some(j) =>
          assert p[j] == es[j];
      } else {
        assert LastRequestAt(es, url, id) == LastRequestAt(p, url, id);
        assert LastResponseAt(es, url, id) == LastResponseAt(p, url, id);
        assert Lookup(Replay(es), url, id) == Lookup(t, url, id);
        match LastRequestAt(p, url, id)
        case None =>
        case Some(j) =>
          assert p[j] == es[j];
          match LastResponseAt(p, url, id)
          case None =>
          case Some(k) =>
            assert p[k] == es[k];
      }
    }
  }

  /** A response whose `(url, id)` never saw a request event leaves no
      entry: it is dropped. */
  lemma ResponseWithoutRequestIsDropped(es: seq<Event>, url: string, id: string)
    requires forall j :: 0 <= j < |es| ==> !IsRequestFor(es[j], url, id)
    ensures Lookup(Replay(es), url, id) == None
  {
    ReplayCorrelates(es, url, id);
  }

  /** A request event after a response throws that response away. */
  lemma LaterRequestDiscardsResponse(es: seq<Event>, url: string, id: string, j: nat)
    requires j < |es| && IsRequestFor(es[j], url, id)
    requires forall k :: j < k < |es| ==> !IsResponseFor(es[k], url, id) && !IsRequestFor(es[k], url, id)
    ensures Lookup(Replay(es), url, id) == Some(ResourceEntry(es[j].request, None))
  {
    ReplayCorrelates(es, url, id);
  }

  /** Every entry sits under its own request id, and so does its response. */
  ghost predicate WellKeyed(t: ResourceData) {
    forall u, i :: Lookup(t, u, i).Some? ==>
      && Lookup(t, u, i).value.request.id == i
      && (Lookup(t, u, i).value.response.Some? ==> Lookup(t, u, i).value.response.value.id == i)
  }

  lemma ReplayWellKeyed(es: seq<Event>)
    ensures WellKeyed(Replay(es))
  {
    forall u, i | Lookup(Replay(es), u, i).Some?
      ensures Lookup(Replay(es), u, i).value.request.id == i
      ensures Lookup(Replay(es), u, i).value.response.Some? ==>
              Lookup(Replay(es), u, i).value.response.value.id == i
    {
      ReplayCorrelates(es, u, i);
    }
  }

  /** URLs in the order of the first event that names each. */
  function FirstSeen(es: seq<Event>): seq<string> {
    if es == [] then []
    else
      var p := FirstSeen(es[..|es| - 1]);
      var u := es[|es| - 1].url;
      if u in p then p else p + [u]
  }

  lemma ApplyKeys(t: ResourceData, e: Event)
    ensures Apply(t, e).keys == if e.url in t.keys then t.keys else t.keys + [e.url]
  {
  }

  /** A URL is among those first seen exactly when some event names it. */
  lemma {:induction false} FirstSeenMembers(es: seq<Event>, u: string)
    ensures u in FirstSeen(es) <==> exists j :: 0 <= j < |es| && es[j].url == u
  {
    if es != [] {
      var p := es[..|es| - 1];
      FirstSeenMembers(p, u);
      if u in FirstSeen(p) {
        var j :| 0 <= j < |p| && p[j].url == u;
        assert es[j].url == u;
      } else if u != es[|es| - 1].url {
        forall j | 0 <= j < |es| ensures es[j].url != u {
          if j < |p| {
            assert es[j] == p[j];
          }
        }
      }
    }
  }

  /** The table has a bucket for exactly the URLs some event named, of
      either kind, iterated in the order they were first named. */
  lemma {:induction false} ReplayBuckets(es: seq<Event>)
    ensures Replay(es).keys == FirstSeen(es)
    ensures forall u :: u in Replay(es).keys <==> exists j :: 0 <= j < |es| && es[j].url == u
  {
    if es != [] {
      var p := es[..|es| - 1];
      ReplayBuckets(p);
      ApplyKeys(Replay(p), es[|es| - 1]);
    }
    forall u ensures u in FirstSeen(es) <==> exists j :: 0 <= j < |es| && es[j].url == u {
      FirstSeenMembers(es, u);
    }
  }
}
