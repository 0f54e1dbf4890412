/** What a written archive looks like, stated against the correlation table
    and, through it, against the event stream: the warcinfo record, then the
    rendered page, then request/response pairs for exactly the captured
    entries that have a body, never for the target URL. */
module ArchiveLayout {
  import opened Common
  import opened OrderedMap
  import opened RecordModel
  import opened Correlation
  import opened WriteUtils
  import opened WriteWarc
  import Utf8

  /** `r` is a response record for `url` whose id header says `id`. */
  predicate IsResponseRecord(r: WarcRecord, url: string, id: string, idHeader: string) {
    r.Exchange? && r.recordType == ResponseType && r.url == url && Get(r.httpHeaders, idHeader) == Some(id)
  }

  /** Some record of `rs` is the response for `(url, id)`. */
  predicate Responds(rs: seq<WarcRecord>, url: string, id: string, idHeader: string) {
    exists k :: 0 <= k < |rs| && IsResponseRecord(rs[k], url, id, idHeader)
  }

  /** Requests at even positions, responses at odd ones, and each response
      right after the request of the same exchange: same URL, same id. */
  predicate Paired(rs: seq<WarcRecord>, idHeader: string) {
    && |rs| % 2 == 0
    && (forall k :: 0 <= k < |rs| ==>
          rs[k].Exchange? && (rs[k].recordType == ResponseType <==> k % 2 == 1))
    && (forall k :: 0 <= k < |rs| - 1 && k % 2 == 0 ==> SameExchange(rs[k], rs[k + 1], idHeader))
  }

  predicate SameExchange(a: WarcRecord, b: WarcRecord, idHeader: string) {
    a.Exchange? && b.Exchange? && a.url == b.url && Get(a.httpHeaders, idHeader) == Get(b.httpHeaders, idHeader)
  }

  /** Every record of `rs` is an exchange record for a URL of `urls` other
      than `target`. */
  predicate UrlsAmong(rs: seq<WarcRecord>, urls: seq<string>, target: string) {
    forall k :: 0 <= k < |rs| ==> rs[k].Exchange? && rs[k].url in urls && rs[k].url != target
  }

  /** Each entry stored under its own id, and its response too. */
  ghost predicate KeyedBucket(b: Bucket) {
    forall i :: i in b.vals ==>
      b.vals[i].request.id == i && (b.vals[i].response.Some? ==> b.vals[i].response.value.id == i)
  }

  lemma WellKeyedBuckets(t: ResourceData, u: string)
    requires WellKeyed(t) && u in t.vals
    ensures KeyedBucket(t.vals[u])
  {
    forall i | i in t.vals[u].vals
      ensures t.vals[u].vals[i].request.id == i
      ensures t.vals[u].vals[i].response.Some? ==> t.vals[u].vals[i].response.value.id == i
    {
      assert Lookup(t, u, i) == Some(t.vals[u].vals[i]);
    }
  }

  lemma RespondsAppend(a: seq<WarcRecord>, b: seq<WarcRecord>, url: string, id: string, idHeader: string)
    ensures Responds(a + b, url, id, idHeader) <==> Responds(a, url, id, idHeader) || Responds(b, url, id, idHeader)
  {
    if Responds(a + b, url, id, idHeader) {
      var k :| 0 <= k < |a + b| && IsResponseRecord((a + b)[k], url, id, idHeader);
      if k >= |a| {
        assert b[k - |a|] == (a + b)[k];
      }
    }
    if Responds(a, url, id, idHeader) {
      var k :| 0 <= k < |a| && IsResponseRecord(a[k], url, id, idHeader);
      assert (a + b)[k] == a[k];
    }
    if Responds(b, url, id, idHeader) {
      var k :| 0 <= k < |b| && IsResponseRecord(b[k], url, id, idHeader);
      assert (a + b)[|a| + k] == b[k];
    }
  }

  lemma PairedAppend(a: seq<WarcRecord>, b: seq<WarcRecord>, idHeader: string)
    requires Paired(a, idHeader) && Paired(b, idHeader)
    ensures Paired(a + b, idHeader)
  {
    var c := a + b;
    forall k | 0 <= k < |c|
      ensures c[k].Exchange? && (c[k].recordType == ResponseType <==> k % 2 == 1)
    {
      if k >= |a| {
        assert c[k] == b[k - |a|];
        ParityShift(k, |a|);
      }
    }
    forall k | 0 <= k < |c| - 1 && k % 2 == 0
      ensures SameExchange(c[k], c[k + 1], idHeader)
    {
      if k >= |a| {
        assert c[k] == b[k - |a|] && c[k + 1] == b[k - |a| + 1];
        ParityShift(k, |a|);
      } else {
        assert k + 1 < |a|;
      }
    }
  }

  /** Moving back by an even distance keeps the parity. */
  lemma ParityShift(k: int, m: int)
    requires m % 2 == 0
    ensures (k - m) % 2 == k % 2
  {
  }

  lemma UrlsAmongAppend(a: seq<WarcRecord>, b: seq<WarcRecord>, urls: seq<string>, target: string)
    requires UrlsAmong(a, urls, target) && UrlsAmong(b, urls, target)
    ensures UrlsAmong(a + b, urls, target)
  {
    forall k | 0 <= k < |a + b|
      ensures (a + b)[k].Exchange? && (a + b)[k].url in urls && (a + b)[k].url != target
    {
      if k >= |a| {
        assert (a + b)[k] == b[k - |a|];
      }
    }
  }

  /** The two records of one entry with a body form a pair; when the entry
      is stored under its own id, both carry that id. */
  lemma EntryPaired(url: string, e: ResourceEntry, idHeader: string)
    requires e.response.Some? ==> e.response.value.id == e.request.id
    ensures Paired(EntryRecords(url, e, idHeader), idHeader)
  {
    var rs := EntryRecords(url, e, idHeader);
    if HasBody(e) {
      assert Get(rs[0].httpHeaders, idHeader) == Some(e.request.id);
      assert Get(rs[1].httpHeaders, idHeader) == Some(e.response.value.id);
      assert SameExchange(rs[0], rs[1], idHeader);
      forall k | 0 <= k < |rs|
        ensures rs[k].Exchange? && (rs[k].recordType == ResponseType <==> k % 2 == 1)
      {
        assert k == 0 || k == 1;
      }
      forall k | 0 <= k < |rs| - 1 && k % 2 == 0
        ensures SameExchange(rs[k], rs[k + 1], idHeader)
      {
        assert k == 0;
      }
    }
  }

  lemma EntryResponds(url: string, e: ResourceEntry, idHeader: string, u: string, i: string)
    ensures Responds(EntryRecords(url, e, idHeader), u, i, idHeader)
        <==> url == u && HasBody(e) && e.response.value.id == i
  {
    var rs := EntryRecords(url, e, idHeader);
    if HasBody(e) {
      assert IsResponseRecord(rs[1], u, i, idHeader) <==> url == u && e.response.value.id == i;
      assert !IsResponseRecord(rs[0], u, i, idHeader);
    }
  }

  /** A bucket's records come in request/response pairs. */
  lemma {:induction false} BucketPaired(url: string, b: Bucket, n: nat, idHeader: string)
    requires n <= |b.keys| && KeyedBucket(b)
    ensures Paired(BucketRecords(url, b, n, idHeader), idHeader)
  {
    if n > 0 {
      var e := b.vals[b.keys[n - 1]];
      BucketPaired(url, b, n - 1, idHeader);
      EntryPaired(url, e, idHeader);
      PairedAppend(BucketRecords(url, b, n - 1, idHeader), EntryRecords(url, e, idHeader), idHeader);
    }
  }

  /** A bucket's records are all for the bucket's own URL. */
  lemma {:induction false} BucketUrls(url: string, b: Bucket, n: nat, idHeader: string, urls: seq<string>, target: string)
    requires n <= |b.keys| && url in urls && url != target
    ensures UrlsAmong(BucketRecords(url, b, n, idHeader), urls, target)
  {
    if n > 0 {
      var e := b.vals[b.keys[n - 1]];
      BucketUrls(url, b, n - 1, idHeader, urls, target);
      EntryUrls(url, e, idHeader, urls, target);
      UrlsAmongAppend(BucketRecords(url, b, n - 1, idHeader), EntryRecords(url, e, idHeader), urls, target);
    }
  }

  lemma EntryUrls(url: string, e: ResourceEntry, idHeader: string, urls: seq<string>, target: string)
    requires url in urls && url != target
    ensures UrlsAmong(EntryRecords(url, e, idHeader), urls, target)
  {
    EntryRecordsShape(url, e, idHeader);
  }

  /** A bucket's records answer exactly its entries that have a body. */
  lemma {:induction false} BucketResponds(url: string, b: Bucket, n: nat, idHeader: string, u: string, i: string)
    requires n <= |b.keys| && KeyedBucket(b)
    ensures Responds(BucketRecords(url, b, n, idHeader), u, i, idHeader)
        <==> url == u && i in b.keys[..n] && HasBody(b.vals[i])
  {
    if n > 0 {
      var id := b.keys[n - 1];
      var e := b.vals[id];
      assert e.response.Some? ==> e.response.value.id == id;
      BucketResponds(url, b, n - 1, idHeader, u, i);
      RespondsAppend(BucketRecords(url, b, n - 1, idHeader), EntryRecords(url, e, idHeader), u, i, idHeader);
      EntryResponds(url, e, idHeader, u, i);
      TakeStep(b.keys, n);
    }
  }

  /** Parts that each come in request/response pairs join into pairs. */
  lemma {:induction false} PairedConcat(n: nat, part: nat -> seq<WarcRecord>, idHeader: string)
    requires forall k: nat :: k < n ==> Paired(part(k), idHeader)
    ensures Paired(Concat(n, part), idHeader)
  {
    if n > 0 {
      PairedConcat(n - 1, part, idHeader);
      PairedAppend(Concat(n - 1, part), part(n - 1), idHeader);
    }
  }

  /** Parts whose records are all for URLs of `urls` join into such records. */
  lemma {:induction false} UrlsConcat(n: nat, part: nat -> seq<WarcRecord>, urls: seq<string>, target: string)
    requires forall k: nat :: k < n ==> UrlsAmong(part(k), urls, target)
    ensures UrlsAmong(Concat(n, part), urls, target)
  {
    if n > 0 {
      UrlsConcat(n - 1, part, urls, target);
      UrlsAmongAppend(Concat(n - 1, part), part(n - 1), urls, target);
    }
  }

  /** The joined parts answer `(u, i)` exactly when one of the parts does. */
  lemma {:induction false} RespondsConcat(n: nat, part: nat -> seq<WarcRecord>, u: string, i: string, idHeader: string)
    ensures Responds(Concat(n, part), u, i, idHeader) <==> exists k: nat :: k < n && Responds(part(k), u, i, idHeader)
  {
    if n > 0 {
      RespondsConcat(n - 1, part, u, i, idHeader);
      RespondsAppend(Concat(n - 1, part), part(n - 1), u, i, idHeader);
      if Responds(part(n - 1), u, i, idHeader) {
        assert exists k: nat :: k < n && Responds(part(k), u, i, idHeader);
      }
    }
  }

  /** What the outer loop writes for one bucket comes in request/response
      pairs. */
  lemma PartPaired(t: ResourceData, k: nat, target: string, idHeader: string)
    requires WellKeyed(t)
    ensures Paired(BucketPart(t, k, target, idHeader), idHeader)
  {
    if k < |t.keys| && t.keys[k] != target {
      var v := t.keys[k];
      WellKeyedBuckets(t, v);
      BucketPaired(v, t.vals[v], |t.vals[v].keys|, idHeader);
    }
  }

  /** The table's records come in request/response pairs. */
  lemma TablePaired(t: ResourceData, n: nat, target: string, idHeader: string)
    requires n <= |t.keys| && WellKeyed(t)
    ensures Paired(TableRecords(t, n, target, idHeader), idHeader)
  {
    forall k: nat | k < n
      ensures Paired(Parts(t, target, idHeader)(k), idHeader)
    {
      PartPaired(t, k, target, idHeader);
    }
    PairedConcat(n, Parts(t, target, idHeader), idHeader);
  }

  /** What the outer loop writes for one bucket is for that bucket's URL,
      and nothing at all for the target's bucket. */
  lemma PartUrls(t: ResourceData, k: nat, target: string, idHeader: string, urls: seq<string>)
    requires k < |t.keys| && t.keys[k] in urls
    ensures UrlsAmong(BucketPart(t, k, target, idHeader), urls, target)
  {
    var v := t.keys[k];
    if v != target {
      BucketUrls(v, t.vals[v], |t.vals[v].keys|, idHeader, urls, target);
    }
  }

  /** The table's records are for URLs of its first `n` buckets, never for
      the target URL. */
  lemma TableUrls(t: ResourceData, n: nat, target: string, idHeader: string)
    requires n <= |t.keys|
    ensures UrlsAmong(TableRecords(t, n, target, idHeader), t.keys[..n], target)
  {
    var urls := t.keys[..n];
    forall k: nat | k < n
      ensures UrlsAmong(Parts(t, target, idHeader)(k), urls, target)
    {
      assert urls[k] == t.keys[k];
      PartUrls(t, k, target, idHeader, urls);
    }
    UrlsConcat(n, Parts(t, target, idHeader), urls, target);
  }

  /** The entry for `(u, i)` is in the `k`-th bucket, that bucket is not the
      target's, and the entry has a body. */
  ghost predicate Kept(t: ResourceData, k: nat, target: string, u: string, i: string) {
    k < |t.keys| && u == t.keys[k] && u != target && Lookup(t, u, i).Some? && HasBody(Lookup(t, u, i).value)
  }

  /** What the outer loop writes for one bucket answers exactly the entries
      of that bucket with a body, and nothing for the target's bucket. */
  lemma PartResponds(t: ResourceData, k: nat, target: string, idHeader: string, u: string, i: string)
    requires WellKeyed(t)
    ensures Responds(Parts(t, target, idHeader)(k), u, i, idHeader) <==> Kept(t, k, target, u, i)
  {
    assert Parts(t, target, idHeader)(k) == BucketPart(t, k, target, idHeader);
    if k < |t.keys| && t.keys[k] != target {
      var v := t.keys[k];
      var b := t.vals[v];
      WellKeyedBuckets(t, v);
      BucketResponds(v, b, |b.keys|, idHeader, u, i);
      TakeAll(b.keys);
      if u == v {
        assert Lookup(t, u, i) == Get(b, i);
      }
    }
  }

  /** The table's records answer `(u, i)` exactly when what the outer loop
      writes for one of its first `n` buckets does. */
  lemma TableResponds(t: ResourceData, n: nat, target: string, idHeader: string, u: string, i: string)
    requires n <= |t.keys|
    ensures Responds(TableRecords(t, n, target, idHeader), u, i, idHeader)
        <==> exists k: nat :: k < n && Responds(Parts(t, target, idHeader)(k), u, i, idHeader)
  {
    RespondsConcat(n, Parts(t, target, idHeader), u, i, idHeader);
  }

  /** One of the first `n` buckets answers `(u, i)` exactly when one of them
      keeps its entry. */
  lemma PartsRespond(t: ResourceData, n: nat, target: string, idHeader: string, u: string, i: string)
    requires WellKeyed(t)
    ensures (exists k: nat :: k < n && Responds(Parts(t, target, idHeader)(k), u, i, idHeader))
        <==> exists k: nat :: k < n && Kept(t, k, target, u, i)
  {
    if exists k: nat :: k < n && Responds(Parts(t, target, idHeader)(k), u, i, idHeader) {
      var k: nat :| k < n && Responds(Parts(t, target, idHeader)(k), u, i, idHeader);
      PartResponds(t, k, target, idHeader, u, i);
    }
    if exists k: nat :: k < n && Kept(t, k, target, u, i) {
      var k: nat :| k < n && Kept(t, k, target, u, i);
      PartResponds(t, k, target, idHeader, u, i);
    }
  }

  /** Some bucket keeps the entry for `(u, i)` exactly when the table holds
      it outside the target's bucket with a body. */
  lemma KeptSomewhere(t: ResourceData, target: string, u: string, i: string)
    ensures (exists k: nat :: k < |t.keys| && Kept(t, k, target, u, i))
        <==> u != target && Lookup(t, u, i).Some? && HasBody(Lookup(t, u, i).value)
  {
    if u != target && Lookup(t, u, i).Some? && HasBody(Lookup(t, u, i).value) {
      var k :| 0 <= k < |t.keys| && t.keys[k] == u;
      assert Kept(t, k, target, u, i);
    }
  }

  /** The request record of the rendered page: for `target#rendered-html`,
      dated when it was made, with id `rendered-html` and no body. */
  lemma RenderedRequest(target: string, html: string, requestTime: string, responseTime: string, idHeader: string)
    ensures var r := EntryRecords(RenderedUrl(target), RenderedEntry(html, requestTime, responseTime), idHeader);
      && |r| == 2
      && r[0].Exchange? && r[0].recordType == RequestType && r[0].url == target + "#rendered-html"
      && r[0].date == requestTime && Get(r[0].httpHeaders, idHeader) == Some("rendered-html")
      && r[0].payload == []
  {
  }

  /** The response record of the rendered page: status 200, content type
      `text/html` unless the id header takes one of those names, and the
      encoded page as its body. */
  lemma RenderedResponse(target: string, html: string, requestTime: string, responseTime: string, idHeader: string)
    ensures var r := EntryRecords(RenderedUrl(target), RenderedEntry(html, requestTime, responseTime), idHeader);
      && |r| == 2
      && r[1].Exchange? && r[1].recordType == ResponseType && r[1].url == target + "#rendered-html"
      && r[1].date == responseTime && Get(r[1].httpHeaders, idHeader) == Some("rendered-html")
      && (idHeader != "Status" ==> Get(r[1].httpHeaders, "Status") == Some("200"))
      && (idHeader != "Status" && idHeader != "content-type" ==>
            Get(r[1].httpHeaders, "content-type") == Some("text/html"))
      && r[1].payload == Utf8.Encode(html)
  {
    assert NatToString(200) == "200" by {
      assert NatToString(20) == "20" by {
        assert NatToString(2) == "2";
      }
    }
  }

  /** The opening of every archive: the warcinfo record, then the request
      and response records of the rendered page, then the table. */
  lemma ArchiveOpening(t: ResourceData, target: string, warcPath: string, html: string,
                       infoTime: string, requestTime: string, responseTime: string, idHeader: string)
    ensures var w := ArchiveRecords(t, target, warcPath, html, infoTime, requestTime, responseTime, idHeader);
      var pair := EntryRecords(RenderedUrl(target), RenderedEntry(html, requestTime, responseTime), idHeader);
      && |w| >= 3
      && w[0] == InfoRecord(warcPath, infoTime)
      && w[1] == pair[0] && w[2] == pair[1]
      && w[3..] == TableRecords(t, |t.keys|, target, idHeader)
  {
    var pair := EntryRecords(RenderedUrl(target), RenderedEntry(html, requestTime, responseTime), idHeader);
    RenderedEntryShape(html, requestTime, responseTime);
    EntryRecordsShape(RenderedUrl(target), RenderedEntry(html, requestTime, responseTime), idHeader);
    OpeningOf(InfoRecord(warcPath, infoTime), pair, TableRecords(t, |t.keys|, target, idHeader));
  }

  /** One record, then two, then the rest. */
  lemma OpeningOf(a: WarcRecord, pair: seq<WarcRecord>, rest: seq<WarcRecord>)
    requires |pair| == 2
    ensures var w := [a] + pair + rest;
      && |w| >= 3 && w[0] == a && w[1] == pair[0] && w[2] == pair[1] && w[3..] == rest
  {
    assert ([a] + pair + rest)[3..] == rest;
  }

  lemma ArchiveTail(t: ResourceData, target: string, warcPath: string, html: string,
                    infoTime: string, requestTime: string, responseTime: string, idHeader: string)
    ensures ArchiveRecords(t, target, warcPath, html, infoTime, requestTime, responseTime, idHeader)[3..]
         == TableRecords(t, |t.keys|, target, idHeader)
  {
    ArchiveOpening(t, target, warcPath, html, infoTime, requestTime, responseTime, idHeader);
  }

  /** After the opening, an archive is a run of request/response pairs for
      URLs of the table other than the target, with a response for `(u, i)`
      exactly when the table holds an entry with a body there. */
  lemma ArchiveBody(t: ResourceData, target: string, warcPath: string, html: string,
                    infoTime: string, requestTime: string, responseTime: string, idHeader: string,
                    u: string, i: string)
    requires WellKeyed(t)
    ensures var w := ArchiveRecords(t, target, warcPath, html, infoTime, requestTime, responseTime, idHeader);
      && Paired(w[3..], idHeader)
      && UrlsAmong(w[3..], t.keys, target)
      && (Responds(w[3..], u, i, idHeader) <==>
            u != target && Lookup(t, u, i).Some? && HasBody(Lookup(t, u, i).value))
  {
    ArchiveTail(t, target, warcPath, html, infoTime, requestTime, responseTime, idHeader);
    TablePaired(t, |t.keys|, target, idHeader);
    TableUrls(t, |t.keys|, target, idHeader);
    TableResponds(t, |t.keys|, target, idHeader, u, i);
    PartsRespond(t, |t.keys|, target, idHeader, u, i);
    KeptSomewhere(t, target, u, i);
    TakeAll(t.keys);
  }

  /** A request event for `(u, i)` came, and the last response event for it
      came after the last request and carried a body. */
  predicate HasBodyAfter(es: seq<Event>, u: string, i: string) {
    && LastRequestAt(es, u, i).Some? && LastResponseAt(es, u, i).Some?
    && LastResponseAt(es, u, i).value > LastRequestAt(es, u, i).value
    && es[LastResponseAt(es, u, i).value].response.buffer.Some?
  }

  /** End to end: a session's archive holds a response record for `(u, i)`
      exactly when `u` is not the target, a request event for it came, and
      the last response event for it came after the last request and
      carried a body. */
  lemma CaptureWrites(es: seq<Event>, target: string, warcPath: string, html: string,
                      infoTime: string, requestTime: string, responseTime: string, idHeader: string,
                      u: string, i: string)
    ensures var w := ArchiveRecords(Replay(es), target, warcPath, html, infoTime, requestTime, responseTime, idHeader);
      Responds(w[3..], u, i, idHeader) <==> u != target && HasBodyAfter(es, u, i)
  {
    var t := Replay(es);
    ReplayWellKeyed(es);
    ReplayCorrelates(es, u, i);
    ArchiveBody(t, target, warcPath, html, infoTime, requestTime, responseTime, idHeader, u, i);
    ExpectedHasBody(es, u, i);
  }

  /** The entry read off the event stream has a body exactly when the last
      response came after the last request and carried one. */
  lemma ExpectedHasBody(es: seq<Event>, u: string, i: string)
    ensures Expected(es, u, i).Some? && HasBody(Expected(es, u, i).value) <==> HasBodyAfter(es, u, i)
  {
    match LastRequestAt(es, u, i)
    case None =>
    case Some(j) =>
      match LastResponseAt(es, u, i)
      case None =>
      case Some(k) =>
  }
}
