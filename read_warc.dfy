/** src/read-warc.mjs: what `readWARC` makes of the records the WARC parser
    yields. The parser itself is left out; each record arrives as its WARC
    header pairs, its HTTP header pairs when it has an HTTP block, and either
    its payload octets or the message of the error reading them raised.
    Decoding octets as UTF-8 text (`Buffer.prototype.toString()`) is a
    parameter. */
module ReadWarc {
  import opened Common
  import opened OrderedMap
  import Base64

  type Headers = Dict<string>

  /** The body of a parsed record: its octets, or the failure to read them. */
  datatype Body = Payload(bytes: seq<Byte>) | ReadFailure(message: string)

  /** One record as the parser yields it. */
  datatype ParsedRecord = ParsedRecord(
    warcHeaders: seq<(string, string)>,
    httpHeaders: Option<seq<(string, string)>>,
    body: Body)

  /** Decoded text, or octets; after `mapToObject`, octets are base 64 text. */
  datatype Content = Text(text: string) | Binary(bytes: seq<Byte>)

  /** The `resourceDetails` object of one record; every field that the code
      may leave unset is optional. */
  datatype Details = Details(
    warcHeaders: Headers,
    httpHeaders: Option<Headers>,
    contentType: Option<string>,
    contentSize: Option<nat>,
    content: Option<Content>,
    contentEncoding: Option<string>,
    contentError: Option<string>)

  /** `textMimeTypes` (src/read-warc.mjs:5-29). */
  const TextMimeTypes: seq<string> := [
    "application/javascript",
    "application/ecmascript",
    "application/json",
    "application/json-patch+json",
    "application/json-seq",
    "application/ld+json",
    "text/html",
    "application/xhtml+xml",
    "application/xml",
    "text/xml",
    "text/css",
    "text/plain",
    "text/csv",
    "text/tab-separated-values",
    "text/markdown",
    "text/yaml",
    "application/x-yaml",
    "application/x-httpd-php",
    "application/x-perl",
    "application/x-python-code",
    "application/x-shellscript",
    "text/event-stream",
    "application/x-ndjson"
  ]

  /** `textMimeTypes.some((type) => httpContentType.includes(type))`. */
  predicate IsTextType(httpContentType: string) {
    exists j :: 0 <= j < |TextMimeTypes| && Includes(httpContentType, TextMimeTypes[j])
  }

  predicate IsUpper(c: char) {
    'A' <= c <= 'Z'
  }

  /** ASCII lower-casing: no upper-case letter is left, and a character is
      either kept or replaced by its own lower-case letter. */
  function LowerChar(c: char): (r: char)
    ensures !IsUpper(r)
    ensures r == c || r as int == c as int + 32
    ensures r != c <==> IsUpper(c)
  {
    if 'A' <= c <= 'Z' then (c as int + 32) as char else c
  }

  /** Header names compare without regard to ASCII case. */
  predicate SameName(a: string, b: string) {
    |a| == |b| && forall j :: 0 <= j < |a| ==> LowerChar(a[j]) == LowerChar(b[j])
  }

  /** Two characters fold to the same one exactly when they are equal or are
      the two cases of one ASCII letter. */
  lemma LowerCharFolds(c: char, d: char)
    ensures LowerChar(c) == LowerChar(d) <==>
      c == d || (IsUpper(c) && d as int == c as int + 32) || (IsUpper(d) && c as int == d as int + 32)
  {
  }

  /** Matching names ignoring case is an equivalence. */
  lemma SameNameEquivalence(a: string, b: string, c: string)
    ensures SameName(a, a)
    ensures SameName(a, b) ==> SameName(b, a)
    ensures SameName(a, b) && SameName(b, c) ==> SameName(a, c)
  {
  }

  /** The content-type lookups find a header whatever the case of its name. */
  lemma ContentTypeIgnoresCase()
    ensures SameName("content-type", "Content-Type")
    ensures SameName("CONTENT-TYPE", "Content-Type")
    ensures !SameName("content-length", "Content-Type")
  {
  }

  /** The position of the first pair at or after `i` whose name matches
      `name`, ignoring case. */
  function FirstMatchFrom(pairs: seq<(string, string)>, name: string, i: nat): (r: Option<nat>)
    requires i <= |pairs|
    ensures r.Some? ==> i <= r.value < |pairs| && SameName(pairs[r.value].0, name)
    ensures r.Some? ==> forall l :: i <= l < r.value ==> !SameName(pairs[l].0, name)
    ensures r.None? ==> forall l :: i <= l < |pairs| ==> !SameName(pairs[l].0, name)
    decreases |pairs| - i
  {
    if i == |pairs| then None
    else if SameName(pairs[i].0, name) then Some(i)
    else FirstMatchFrom(pairs, name, i + 1)
  }

  /** A header lookup by name: the value of the first pair whose name
      matches, ignoring case. */
  function HeaderGet(pairs: seq<(string, string)>, name: string): (r: Option<string>)
    ensures r.None? <==> forall j :: 0 <= j < |pairs| ==> !SameName(pairs[j].0, name)
    ensures r.Some? ==> exists j :: 0 <= j < |pairs| && SameName(pairs[j].0, name) && pairs[j].1 == r.value
                                 && forall l :: 0 <= l < j ==> !SameName(pairs[l].0, name)
  {
    match FirstMatchFrom(pairs, name, 0)
    case None => None
    case Some(j) => Some(pairs[j].1)
  }

  /** `record.warcHeader("Content-Type") || ""`. */
  function WarcContentType(p: ParsedRecord): string {
    match HeaderGet(p.warcHeaders, "Content-Type")
    case Some(v) => v
    case None => ""
  }

  /** `record.httpHeaders?.headers.get("Content-Type") || ""`. */
  function HttpContentType(p: ParsedRecord): string {
    match p.httpHeaders
    case None => ""
    case Some(h) =>
      match HeaderGet(h, "Content-Type")
      case Some(v) => v
      case None => ""
  }

  /** The details of one record (src/read-warc.mjs:121-160). A failed read
      leaves content type, size and content unset and records the message;
      otherwise the HTTP content type wins over the WARC one when it is not
      empty, and only the HTTP one decides whether the content is text. */
  function Extract(p: ParsedRecord, decode: seq<Byte> -> string): (d: Details)
    ensures d.warcHeaders == FromPairs(p.warcHeaders)
    ensures d.httpHeaders.Some? <==> p.httpHeaders.Some?
    ensures p.httpHeaders.Some? ==> d.httpHeaders.value == FromPairs(p.httpHeaders.value)
    ensures d.contentEncoding.None?
    ensures p.body.ReadFailure? ==>
      && d.contentError == Some(p.body.message)
      && d.contentType.None? && d.contentSize.None? && d.content.None?
    ensures p.body.Payload? ==>
      && d.contentError.None?
      && d.contentType == Some(if HttpContentType(p) != "" then HttpContentType(p) else WarcContentType(p))
      && d.contentSize == Some(|p.body.bytes|)
      && d.content.Some?
      && (d.content.value.Text? <==> IsTextType(HttpContentType(p)))
      && (d.content.value.Text? ==> d.content.value.text == decode(p.body.bytes))
      && (d.content.value.Binary? ==> d.content.value.bytes == p.body.bytes)
  {
    var http := match p.httpHeaders
      case None => None
      case Some(h) => Some(FromPairs(h));
    match p.body
    case ReadFailure(msg) =>
      Details(FromPairs(p.warcHeaders), http, None, None, None, None, Some(msg))
    case Payload(bytes) =>
      var ct := WarcContentType(p);
      var httpCt := HttpContentType(p);
      var content := if IsTextType(httpCt) then Text(decode(bytes)) else Binary(bytes);
      Details(FromPairs(p.warcHeaders), http, Some(if httpCt != "" then httpCt else ct),
              Some(|bytes|), Some(content), None, None)
  }

  /** The key of the `n`-th record, counting from one. */
  function Label(n: nat): string {
    "Record #" + NatToString(n)
  }

  lemma LabelInjective(a: nat, b: nat)
    requires Label(a) == Label(b)
    ensures a == b
  {
    assert NatToString(a) == Label(a)[8..];
    assert NatToString(b) == Label(b)[8..];
    NatToStringInjective(a, b);
  }

  /** `recordsMap` after the first `n` records. */
  function RecordsOf(ps: seq<ParsedRecord>, decode: seq<Byte> -> string): Dict<Details> {
    if ps == [] then Empty()
    else Put(RecordsOf(ps[..|ps| - 1], decode), Label(|ps|), Extract(ps[|ps| - 1], decode))
  }

  /** The labels `Record #1` to `Record #n`. */
  function Labels(n: nat): (r: seq<string>)
    ensures |r| == n
    ensures forall j :: 0 <= j < n ==> r[j] == Label(j + 1)
  {
    if n == 0 then [] else Labels(n - 1) + [Label(n)]
  }

  /** A label not yet used is not a key. */
  lemma FreshLabel(n: nat)
    ensures Label(n + 1) !in Labels(n)
  {
    forall j | 0 <= j < n ensures Labels(n)[j] != Label(n + 1) {
      if Label(j + 1) == Label(n + 1) {
        LabelInjective(j + 1, n + 1);
      }
    }
  }

  /** The keys are `Record #1` to `Record #n`, in stream order. */
  lemma {:induction false} RecordsOfKeys(ps: seq<ParsedRecord>, decode: seq<Byte> -> string)
    ensures RecordsOf(ps, decode).keys == Labels(|ps|)
  {
    if ps != [] {
      RecordsOfKeys(ps[..|ps| - 1], decode);
      FreshLabel(|ps| - 1);
    }
  }

  /** Every record is kept, failed ones included: `Record #j` holds the
      details of the `j`-th record. */
  lemma {:induction false} RecordsOfContents(ps: seq<ParsedRecord>, decode: seq<Byte> -> string, j: nat)
    requires j < |ps|
    ensures Get(RecordsOf(ps, decode), Label(j + 1)) == Some(Extract(ps[j], decode))
  {
    var p := ps[..|ps| - 1];
    if j < |p| {
      RecordsOfContents(p, decode, j);
      assert ps[j] == p[j];
      if Label(j + 1) == Label(|ps|) {
        LabelInjective(j + 1, |ps|);
      }
    }
  }

  /** What `mapToObject` does to one record: octet content becomes its base 64
      text, marked `contentEncoding: "base64"`; anything else is kept. */
  function ToJson(d: Details): (r: Details)
    ensures d.content.Some? && d.content.value.Binary? ==>
      && r.content.Some? && r.content.value.Text?
      && r.content.value.text == Base64.Encode(d.content.value.bytes)
      && Base64.Decode(r.content.value.text) == Some(d.content.value.bytes)
      && r.contentEncoding == Some("base64")
      && r == d.(content := r.content, contentEncoding := r.contentEncoding)
    ensures !(d.content.Some? && d.content.value.Binary?) ==> r == d
  {
    match d.content
    case Some(Binary(b)) =>
      Base64.DecodeEncode(b);
      d.(content := Some(Text(Base64.Encode(b))), contentEncoding := Some("base64"))
    case _ => d
  }

  /** The result of `readWARC`: the report text, or the count and the
      records. */
  datatype ReadOutput =
    | Report(text: string)
    | Structured(recordCount: nat, records: Dict<Details>)

  /** `Object.entries(headers)` printed as `  key: value` lines. */
  function HeaderLines(h: Headers, n: nat): string
    requires n <= |h.keys|
  {
    Joined(h, n, HeaderLine)
  }

  function HeaderLine(key: string, value: string): string {
    "  " + key + ": " + value + "\n"
  }

  /** `${x}` of an optional string or number: `undefined` when unset. */
  function ShowText(s: Option<string>): string {
    match s
    case Some(v) => v
    case None => "undefined"
  }

  function ShowSize(n: Option<nat>): string {
    match n
    case Some(v) => NatToString(v)
    case None => "undefined"
  }

  /** A non-empty read error (`details.contentError` is truthy). */
  predicate HasError(d: Details) {
    d.contentError.Some? && d.contentError.value != ""
  }

  /** Content that is a string (`typeof details.content === 'string'`). */
  predicate HasText(d: Details) {
    d.content.Some? && d.content.value.Text?
  }

  /** The content part of a section: a non-empty error wins, then text
      content, and anything else is reported as binary. Each form is told
      apart by how it opens, and the error message or the text can be read
      back from it. */
  function ContentLines(d: Details): (s: string)
    ensures StartsWith(s, "Content Error: ") <==> HasError(d)
    ensures StartsWith(s, "Content:\n--------\n") <==> !HasError(d) && HasText(d)
    ensures s == "Content: [Binary data]\n" <==> !HasError(d) && !HasText(d)
    ensures |s| >= 16 && s[|s| - 1] == '\n'
    ensures HasError(d) ==> s[15..|s| - 1] == d.contentError.value
    ensures !HasError(d) && HasText(d) ==> |s| >= 19 && s[18..|s| - 1] == d.content.value.text
  {
    if HasError(d) then
      var s := "Content Error: " + d.contentError.value + "\n";
      assert s[..15] == "Content Error: " && s[15..|s| - 1] == d.contentError.value;
      assert |s| >= 18 ==> s[..18][7] == s[7] == ' ';
      s
    else if HasText(d) then
      var s := "Content:\n--------\n" + d.content.value.text + "\n";
      assert s[..18] == "Content:\n--------\n" && s[18..|s| - 1] == d.content.value.text;
      assert s[..15][7] == ':' && s[8] == '\n';
      s
    else
      var s := "Content: [Binary data]\n";
      assert s[..15][7] == ':' && s[..18][8] == ' ';
      s
  }

  function ReportHeader(recordCount: nat): string {
    "WARC File Report\n" + "================\n\n" + "Total Records: " + NatToString(recordCount) + "\n\n"
  }

  function Title(recordId: string): string {
    recordId + "\n" + Repeat('-', |recordId|) + "\n\n"
  }

  function HttpPart(d: Details): string {
    match d.httpHeaders
    case None => ""
    case Some(h) => "HTTP Headers:\n" + HeaderLines(h, |h.keys|) + "\n"
  }

  /** The width of the rule that closes each section. */
  const RuleWidth: nat := 80

  const Rule: string := "\n" + Repeat('=', RuleWidth) + "\n\n"

  function WarcPart(d: Details): string {
    "WARC Headers:\n" + HeaderLines(d.warcHeaders, |d.warcHeaders.keys|) + "\n"
  }

  function TypeLine(d: Details): string {
    "Content Type: " + ShowText(d.contentType) + "\n"
  }

  function SizeLine(d: Details): string {
    "Content Size: " + ShowSize(d.contentSize) + " bytes\n\n"
  }

  /** Everything of a section between its title and its closing rule. */
  function SectionBody(d: Details): string {
    WarcPart(d) + HttpPart(d) + TypeLine(d) + SizeLine(d) + ContentLines(d)
  }

  /** The report section of one record. */
  function Section(recordId: string, d: Details): string {
    Title(recordId) + SectionBody(d) + Rule
  }

  /** The sections of the first `n` records, in map order. */
  function Sections(m: Dict<Details>, n: nat): string
    requires n <= |m.keys|
  {
    Joined(m, n, Section)
  }

  /** The texts `render(k, v)` of the first `n` entries, in key order. */
  function Joined<V>(m: Dict<V>, n: nat, render: (string, V) -> string): string
    requires n <= |m.keys|
  {
    if n == 0 then "" else Joined(m, n - 1, render) + render(m.keys[n - 1], m.vals[m.keys[n - 1]])
  }

  function ReportText(m: Dict<Details>, recordCount: nat): string {
    ReportHeader(recordCount) + Sections(m, |m.keys|)
  }

  /** `a + b` starts with `a`. */
  lemma PrefixOfAppend(a: string, b: string)
    ensures StartsWith(a + b, a)
  {
    assert (a + b)[..|a|] == a;
  }

  /** The report opens with its title and the record count. */
  lemma ReportStarts(m: Dict<Details>, recordCount: nat)
    ensures StartsWith(ReportText(m, recordCount),
                       "WARC File Report\n================\n\nTotal Records: " + NatToString(recordCount) + "\n\n")
  {
    var n := NatToString(recordCount);
    assert ReportHeader(recordCount)
        == "WARC File Report\n================\n\nTotal Records: " + n + "\n\n";
    PrefixOfAppend(ReportHeader(recordCount), Sections(m, |m.keys|));
  }

  /** A title is the label, a newline, as many dashes as the label has
      characters, and a blank line. */
  lemma TitleShape(recordId: string)
    ensures var t := Title(recordId);
      && |t| == 2 * |recordId| + 3
      && StartsWith(t, recordId + "\n")
      && (forall j :: |recordId| + 1 <= j < 2 * |recordId| + 1 ==> t[j] == '-')
      && t[2 * |recordId| + 1] == '\n'
  {
    var t := Title(recordId);
    var dashes := Repeat('-', |recordId|);
    assert t == (recordId + "\n") + (dashes + "\n\n");
    PrefixOfAppend(recordId + "\n", dashes + "\n\n");
    forall j | |recordId| + 1 <= j < 2 * |recordId| + 1 ensures t[j] == '-' {
      assert t[j] == dashes[j - |recordId| - 1];
    }
  }

  /** `a + b` ends with `b`. */
  lemma SuffixOfAppend(a: string, b: string)
    ensures (a + b)[|a + b| - |b|..] == b
  {
    assert (a + b)[|a|..] == b;
  }

  /** A section opens with its label underlined by exactly as many dashes,
      and closes with a rule of `RuleWidth` `=` characters. */
  lemma SectionFrame(recordId: string, d: Details)
    ensures var s := Section(recordId, d);
      && StartsWith(s, recordId + "\n")
      && |s| >= 2 * |recordId| + 3 + 83
      && (forall j :: |recordId| + 1 <= j < 2 * |recordId| + 1 ==> s[j] == '-')
      && s[2 * |recordId| + 1] == '\n'
      && s[|s| - 83..] == Rule
  {
    FrameShape(recordId, SectionBody(d));
  }

  /** The frame of a section around any body. */
  lemma FrameShape(recordId: string, body: string)
    ensures var s := Title(recordId) + body + Rule;
      && StartsWith(s, recordId + "\n")
      && |s| >= 2 * |recordId| + 3 + 83
      && (forall j :: |recordId| + 1 <= j < 2 * |recordId| + 1 ==> s[j] == '-')
      && s[2 * |recordId| + 1] == '\n'
      && s[|s| - 83..] == Rule
  {
    var t := Title(recordId);
    TitleShape(recordId);
    RuleShape();
    AppendAssoc(t, body, Rule);
    TitleLeads(t, body + Rule, recordId);
    SuffixOfAppend(t + body, Rule);
  }

  lemma RuleShape()
    ensures |Rule| == 83
  {
  }

  lemma TitleLeads(t: string, rest: string, recordId: string)
    requires |t| == 2 * |recordId| + 3
    requires StartsWith(t, recordId + "\n")
    requires forall j :: |recordId| + 1 <= j < 2 * |recordId| + 1 ==> t[j] == '-'
    requires t[2 * |recordId| + 1] == '\n'
    ensures var s := t + rest;
      && StartsWith(s, recordId + "\n")
      && (forall j :: |recordId| + 1 <= j < 2 * |recordId| + 1 ==> s[j] == '-')
      && s[2 * |recordId| + 1] == '\n'
  {
    PrefixOfAppend(t, rest);
    StartsWithTrans(t + rest, t, recordId + "\n");
  }

  lemma StartsWithTrans(a: string, b: string, c: string)
    requires StartsWith(a, b) && StartsWith(b, c)
    ensures StartsWith(a, c)
  {
    assert a[..|c|] == a[..|b|][..|c|];
  }

  /** The sections come in map order: the report built from the first `j`
      records is a prefix of the one built from the first `n`. */
  lemma SectionsPrefix(m: Dict<Details>, n: nat, j: nat)
    requires j <= n <= |m.keys|
    ensures StartsWith(Sections(m, n), Sections(m, j))
  {
    JoinedPrefix(m, n, j, Section);
  }

  lemma {:induction false} JoinedPrefix<V>(m: Dict<V>, n: nat, j: nat, render: (string, V) -> string)
    requires j <= n <= |m.keys|
    ensures StartsWith(Joined(m, n, render), Joined(m, j, render))
  {
    if j == n {
      StartsWithSelf(Joined(m, n, render));
    } else {
      JoinedPrefix(m, n - 1, j, render);
      StartsWithExtend(Joined(m, n - 1, render), render(m.keys[n - 1], m.vals[m.keys[n - 1]]), Joined(m, j, render));
    }
  }

  /** Appending the next entry's text extends the joined text by one entry. */
  lemma JoinedAppend<V>(h: string, m: Dict<V>, i: nat, render: (string, V) -> string,
                        before: string, after: string)
    requires i < |m.keys|
    requires before == h + Joined(m, i, render)
    requires after == before + render(m.keys[i], m.vals[m.keys[i]])
    ensures after == h + Joined(m, i + 1, render)
  {
    AppendAssoc(h, Joined(m, i, render), render(m.keys[i], m.vals[m.keys[i]]));
  }

  lemma StartsWithSelf(s: string)
    ensures StartsWith(s, s)
  {
    assert s[..|s|] == s;
  }

  /** Appending keeps every prefix. */
  lemma StartsWithExtend(a: string, b: string, p: string)
    requires StartsWith(a, p)
    ensures StartsWith(a + b, p)
  {
    PrefixOfAppend(a, b);
    StartsWithTrans(a + b, a, p);
  }

  lemma StartsWithPrepend(h: string, a: string, b: string)
    requires StartsWith(a, b)
    ensures StartsWith(h + a, h + b)
  {
    assert (h + a)[..|h| + |b|] == h + a[..|b|];
  }

  /** The section of the `j`-th record follows the header and the sections
      of the records before it. */
  lemma ReportOrder(m: Dict<Details>, recordCount: nat, j: nat)
    requires j < |m.keys|
    ensures StartsWith(ReportText(m, recordCount),
                       ReportHeader(recordCount) + (Sections(m, j) + Section(m.keys[j], m.vals[m.keys[j]])))
  {
    SectionsFollow(ReportHeader(recordCount), m, j);
  }

  /** Whatever precedes the sections, the `j`-th one comes after the ones
      before it. */
  lemma SectionsFollow(h: string, m: Dict<Details>, j: nat)
    requires j < |m.keys|
    ensures StartsWith(h + Sections(m, |m.keys|), h + (Sections(m, j) + Section(m.keys[j], m.vals[m.keys[j]])))
  {
    SectionsPrefix(m, |m.keys|, j + 1);
    StartsWithPrepend(h, Sections(m, |m.keys|), Sections(m, j + 1));
  }

  /** The header copy loops of src/read-warc.mjs:124-135: each pair is
      assigned in turn, so a repeated name keeps its first position and its
      last value. */
  method CopyHeaders(pairs: seq<(string, string)>) returns (h: Headers)
    ensures h == FromPairs(pairs)
  {
    h := Empty();
    var j := 0;
    while j < |pairs|
      invariant 0 <= j <= |pairs|
      invariant h == FromPairs(pairs[..j])
    {
      assert pairs[..j + 1][..j] == pairs[..j];
      h := Put(h, pairs[j].0, pairs[j].1);
      j := j + 1;
    }
    assert pairs[..j] == pairs;
  }

  /** The body of the `for await` loop for one record. */
  method ExtractRecord(p: ParsedRecord, decode: seq<Byte> -> string) returns (d: Details)
    ensures d == Extract(p, decode)
  {
    var warc := CopyHeaders(p.warcHeaders);
    var http: Option<Headers> := None;
    if p.httpHeaders.Some? {
      var h := CopyHeaders(p.httpHeaders.value);
      http := Some(h);
    }
    d := Details(warc, http, None, None, None, None, None);
    match p.body {
      case ReadFailure(msg) =>
        d := d.(contentError := Some(msg));
      case Payload(bytes) =>
        var ct := WarcContentType(p);
        var httpCt := HttpContentType(p);
        d := d.(contentType := Some(if httpCt != "" then httpCt else ct), contentSize := Some(|bytes|));
        if IsTextType(httpCt) {
          d := d.(content := Some(Text(decode(bytes))));
        } else {
          d := d.(content := Some(Binary(bytes)));
        }
    }
  }

  /** `mapToObject` (src/read-warc.mjs:86-97). */
  method MapToObject(m: Dict<Details>) returns (obj: Dict<Details>)
    ensures obj.keys == m.keys
    ensures forall k :: k in m.vals ==> k in obj.vals && obj.vals[k] == ToJson(m.vals[k])
  {
    obj := Empty();
    var j := 0;
    while j < |m.keys|
      invariant 0 <= j <= |m.keys|
      invariant obj.keys == m.keys[..j]
      invariant forall k :: k in obj.vals ==> k in m.vals && obj.vals[k] == ToJson(m.vals[k])
    {
      var key := m.keys[j];
      var value := m.vals[key];
      if value.content.Some? && value.content.value.Binary? {
        value := value.(content := Some(Text(Base64.Encode(value.content.value.bytes))),
                        contentEncoding := Some("base64"));
      }
      assert key !in m.keys[..j];
      obj := Put(obj, key, value);
      assert m.keys[..j + 1] == m.keys[..j] + [key];
      j := j + 1;
    }
    assert m.keys[..j] == m.keys;
  }

  /** `Object.entries(headers)` appended line by line. */
  method AppendHeaderLines(report: string, h: Headers) returns (r: string)
    ensures r == report + HeaderLines(h, |h.keys|)
  {
    r := report;
    var j := 0;
    while j < |h.keys|
      invariant 0 <= j <= |h.keys|
      invariant r == report + HeaderLines(h, j)
    {
      var key := h.keys[j];
      ghost var before := r;
      r := r + "  " + key + ": " + h.vals[key] + "\n";
      LineAppended(r, before, key, h.vals[key]);
      JoinedAppend(report, h, j, HeaderLine, before, r);
      j := j + 1;
    }
  }

  /** `report += `  ${key}: ${value}\n`` appends one header line. */
  lemma LineAppended(r: string, before: string, key: string, value: string)
    requires r == before + "  " + key + ": " + value + "\n"
    ensures r == before + HeaderLine(key, value)
  {
  }

  /** `report += 'X:\n'`, the header lines, `report += '\n'`. */
  method AppendHeaderBlock(report: string, heading: string, h: Headers) returns (r: string)
    ensures r == report + (heading + HeaderLines(h, |h.keys|) + "\n")
  {
    r := report + heading;
    r := AppendHeaderLines(r, h);
    AppendAssoc(report, heading, HeaderLines(h, |h.keys|));
    r := r + "\n";
    AppendAssoc(report, heading + HeaderLines(h, |h.keys|), "\n");
  }

  /** The content part, as the three branches of src/read-warc.mjs:65-73
      append it. */
  method AppendContent(report: string, d: Details) returns (r: string)
    ensures r == report + ContentLines(d)
  {
    if HasError(d) {
      r := report + ("Content Error: " + d.contentError.value + "\n");
    } else if HasText(d) {
      r := report + "Content:\n";
      r := r + "--------\n";
      AppendAssoc(report, "Content:\n", "--------\n");
      r := r + (d.content.value.text + "\n");
      AppendAssoc(report, "Content:\n" + "--------\n", d.content.value.text + "\n");
      assert "Content:\n" + "--------\n" + (d.content.value.text + "\n")
          == "Content:\n--------\n" + d.content.value.text + "\n";
    } else {
      r := report + "Content: [Binary data]\n";
    }
  }

  /** The body of the loop of `generateTextReport` for one record. */
  method AppendSection(report: string, recordId: string, d: Details) returns (r: string)
    ensures r == report + Section(recordId, d)
  {
    var title := recordId + "\n" + Repeat('-', |recordId|) + "\n\n";
    r := report + title;
    r := AppendHeaderBlock(r, "WARC Headers:\n", d.warcHeaders);
    AppendAssoc(report, title, WarcPart(d));
    ghost var before := r;
    if d.httpHeaders.Some? {
      r := AppendHeaderBlock(r, "HTTP Headers:\n", d.httpHeaders.value);
    }
    assert r == before + HttpPart(d);
    AppendAssoc(report, title + WarcPart(d), HttpPart(d));
    r := r + ("Content Type: " + ShowText(d.contentType) + "\n");
    AppendAssoc(report, title + WarcPart(d) + HttpPart(d), TypeLine(d));
    r := r + ("Content Size: " + ShowSize(d.contentSize) + " bytes\n\n");
    AppendAssoc(report, title + WarcPart(d) + HttpPart(d) + TypeLine(d), SizeLine(d));
    r := AppendContent(r, d);
    AppendAssoc(report, title + WarcPart(d) + HttpPart(d) + TypeLine(d) + SizeLine(d), ContentLines(d));
    r := r + ("\n" + Repeat('=', RuleWidth) + "\n\n");
    AppendAssoc(report, title + WarcPart(d) + HttpPart(d) + TypeLine(d) + SizeLine(d) + ContentLines(d), Rule);
    ghost var body := WarcPart(d) + HttpPart(d) + TypeLine(d) + SizeLine(d) + ContentLines(d);
    assert title + WarcPart(d) + HttpPart(d) + TypeLine(d) + SizeLine(d) + ContentLines(d) == title + body by {
      AppendAssoc(title, WarcPart(d), HttpPart(d));
      AppendAssoc(title, WarcPart(d) + HttpPart(d), TypeLine(d));
      AppendAssoc(title, WarcPart(d) + HttpPart(d) + TypeLine(d), SizeLine(d));
      AppendAssoc(title, WarcPart(d) + HttpPart(d) + TypeLine(d) + SizeLine(d), ContentLines(d));
    }
  }

  /** `generateTextReport` (src/read-warc.mjs:37-79). */
  method GenerateTextReport(m: Dict<Details>, recordCount: nat) returns (report: string)
    ensures report == ReportText(m, recordCount)
  {
    report := "WARC File Report\n";
    report := report + "================\n\n";
    report := report + "Total Records: " + NatToString(recordCount) + "\n\n";
    report := AppendSections(report, m);
  }

  /** The loop of `generateTextReport`: one section per record, in map order. */
  method AppendSections(report: string, m: Dict<Details>) returns (r: string)
    ensures r == report + Sections(m, |m.keys|)
  {
    r := report;
    AppendEmpty(report);
    var i := 0;
    while i < |m.keys|
      invariant 0 <= i <= |m.keys|
      invariant r == report + Sections(m, i)
    {
      r := AppendNextSection(r, m, i, report);
      i := i + 1;
    }
  }

  /** One pass of that loop: the section of the `i`-th record. */
  method AppendNextSection(r: string, m: Dict<Details>, i: nat, ghost report: string) returns (s: string)
    requires i < |m.keys| && r == report + Sections(m, i)
    ensures s == report + Sections(m, i + 1)
  {
    var recordId := m.keys[i];
    s := AppendSection(r, recordId, m.vals[recordId]);
    JoinedAppend(report, m, i, Section, r, s);
  }

  /** `readWARC` (src/read-warc.mjs:106-175) over the records the parser
      yields: count and recordId every record, then answer with the text
      report when the format is `text` and with the count and the records
      otherwise. */
  method ReadWarcRecords(ps: seq<ParsedRecord>, format: string, decode: seq<Byte> -> string)
    returns (out: ReadOutput)
    ensures format == "text" ==> out == Report(ReportText(RecordsOf(ps, decode), |ps|))
    ensures format != "text" ==> out.Structured? && out.recordCount == |ps|
    ensures format != "text" ==> out.records.keys == Labels(|ps|)
    ensures format != "text" ==> forall j :: 0 <= j < |ps| ==>
      Get(out.records, Label(j + 1)) == Some(ToJson(Extract(ps[j], decode)))
  {
    var records: Dict<Details> := Empty();
    var recordCount := 0;
    while recordCount < |ps|
      invariant 0 <= recordCount <= |ps|
      invariant records == RecordsOf(ps[..recordCount], decode)
    {
      var details := ExtractRecord(ps[recordCount], decode);
      assert ps[..recordCount + 1][..recordCount] == ps[..recordCount];
      recordCount := recordCount + 1;
      records := Put(records, Label(recordCount), details);
    }
    assert ps[..recordCount] == ps;
    if format == "text" {
      var report := GenerateTextReport(records, recordCount);
      return Report(report);
    }
    RecordsOfKeys(ps, decode);
    forall j | 0 <= j < |ps| ensures Get(records, Label(j + 1)) == Some(Extract(ps[j], decode)) {
      RecordsOfContents(ps, decode, j);
    }
    var obj := MapToObject(records);
    out := Structured(recordCount, obj);
  }
}
