/** The command-line front ends src/write-warc-cli.mjs and write-warc-cli.mjs:
    check the argument, derive the output names from the URL, and start the
    capture. The two differ only in the messages printed when the argument
    is missing. */
module WriteWarcCli {

  predicate IsAsciiLetter(c: char) {
    ('a' <= c <= 'z') || ('A' <= c <= 'Z')
  }

  predicate AllLetters(s: string) {
    forall j :: 0 <= j < |s| ==> IsAsciiLetter(s[j])
  }

  predicate StartsWithText(s: string, p: string) {
    |p| <= |s| && s[..|p|] == p
  }

  /** `.replace(/^https?:\/\//, "")`: one leading `https://` or `http://` is
      removed; the two cannot both match, and nothing else is touched. */
  function StripProtocol(s: string): (r: string)
    ensures StartsWithText(s, "https://") ==> r == s[8..]
    ensures StartsWithText(s, "http://") ==> r == s[7..]
    ensures !StartsWithText(s, "https://") && !StartsWithText(s, "http://") ==> r == s
  {
    ProtocolsDisjoint(s);
    if StartsWithText(s, "https://") then s[8..]
    else if StartsWithText(s, "http://") then s[7..]
    else s
  }

  /** `https://` and `http://` differ at their fifth character. */
  lemma ProtocolsDisjoint(s: string)
    ensures !(StartsWithText(s, "https://") && StartsWithText(s, "http://"))
  {
    if StartsWithText(s, "https://") && |s| >= 7 {
      assert s[4] == s[..8][4] == 's';
      assert s[..7][4] == 's';
    }
  }

  /** `.replaceAll(/[^a-zA-Z]/g, "")`: every character other than an ASCII
      letter is deleted. */
  function KeepLetters(s: string): (r: string)
    ensures AllLetters(r)
    ensures |r| <= |s|
  {
    if s == [] then []
    else KeepLetters(s[..|s| - 1]) + (if IsAsciiLetter(s[|s| - 1]) then [s[|s| - 1]] else [])
  }

  /** The sanitised file name of src/write-warc-cli.mjs:20-22. */
  function Sanitize(website: string): string {
    KeepLetters(StripProtocol(website))
  }

  /** `${sanitizedFilename}.warc.gz`. */
  function WarcFileName(website: string): string {
    Sanitize(website) + ".warc.gz"
  }

  /** `idx` lists, in increasing order, positions of `b` that spell `a`. */
  predicate Embeds(idx: seq<nat>, a: string, b: string) {
    && |idx| == |a|
    && (forall j :: 0 <= j < |idx| ==> idx[j] < |b| && b[idx[j]] == a[j])
    && (forall j, k :: 0 <= j < k < |idx| ==> idx[j] < idx[k])
  }

  /** `a` is `b` with some characters deleted, the rest kept in order. */
  ghost predicate IsSubsequence(a: string, b: string) {
    exists idx :: Embeds(idx, a, b)
  }

  /** Shifting an embedding into a suffix gives one into the whole. */
  lemma SubsequenceOfSuffix(a: string, s: string, k: nat)
    requires k <= |s| && IsSubsequence(a, s[k..])
    ensures IsSubsequence(a, s)
  {
    var idx: seq<nat> :| Embeds(idx, a, s[k..]);
    var shifted := seq(|idx|, j requires 0 <= j < |idx| => idx[j] + k);
    assert Embeds(shifted, a, s);
  }

  /** Deleting non-letters keeps the letters in their order. */
  lemma {:induction false} KeepLettersSubsequence(s: string)
    ensures IsSubsequence(KeepLetters(s), s)
  {
    if s == [] {
      assert Embeds([], KeepLetters(s), s);
    } else {
      var p, c := s[..|s| - 1], s[|s| - 1];
      KeepLettersSubsequence(p);
      var idx: seq<nat> :| Embeds(idx, KeepLetters(p), p);
      forall j | 0 <= j < |idx| ensures idx[j] < |s| && s[idx[j]] == KeepLetters(p)[j] {
        assert s[idx[j]] == p[idx[j]];
      }
      if IsAsciiLetter(c) {
        var ext := idx + [|s| - 1];
        assert Embeds(ext, KeepLetters(s), s);
      } else {
        assert Embeds(idx, KeepLetters(s), s);
      }
    }
  }

  /** Deletion works character by character, so it distributes over
      concatenation. */
  lemma {:induction false} KeepLettersAppend(a: string, b: string)
    ensures KeepLetters(a + b) == KeepLetters(a) + KeepLetters(b)
    decreases |b|
  {
    if b == [] {
      assert a + b == a;
    } else {
      var p, c := b[..|b| - 1], b[|b| - 1];
      KeepLettersAppend(a, p);
      assert (a + b)[..|a + b| - 1] == a + p;
      assert KeepLetters(b) == KeepLetters(p) + (if IsAsciiLetter(c) then [c] else []);
    }
  }

  lemma AppendDiffers(x: string, y: string, c: char)
    requires x != y
    ensures x + [c] != y + [c]
  {
    if |x| == |y| {
      var j :| 0 <= j < |x| && x[j] != y[j];
      assert (x + [c])[j] != (y + [c])[j];
    }
  }

  /** A string of letters is its own sanitised form, and only such a
      string is. */
  lemma {:induction false} KeepLettersFixpoint(s: string)
    ensures KeepLetters(s) == s <==> AllLetters(s)
  {
    if s != [] {
      var p, c := s[..|s| - 1], s[|s| - 1];
      KeepLettersFixpoint(p);
      assert s == p + [c];
      if !IsAsciiLetter(c) {
        assert |KeepLetters(s)| < |s|;
      } else {
        assert KeepLetters(s) == KeepLetters(p) + [c];
        if !AllLetters(p) {
          var j :| 0 <= j < |p| && !IsAsciiLetter(p[j]);
          assert s[j] == p[j];
          AppendDiffers(KeepLetters(p), p, c);
        }
      }
    }
  }

  /** The sanitised name holds only letters and is a subsequence of the
      argument. */
  lemma SanitizeShape(website: string)
    ensures AllLetters(Sanitize(website))
    ensures IsSubsequence(Sanitize(website), website)
  {
    var stripped := StripProtocol(website);
    KeepLettersSubsequence(stripped);
    if StartsWithText(website, "https://") {
      SubsequenceOfSuffix(Sanitize(website), website, 8);
    } else if StartsWithText(website, "http://") {
      SubsequenceOfSuffix(Sanitize(website), website, 7);
    }
  }

  /** A string of letters has no `:` to start a protocol. */
  lemma LettersHaveNoProtocol(s: string)
    requires AllLetters(s)
    ensures !StartsWithText(s, "http://") && !StartsWithText(s, "https://")
  {
    if |s| >= 7 {
      assert s[..7][4] == s[4];
      assert !IsAsciiLetter("http://"[4]);
    }
    if |s| >= 8 {
      assert s[..8][5] == s[5];
      assert !IsAsciiLetter("https://"[5]);
    }
  }

  /** Sanitising twice changes nothing more. */
  lemma SanitizeIdempotent(website: string)
    ensures Sanitize(Sanitize(website)) == Sanitize(website)
  {
    var s := Sanitize(website);
    LettersHaveNoProtocol(s);
    KeepLettersFixpoint(s);
  }

  /** Without a leading protocol the whole argument is filtered, so a
      protocol later in the text keeps its letters. */
  lemma SanitizeWithoutProtocol(website: string)
    requires !StartsWithText(website, "https://") && !StartsWithText(website, "http://")
    ensures Sanitize(website) == KeepLetters(website)
  {
  }

  /** With a leading protocol, only the rest is filtered. */
  lemma SanitizeDropsProtocol(rest: string)
    ensures Sanitize("https://" + rest) == KeepLetters(rest)
    ensures Sanitize("http://" + rest) == KeepLetters(rest)
  {
    assert ("https://" + rest)[..8] == "https://";
    assert ("https://" + rest)[8..] == rest;
    assert ("http://" + rest)[..7] == "http://";
    assert ("http://" + rest)[7..] == rest;
    ProtocolsDisjoint("http://" + rest);
  }

  /** What a front end does for the arguments `process.argv`. */
  datatype CliOutcome =
    | UsageError(exitCode: int, messages: seq<string>)
    | Archive(website: string, warcPath: string, screenshotName: string)

  /** Both front ends: a missing or empty `process.argv[2]` prints the two
      messages and exits with status 1 before any capture; otherwise the
      capture runs with the derived names. */
  function Plan(argv: seq<string>, missing: string, usage: string): (r: CliOutcome)
    ensures r.UsageError? <==> |argv| < 3 || argv[2] == ""
    ensures r.UsageError? ==> r.exitCode == 1 && r.messages == [missing, usage]
    ensures r.Archive? ==>
      && r.website == argv[2]
      && r.warcPath == Sanitize(argv[2]) + ".warc.gz"
      && r.screenshotName == Sanitize(argv[2])
  {
    if |argv| < 3 || argv[2] == "" then UsageError(1, [missing, usage])
    else Archive(argv[2], WarcFileName(argv[2]), Sanitize(argv[2]))
  }

  /** src/write-warc-cli.mjs:12-27. */
  function SrcPlan(argv: seq<string>): (r: CliOutcome)
    ensures r.UsageError? <==> |argv| < 3 || argv[2] == ""
    ensures r.UsageError? ==>
      && r.exitCode == 1
      && r.messages == ["Please provide the website URL as an argument.", "Usage: node script.js <website-url>"]
    ensures r.Archive? ==> r.website == argv[2] && r.screenshotName == Sanitize(argv[2])
    ensures r.Archive? ==> r.warcPath == r.screenshotName + ".warc.gz" && AllLetters(r.screenshotName)
  {
    SanitizeDerived(argv);
    Plan(argv, "Please provide the website URL as an argument.", "Usage: node script.js <website-url>")
  }

  /** write-warc-cli.mjs:12-27. */
  function RootPlan(argv: seq<string>): (r: CliOutcome)
    ensures r.UsageError? <==> |argv| < 3 || argv[2] == ""
    ensures r.UsageError? ==>
      && r.exitCode == 1
      && r.messages == ["Please provide the path to a WARC file as an argument.", "Usage: node script.js <path-to-warc-file>"]
    ensures r.Archive? ==> r.website == argv[2] && r.screenshotName == Sanitize(argv[2])
    ensures r.Archive? ==> r.warcPath == r.screenshotName + ".warc.gz" && AllLetters(r.screenshotName)
  {
    SanitizeDerived(argv);
    Plan(argv, "Please provide the path to a WARC file as an argument.", "Usage: node script.js <path-to-warc-file>")
  }

  lemma SanitizeDerived(argv: seq<string>)
    ensures |argv| >= 3 ==> AllLetters(Sanitize(argv[2]))
  {
    if |argv| >= 3 {
      SanitizeShape(argv[2]);
    }
  }
}
