/**
 * The breach check (`check_havebeenpwned` in simple_pass/passwordgen.py and
 * `check_pass` in passwordgen/passwordgen.py). The SHA-1 hex digest of the
 * password is an input, and the HTTP round trip is a function from the
 * requested range prefix to what came back. What is modelled is what the
 * code does with them: it asks for the range of the first five digest
 * characters, splits the body on CRLF, keeps each line's text before its
 * first ':' and compares those keys with the upper-cased digest after its
 * fifth character.
 */
module Breach {
  import opened Text

  const DigestLength: nat := 40

  const PrefixLength: nat := 5

  const LineBreak: string := "\r\n"

  const KeyEnd: string := ":"

  /** What `requests.get` produced: an exception, or a response with its `ok` flag and its `text`. */
  datatype Response = ConnectionFailed | Reply(ok: bool, text: string)

  /** True (Safe), False (Unsafe), or the ConnectionError that stands for "no verdict". */
  datatype Verdict = Safe | Unsafe | Unavailable

  predicate IsLowerHexDigit(c: char) { IsDigit(c) || 'a' <= c <= 'f' }

  predicate IsUpperHexDigit(c: char) { IsDigit(c) || 'A' <= c <= 'F' }

  /** What `hashlib.sha1(...).hexdigest()` returns: 40 lower-case hex digits. */
  predicate IsHexDigest(h: string)
  {
    |h| == DigestLength && forall i :: 0 <= i < |h| ==> IsLowerHexDigit(h[i])
  }

  /** `hash[:5]`, sent in the request URL as it is, in lower case. */
  function RangePrefix(hash: string): (p: string)
  {
    Take(hash, PrefixLength)
  }

  /** `hash.upper()[5:]`, compared locally. */
  function LocalSuffix(hash: string): (s: string)
  {
    Drop(Upper(hash), PrefixLength)
  }

  /**
   * `line.split(":")[0]`: the text before the first ':' of a line, or the
   * whole line when it has no ':'.
   */
  function Key(line: string): (k: string)
    ensures k <= line
    ensures ':' !in k
    ensures k == line || (|k| < |line| && line[|k|] == ':')
  {
    SplitHead(line, KeyEnd);
    SplitOn(line, KeyEnd)[0]
  }

  /** The key of a line is `k` exactly when the line is `k` itself or starts with `k` and a ':'. */
  lemma KeyIs(line: string, k: string)
    requires ':' !in k
    ensures Key(line) == k <==> line == k || k + KeyEnd <= line
  {
    var key := Key(line);
    if k + KeyEnd <= line {
      assert line[|k|] == ':';
      assert forall j :: 0 <= j < |k| ==> line[j] == k[j];
      assert |key| >= |k|;
      assert key == line[..|key|] && k == line[..|k|];
    }
    if key == k && key != line {
      assert line[..|k| + 1] == k + KeyEnd;
    }
  }

  /** `[x.split(":")[0] for x in text.split("\r\n")]`: one key per CRLF-separated line. */
  function Keys(text: string): (ks: seq<string>)
    ensures |ks| == |SplitOn(text, LineBreak)|
    ensures forall i :: 0 <= i < |ks| ==>
      var line := SplitOn(text, LineBreak)[i];
      ks[i] <= line && ':' !in ks[i] && (ks[i] == line || line[|ks[i]|] == ':')
  {
    var lines := SplitOn(text, LineBreak);
    seq(|lines|, i requires 0 <= i < |lines| => Key(lines[i]))
  }

  /**
   * The verdict: Unavailable unless the fetch returned an ok, non-empty
   * body; otherwise Unsafe exactly when the local suffix is among the keys.
   */
  function Check(hash: string, fetch: string -> Response): (v: Verdict)
    ensures v == Unavailable <==>
      !(fetch(RangePrefix(hash)).Reply? && fetch(RangePrefix(hash)).ok && fetch(RangePrefix(hash)).text != "")
    ensures v == Unsafe ==>
      && fetch(RangePrefix(hash)).Reply?
      && exists i :: 0 <= i < |SplitOn(fetch(RangePrefix(hash)).text, LineBreak)|
           && LocalSuffix(hash) <= SplitOn(fetch(RangePrefix(hash)).text, LineBreak)[i]
  {
    match fetch(RangePrefix(hash))
    case ConnectionFailed => Unavailable
    case Reply(ok, text) =>
      if ok && text != "" then
        if LocalSuffix(hash) in Keys(text) then Unsafe else Safe
      else Unavailable
  }

  /**
   * The three verdicts in terms of the body's lines: Unavailable exactly
   * when the fetch of the prefix failed, was not ok or had an empty body;
   * Unsafe exactly when an ok, non-empty body has a CRLF-separated line that
   * is the local suffix or starts with the local suffix and a ':'; Safe
   * otherwise.
   */
  lemma CheckCases(hash: string, fetch: string -> Response)
    requires IsHexDigest(hash)
    ensures Check(hash, fetch) == Unavailable <==>
      fetch(RangePrefix(hash)).ConnectionFailed?
      || !fetch(RangePrefix(hash)).ok
      || fetch(RangePrefix(hash)).text == ""
    ensures Check(hash, fetch) == Unsafe <==>
      && fetch(RangePrefix(hash)).Reply?
      && fetch(RangePrefix(hash)).ok
      && fetch(RangePrefix(hash)).text != ""
      && exists line :: line in SplitOn(fetch(RangePrefix(hash)).text, LineBreak)
           && (line == LocalSuffix(hash) || LocalSuffix(hash) + KeyEnd <= line)
  {
    DigestSplit(hash);
    match fetch(RangePrefix(hash))
    case ConnectionFailed =>
    case Reply(_, text) =>
      KeysMatch(text, LocalSuffix(hash));
  }

  /**
   * A key-free-of-':' string is among the keys of a body exactly when one of
   * the body's lines is that string or starts with it and a ':'.
   */
  lemma KeysMatch(text: string, suffix: string)
    requires ':' !in suffix
    ensures suffix in Keys(text) <==>
      exists line :: line in SplitOn(text, LineBreak) && (line == suffix || suffix + KeyEnd <= line)
  {
    var lines := SplitOn(text, LineBreak);
    var ks := Keys(text);
    if suffix in ks {
      var i :| 0 <= i < |ks| && ks[i] == suffix;
      assert ks[i] == Key(lines[i]);
      KeyIs(lines[i], suffix);
      assert lines[i] in lines;
      assert exists line :: line in SplitOn(text, LineBreak) && (line == suffix || suffix + KeyEnd <= line);
    } else {
      forall line | line in lines
        ensures !(line == suffix || suffix + KeyEnd <= line)
      {
        var i :| 0 <= i < |lines| && lines[i] == line;
        assert ks[i] == Key(line) && ks[i] != suffix;
        KeyIs(line, suffix);
      }
    }
  }

  /**
   * The digest splits into a five-character lower-case request prefix and a
   * 35-character upper-case suffix that together make up the upper-cased
   * digest.
   */
  lemma DigestSplit(hash: string)
    requires IsHexDigest(hash)
    ensures |RangePrefix(hash)| == PrefixLength
    ensures forall i :: 0 <= i < PrefixLength ==> IsLowerHexDigit(RangePrefix(hash)[i])
    ensures |LocalSuffix(hash)| == DigestLength - PrefixLength
    ensures forall i :: 0 <= i < |LocalSuffix(hash)| ==> IsUpperHexDigit(LocalSuffix(hash)[i])
    ensures Upper(RangePrefix(hash)) + LocalSuffix(hash) == Upper(hash)
  {
  }

  /** Only the five-character prefix leaves the machine: two fetches that agree on it give the same verdict. */
  lemma OnlyPrefixMatters(hash: string, f: string -> Response, g: string -> Response)
    requires f(RangePrefix(hash)) == g(RangePrefix(hash))
    ensures Check(hash, f) == Check(hash, g)
  {
  }

  /**
   * The comparison is case-sensitive against an upper-cased suffix: a body
   * whose every key holds a lower-case letter never makes the verdict Unsafe.
   */
  lemma LowerCaseKeysNeverMatch(hash: string, fetch: string -> Response)
    requires fetch(RangePrefix(hash)).Reply?
    requires forall k :: k in Keys(fetch(RangePrefix(hash)).text) ==> HasLower(k)
    ensures Check(hash, fetch) != Unsafe
  {
  }

  /** One record of a range response: a hash suffix and its breach count, written `SUFFIX:COUNT`. */
  datatype Entry = Entry(suffix: string, count: string)

  /** A record that fits the line format: no ':' in the suffix, no carriage return anywhere. */
  predicate WellFormed(e: Entry)
  {
    ':' !in e.suffix && '\r' !in e.suffix && '\r' !in e.count
  }

  function Line(e: Entry): (l: string)
  {
    e.suffix + KeyEnd + e.count
  }

  /** The body a range service sends for these records: their lines joined by CRLF. */
  function Body(entries: seq<Entry>): (b: string)
  {
    Join(seq(|entries|, i requires 0 <= i < |entries| => Line(entries[i])), LineBreak)
  }

  /** Parsing a well-formed body recovers the record suffixes in order. */
  lemma KeysOfBody(entries: seq<Entry>)
    requires |entries| > 0
    requires forall i :: 0 <= i < |entries| ==> WellFormed(entries[i])
    ensures Keys(Body(entries)) == seq(|entries|, i requires 0 <= i < |entries| => entries[i].suffix)
    ensures Body(entries) != ""
  {
    var lines := seq(|entries|, i requires 0 <= i < |entries| => Line(entries[i]));
    forall i | 0 <= i < |lines|
      ensures LineBreak[0] !in lines[i]
    {
      assert lines[i] == entries[i].suffix + KeyEnd + entries[i].count;
    }
    SplitJoin(lines, LineBreak);
    forall i | 0 <= i < |entries|
      ensures Key(lines[i]) == entries[i].suffix
    {
      SplitPrefixed(entries[i].suffix, KeyEnd, entries[i].count);
    }
    assert SplitOn("", LineBreak) == [""];
    assert |lines[0]| > 0;
  }

  /**
   * Against a well-formed ok body, the verdict is Unsafe exactly when the
   * local suffix is one of the records' suffixes, and Safe otherwise.
   */
  lemma CheckAgainstCorpus(hash: string, fetch: string -> Response, entries: seq<Entry>)
    requires |entries| > 0
    requires forall i :: 0 <= i < |entries| ==> WellFormed(entries[i])
    requires fetch(RangePrefix(hash)) == Reply(true, Body(entries))
    ensures Check(hash, fetch) != Unavailable
    ensures Check(hash, fetch) == Unsafe <==>
      exists i :: 0 <= i < |entries| && entries[i].suffix == LocalSuffix(hash)
  {
    KeysOfBody(entries);
    var ks := Keys(Body(entries));
    if exists i :: 0 <= i < |entries| && entries[i].suffix == LocalSuffix(hash) {
      var i :| 0 <= i < |entries| && entries[i].suffix == LocalSuffix(hash);
      assert ks[i] == LocalSuffix(hash);
    }
  }
}
