/**
 * String helpers shared by the passphrase generator, the breach checker and
 * the strength scorer: Python's `sep.join(words)`, `s.split(sep)`, slicing
 * that clamps at the end of the string, ASCII character classes and the
 * count of characters drawn from a set.
 */
module Text {

  /** `string.ascii_lowercase`, `string.ascii_uppercase` and `string.digits`. */
  predicate IsAsciiLower(c: char) { 'a' <= c <= 'z' }

  predicate IsAsciiUpper(c: char) { 'A' <= c <= 'Z' }

  predicate IsDigit(c: char) { '0' <= c <= '9' }

  predicate HasLower(s: string) { exists i :: 0 <= i < |s| && IsAsciiLower(s[i]) }

  predicate HasUpper(s: string) { exists i :: 0 <= i < |s| && IsAsciiUpper(s[i]) }

  predicate HasDigit(s: string) { exists i :: 0 <= i < |s| && IsDigit(s[i]) }

  /** Python `s[:n]`: the first `n` characters, or all of `s` if it is shorter. */
  function Take(s: string, n: nat): (r: string)
    ensures |r| == if |s| <= n then |s| else n
    ensures r <= s
  {
    if |s| <= n then s else s[..n]
  }

  /** Python `s[n:]`: everything after the first `n` characters, or "" if `s` is shorter. */
  function Drop(s: string, n: nat): (r: string)
    ensures |r| == if |s| <= n then 0 else |s| - n
    ensures Take(s, n) + r == s
  {
    if |s| <= n then "" else s[n..]
  }

  /** Python `str.upper()` restricted to ASCII: 'a'..'z' become 'A'..'Z', every other character is kept. */
  function UpperChar(c: char): (u: char)
    ensures !IsAsciiLower(u)
    ensures IsAsciiLower(c) ==> IsAsciiUpper(u) && u as int + 32 == c as int
    ensures !IsAsciiLower(c) ==> u == c
  {
    if IsAsciiLower(c) then (c as int - 32) as char else c
  }

  /** An upper-cased string is as long as the original and holds no lower-case ASCII letter. */
  function Upper(s: string): (r: string)
    ensures |r| == |s|
    ensures !HasLower(r)
  {
    seq(|s|, i requires 0 <= i < |s| => UpperChar(s[i]))
  }

  /** How many characters of `s` are members of `cs` (`len([c for c in s if c in cs])`). */
  function CountIn(s: string, cs: string): (n: nat)
    ensures n <= |s|
  {
    if |s| == 0 then 0 else (if s[0] in cs then 1 else 0) + CountIn(s[1..], cs)
  }

  lemma {:induction false} CountInConcat(a: string, b: string, cs: string)
    ensures CountIn(a + b, cs) == CountIn(a, cs) + CountIn(b, cs)
    decreases |a|
  {
    if |a| == 0 {
      assert a + b == b;
    } else {
      assert (a + b)[1..] == a[1..] + b;
      CountInConcat(a[1..], b, cs);
    }
  }

  /** Python `sep.join(ws)`. */
  function Join(ws: seq<string>, sep: string): (r: string)
    decreases |ws|
  {
    if |ws| == 0 then ""
    else if |ws| == 1 then ws[0]
    else ws[0] + sep + Join(ws[1..], sep)
  }

  /** Sum of the lengths of the strings in `ws`. */
  function TotalLength(ws: seq<string>): (n: nat)
  {
    if |ws| == 0 then 0 else |ws[0]| + TotalLength(ws[1..])
  }

  /** A join is as long as its pieces plus one separator between each neighbouring pair. */
  lemma {:induction false} JoinLength(ws: seq<string>, sep: string)
    requires |ws| > 0
    ensures |Join(ws, sep)| == TotalLength(ws) + (|ws| - 1) * |sep|
    decreases |ws|
  {
    if |ws| > 1 {
      JoinLength(ws[1..], sep);
    }
  }

  /** Every separator in a join contributes its own members of `cs`. */
  lemma {:induction false} JoinCountsSeparators(ws: seq<string>, sep: string, cs: string)
    requires |ws| > 0
    ensures CountIn(Join(ws, sep), cs) >= (|ws| - 1) * CountIn(sep, cs)
    decreases |ws|
  {
    if |ws| > 1 {
      JoinCountsSeparators(ws[1..], sep, cs);
      CountInConcat(ws[0], sep, cs);
      CountInConcat(ws[0] + sep, Join(ws[1..], sep), cs);
      assert (|ws| - 1) * CountIn(sep, cs) == CountIn(sep, cs) + (|ws| - 2) * CountIn(sep, cs);
    }
  }

  /**
   * Python `s.split(sep)` for a non-empty separator: the pieces between the
   * leftmost non-overlapping occurrences of `sep`, always at least one.
   */
  function SplitOn(s: string, sep: string): (r: seq<string>)
    requires |sep| > 0
    ensures |r| >= 1
    decreases |s|
  {
    if |sep| <= |s| && s[..|sep|] == sep then [""] + SplitOn(s[|sep|..], sep)
    else if |s| == 0 then [""]
    else
      var t := SplitOn(s[1..], sep);
      [[s[0]] + t[0]] + t[1..]
  }

  /**
   * The first piece of a split is a prefix of the input that is either the
   * whole input or followed by the separator; for a one-character separator
   * it holds no separator.
   */
  lemma {:induction false} SplitHead(s: string, sep: string)
    requires |sep| > 0
    ensures SplitOn(s, sep)[0] <= s
    ensures var h := SplitOn(s, sep)[0];
      h == s || (|h| + |sep| <= |s| && s[|h|..|h| + |sep|] == sep)
    ensures |sep| == 1 ==> sep[0] !in SplitOn(s, sep)[0]
    decreases |s|
  {
    if |sep| <= |s| && s[..|sep|] == sep {
    } else if |s| > 0 {
      SplitHead(s[1..], sep);
      var t := SplitOn(s[1..], sep);
      var h := [s[0]] + t[0];
      assert SplitOn(s, sep)[0] == h;
      if t[0] == s[1..] {
        assert h == s;
      } else {
        assert s[|h|..|h| + |sep|] == s[1..][|t[0]|..|t[0]| + |sep|];
      }
      if |sep| == 1 {
        assert s[0] != sep[0];
      }
    }
  }

  /** A piece free of the separator's first character, followed by the separator, splits off as one piece. */
  lemma {:induction false} SplitPrefixed(w: string, sep: string, s: string)
    requires |sep| > 0 && sep[0] !in w
    ensures SplitOn(w + sep + s, sep) == [w] + SplitOn(s, sep)
    decreases |w|
  {
    var x := w + sep + s;
    if |w| == 0 {
      assert x == sep + s;
      assert x[..|sep|] == sep;
      assert x[|sep|..] == s;
    } else {
      assert x[0] == w[0] && x[0] != sep[0];
      assert x[..|sep|] != sep;
      assert x[1..] == w[1..] + sep + s;
      SplitPrefixed(w[1..], sep, s);
      assert [x[0]] + w[1..] == w;
    }
  }

  /** A string free of the separator's first character splits into itself alone. */
  lemma {:induction false} SplitNoSeparator(w: string, sep: string)
    requires |sep| > 0 && sep[0] !in w
    ensures SplitOn(w, sep) == [w]
    decreases |w|
  {
    if |w| > 0 {
      assert !(|sep| <= |w| && w[..|sep|] == sep);
      SplitNoSeparator(w[1..], sep);
      assert [w[0]] + w[1..] == w;
    }
  }

  /** Splitting undoes joining when no piece contains the separator's first character. */
  lemma {:induction false} SplitJoin(ws: seq<string>, sep: string)
    requires |sep| > 0 && |ws| > 0
    requires forall i :: 0 <= i < |ws| ==> sep[0] !in ws[i]
    ensures SplitOn(Join(ws, sep), sep) == ws
    decreases |ws|
  {
    if |ws| == 1 {
      SplitNoSeparator(ws[0], sep);
    } else {
      SplitJoin(ws[1..], sep);
      SplitPrefixed(ws[0], sep, Join(ws[1..], sep));
      assert [ws[0]] + ws[1..] == ws;
    }
  }
}
