/**
 * The pieces of Rust's `str` API that the history parser relies on:
 * `find`, `starts_with`, `trim` and `lines`. Strings are sequences of
 * Unicode scalar values, so indices here count characters where Rust counts
 * bytes; every index the parser computes comes from a `find` of an ASCII
 * pattern, so the two agree on which characters are selected.
 */
module Text {
  import opened Wrappers

  /** `pat` occurs in `s` starting at index `i`. */
  predicate MatchesAt(s: string, pat: string, i: nat)
  {
    i + |pat| <= |s| && s[i..i + |pat|] == pat
  }

  /** The first occurrence of `pat` at or after `k` (the search behind `str::find`). */
  function FindFrom(s: string, pat: string, k: nat): (r: Option<nat>)
    decreases |s| - k
    ensures r.Some? ==> k <= r.value && MatchesAt(s, pat, r.value)
    ensures r.Some? ==> forall j: nat :: k <= j < r.value ==> !MatchesAt(s, pat, j)
    ensures r.None? ==> forall j: nat :: k <= j ==> !MatchesAt(s, pat, j)
  {
    if k + |pat| > |s| then None
    else if MatchesAt(s, pat, k) then Some(k)
    else FindFrom(s, pat, k + 1)
  }

  /** `s.find(pat)`: the index of the first occurrence of `pat`, if any. */
  function Find(s: string, pat: string): (r: Option<nat>)
    ensures r.Some? ==> MatchesAt(s, pat, r.value) && r.value + |pat| <= |s|
    ensures r.Some? ==> forall j: nat :: j < r.value ==> !MatchesAt(s, pat, j)
    ensures r.None? ==> forall j: nat :: !MatchesAt(s, pat, j)
  {
    FindFrom(s, pat, 0)
  }

  /** `s.starts_with(prefix)`. */
  predicate StartsWith(s: string, prefix: string): (b: bool)
    ensures b <==> exists rest :: s == prefix + rest
  {
    var b := |prefix| <= |s| && s[..|prefix|] == prefix;
    assert b ==> s == prefix + s[|prefix|..];
    b
  }

  /** The characters with the Unicode White_Space property. */
  const WHITESPACE: set<char> := {
    '\t', '\n', '\U{0B}', '\U{0C}', '\r', ' ', '\U{85}', '\U{A0}', '\U{1680}',
    '\U{2000}', '\U{2001}', '\U{2002}', '\U{2003}', '\U{2004}', '\U{2005}',
    '\U{2006}', '\U{2007}', '\U{2008}', '\U{2009}', '\U{200A}',
    '\U{2028}', '\U{2029}', '\U{202F}', '\U{205F}', '\U{3000}'}

  /** Rust's `char::is_whitespace`. */
  predicate IsWhitespace(c: char)
  {
    c in WHITESPACE
  }

  predicate AllWhitespace(s: string)
  {
    forall i :: 0 <= i < |s| ==> IsWhitespace(s[i])
  }

  /** `s.trim_start()`: the longest suffix of `s` that does not start with whitespace. */
  function TrimStart(s: string): (r: string)
    ensures |r| <= |s| && r == s[|s| - |r|..]
    ensures AllWhitespace(s[..|s| - |r|])
    ensures r == [] || !IsWhitespace(r[0])
  {
    if s != [] && IsWhitespace(s[0]) then
      var r := TrimStart(s[1..]);
      TrimStartStep(s, r);
      r
    else s
  }

  /** Whitespace at the front of `s` joins the whitespace `trim_start` removed from `s[1..]`. */
  lemma TrimStartStep(s: string, r: string)
    requires s != [] && IsWhitespace(s[0])
    requires |r| <= |s| - 1 && r == s[1..][|s| - 1 - |r|..]
    requires AllWhitespace(s[1..][..|s| - 1 - |r|])
    ensures r == s[|s| - |r|..] && AllWhitespace(s[..|s| - |r|])
  {
    var t := s[1..];
    var n := |s| - |r|;
    assert s[n..] == t[n - 1..];
    forall i | 0 <= i < n ensures IsWhitespace(s[..n][i]) {
      if i > 0 {
        assert s[..n][i] == t[..n - 1][i - 1];
      }
    }
  }

  /** `s.trim_end()`: the longest prefix of `s` that does not end with whitespace. */
  function TrimEnd(s: string): (r: string)
    ensures |r| <= |s| && r == s[..|r|]
    ensures AllWhitespace(s[|r|..])
    ensures r == [] || !IsWhitespace(r[|r| - 1])
  {
    if s != [] && IsWhitespace(s[|s| - 1]) then TrimEnd(s[..|s| - 1]) else s
  }

  /** `s.trim()`: whitespace removed from both ends. */
  function Trim(s: string): (r: string)
    ensures r == [] <==> AllWhitespace(s)
    ensures r == [] || (!IsWhitespace(r[0]) && !IsWhitespace(r[|r| - 1]))
  {
    var e := TrimEnd(s);
    assert e != [] ==> e[|e| - 1] == s[|e| - 1];
    assert e == [] ==> s[|e|..] == s;
    var r := TrimStart(e);
    assert r != [] ==> r[|r| - 1] == e[|e| - 1];
    assert r == [] ==> e[..|e| - |r|] == e;
    r
  }

  /** What `trim` keeps is a slice of the text, and only whitespace lies outside it. */
  lemma TrimIsSlice(s: string)
    ensures exists k: nat :: PaddedSliceAt(s, Trim(s), k)
  {
    var e := TrimEnd(s);
    var r := TrimStart(e);
    assert Trim(s) == r;
    var k := |e| - |r|;
    NestedSlices(s, e, r);
    assert AllWhitespace(s[..k]);
    assert AllWhitespace(s[k + |r|..]);
    assert PaddedSliceAt(s, r, k);
  }

  /** `t` is the slice of `s` from `k`, with only whitespace before and after it. */
  ghost predicate PaddedSliceAt(s: string, t: string, k: nat)
  {
    k + |t| <= |s| && t == s[k..k + |t|] && AllWhitespace(s[..k]) && AllWhitespace(s[k + |t|..])
  }

  /** A suffix `r` of a prefix `e` of `s` is the slice of `s` that ends where `e` does. */
  lemma NestedSlices(s: string, e: string, r: string)
    requires |e| <= |s| && e == s[..|e|]
    requires |r| <= |e| && r == e[|e| - |r|..]
    ensures r == s[|e| - |r|..|e|]
    ensures s[..|e| - |r|] == e[..|e| - |r|]
  {
  }

  /** A trailing carriage return removed, as `lines` does before each newline. */
  function StripCR(line: string): string
  {
    if line != [] && line[|line| - 1] == '\r' then line[..|line| - 1] else line
  }

  /**
   * `s.lines()`: split after each newline, a `\r` directly before the newline
   * dropped; a final piece with no newline is kept as it is, an empty one
   * is not a line.
   */
  function Lines(s: string): (r: seq<string>)
    decreases |s|
    ensures s == [] <==> r == []
  {
    match Find(s, "\n")
    case None => if s == [] then [] else [s]
    case Some(i) => [StripCR(s[..i])] + Lines(s[i + 1..])
  }

  // ---------------------------------------------------------------------
  // Lemmas used by the history parser.

  /** Shifting a string by a prefix shifts where a pattern matches. */
  lemma MatchesAtShift(x: string, y: string, pat: string, j: nat)
    ensures MatchesAt(x + y, pat, |x| + j) <==> MatchesAt(y, pat, j)
  {
    if j + |pat| <= |y| {
      assert (x + y)[|x| + j..|x| + j + |pat|] == y[j..j + |pat|];
    }
  }

  /** A match of `pat` gives each of its characters. */
  lemma MatchesAtChar(s: string, pat: string, i: nat, k: nat)
    requires MatchesAt(s, pat, i) && k < |pat|
    ensures s[i + k] == pat[k]
  {
    assert s[i..i + |pat|][k] == s[i + k];
  }

  function Shift(r: Option<nat>, n: nat): Option<nat>
  {
    match r
    case None => None
    case Some(i) => Some(i + n)
  }

  /** A position whose character differs from the pattern's first one starts no match. */
  lemma NoMatchAt(s: string, pat: string, i: nat)
    requires pat != [] && (i < |s| ==> s[i] != pat[0])
    ensures !MatchesAt(s, pat, i)
  {
    if i + |pat| <= |s| {
      assert s[i..i + |pat|][0] == s[i];
    }
  }

  /** The first match is at `i` when there is one there and none before it. */
  lemma FindIs(s: string, pat: string, i: nat)
    requires MatchesAt(s, pat, i)
    requires forall j: nat :: j < i ==> !MatchesAt(s, pat, j)
    ensures Find(s, pat) == Some(i)
  {
  }

  /** A position where some character of the pattern differs starts no match. */
  lemma NoMatchAtOffset(s: string, pat: string, i: nat, k: nat)
    requires k < |pat| && (i + k < |s| ==> s[i + k] != pat[k])
    ensures !MatchesAt(s, pat, i)
  {
    if i + |pat| <= |s| {
      assert s[i..i + |pat|][k] == s[i + k];
    }
  }

  /** When nothing in the prefix `x` starts a match, `find` goes straight to `y`. */
  lemma FindSkip(x: string, y: string, pat: string)
    requires forall i: nat :: i < |x| ==> !MatchesAt(x + y, pat, i)
    ensures Find(x + y, pat) == Shift(Find(y, pat), |x|)
  {
    var r := Find(x + y, pat);
    var q := Find(y, pat);
    if q.Some? {
      MatchesAtShift(x, y, pat, q.value);
      MatchesAtShift(x, y, pat, r.value - |x|);
    } else if r.Some? {
      MatchesAtShift(x, y, pat, r.value - |x|);
    }
  }

  /** `lines` of a text that ends each of its lines with a newline, followed by more text. */
  lemma {:induction false} LinesAppend(e: string, y: string)
    requires e == [] || e[|e| - 1] == '\n'
    ensures Lines(e + y) == Lines(e) + Lines(y)
    decreases |e|
  {
    if e == [] {
      assert e + y == y;
    } else {
      var s := e + y;
      assert MatchesAt(e, "\n", |e| - 1) by { assert e[|e| - 1..|e|] == "\n"; }
      var i := Find(e, "\n").value;
      assert MatchesAt(s, "\n", i) by { assert s[i..i + 1] == e[i..i + 1]; }
      forall j: nat | j < i ensures !MatchesAt(s, "\n", j) {
        assert !MatchesAt(e, "\n", j);
        assert e[j..j + 1] != "\n";
        NoMatchAt(s, "\n", j);
      }
      assert Find(s, "\n") == Some(i);
      assert s[..i] == e[..i];
      assert s[i + 1..] == e[i + 1..] + y;
      LinesAppend(e[i + 1..], y);
    }
  }

  /** The two lines of `m + "\n" + p` when neither part holds a newline. */
  lemma LinesOfPair(m: string, p: string)
    requires '\n' !in m && '\n' !in p && p != []
    ensures Lines(m + "\n" + p) == [StripCR(m), p]
  {
    var s := m + "\n" + p;
    assert MatchesAt(s, "\n", |m|) by { assert s[|m|..|m| + 1] == "\n"; }
    forall j: nat | j < |m| ensures !MatchesAt(s, "\n", j) {
      assert s[j] == m[j];
      NoMatchAt(s, "\n", j);
    }
    assert Find(s, "\n") == Some(|m|);
    assert s[..|m|] == m;
    assert s[|m| + 1..] == p;
    forall j: nat ensures !MatchesAt(p, "\n", j) {
      NoMatchAt(p, "\n", j);
    }
    assert Find(p, "\n") == None;
  }

  lemma AllWhitespaceConcat(a: string, b: string)
    requires AllWhitespace(a) && AllWhitespace(b)
    ensures AllWhitespace(a + b)
  {
    forall i | 0 <= i < |a + b| ensures IsWhitespace((a + b)[i]) {
      if i < |a| {
        assert (a + b)[i] == a[i];
      } else {
        assert (a + b)[i] == b[i - |a|];
      }
    }
  }

  /** Whitespace prepended before a non-whitespace start is trimmed away. */
  lemma {:induction false} TrimStartPadded(w: string, x: string)
    requires x == [] || !IsWhitespace(x[0])
    requires AllWhitespace(w)
    ensures TrimStart(w + x) == x
    decreases |w|
  {
    if w == [] {
      assert w + x == x;
    } else {
      assert (w + x)[1..] == w[1..] + x;
      TrimStartPadded(w[1..], x);
    }
  }

  /** Trimming the front of `e + y` stops inside `e` unless all of `e` is whitespace. */
  lemma {:induction false} TrimStartAppend(e: string, y: string)
    requires y != [] && !IsWhitespace(y[0])
    ensures TrimStart(e + y) == TrimStart(e) + y
    decreases |e|
  {
    if e == [] {
      assert e + y == y;
    } else if IsWhitespace(e[0]) {
      assert (e + y)[1..] == e[1..] + y;
      TrimStartAppend(e[1..], y);
    } else {
      assert (e + y)[0] == e[0];
    }
  }

  /** Trimming the end of `x + y` stops inside `y` when `y` ends in non-whitespace. */
  lemma TrimEndAppend(x: string, y: string)
    requires y != [] && !IsWhitespace(y[|y| - 1])
    ensures TrimEnd(x + y) == x + y
  {
    assert (x + y)[|x + y| - 1] == y[|y| - 1];
  }

  /** Padding around text that is all whitespace leaves only whitespace. */
  lemma AllWhitespacePadded(lead: string, s: string, trail: string)
    requires AllWhitespace(lead) && AllWhitespace(s) && AllWhitespace(trail)
    ensures Trim(lead + s + trail) == []
  {
    AllWhitespaceConcat(lead, s);
    AllWhitespaceConcat(lead + s, trail);
  }

  /** Trailing padding is cut back to where `TrimEnd(s)` ends. */
  lemma TrimEndOfPadded(lead: string, s: string, trail: string)
    requires AllWhitespace(trail)
    requires TrimEnd(s) != []
    ensures TrimEnd(lead + s + trail) == lead + TrimEnd(s)
  {
    TrimEndDropsWhitespace(lead + s, trail);
    TrimEndBehindLead(lead, s);
  }

  /** Whitespace appended to any text does not survive `trim_end`. */
  lemma {:induction false} TrimEndDropsWhitespace(y: string, w: string)
    requires AllWhitespace(w)
    ensures TrimEnd(y + w) == TrimEnd(y)
    decreases |w|
  {
    if w == [] {
      assert y + w == y;
    } else {
      var yw := y + w;
      assert yw[|yw| - 1] == w[|w| - 1];
      assert yw[..|yw| - 1] == y + w[..|w| - 1];
      TrimEndDropsWhitespace(y, w[..|w| - 1]);
    }
  }

  /** Text in front is kept by `trim_end` when `s` holds a non-whitespace character. */
  lemma {:induction false} TrimEndBehindLead(lead: string, s: string)
    requires TrimEnd(s) != []
    ensures TrimEnd(lead + s) == lead + TrimEnd(s)
    decreases |s|
  {
    var ls := lead + s;
    assert ls[|ls| - 1] == s[|s| - 1];
    if IsWhitespace(s[|s| - 1]) {
      assert ls[..|ls| - 1] == lead + s[..|s| - 1];
      TrimEndBehindLead(lead, s[..|s| - 1]);
    }
  }

  /** Whitespace in front of `w + t` goes together with the whitespace `w`. */
  lemma TrimStartJoined(lead: string, w: string, t: string)
    requires AllWhitespace(lead) && AllWhitespace(w)
    requires t != [] && !IsWhitespace(t[0])
    ensures TrimStart(lead + (w + t)) == t
  {
    assert lead + (w + t) == (lead + w) + t;
    AllWhitespaceConcat(lead, w);
    TrimStartPadded(lead + w, t);
  }

  /** Leading padding is cut forward to where `TrimStart(e)` starts. */
  lemma TrimStartOfPadded(lead: string, e: string)
    requires AllWhitespace(lead)
    requires TrimStart(e) != []
    ensures TrimStart(lead + e) == TrimStart(e)
  {
    var t := TrimStart(e);
    var w := e[..|e| - |t|];
    assert e == w + t;
    TrimStartJoined(lead, w, t);
  }

  /** Padding around text with a non-whitespace character is trimmed back to `Trim(s)`. */
  lemma TrimPadded(lead: string, s: string, trail: string)
    requires AllWhitespace(lead) && AllWhitespace(trail)
    requires TrimEnd(s) != []
    ensures Trim(lead + s + trail) == Trim(s)
  {
    var all := lead + s + trail;
    var e := TrimEnd(s);
    TrimEndOfPadded(lead, s, trail);
    TrimStartNonEmpty(e);
    TrimStartOfPadded(lead, e);
    assert Trim(all) == TrimStart(TrimEnd(all));
    assert Trim(s) == TrimStart(e);
  }

  /** A text that ends in non-whitespace keeps something after `trim_start`. */
  lemma TrimStartNonEmpty(e: string)
    requires e != [] && !IsWhitespace(e[|e| - 1])
    ensures TrimStart(e) != []
  {
    assert e[..|e|] == e;
  }

  /** `trim` ignores whitespace padding on either side. */
  lemma TrimIgnoresPadding(lead: string, s: string, trail: string)
    requires AllWhitespace(lead) && AllWhitespace(trail)
    ensures Trim(lead + s + trail) == Trim(s)
  {
    if TrimEnd(s) == [] {
      assert AllWhitespace(s) by { assert s[|TrimEnd(s)|..] == s; }
      AllWhitespacePadded(lead, s, trail);
    } else {
      TrimPadded(lead, s, trail);
    }
  }
}
