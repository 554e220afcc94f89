/**
 * The shape of the history entries the parser expects: a marker line
 * `#EXTVDJ:` followed by `<tag>value</tag>` elements, in any order, then the
 * played file's path on the next line. The lemmas here show that the parser in
 * `History` reads back exactly what such an entry holds, and when it panics.
 */
module HistoryFormat {
  import opened Wrappers
  import opened Text
  import opened Numbers
  import opened History

  datatype Field = Field(tag: string, value: string)

  function Element(f: Field): string
  {
    OpenTag(f.tag) + f.value + CloseTag(f.tag)
  }

  function Elements(fs: seq<Field>): string
  {
    if fs == [] then [] else Element(fs[0]) + Elements(fs[1..])
  }

  function MarkerLine(fs: seq<Field>): string
  {
    MARKER + Elements(fs)
  }

  /** A field whose tag and value cannot be mistaken for delimiters or line breaks. */
  predicate PlainField(f: Field)
  {
    PlainTag(f.tag) && '\n' !in f.tag && '<' !in f.value && '\n' !in f.value
  }

  predicate PlainFields(fs: seq<Field>)
  {
    forall i :: 0 <= i < |fs| ==> PlainField(fs[i])
  }

  /** The value of the first field with `tag`. */
  function Lookup(fs: seq<Field>, tag: string): (r: Option<string>)
    ensures r.None? <==> forall i :: 0 <= i < |fs| ==> fs[i].tag != tag
    ensures r.Some? ==> exists i :: (0 <= i < |fs| && fs[i] == Field(tag, r.value)
      && forall k :: 0 <= k < i ==> fs[k].tag != tag)
  {
    if fs == [] then None
    else if fs[0].tag == tag then Some(fs[0].value)
    else
      var r := Lookup(fs[1..], tag);
      assert forall i :: 0 < i < |fs| ==> fs[i] == fs[1..][i - 1];
      assert r.Some? ==> exists i :: (0 <= i < |fs| - 1 && fs[1..][i] == Field(tag, r.value)
        && forall k :: 0 <= k < i ==> fs[1..][k].tag != tag);
      r
  }

  /** Where the first element with `tag` starts in `Elements(fs)`. */
  function OpenAt(fs: seq<Field>, tag: string): Option<nat>
  {
    if fs == [] then None
    else if fs[0].tag == tag then Some(0)
    else Shift(OpenAt(fs[1..], tag), |Element(fs[0])|)
  }

  // ---------------------------------------------------------------------
  // One element

  /** The characters of an element followed by more text. */
  lemma ElementChars(f: Field, y: string)
    ensures var s := Element(f) + y;
      var t := f.tag;
      var c := |t| + 2 + |f.value|;
      && |Element(f)| == c + |t| + 3
      && s[0] == '<' && s[|t| + 1] == '>' && s[c] == '<' && s[c + 1] == '/'
      && (forall k :: 1 <= k <= |t| ==> s[k] == t[k - 1])
      && (forall k :: |t| + 2 <= k < c ==> s[k] == f.value[k - |t| - 2])
      && (forall k :: c + 2 <= k < c + 2 + |t| ==> s[k] == t[k - c - 2])
      && s[c + |t| + 2] == '>'
      && s[..c] == OpenTag(t) + f.value
      && s[|t| + 2..c] == f.value
  {
    var s := Element(f) + y;
    var t := f.tag;
    assert s == "<" + t + ">" + f.value + "</" + t + ">" + y;
  }

  /** Inside a plain element only its two delimiters start with `<`. */
  lemma NotBracketAt(f: Field, y: string, k: nat)
    requires PlainField(f)
    requires 0 < k < |Element(f)| && k != |f.tag| + 2 + |f.value|
    ensures (Element(f) + y)[k] != '<'
  {
    ElementChars(f, y);
    var t := f.tag;
    var c := |t| + 2 + |f.value|;
    if 1 <= k <= |t| {
      assert t[k - 1] in t;
    } else if c + 2 <= k < c + 2 + |t| {
      assert t[k - c - 2] in t;
    } else if |t| + 2 <= k < c {
      assert f.value[k - |t| - 2] in f.value;
    }
  }

  /** The second character of `<tag>` is never `/` for a plain tag. */
  lemma OpenTagSecond(tag: string)
    requires PlainTag(tag)
    ensures |OpenTag(tag)| >= 2 && OpenTag(tag)[1] != '/'
  {
    if tag != [] {
      assert OpenTag(tag)[1] == tag[0];
    }
  }

  /** `p + tag + ">"` does not match where `p + other + ">"` is written, for different tags. */
  lemma OtherBracketNoMatch(p: string, tag: string, other: string, r: string)
    requires '>' !in tag && '>' !in other && tag != other
    ensures !MatchesAt(p + other + ">" + r, p + tag + ">", 0)
  {
    var s := p + other + ">" + r;
    var pat := p + tag + ">";
    if |tag| < |other| {
      assert s[|p| + |tag|] == other[|tag|];
      assert other[|tag|] in other;
      NoMatchAtOffset(s, pat, 0, |p| + |tag|);
    } else if |tag| > |other| {
      assert pat[|p| + |other|] == tag[|other|];
      assert tag[|other|] in tag;
      NoMatchAtOffset(s, pat, 0, |p| + |other|);
    } else {
      var k :| 0 <= k < |tag| && tag[k] != other[k];
      assert s[|p| + k] == other[k];
      assert pat[|p| + k] == tag[k];
      NoMatchAtOffset(s, pat, 0, |p| + k);
    }
  }

  /** Neither delimiter of another plain tag matches where an element starts. */
  lemma OtherAtStart(f: Field, y: string, tag: string)
    requires PlainField(f) && PlainTag(tag) && f.tag != tag
    ensures !MatchesAt(Element(f) + y, OpenTag(tag), 0)
    ensures !MatchesAt(Element(f) + y, CloseTag(tag), 0)
  {
    var s := Element(f) + y;
    var r := f.value + CloseTag(f.tag) + y;
    assert s == "<" + f.tag + ">" + r;
    OtherBracketNoMatch("<", tag, f.tag, r);
    OpenTagSecond(f.tag);
    assert s[1] == OpenTag(f.tag)[1];
    NoMatchAtOffset(s, CloseTag(tag), 0, 1);
  }

  /** Neither delimiter of another plain tag matches where an element's close tag starts. */
  lemma OtherAtClose(f: Field, y: string, tag: string)
    requires PlainField(f) && PlainTag(tag) && f.tag != tag
    ensures !MatchesAt(Element(f) + y, OpenTag(tag), |f.tag| + 2 + |f.value|)
    ensures !MatchesAt(Element(f) + y, CloseTag(tag), |f.tag| + 2 + |f.value|)
  {
    var head := OpenTag(f.tag) + f.value;
    var s := Element(f) + y;
    var rest := CloseTag(f.tag) + y;
    assert s == head + rest;
    assert |head| == |f.tag| + 2 + |f.value|;
    OpenTagSecond(tag);
    assert rest[1] == '/';
    NoMatchAtOffset(rest, OpenTag(tag), 0, 1);
    MatchesAtShift(head, rest, OpenTag(tag), 0);
    assert rest == "</" + f.tag + ">" + y;
    OtherBracketNoMatch("</", tag, f.tag, y);
    MatchesAtShift(head, rest, CloseTag(tag), 0);
  }

  /** Neither delimiter of `tag` occurs inside an element with another plain tag. */
  lemma NoMatchInOtherElement(f: Field, y: string, tag: string, j: nat)
    requires PlainField(f) && PlainTag(tag) && f.tag != tag
    requires j < |Element(f)|
    ensures !MatchesAt(Element(f) + y, OpenTag(tag), j)
    ensures !MatchesAt(Element(f) + y, CloseTag(tag), j)
  {
    if j == 0 {
      OtherAtStart(f, y, tag);
    } else if j == |f.tag| + 2 + |f.value| {
      OtherAtClose(f, y, tag);
    } else {
      NotBracketAt(f, y, j);
      NoMatchAtOffset(Element(f) + y, OpenTag(tag), j, 0);
      NoMatchAtOffset(Element(f) + y, CloseTag(tag), j, 0);
    }
  }

  /** An element begins with its own open tag. */
  lemma OpenTagStarts(f: Field, y: string)
    ensures MatchesAt(Element(f) + y, OpenTag(f.tag), 0)
  {
    var s := Element(f) + y;
    assert s == OpenTag(f.tag) + (f.value + CloseTag(f.tag) + y);
    assert s[..|OpenTag(f.tag)|] == OpenTag(f.tag);
  }

  /** An element's close tag follows its value. */
  lemma CloseTagFollows(f: Field, y: string)
    ensures MatchesAt(Element(f) + y, CloseTag(f.tag), |f.tag| + 2 + |f.value|)
  {
    var head := OpenTag(f.tag) + f.value;
    assert Element(f) + y == head + (CloseTag(f.tag) + y);
    MatchesAtShift(head, CloseTag(f.tag) + y, CloseTag(f.tag), 0);
    assert (CloseTag(f.tag) + y)[..|CloseTag(f.tag)|] == CloseTag(f.tag);
  }

  /** No `</tag>` starts before the element's close tag. */
  lemma NoCloseBefore(f: Field, y: string, j: nat)
    requires PlainField(f) && j < |f.tag| + 2 + |f.value|
    ensures !MatchesAt(Element(f) + y, CloseTag(f.tag), j)
  {
    var s := Element(f) + y;
    if j == 0 {
      OpenTagSecond(f.tag);
      assert s[1] == OpenTag(f.tag)[1] by {
        assert s == OpenTag(f.tag) + (f.value + CloseTag(f.tag) + y);
      }
      NoMatchAtOffset(s, CloseTag(f.tag), j, 1);
    } else {
      NotBracketAt(f, y, j);
      NoMatchAtOffset(s, CloseTag(f.tag), j, 0);
    }
  }

  /** In an element with `tag`, `<tag>` starts it and the first `</tag>` is its own close tag. */
  lemma FindsInOwnElement(f: Field, y: string)
    requires PlainField(f)
    ensures Find(Element(f) + y, OpenTag(f.tag)) == Some(0)
    ensures Find(Element(f) + y, CloseTag(f.tag)) == Some(|f.tag| + 2 + |f.value|)
  {
    OpenTagStarts(f, y);
    FindIs(Element(f) + y, OpenTag(f.tag), 0);
    CloseTagFollows(f, y);
    forall j: nat | j < |f.tag| + 2 + |f.value| ensures !MatchesAt(Element(f) + y, CloseTag(f.tag), j) {
      NoCloseBefore(f, y, j);
    }
    FindIs(Element(f) + y, CloseTag(f.tag), |f.tag| + 2 + |f.value|);
  }

  // ---------------------------------------------------------------------
  // A sequence of elements

  lemma PlainFieldsSplit(fs: seq<Field>)
    requires fs != [] && PlainFields(fs)
    ensures PlainField(fs[0]) && PlainFields(fs[1..])
  {
    forall i | 0 <= i < |fs[1..]| ensures PlainField(fs[1..][i]) {
      assert fs[1..][i] == fs[i + 1];
    }
  }

  /** The value sits between the element's two tags. */
  lemma ValueInElement(f: Field, y: string)
    ensures |f.tag| + 2 + |f.value| <= |Element(f) + y|
    ensures (Element(f) + y)[|f.tag| + 2..|f.tag| + 2 + |f.value|] == f.value
  {
    var head := OpenTag(f.tag);
    assert Element(f) + y == head + f.value + (CloseTag(f.tag) + y);
    assert (head + f.value + (CloseTag(f.tag) + y))[|head|..|head| + |f.value|] == f.value;
  }

  /** The search for either delimiter of another tag passes over an element. */
  lemma SkipOtherElement(f: Field, y: string, tag: string)
    requires PlainField(f) && PlainTag(tag) && f.tag != tag
    ensures Find(Element(f) + y, OpenTag(tag)) == Shift(Find(y, OpenTag(tag)), |Element(f)|)
    ensures Find(Element(f) + y, CloseTag(tag)) == Shift(Find(y, CloseTag(tag)), |Element(f)|)
  {
    forall j: nat | j < |Element(f)|
      ensures !MatchesAt(Element(f) + y, OpenTag(tag), j) && !MatchesAt(Element(f) + y, CloseTag(tag), j)
    {
      NoMatchInOtherElement(f, y, tag, j);
    }
    FindSkip(Element(f), y, OpenTag(tag));
    FindSkip(Element(f), y, CloseTag(tag));
  }

  lemma SliceOfAppend(x: string, y: string, i: nat, n: nat)
    requires i + n <= |y|
    ensures (x + y)[|x| + i..|x| + i + n] == y[i..i + n]
  {
  }

  /**
   * In `s`, `<tag>` is first found at `open`, and `</tag>` right after
   * `value` when there is one; neither is found when there is no value.
   */
  ghost predicate DelimitersAt(s: string, tag: string, open: Option<nat>, value: Option<string>)
  {
    && Find(s, OpenTag(tag)) == open
    && (open.None? <==> value.None?)
    && (value.None? ==> Find(s, CloseTag(tag)) == None)
    && (value.Some? && open.Some? ==>
          && open.value + |OpenTag(tag)| + |value.value| <= |s|
          && Find(s, CloseTag(tag)) == Some(open.value + |OpenTag(tag)| + |value.value|)
          && s[open.value + |OpenTag(tag)|..open.value + |OpenTag(tag)| + |value.value|] == value.value)
  }

  /** The delimiters of `tag` in `Elements(fs)` are where the first field with `tag` was written. */
  ghost predicate DelimitersAsWritten(fs: seq<Field>, tag: string)
  {
    DelimitersAt(Elements(fs), tag, OpenAt(fs, tag), Lookup(fs, tag))
  }

  /** Text in front that holds neither delimiter shifts where both are found. */
  lemma DelimitersShift(x: string, e: string, tag: string, open: Option<nat>, value: Option<string>)
    requires DelimitersAt(e, tag, open, value)
    requires Find(x + e, OpenTag(tag)) == Shift(Find(e, OpenTag(tag)), |x|)
    requires Find(x + e, CloseTag(tag)) == Shift(Find(e, CloseTag(tag)), |x|)
    ensures DelimitersAt(x + e, tag, Shift(open, |x|), value)
  {
    if value.Some? && open.Some? {
      var i := open.value + |OpenTag(tag)|;
      SliceOfAppend(x, e, i, |value.value|);
    }
  }

  /** In a run of plain elements, the delimiters of a plain tag are found where they were written. */
  lemma {:induction false} FindsInElements(fs: seq<Field>, tag: string)
    requires PlainFields(fs) && PlainTag(tag)
    ensures DelimitersAsWritten(fs, tag)
    decreases |fs|
  {
    if fs != [] {
      PlainFieldsSplit(fs);
      if fs[0].tag == tag {
        FindsInFirst(fs, tag);
      } else {
        FindsInElements(fs[1..], tag);
        FindsAfterFirst(fs, tag);
      }
    }
  }

  /** When the first element has the tag, both delimiters are that element's. */
  lemma FindsInFirst(fs: seq<Field>, tag: string)
    requires fs != [] && PlainField(fs[0]) && fs[0].tag == tag
    ensures DelimitersAsWritten(fs, tag)
  {
    var f := fs[0];
    assert Elements(fs) == Element(f) + Elements(fs[1..]);
    FindsInOwnElement(f, Elements(fs[1..]));
    ValueInElement(f, Elements(fs[1..]));
  }

  /** When the first element has another tag, the search passes over it. */
  lemma FindsAfterFirst(fs: seq<Field>, tag: string)
    requires fs != [] && PlainField(fs[0]) && PlainTag(tag) && fs[0].tag != tag
    requires DelimitersAsWritten(fs[1..], tag)
    ensures DelimitersAsWritten(fs, tag)
  {
    var f := fs[0];
    var rest := fs[1..];
    var e := Elements(rest);
    assert Elements(fs) == Element(f) + e;
    assert OpenAt(fs, tag) == Shift(OpenAt(rest, tag), |Element(f)|);
    assert Lookup(fs, tag) == Lookup(rest, tag);
    SkipOtherElement(f, e, tag);
    DelimitersShift(Element(f), e, tag, OpenAt(rest, tag), Lookup(rest, tag));
  }

  /** `FindsInElements` for the open tag. */
  lemma OpenFound(fs: seq<Field>, tag: string)
    requires PlainFields(fs) && PlainTag(tag)
    ensures Find(Elements(fs), OpenTag(tag)) == OpenAt(fs, tag)
    ensures OpenAt(fs, tag).None? <==> Lookup(fs, tag).None?
  {
    FindsInElements(fs, tag);
  }

  /** `FindsInElements` for the close tag and the value, when the tag is present. */
  lemma CloseFound(fs: seq<Field>, tag: string, o: nat, v: string)
    requires PlainFields(fs) && PlainTag(tag)
    requires OpenAt(fs, tag) == Some(o) && Lookup(fs, tag) == Some(v)
    ensures Find(Elements(fs), CloseTag(tag)) == Some(o + |OpenTag(tag)| + |v|)
    ensures o + |OpenTag(tag)| + |v| <= |Elements(fs)|
    ensures Elements(fs)[o + |OpenTag(tag)|..o + |OpenTag(tag)| + |v|] == v
  {
    FindsInElements(fs, tag);
    DelimitersAtValue(Elements(fs), tag, o, v);
  }

  lemma DelimitersAtValue(s: string, tag: string, o: nat, v: string)
    requires DelimitersAt(s, tag, Some(o), Some(v))
    ensures Find(s, CloseTag(tag)) == Some(o + |OpenTag(tag)| + |v|)
    ensures o + |OpenTag(tag)| + |v| <= |s|
    ensures s[o + |OpenTag(tag)|..o + |OpenTag(tag)| + |v|] == v
  {
  }

  /** Text without `<` holds no start of a delimiter, so `find` passes over it. */
  lemma SkipBracketFree(x: string, e: string, pat: string)
    requires '<' !in x && pat != [] && pat[0] == '<'
    ensures Find(x + e, pat) == Shift(Find(e, pat), |x|)
  {
    forall i: nat | i < |x| ensures !MatchesAt(x + e, pat, i) {
      assert (x + e)[i] == x[i];
      NoMatchAtOffset(x + e, pat, i, 0);
    }
    FindSkip(x, e, pat);
  }

  /** No character of the marker prefix is `<`. */
  lemma MarkerSkipped(e: string, pat: string)
    requires pat != [] && pat[0] == '<'
    ensures Find(MARKER + e, pat) == Shift(Find(e, pat), |MARKER|)
  {
    assert '<' !in MARKER;
    SkipBracketFree(MARKER, e, pat);
  }

  /**
   * On a marker line of plain fields, `extract_tag` returns the value of the
   * first field with the tag, or nothing, and never panics.
   */
  lemma ExtractFromMarkerLine(fs: seq<Field>, tag: string)
    requires PlainFields(fs) && PlainTag(tag)
    ensures Lookup(fs, tag).None? ==> ExtractTag(MarkerLine(fs), tag) == NoTag
    ensures Lookup(fs, tag).Some? ==> ExtractTag(MarkerLine(fs), tag) == Tagged(Lookup(fs, tag).value)
  {
    var e := Elements(fs);
    assert MarkerLine(fs) == MARKER + e;
    OpenFound(fs, tag);
    if Lookup(fs, tag).Some? {
      var o := OpenAt(fs, tag).value;
      var v := Lookup(fs, tag).value;
      CloseFound(fs, tag, o, v);
      ExtractAfterMarker(e, tag, o, v);
    } else {
      ExtractAfterMarkerMissing(e, tag);
    }
  }

  /** `extract_tag` on a marker line, from where the delimiters are in the text after the marker. */
  lemma ExtractAfterMarker(e: string, tag: string, o: nat, v: string)
    requires Find(e, OpenTag(tag)) == Some(o)
    requires Find(e, CloseTag(tag)) == Some(o + |OpenTag(tag)| + |v|)
    requires o + |OpenTag(tag)| + |v| <= |e| && e[o + |OpenTag(tag)|..o + |OpenTag(tag)| + |v|] == v
    ensures ExtractTag(MARKER + e, tag) == Tagged(v)
  {
    var i := o + |OpenTag(tag)|;
    MarkerSkipped(e, OpenTag(tag));
    MarkerSkipped(e, CloseTag(tag));
    SliceOfAppend(MARKER, e, i, |v|);
    ExtractTagBetween(MARKER + e, tag, |MARKER| + o, |MARKER| + i + |v|);
  }

  lemma ExtractAfterMarkerMissing(e: string, tag: string)
    requires Find(e, OpenTag(tag)).None?
    ensures ExtractTag(MARKER + e, tag) == NoTag
  {
    MarkerSkipped(e, OpenTag(tag));
    ExtractTagMissing(MARKER + e, tag);
  }

  // ---------------------------------------------------------------------
  // Whole entries

  /** The entry a written history pair stands for, with the parser's defaults. */
  function ExpectedEntry(fs: seq<Field>, path: string): HistoryTrack
  {
    var stamp: u64 := match Lookup(fs, "lastplaytime")
      case None => 0
      case Some(s) => ParseU64(s).GetOr(0);
    HistoryTrack(Lookup(fs, "artist").GetOr(UNKNOWN), Lookup(fs, "title").GetOr(UNKNOWN), path, stamp)
  }

  lemma {:induction false} ElementsHaveNoNewline(fs: seq<Field>)
    requires PlainFields(fs)
    ensures '\n' !in Elements(fs)
    ensures Elements(fs) == [] || Elements(fs)[|Elements(fs)| - 1] == '>'
    decreases |fs|
  {
    if fs != [] {
      var f := fs[0];
      assert PlainField(f);
      assert PlainFields(fs[1..]) by {
        forall i | 0 <= i < |fs[1..]| ensures PlainField(fs[1..][i]) {
          assert fs[1..][i] == fs[i + 1];
        }
      }
      ElementsHaveNoNewline(fs[1..]);
      assert Element(f) == "<" + f.tag + ">" + f.value + "</" + f.tag + ">";
      assert Elements(fs) == Element(f) + Elements(fs[1..]);
    }
  }

  /** A marker line of plain fields is one line, starting with the marker and not ending in `\r`. */
  lemma MarkerLineShape(fs: seq<Field>)
    requires PlainFields(fs)
    ensures var m := MarkerLine(fs);
      m != [] && m[0] == '#' && '\n' !in m && m[|m| - 1] != '\r' && StartsWith(m, MARKER)
  {
    var m := MarkerLine(fs);
    var e := Elements(fs);
    assert m == MARKER + e;
    ElementsHaveNoNewline(fs);
    assert '\n' !in m by {
      forall i | 0 <= i < |m| ensures m[i] != '\n' {
        if i >= |MARKER| {
          assert m[i] == e[i - |MARKER|];
        }
      }
    }
    assert m[|m| - 1] != '\r' by {
      if e != [] {
        assert m[|m| - 1] == e[|e| - 1];
      }
    }
    assert m[..|MARKER|] == MARKER;
  }

  /** What `extract_tag` finds for `tag` on the marker line of `fs`. */
  function FoundTag(fs: seq<Field>, tag: string): (r: TagMatch)
    requires PlainFields(fs) && PlainTag(tag)
    ensures ExtractTag(MarkerLine(fs), tag) == r
    ensures !r.SlicePanic?
    ensures Lookup(fs, tag).None? ==> r == NoTag
    ensures Lookup(fs, tag).Some? ==> r == Tagged(Lookup(fs, tag).value)
  {
    ExtractFromMarkerLine(fs, tag);
    match Lookup(fs, tag)
    case None => NoTag
    case Some(v) => Tagged(v)
  }

  /** The marker line's three sub-fields, read back. */
  lemma MarkerFields(fs: seq<Field>, path: string)
    requires PlainFields(fs)
    ensures EntryOfLines([MarkerLine(fs), path]) == Returned(Some(ExpectedEntry(fs, path)))
  {
    MarkerLineShape(fs);
    var artist := FoundTag(fs, "artist");
    var title := FoundTag(fs, "title");
    var played := FoundTag(fs, "lastplaytime");
    EntryOfPair(MarkerLine(fs), path, artist, title, played);
  }

  /**
   * Round trip: whatever complete lines come before it and whatever
   * whitespace comes after it, a history file ending in a written pair
   * yields that pair's entry.
   */
  lemma ParseWrittenEntry(earlier: string, fs: seq<Field>, path: string, trailing: string)
    requires earlier == [] || earlier[|earlier| - 1] == '\n'
    requires PlainFields(fs) && PlainPath(path)
    requires AllWhitespace(trailing)
    ensures ParseLastEntry(earlier + (MarkerLine(fs) + "\n" + path) + trailing)
      == Returned(Some(ExpectedEntry(fs, path)))
  {
    MarkerLineShape(fs);
    ParseOfPair(earlier, MarkerLine(fs), path, trailing);
    MarkerFields(fs, path);
  }

  /** One play's fields, in one sample order (`ParseWrittenEntry` covers every order). */
  function PlayFields(artist: string, title: string, played: u64): seq<Field>
  {
    [Field("lastplaytime", NatToString(played)), Field("artist", artist), Field("title", title)]
  }

  lemma PlayFieldsPlain(artist: string, title: string, played: u64)
    requires '<' !in artist && '\n' !in artist && '<' !in title && '\n' !in title
    ensures PlainFields(PlayFields(artist, title, played))
  {
    var fs := PlayFields(artist, title, played);
    var digits := NatToString(played);
    forall i | 0 <= i < |digits| ensures digits[i] != '<' && digits[i] != '\n' {
      assert IsDigit(digits[i]);
    }
    TagNamesPlain();
    assert PlainField(fs[0]);
    assert PlainField(fs[1]);
    assert PlainField(fs[2]);
  }

  /** The three tag names the parser looks for are plain and hold no line break. */
  lemma TagNamesPlain()
    ensures PlainTag("lastplaytime") && '\n' !in "lastplaytime"
    ensures PlainTag("artist") && '\n' !in "artist"
    ensures PlainTag("title") && '\n' !in "title"
  {
  }

  lemma PlayFieldsLookup(artist: string, title: string, played: u64)
    ensures Lookup(PlayFields(artist, title, played), "lastplaytime") == Some(NatToString(played))
    ensures Lookup(PlayFields(artist, title, played), "artist") == Some(artist)
    ensures Lookup(PlayFields(artist, title, played), "title") == Some(title)
  {
    var fs := PlayFields(artist, title, played);
    assert fs[1..] == [Field("artist", artist), Field("title", title)];
    assert fs[1..][1..] == [Field("title", title)];
    assert Lookup(fs[1..][1..], "title") == Some(title);
    assert Lookup(fs[1..], "title") == Some(title);
  }

  lemma PlayFieldsRead(artist: string, title: string, played: u64, path: string)
    requires '<' !in artist && '\n' !in artist && '<' !in title && '\n' !in title
    ensures PlainFields(PlayFields(artist, title, played))
    ensures ExpectedEntry(PlayFields(artist, title, played), path) == HistoryTrack(artist, title, path, played)
  {
    PlayFieldsPlain(artist, title, played);
    PlayFieldsLookup(artist, title, played);
    ParseU64RoundTrip(played);
  }

  /** An entry written for one play comes back with its artist, title, time and path. */
  lemma ParseOnePlay(earlier: string, artist: string, title: string, played: u64, path: string)
    requires earlier == [] || earlier[|earlier| - 1] == '\n'
    requires '<' !in artist && '\n' !in artist && '<' !in title && '\n' !in title
    requires PlainPath(path)
    ensures ParseLastEntry(earlier + (MarkerLine(PlayFields(artist, title, played)) + "\n" + path) + "\n")
      == Returned(Some(HistoryTrack(artist, title, path, played)))
  {
    PlayFieldsRead(artist, title, played, path);
    assert AllWhitespace("\n");
    ParseWrittenEntry(earlier, PlayFields(artist, title, played), path, "\n");
  }

  lemma ExpectedWithoutFields(fs: seq<Field>, path: string)
    requires forall i :: 0 <= i < |fs| ==> fs[i].tag != "artist" && fs[i].tag != "title" && fs[i].tag != "lastplaytime"
    ensures ExpectedEntry(fs, path) == HistoryTrack(UNKNOWN, UNKNOWN, path, 0)
  {
  }

  /** A marker line whose fields lack artist, title and time reports the defaults. */
  lemma MissingFieldsDefault(fs: seq<Field>, path: string)
    requires PlainFields(fs) && PlainPath(path)
    requires forall i :: 0 <= i < |fs| ==> fs[i].tag != "artist" && fs[i].tag != "title" && fs[i].tag != "lastplaytime"
    ensures ParseLastEntry(MarkerLine(fs) + "\n" + path) == Returned(Some(HistoryTrack(UNKNOWN, UNKNOWN, path, 0)))
  {
    ExpectedWithoutFields(fs, path);
    var none: string := [];
    var entry := MarkerLine(fs) + "\n" + path;
    ParseWrittenEntry(none, fs, path, none);
    assert none + entry + none == entry;
  }

  // ---------------------------------------------------------------------
  // The panic

  /**
   * A close tag written before the open tag makes `extract_tag` slice
   * backwards: the parser panics.
   */
  lemma ReversedTagsPanic(x: string, tag: string, y: string)
    requires '<' !in x && PlainTag(tag)
    ensures ExtractTag(x + CloseTag(tag) + OpenTag(tag) + y, tag) == SlicePanic
  {
    var close := CloseTag(tag);
    var open := OpenTag(tag);
    var rest := close + (open + y);
    assert x + close + open + y == x + rest;
    SkipBracketFree(x, rest, close);
    SkipBracketFree(x, rest, open);
    FoundAtStart(close, open + y);
    CloseThenOpen(tag, y);
    assert rest == close + open + y;
  }

  /** A text that starts with `pat` has its first `pat` at 0. */
  lemma FoundAtStart(pat: string, y: string)
    ensures Find(pat + y, pat) == Some(0)
  {
    assert (pat + y)[..|pat|] == pat;
    FindIs(pat + y, pat, 0);
  }

  /** After `</tag>`, the first `<tag>` is the one that follows it. */
  lemma CloseThenOpen(tag: string, y: string)
    requires PlainTag(tag)
    ensures Find(CloseTag(tag) + OpenTag(tag) + y, OpenTag(tag)) == Some(|CloseTag(tag)|)
  {
    var close := CloseTag(tag);
    var open := OpenTag(tag);
    var s := close + (open + y);
    assert close + open + y == s;
    OpenTagSecond(tag);
    forall i: nat | i < |close| ensures !MatchesAt(s, open, i) {
      if i == 0 {
        assert s[1] == '/';
        NoMatchAtOffset(s, open, i, 1);
      } else {
        assert s[i] == close[i];
        assert close[i] != '<' by {
          if 2 <= i < |close| - 1 {
            assert close[i] == tag[i - 2];
          }
        }
        NoMatchAtOffset(s, open, i, 0);
      }
    }
    FindSkip(close, open + y, open);
    FoundAtStart(open, y);
  }

  /** A whole history file whose marker line has `</artist>` before `<artist>`. */
  lemma ReversedArtistPanics(y: string, path: string)
    requires '\n' !in y && (y == [] || y[|y| - 1] != '\r') && PlainPath(path)
    ensures ParseLastEntry(MARKER + CloseTag("artist") + OpenTag("artist") + y + "\n" + path) == Panicked
  {
    var head := MARKER + CloseTag("artist") + OpenTag("artist");
    var m := head + y;
    ReversedMarkerShape(y);
    ReversedTagsPanic(MARKER, "artist", y);
    ParseOfPairAlone(m, path);
    assert EntryOfLines([m, path]) == Panicked;
  }

  /** The reversed marker line is one line that starts with the marker. */
  lemma ReversedMarkerShape(y: string)
    requires '\n' !in y && (y == [] || y[|y| - 1] != '\r')
    ensures var m := MARKER + CloseTag("artist") + OpenTag("artist") + y;
      m != [] && m[0] == '#' && '\n' !in m && m[|m| - 1] != '\r' && StartsWith(m, MARKER)
  {
    var head := MARKER + CloseTag("artist") + OpenTag("artist");
    var m := head + y;
    assert head == "#EXTVDJ:</artist><artist>";
    assert '\n' !in head;
    assert m[0] == '#';
    assert m[|m| - 1] != '\r' by {
      if y == [] {
        assert m[|m| - 1] == '>';
      } else {
        assert m[|m| - 1] == y[|y| - 1];
      }
    }
    assert m[..|MARKER|] == MARKER;
  }
}
