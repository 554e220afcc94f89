/**
 * The `read_virtualdj_history` command: pick the most recently modified
 * `.m3u` file in VirtualDJ's history directory, read it, and turn its last
 * two lines (an `#EXTVDJ:` marker line and a file path) into a history
 * entry. The environment, the directory listing and the file read are
 * parameters; a slice that Rust would panic on is the outcome `Panicked`.
 */
module History {
  import opened Wrappers
  import opened Text
  import opened Numbers

  /** What running a piece of Rust code ends in: a value, or a panic. */
  datatype Outcome<+T> = Returned(value: T) | Panicked

  // ---------------------------------------------------------------------
  // Paths

  /** `PathBuf::push` of a relative component: a `/` is added unless the base is empty or already ends in one. */
  function JoinPath(base: string, part: string): (r: string)
    ensures base != [] && base[|base| - 1] != '/' ==> r == base + "/" + part
    ensures (base == [] || base[|base| - 1] == '/') ==> r == base + part
  {
    if base == [] || base[|base| - 1] == '/' then base + part else base + "/" + part
  }

  /** Pushing `a` and then `b` is pushing the relative path `a/b` when `a` does not end in `/`. */
  lemma JoinTwice(base: string, a: string, b: string)
    requires a != [] && a[|a| - 1] != '/'
    ensures JoinPath(JoinPath(base, a), b) == JoinPath(base, a + "/" + b)
  {
    var sep := if base == [] || base[|base| - 1] == '/' then [] else "/";
    var first := base + sep + a;
    assert JoinPath(base, a) == first;
    assert first[|first| - 1] == a[|a| - 1];
    assert JoinPath(first, b) == first + "/" + b;
    assert JoinPath(base, a + "/" + b) == base + sep + (a + "/" + b);
  }

  /** The components below `$HOME` that lead to the history directory. */
  const LIBRARY: string := "Library"
  const SUPPORT: string := "Application Support"
  const VIRTUALDJ: string := "VirtualDJ"
  const HISTORY: string := "History"
  const HISTORY_SUBPATH: string := LIBRARY + "/" + SUPPORT + "/" + VIRTUALDJ + "/" + HISTORY

  /** `$HOME` joined with `Library`, `Application Support`, `VirtualDJ` and `History`. */
  function HistoryDir(home: string): (r: string)
    ensures r == JoinPath(home, HISTORY_SUBPATH)
  {
    var r := JoinPath(JoinPath(JoinPath(JoinPath(home, LIBRARY), SUPPORT), VIRTUALDJ), HISTORY);
    var a := LIBRARY;
    var b := a + "/" + SUPPORT;
    var c := b + "/" + VIRTUALDJ;
    assert a[|a| - 1] == 'y';
    JoinTwice(home, a, SUPPORT);
    assert b[|b| - 1] == SUPPORT[|SUPPORT| - 1] == 't';
    JoinTwice(home, b, VIRTUALDJ);
    assert c[|c| - 1] == VIRTUALDJ[|VIRTUALDJ| - 1] == 'J';
    JoinTwice(home, c, HISTORY);
    r
  }

  /** The index of the last `.` in `name`. */
  function LastDot(name: string): (r: Option<nat>)
    ensures r.Some? ==> r.value < |name| && name[r.value] == '.'
    ensures r.Some? ==> forall j :: r.value < j < |name| ==> name[j] != '.'
    ensures r.None? ==> forall j :: 0 <= j < |name| ==> name[j] != '.'
  {
    if name == [] then None
    else if name[|name| - 1] == '.' then Some(|name| - 1)
    else LastDot(name[..|name| - 1])
  }

  /**
   * `Path::extension` of a file name: the text after the last `.`, unless
   * there is no dot, the only dot starts the name, or the name is `..`.
   */
  function Extension(name: string): (r: Option<string>)
    ensures r.Some? ==> '.' !in r.value
    ensures r.Some? ==> exists i :: 0 < i < |name| && name[i] == '.' && r.value == name[i + 1..]
    ensures (forall i :: 0 < i < |name| ==> name[i] != '.') ==> r.None?
    ensures name != ".." && (exists i :: 0 < i < |name| && name[i] == '.') ==> r.Some?
  {
    if name == ".." then None
    else match LastDot(name)
      case None => None
      case Some(i) =>
        if i == 0 then None
        else
          var ext := name[i + 1..];
          assert forall k :: 0 <= k < |ext| ==> ext[k] == name[i + 1 + k];
          Some(ext)
  }

  /** A "stem.m3u" name has the extension "m3u", whatever dots the stem holds. */
  lemma ExtensionOfM3u(stem: string)
    requires stem != []
    ensures Extension(stem + ".m3u") == Some("m3u")
  {
    var name := stem + ".m3u";
    assert name != ".." by { assert name[|name| - 1] == 'u'; }
    assert name[|stem|] == '.';
    assert name[|stem| + 1..] == "m3u";
    assert LastDot(name) == Some(|stem|) by {
      var r := LastDot(name);
      assert r.Some?;
      assert name[|stem| + 1] == 'm' && name[|stem| + 2] == '3' && name[|stem| + 3] == 'u';
    }
  }

  /** A name has the extension "m3u" exactly when it is longer than ".m3u" and ends in it. */
  lemma M3uExtension(name: string)
    ensures Extension(name) == Some("m3u") <==> |name| > 4 && name[|name| - 4..] == ".m3u"
  {
    if |name| > 4 && name[|name| - 4..] == ".m3u" {
      var stem := name[..|name| - 4];
      assert name == stem + ".m3u";
      ExtensionOfM3u(stem);
    }
    if Extension(name) == Some("m3u") {
      var i :| 0 < i < |name| && name[i] == '.' && "m3u" == name[i + 1..];
      DotBeforeM3u(name, i);
    }
  }

  /** A dot followed by exactly "m3u" makes the name end in ".m3u". */
  lemma DotBeforeM3u(name: string, i: nat)
    requires 0 < i < |name| && name[i] == '.' && name[i + 1..] == "m3u"
    ensures |name| > 4 && name[|name| - 4..] == ".m3u"
  {
    assert |name| == i + 4;
    assert name[i..] == [name[i]] + name[i + 1..];
  }

  // ---------------------------------------------------------------------
  // Choosing the history file

  /** What the selection needs to know about one directory entry. */
  datatype DirEntry = DirEntry(
    name: string,             // the file name inside the directory
    isFile: bool,             // `Path::is_file`
    modified: Option<int>)    // the modification time, when the metadata could be read

  /** A regular file whose extension is exactly `m3u`. */
  predicate IsHistoryFile(e: DirEntry): (b: bool)
    ensures b <==> e.isFile && |e.name| > 4 && e.name[|e.name| - 4..] == ".m3u"
  {
    M3uExtension(e.name);
    e.isFile && Extension(e.name) == Some("m3u")
  }

  /** The entry at `i` was read and is a history file (`entry.ok()` and the filter). */
  predicate CandidateAt(entries: seq<Result<DirEntry, string>>, i: int)
  {
    0 <= i < |entries| && entries[i].Success? && IsHistoryFile(entries[i].value)
  }

  /** The order `Option<SystemTime>` uses: a missing time is below every present one. */
  predicate KeyLess(a: Option<int>, b: Option<int>)
  {
    b.Some? && (a.None? || a.value < b.value)
  }

  function Key(entries: seq<Result<DirEntry, string>>, i: int): Option<int>
    requires 0 <= i < |entries| && entries[i].Success?
  {
    entries[i].value.modified
  }

  /**
   * `r` is what `max_by_key` may return over the candidates of `entries`: a
   * candidate whose key no candidate exceeds, later than every other
   * candidate with the same key; none exactly when there is no candidate.
   */
  ghost predicate IsNewest(entries: seq<Result<DirEntry, string>>, r: Option<nat>)
  {
    && (r.Some? ==> CandidateAt(entries, r.value))
    && (r.Some? ==> forall j :: CandidateAt(entries, j) ==>
          !KeyLess(Key(entries, r.value), Key(entries, j)))
    && (r.Some? ==> forall j :: r.value < j && CandidateAt(entries, j) ==>
          KeyLess(Key(entries, j), Key(entries, r.value)))
    && (r.None? <==> forall j :: !CandidateAt(entries, j))
  }

  /** The key `max_by_key` sees for one entry, or nothing when the filters drop it. */
  function Rank(entry: Result<DirEntry, string>): Option<Option<int>>
  {
    if entry.Success? && IsHistoryFile(entry.value) then Some(entry.value.modified) else None
  }

  /** The rank of every entry of the listing, in order. */
  function Ranks(entries: seq<Result<DirEntry, string>>): (ks: seq<Option<Option<int>>>)
    ensures |ks| == |entries|
  {
    seq(|entries|, i requires 0 <= i < |entries| => Rank(entries[i]))
  }

  /**
   * The same choice over ranks alone: `r` holds a key that no key exceeds
   * and that every later key is below; none exactly when nothing is ranked.
   */
  ghost predicate IsLastMax(ks: seq<Option<Option<int>>>, r: Option<nat>)
  {
    && (r.Some? ==> r.value < |ks| && ks[r.value].Some?)
    && (r.Some? ==> forall j :: 0 <= j < |ks| && ks[j].Some? ==>
          !KeyLess(ks[r.value].value, ks[j].value))
    && (r.Some? ==> forall j :: r.value < j < |ks| && ks[j].Some? ==>
          KeyLess(ks[j].value, ks[r.value].value))
    && (r.None? <==> forall j :: 0 <= j < |ks| ==> ks[j].None?)
  }

  /**
   * `Iterator::max_by_key`, as the fold it is: each new ranked element
   * replaces the best so far unless the best so far has the greater key, so
   * of several maximal elements the last one wins.
   */
  function MaxByKey(ks: seq<Option<Option<int>>>): (r: Option<nat>)
    ensures IsLastMax(ks, r)
  {
    if ks == [] then None
    else
      var last := |ks| - 1;
      var best := MaxByKey(ks[..last]);
      if ks[last].None? then
        MaxSkip(ks, best); best
      else if best.Some? && KeyLess(ks[last].value, ks[best.value].value) then
        MaxKeep(ks, best); best
      else
        MaxTake(ks, best); Some(last)
  }

  /** An unranked last element leaves the choice as it was. */
  lemma MaxSkip(ks: seq<Option<Option<int>>>, best: Option<nat>)
    requires ks != [] && ks[|ks| - 1].None?
    requires IsLastMax(ks[..|ks| - 1], best)
    ensures IsLastMax(ks, best)
  {
    var init := ks[..|ks| - 1];
    forall j | 0 <= j < |init| ensures init[j] == ks[j] {
    }
  }

  /** A last key below the best so far leaves the choice as it was. */
  lemma MaxKeep(ks: seq<Option<Option<int>>>, best: Option<nat>)
    requires ks != [] && ks[|ks| - 1].Some?
    requires IsLastMax(ks[..|ks| - 1], best)
    requires best.Some? && KeyLess(ks[|ks| - 1].value, ks[best.value].value)
    ensures IsLastMax(ks, best)
  {
    var init := ks[..|ks| - 1];
    forall j | 0 <= j < |init| ensures init[j] == ks[j] {
    }
  }

  /** A last key that is not below the best so far becomes the choice. */
  lemma MaxTake(ks: seq<Option<Option<int>>>, best: Option<nat>)
    requires ks != [] && ks[|ks| - 1].Some?
    requires IsLastMax(ks[..|ks| - 1], best)
    requires best.Some? ==> !KeyLess(ks[|ks| - 1].value, ks[best.value].value)
    ensures IsLastMax(ks, Some(|ks| - 1))
  {
    var init := ks[..|ks| - 1];
    forall j | 0 <= j < |init| ensures init[j] == ks[j] {
    }
  }

  /** The choice over ranks is the only one the specification allows. */
  lemma LastMaxUnique(ks: seq<Option<Option<int>>>, r1: Option<nat>, r2: Option<nat>)
    requires IsLastMax(ks, r1) && IsLastMax(ks, r2)
    ensures r1 == r2
  {
    if r1.Some? && r2.Some? {
      var a, b := r1.value, r2.value;
      assert !KeyLess(ks[a].value, ks[b].value) && !KeyLess(ks[b].value, ks[a].value);
    }
  }

  /** The history file `max_by_key` picks from the listing: the newest candidate, the last of equals. */
  function NewestIndex(entries: seq<Result<DirEntry, string>>): (r: Option<nat>)
    ensures IsNewest(entries, r)
  {
    var r := MaxByKey(Ranks(entries));
    LastMaxIsNewest(entries, r);
    r
  }

  /** The choice over the ranks of a listing is the newest candidate of the listing. */
  lemma LastMaxIsNewest(entries: seq<Result<DirEntry, string>>, r: Option<nat>)
    requires IsLastMax(Ranks(entries), r)
    ensures IsNewest(entries, r)
  {
    var ks := Ranks(entries);
    forall j | 0 <= j < |entries| ensures ks[j].Some? <==> CandidateAt(entries, j) {
    }
    forall j | CandidateAt(entries, j) ensures ks[j] == Some(Key(entries, j)) {
    }
  }

  const NO_HISTORY_FILES: string := "No history files found"
  const READ_DIR_ERROR_PREFIX: string := "Failed to read history directory: "

  /**
   * The path of the history file to read, from the listing of `dir`: a
   * listing error is reported with its prefix, no candidate is an error, and
   * otherwise the chosen entry's name is joined to the directory.
   */
  function SelectHistoryFile(dir: string, listing: Result<seq<Result<DirEntry, string>>, string>): (r: Result<string, string>)
    ensures listing.Failure? ==> r == Failure(READ_DIR_ERROR_PREFIX + listing.error)
    ensures listing.Success? && (forall j :: !CandidateAt(listing.value, j)) ==>
      r == Failure(NO_HISTORY_FILES)
    ensures listing.Success? && r.Success? ==>
      exists i :: CandidateAt(listing.value, i)
        && r.value == JoinPath(dir, listing.value[i].value.name)
        && (forall j :: CandidateAt(listing.value, j) ==>
              !KeyLess(Key(listing.value, i), Key(listing.value, j)))
    ensures listing.Success? && (exists j :: CandidateAt(listing.value, j)) ==> r.Success?
  {
    match listing
    case Failure(e) => Failure(READ_DIR_ERROR_PREFIX + e)
    case Success(entries) =>
      match NewestIndex(entries)
      case None => Failure(NO_HISTORY_FILES)
      case Some(i) => Success(JoinPath(dir, entries[i].value.name))
  }

  /** Adding an older history file to the directory does not change the choice. */
  lemma OlderFileIgnored(entries: seq<Result<DirEntry, string>>, e: DirEntry)
    requires NewestIndex(entries).Some?
    requires KeyLess(e.modified, Key(entries, NewestIndex(entries).value))
    ensures NewestIndex(entries + [Success(e)]) == NewestIndex(entries)
  {
    var ks := Ranks(entries);
    var i := NewestIndex(entries).value;
    assert MaxByKey(ks) == Some(i) && ks[i] == Some(Key(entries, i));
    assert Ranks(entries + [Success(e)]) == ks + [Rank(Success(e))];
    MaxIgnoresOlder(ks, Rank(Success(e)));
  }

  /** An appended key below the current choice, or no key at all, leaves the choice as it was. */
  lemma MaxIgnoresOlder(ks: seq<Option<Option<int>>>, k: Option<Option<int>>)
    requires MaxByKey(ks).Some?
    requires k.None? || KeyLess(k.value, ks[MaxByKey(ks).value].value)
    ensures MaxByKey(ks + [k]) == MaxByKey(ks)
  {
    assert (ks + [k])[..|ks|] == ks;
  }

  /** A history file appended to the listing wins when it is at least as new as the current choice. */
  lemma NewerFileChosen(entries: seq<Result<DirEntry, string>>, e: DirEntry)
    requires IsHistoryFile(e)
    requires NewestIndex(entries).None? || !KeyLess(e.modified, Key(entries, NewestIndex(entries).value))
    ensures NewestIndex(entries + [Success(e)]) == Some(|entries|)
  {
    var ks := Ranks(entries);
    assert MaxByKey(ks) == NewestIndex(entries);
    assert MaxByKey(ks).Some? ==> ks[MaxByKey(ks).value] == Some(Key(entries, MaxByKey(ks).value));
    assert Ranks(entries + [Success(e)]) == ks + [Some(e.modified)];
    MaxTakesNewer(ks, e.modified);
  }

  /** An appended key not below the current choice becomes the choice. */
  lemma MaxTakesNewer(ks: seq<Option<Option<int>>>, key: Option<int>)
    requires MaxByKey(ks).None? || !KeyLess(key, ks[MaxByKey(ks).value].value)
    ensures MaxByKey(ks + [Some(key)]) == Some(|ks|)
  {
    assert (ks + [Some(key)])[..|ks|] == ks;
  }

  // ---------------------------------------------------------------------
  // extract_tag

  function OpenTag(tag: string): string { "<" + tag + ">" }
  function CloseTag(tag: string): string { "</" + tag + ">" }

  /** What `extract_tag` does: no value, a value, or a panic on a reversed slice. */
  datatype TagMatch = NoTag | Tagged(text: string) | SlicePanic

  /**
   * The text between the first `<tag>` and the first `</tag>`. When that
   * close tag starts before the open tag ends, the slice `start..end` is
   * reversed and Rust panics.
   */
  function ExtractTag(content: string, tag: string): (r: TagMatch)
    ensures r.NoTag? <==> Find(content, OpenTag(tag)).None? || Find(content, CloseTag(tag)).None?
    ensures r.SlicePanic? <==>
      Find(content, OpenTag(tag)).Some? && Find(content, CloseTag(tag)).Some?
      && Find(content, CloseTag(tag)).value < Find(content, OpenTag(tag)).value + |OpenTag(tag)|
    ensures r.Tagged? ==>
      var i := Find(content, OpenTag(tag)).value + |OpenTag(tag)|;
      var j := Find(content, CloseTag(tag)).value;
      i <= j <= |content| && r.text == content[i..j]
        && MatchesAt(content, OpenTag(tag), i - |OpenTag(tag)|) && MatchesAt(content, CloseTag(tag), j)
  {
    var start := OpenTag(tag);
    var end := CloseTag(tag);
    match Find(content, start)
    case None => NoTag
    case Some(i) =>
      var startIdx := i + |start|;
      match Find(content, end)
      case None => NoTag
      case Some(j) => if startIdx <= j then Tagged(content[startIdx..j]) else SlicePanic
  }

  /** `extract_tag` when both delimiters are found, in order. */
  lemma ExtractTagBetween(content: string, tag: string, i: nat, j: nat)
    requires Find(content, OpenTag(tag)) == Some(i) && Find(content, CloseTag(tag)) == Some(j)
    requires i + |OpenTag(tag)| <= j
    ensures ExtractTag(content, tag) == Tagged(content[i + |OpenTag(tag)|..j])
  {
  }

  /** `extract_tag` when the open tag is not found. */
  lemma ExtractTagMissing(content: string, tag: string)
    requires Find(content, OpenTag(tag)).None?
    ensures ExtractTag(content, tag) == NoTag
  {
  }

  /** A tag name that cannot overlap its own delimiters. */
  predicate PlainTag(tag: string)
  {
    '<' !in tag && '>' !in tag && '/' !in tag
  }

  /**
   * For a plain tag, `extract_tag` panics exactly when the first `</tag>`
   * comes before the first `<tag>`.
   */
  lemma PanicIffCloseBeforeOpen(content: string, tag: string)
    requires PlainTag(tag)
    ensures ExtractTag(content, tag).SlicePanic? <==>
      Find(content, OpenTag(tag)).Some? && Find(content, CloseTag(tag)).Some?
      && Find(content, CloseTag(tag)).value < Find(content, OpenTag(tag)).value
  {
    var o := Find(content, OpenTag(tag));
    var c := Find(content, CloseTag(tag));
    if o.Some? && c.Some? && o.value <= c.value < o.value + |OpenTag(tag)| {
      CloseInsideOpen(content, tag, o.value, c.value);
    }
  }

  /** No `</tag>` starts inside a `<tag>` of a plain tag. */
  lemma CloseInsideOpen(content: string, tag: string, i: nat, j: nat)
    requires PlainTag(tag)
    requires MatchesAt(content, OpenTag(tag), i) && i <= j < i + |OpenTag(tag)|
    ensures !MatchesAt(content, CloseTag(tag), j)
  {
    var open := OpenTag(tag);
    if j == i {
      MatchesAtChar(content, open, i, 1);
      assert open[1] != '/' by {
        if tag != [] {
          assert open[1] == tag[0];
        }
      }
      NoMatchAtOffset(content, CloseTag(tag), j, 1);
    } else {
      MatchesAtChar(content, open, i, j - i);
      assert open[j - i] != '<' by {
        if j - i <= |tag| {
          assert open[j - i] == tag[j - i - 1];
        }
      }
      NoMatchAtOffset(content, CloseTag(tag), j, 0);
    }
  }

  // ---------------------------------------------------------------------
  // The trailing entry

  const MARKER: string := "#EXTVDJ:"
  const UNKNOWN: string := "Unknown"

  datatype HistoryTrack = HistoryTrack(artist: string, title: string, filePath: string, timestamp: u64)

  /** A text sub-field, `"Unknown"` when the tag is missing. */
  function TextOrUnknown(m: TagMatch): (r: string)
    requires !m.SlicePanic?
    ensures m.Tagged? ==> r == m.text
    ensures m.NoTag? ==> r == UNKNOWN
  {
    if m.Tagged? then m.text else UNKNOWN
  }

  /** The timestamp sub-field, 0 when the tag is missing or is not a `u64`. */
  function TimestampOrZero(m: TagMatch): (r: u64)
    requires !m.SlicePanic?
    ensures m.Tagged? && ParseU64(m.text).Some? ==> r == ParseU64(m.text).value
    ensures m.NoTag? || ParseU64(m.text).None? ==> r == 0
  {
    if m.Tagged? then ParseU64(m.text).GetOr(0) else 0
  }

  /** The lines `lines()` gives for the trimmed text of a history file. */
  function TrailingLines(content: string): (r: seq<string>)
    ensures r == [] <==> AllWhitespace(content)
  {
    Lines(Trim(content))
  }

  /**
   * The entry that the last two of `lines` describe. Fewer than two lines,
   * or a second-to-last line without the marker, is no entry; otherwise the
   * last line is the path and the marker line's sub-fields are extracted.
   */
  function EntryOfLines(lines: seq<string>): (r: Outcome<Option<HistoryTrack>>)
    ensures (r == Returned(None)) <==> (|lines| < 2 || !StartsWith(lines[|lines| - 2], MARKER))
    ensures r.Panicked? <==>
      |lines| >= 2 && StartsWith(lines[|lines| - 2], MARKER)
      && (ExtractTag(lines[|lines| - 2], "artist").SlicePanic?
          || ExtractTag(lines[|lines| - 2], "title").SlicePanic?
          || ExtractTag(lines[|lines| - 2], "lastplaytime").SlicePanic?)
    ensures r.Returned? && r.value.Some? ==>
      var entry := r.value.value;
      var marker := lines[|lines| - 2];
      entry.filePath == lines[|lines| - 1]
        && (var artist := ExtractTag(marker, "artist");
            (artist.Tagged? ==> entry.artist == artist.text) && (artist.NoTag? ==> entry.artist == UNKNOWN))
        && (var title := ExtractTag(marker, "title");
            (title.Tagged? ==> entry.title == title.text) && (title.NoTag? ==> entry.title == UNKNOWN))
        && (var played := ExtractTag(marker, "lastplaytime");
            (played.Tagged? && ParseU64(played.text).Some? ==> entry.timestamp == ParseU64(played.text).value)
            && (played.NoTag? || (played.Tagged? && ParseU64(played.text).None?) ==> entry.timestamp == 0))
  {
    if |lines| < 2 then Returned(None)
    else
      var filePath := lines[|lines| - 1];
      var marker := lines[|lines| - 2];
      if !StartsWith(marker, MARKER) then Returned(None)
      else
        var artist := ExtractTag(marker, "artist");
        var title := ExtractTag(marker, "title");
        var played := ExtractTag(marker, "lastplaytime");
        if artist.SlicePanic? || title.SlicePanic? || played.SlicePanic? then Panicked
        else Returned(Some(HistoryTrack(TextOrUnknown(artist), TextOrUnknown(title), filePath, TimestampOrZero(played))))
  }

  /** The entry of a marker line and a path line, from what `extract_tag` finds on the marker line. */
  lemma EntryOfPair(m: string, path: string, artist: TagMatch, title: TagMatch, played: TagMatch)
    requires StartsWith(m, MARKER)
    requires ExtractTag(m, "artist") == artist && !artist.SlicePanic?
    requires ExtractTag(m, "title") == title && !title.SlicePanic?
    requires ExtractTag(m, "lastplaytime") == played && !played.SlicePanic?
    ensures EntryOfLines([m, path]) ==
      Returned(Some(HistoryTrack(TextOrUnknown(artist), TextOrUnknown(title), path, TimestampOrZero(played))))
  {
    var lines := [m, path];
    assert lines[|lines| - 2] == m && lines[|lines| - 1] == path;
  }

  /** Only the last two lines count. */
  lemma EntryOfLastTwo(a: seq<string>, b: seq<string>)
    requires |a| >= 2 && |b| >= 2
    requires a[|a| - 1] == b[|b| - 1] && a[|a| - 2] == b[|b| - 2]
    ensures EntryOfLines(a) == EntryOfLines(b)
  {
  }

  /** Lines in front of two or more lines do not change the entry. */
  lemma EntryOfAppend(a: seq<string>, b: seq<string>)
    requires |b| >= 2
    ensures EntryOfLines(a + b) == EntryOfLines(b)
  {
    var ab := a + b;
    assert ab[|ab| - 1] == b[|b| - 1] && ab[|ab| - 2] == b[|b| - 2];
    EntryOfLastTwo(ab, b);
  }

  /**
   * The last entry of a history file's text; the path it reports is never
   * empty, holds no newline and does not end in whitespace.
   */
  function ParseLastEntry(content: string): (r: Outcome<Option<HistoryTrack>>)
    ensures r.Returned? && r.value.Some? ==>
      var path := r.value.value.filePath;
      path != [] && '\n' !in path && !IsWhitespace(path[|path| - 1])
  {
    var lines := TrailingLines(content);
    var r := EntryOfLines(lines);
    if r.Returned? && r.value.Some? then LastLineOfTrimmed(content); r else r
  }

  /** The last of the lines of a nonempty text is its nonempty, newline-free tail. */
  lemma {:induction false} LastLine(s: string)
    requires s != [] && s[|s| - 1] != '\n'
    ensures var lines := Lines(s);
      var last := lines[|lines| - 1];
      last != [] && '\n' !in last && |last| <= |s| && last == s[|s| - |last|..]
        && last[|last| - 1] == s[|s| - 1]
    decreases |s|
  {
    match Find(s, "\n")
    case None =>
      assert Lines(s) == [s];
      NoNewline(s);
      assert s[|s| - |s|..] == s;
    case Some(i) =>
      var rest := s[i + 1..];
      assert rest != [] by { assert s[i..i + 1] == "\n"; }
      assert rest[|rest| - 1] == s[|s| - 1];
      LastLine(rest);
      var tail := Lines(rest);
      assert Lines(s) == [StripCR(s[..i])] + tail;
      var last := tail[|tail| - 1];
      assert Lines(s)[|Lines(s)| - 1] == last;
      assert rest[|rest| - |last|..] == s[|s| - |last|..];
  }

  /** A text in which `find` sees no newline holds none. */
  lemma NoNewline(s: string)
    requires Find(s, "\n") == None
    ensures '\n' !in s
  {
    forall k | 0 <= k < |s| ensures s[k] != '\n' {
      assert !MatchesAt(s, "\n", k);
      assert s[k..k + 1] == [s[k]];
    }
  }

  /** The last of the trailing lines is a nonempty path ending in a non-whitespace character. */
  lemma LastLineOfTrimmed(content: string)
    requires |TrailingLines(content)| >= 2
    ensures var lines := TrailingLines(content);
      var last := lines[|lines| - 1];
      last != [] && '\n' !in last && !IsWhitespace(last[|last| - 1])
  {
    var t := Trim(content);
    assert TrailingLines(content) == Lines(t);
    assert t != [] && !IsWhitespace(t[|t| - 1]);
    LastLineEnds(t);
  }

  /** The last line of a text that ends in non-whitespace ends in that same character. */
  lemma LastLineEnds(t: string)
    requires t != [] && !IsWhitespace(t[|t| - 1])
    ensures var lines := Lines(t);
      var last := lines[|lines| - 1];
      last != [] && '\n' !in last && !IsWhitespace(last[|last| - 1])
  {
    LastLine(t);
  }

  /** Whitespace around the file's text does not change the entry. */
  lemma PaddingIgnored(lead: string, content: string, trail: string)
    requires AllWhitespace(lead) && AllWhitespace(trail)
    ensures ParseLastEntry(lead + content + trail) == ParseLastEntry(content)
  {
    TrimIgnoresPadding(lead, content, trail);
    assert TrailingLines(lead + content + trail) == TrailingLines(content);
  }

  /** The lines of a trimmed text with complete lines in front of it. */
  lemma TrailingLinesAppend(earlier: string, content: string)
    requires earlier == [] || earlier[|earlier| - 1] == '\n'
    requires Trim(content) == content && content != []
    ensures TrailingLines(earlier + content) == Lines(TrimStart(earlier)) + Lines(content)
  {
    assert !IsWhitespace(content[0]) && !IsWhitespace(content[|content| - 1]);
    TrimEndAppend(earlier, content);
    TrimStartAppend(earlier, content);
    var e := TrimStart(earlier);
    assert Trim(earlier + content) == e + content;
    assert e == [] || e[|e| - 1] == '\n' by {
      if e != [] {
        assert e[|e| - 1] == earlier[|earlier| - 1];
      }
    }
    LinesAppend(e, content);
  }

  /**
   * Entries written earlier in the day do not matter: once the text ends in
   * two lines, complete lines before it change nothing.
   */
  lemma EarlierLinesIgnored(earlier: string, content: string)
    requires earlier == [] || earlier[|earlier| - 1] == '\n'
    requires Trim(content) == content && |Lines(content)| >= 2
    ensures ParseLastEntry(earlier + content) == ParseLastEntry(content)
  {
    TrailingLinesAppend(earlier, content);
    var tail := Lines(content);
    var front := Lines(TrimStart(earlier));
    assert TrailingLines(content) == tail;
    EntryOfAppend(front, tail);
    assert ParseLastEntry(earlier + content) == EntryOfLines(front + tail);
  }

  /** A path line the parser keeps whole. */
  predicate PlainPath(path: string)
  {
    path != [] && '\n' !in path && !IsWhitespace(path[|path| - 1])
  }

  /** A marker line and a path line keep their shape through `trim` and `lines`. */
  lemma PairLines(m: string, path: string)
    requires m != [] && m[0] == '#' && '\n' !in m && m[|m| - 1] != '\r'
    requires PlainPath(path)
    ensures Trim(m + "\n" + path) == m + "\n" + path
    ensures Lines(m + "\n" + path) == [m, path]
  {
    var pair := m + "\n" + path;
    LinesOfPair(m, path);
    assert pair[0] == '#';
    assert pair[|pair| - 1] == path[|path| - 1];
    var none: string := [];
    TrimEndAppend(none, pair);
    TrimStartAppend(none, pair);
    assert none + pair == pair;
  }

  /**
   * A history file that ends in a marker line and a path line, with complete
   * lines before them and whitespace after, is read from those two lines.
   */
  lemma ParseOfPair(earlier: string, m: string, path: string, trailing: string)
    requires earlier == [] || earlier[|earlier| - 1] == '\n'
    requires m != [] && m[0] == '#' && '\n' !in m && m[|m| - 1] != '\r'
    requires PlainPath(path) && AllWhitespace(trailing)
    ensures ParseLastEntry(earlier + (m + "\n" + path) + trailing) == EntryOfLines([m, path])
  {
    var pair := m + "\n" + path;
    TrailingIgnored(earlier + pair, trailing);
    PairLines(m, path);
    EarlierLinesIgnored(earlier, pair);
    ParseOfPairAlone(m, path);
  }

  lemma TrailingIgnored(x: string, trailing: string)
    requires AllWhitespace(trailing)
    ensures ParseLastEntry(x + trailing) == ParseLastEntry(x)
  {
    var none: string := [];
    TrimIgnoresPadding(none, x, trailing);
    assert none + x == x;
    assert TrailingLines(x + trailing) == TrailingLines(x);
  }

  lemma ParseOfPairAlone(m: string, path: string)
    requires m != [] && m[0] == '#' && '\n' !in m && m[|m| - 1] != '\r'
    requires PlainPath(path)
    ensures ParseLastEntry(m + "\n" + path) == EntryOfLines([m, path])
  {
    PairLines(m, path);
    assert TrailingLines(m + "\n" + path) == [m, path];
  }

  // ---------------------------------------------------------------------
  // The command

  /**
   * `read_virtualdj_history`: `HOME` is looked up, the history directory is
   * listed, the newest file is read and its trailing entry parsed. A failed
   * file read is no entry, not an error.
   */
  function ReadHistory(
    home: Result<string, string>,
    listDir: string -> Result<seq<Result<DirEntry, string>>, string>,
    readFile: string -> Result<string, string>): (r: Outcome<Result<Option<HistoryTrack>, string>>)
    ensures home.Failure? ==> r == Returned(Failure(home.error))
    ensures home.Success? ==>
      var dir := HistoryDir(home.value);
      var chosen := SelectHistoryFile(dir, listDir(dir));
      && (chosen.Failure? ==> r == Returned(Failure(chosen.error)))
      && (chosen.Success? && readFile(chosen.value).Failure? ==> r == Returned(Success(None)))
      && (chosen.Success? && readFile(chosen.value).Success? ==>
            match ParseLastEntry(readFile(chosen.value).value)
            case Panicked => r.Panicked?
            case Returned(entry) => r == Returned(Success(entry)))
    ensures r.Returned? && r.value.Failure? ==>
      home.Failure? || r.value.error == NO_HISTORY_FILES || StartsWith(r.value.error, READ_DIR_ERROR_PREFIX)
  {
    match home
    case Failure(e) => Returned(Failure(e))
    case Success(h) =>
      var dir := HistoryDir(h);
      match SelectHistoryFile(dir, listDir(dir))
      case Failure(e) =>
        assert StartsWith(e, READ_DIR_ERROR_PREFIX) || e == NO_HISTORY_FILES by {
          var listing := listDir(dir);
          if listing.Failure? {
            assert (READ_DIR_ERROR_PREFIX + listing.error)[..|READ_DIR_ERROR_PREFIX|] == READ_DIR_ERROR_PREFIX;
          }
        }
        Returned(Failure(e))
      case Success(path) =>
        match readFile(path)
        case Failure(_) => Returned(Success(None))
        case Success(content) =>
          match ParseLastEntry(content)
          case Panicked => Panicked
          case Returned(entry) => Returned(Success(entry))
  }
}
