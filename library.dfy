/**
 * Import of a VirtualDJ library database: the deserialised song records,
 * the conversion of the stored beat period to a tempo, the projection of a
 * song onto the track record the front end displays, and the import command
 * that maps every song of the database to a track.
 */
module Library {
  import opened Wrappers
  import opened Text
  import opened Numbers

  /** The `Infos` element of a song. */
  datatype Infos = Infos(
    songLength: Option<string>,
    firstSeen: Option<string>,
    playCount: Option<string>)

  /** The `Tags` element of a song. */
  datatype Tags = Tags(
    author: Option<string>,
    title: Option<string>,
    genre: Option<string>,
    album: Option<string>,
    trackNumber: Option<string>,
    year: Option<string>,
    flag: Option<string>)

  /** The `Scan` element of a song; `bpm` holds a beat period in seconds. */
  datatype Scan = Scan(
    version: Option<string>,
    bpm: Option<string>,
    altBpm: Option<string>,
    volume: Option<string>,
    key: Option<string>,
    audioSig: Option<string>,
    flag: Option<string>)

  /**
   * A `Song` element. Its `Comment` and `Poi` children are read and
   * discarded by the deserialiser, so they carry nothing here.
   */
  datatype Song = Song(
    filePath: string,
    fileSize: Option<string>,
    tags: Option<Tags>,
    scan: Option<Scan>,
    infos: Option<Infos>)

  /** The root `VirtualDJ_Database` element. */
  datatype Database = Database(version: Option<string>, songs: seq<Song>)

  /** The record handed to the front end; `duration` is in whole seconds. */
  datatype Track = Track(
    filePath: string,
    artist: Option<string>,
    title: Option<string>,
    bpm: Option<string>,
    key: Option<string>,
    duration: Option<i32>)

  const XML_ERROR_PREFIX: string := "XML parsing error: "

  /**
   * The tempo, in beats per minute and written with one decimal, of a beat
   * period; absent when the period is not above zero. The comparison is
   * the IEEE one, so a NaN period passes it and gives the text "NaN", and
   * an infinite period gives a tempo of 0.
   */
  function BpmFromPeriod(period: Float): (r: Option<string>)
    ensures r.None? <==> AtMostZero(period)
    ensures period.NaN? ==> r == Some("NaN")
    ensures period == Infinity(false) ==> r == Some("0.0")
  {
    if AtMostZero(period) then None
    else
      match period
      case NaN => Some("NaN")
      case Infinity(_) => FormatZero(); Some(FormatOneDecimal(0.0))
      case Finite(p) => Some(FormatOneDecimal(60.0 / p))
  }

  lemma FormatZero()
    ensures FormatOneDecimal(0.0) == "0.0"
  {
    assert RoundHalfEven(0.0) == 0;
  }

  /**
   * `convert_virtualdj_bpm`: the stored text parsed as a number and
   * converted; absent when it does not parse or is not above zero.
   */
  function ConvertBpm(stored: string): (r: Option<string>)
    ensures r.None? <==> ParseFloat(stored).None? || AtMostZero(ParseFloat(stored).value)
    ensures ParseFloat(stored).Some? ==> r == BpmFromPeriod(ParseFloat(stored).value)
  {
    match ParseFloat(stored)
    case None => None
    case Some(period) => BpmFromPeriod(period)
  }

  /**
   * For a positive finite period, the tempo text reads back as 60 divided
   * by the period, to within half a tenth.
   */
  lemma BpmInvertsPeriod(period: real)
    requires period > 0.0
    ensures BpmFromPeriod(Finite(period)).Some?
    ensures ParsesWithin(BpmFromPeriod(Finite(period)).value, 60.0 / period, 0.05)
  {
    var bpm := 60.0 / period;
    assert BpmFromPeriod(Finite(period)) == Some(FormatOneDecimal(bpm));
    FormatOneDecimalParses(bpm);
  }

  /** A positive period whose tempo rounds to `whole.tenth` gives that text. */
  lemma BpmOfPositivePeriod(period: real, whole: nat, tenth: nat)
    requires period > 0.0 && tenth < 10
    requires RoundHalfEven(10.0 * (60.0 / period)) == 10 * whole + tenth
    ensures BpmFromPeriod(Finite(period)) == Some(NatToString(whole) + "." + [DigitChar(tenth)])
  {
    var x := 60.0 / period;
    var k := RoundHalfEven(10.0 * x);
    assert k / 10 == whole && k % 10 == tenth;
    assert FormatOneDecimal(x) == NatToString(k / 10) + "." + [DigitChar(k % 10)];
  }

  /**
   * Stored text of the form `whole.fraction` whose period gives a tempo that
   * rounds to `tempo.tenth` converts to that text.
   */
  lemma ConvertBpmOfPointed(whole: string, fraction: string, tempo: nat, tenth: nat)
    requires whole != [] && AllDigits(whole) && AllDigits(fraction) && tenth < 10
    requires PointedValue(whole, fraction) > 0.0
    requires RoundHalfEven(10.0 * (60.0 / PointedValue(whole, fraction))) == 10 * tempo + tenth
    ensures ConvertBpm(whole + "." + fraction) == Some(NatToString(tempo) + "." + [DigitChar(tenth)])
  {
    ParsePointed(whole, fraction);
    BpmOfPositivePeriod(PointedValue(whole, fraction), tempo, tenth);
  }

  /** 0.5 s per beat is 120 BPM. */
  lemma ConvertBpmHalfSecond()
    ensures ConvertBpm("0.5") == Some("120.0")
  {
    assert PointedValue("0", "5") == 0.5 by {
      assert DigitsValue("0") == 0 by { assert "0"[..0] == ""; }
      assert DigitsValue("5") == 5 by { assert "5"[..0] == ""; }
      assert Pow10(1) == 10.0;
    }
    assert RoundHalfEven(10.0 * (60.0 / 0.5)) == 1200 by {
      assert 10.0 * (60.0 / 0.5) == 1200.0;
      assert (1200.0).Floor == 1200;
    }
    ConvertBpmOfPointed("0", "5", 120, 0);
    assert "0" + "." + "5" == "0.5";
    assert NatToString(120) + "." + [DigitChar(0)] == "120.0";
  }

  /** 1.0 s per beat is 60 BPM. */
  lemma ConvertBpmOneSecond()
    ensures ConvertBpm("1.0") == Some("60.0")
  {
    assert PointedValue("1", "0") == 1.0 by {
      assert DigitsValue("1") == 1 by { assert "1"[..0] == ""; }
      assert DigitsValue("0") == 0 by { assert "0"[..0] == ""; }
    }
    assert RoundHalfEven(10.0 * (60.0 / 1.0)) == 600 by {
      assert 10.0 * (60.0 / 1.0) == 600.0;
      assert (600.0).Floor == 600;
    }
    ConvertBpmOfPointed("1", "0", 60, 0);
    assert "1" + "." + "0" == "1.0";
    assert NatToString(60) + "." + [DigitChar(0)] == "60.0";
  }

  /** 0.479 s per beat is 125.26 BPM, written 125.3. */
  lemma ConvertBpmRoundsToTenths()
    ensures ConvertBpm("0.479") == Some("125.3")
  {
    TempoOfPeriod479();
    ConvertBpmOfPointed("0", "479", 125, 3);
    assert "0" + "." + "479" == "0.479";
    assert NatToString(125) + "." + [DigitChar(3)] == "125.3";
  }

  /** The digits "0.479" denote 0.479, and ten times its tempo rounds to 1253. */
  lemma TempoOfPeriod479()
    ensures PointedValue("0", "479") == 0.479
    ensures RoundHalfEven(10.0 * (60.0 / 0.479)) == 1253
  {
    assert DigitsValue("479") == 479 by {
      assert "4"[..0] == "";
      assert DigitsValue("4") == 4;
      assert "47"[..1] == "4";
      assert DigitsValue("47") == 47;
      assert "479"[..2] == "47";
    }
    assert Pow10(3) == 1000.0 by {
      assert Pow10(1) == 10.0;
      assert Pow10(2) == 100.0;
    }
    assert DigitsValue("0") == 0 by { assert "0"[..0] == ""; }
    var x := 10.0 * (60.0 / 0.479);
    assert x == 600000.0 / 479.0;
    assert x.Floor == 1252;
  }

  /** The duration of a song: its `SongLength` parsed and rounded to whole seconds. */
  function SongDuration(infos: Option<Infos>): (d: Option<i32>)
    ensures d.Some? <==> infos.Some? && infos.value.songLength.Some?
                         && ParseFloat(infos.value.songLength.value).Some?
  {
    match infos
    case None => None
    case Some(i) =>
      match i.songLength
      case None => None
      case Some(text) =>
        match ParseFloat(text)
        case None => None
        case Some(seconds) => Some(RoundToI32(seconds))
  }

  /**
   * The projection of a song onto a track (`From<VirtualDJSong> for
   * VirtualDJTrack`): each optional output field is present exactly when the
   * element and attribute it comes from are present (and, for tempo and
   * duration, when the stored text converts).
   */
  function TrackFromSong(song: Song): (t: Track)
    ensures t.filePath == song.filePath
    ensures t.artist.Some? <==> song.tags.Some? && song.tags.value.author.Some?
    ensures t.artist.Some? ==> t.artist.value == song.tags.value.author.value
    ensures t.title.Some? <==> song.tags.Some? && song.tags.value.title.Some?
    ensures t.title.Some? ==> t.title.value == song.tags.value.title.value
    ensures t.key.Some? <==> song.scan.Some? && song.scan.value.key.Some?
    ensures t.key.Some? ==> t.key.value == song.scan.value.key.value
    ensures song.scan.None? || song.scan.value.bpm.None? ==> t.bpm.None?
    ensures song.scan.Some? && song.scan.value.bpm.Some? ==> t.bpm == ConvertBpm(song.scan.value.bpm.value)
    ensures t.duration == SongDuration(song.infos)
  {
    var bpm :=
      match song.scan
      case None => None
      case Some(s) =>
        match s.bpm
        case None => None
        case Some(b) => ConvertBpm(b);
    Track(
      song.filePath,
      match song.tags case None => None case Some(tags) => tags.author,
      match song.tags case None => None case Some(tags) => tags.title,
      bpm,
      match song.scan case None => None case Some(s) => s.key,
      SongDuration(song.infos))
  }

  /**
   * Only the path, author, title, stored tempo, key and song length of a
   * song reach its track; every other attribute is ignored.
   */
  lemma TrackIgnoresOtherAttributes(a: Song, b: Song)
    requires a.filePath == b.filePath
    requires (a.tags.None? && b.tags.None?) || (a.tags.Some? && b.tags.Some?
      && a.tags.value.author == b.tags.value.author && a.tags.value.title == b.tags.value.title)
    requires (a.scan.None? && b.scan.None?) || (a.scan.Some? && b.scan.Some?
      && a.scan.value.bpm == b.scan.value.bpm && a.scan.value.key == b.scan.value.key)
    requires (a.infos.None? && b.infos.None?) || (a.infos.Some? && b.infos.Some?
      && a.infos.value.songLength == b.infos.value.songLength)
    ensures TrackFromSong(a) == TrackFromSong(b)
  {
  }

  /** One track per song, in the same order (the `map`/`collect` of the import). */
  function TracksFromSongs(songs: seq<Song>): (tracks: seq<Track>)
    ensures |tracks| == |songs|
    ensures forall i :: 0 <= i < |songs| ==> tracks[i] == TrackFromSong(songs[i])
  {
    if songs == [] then [] else [TrackFromSong(songs[0])] + TracksFromSongs(songs[1..])
  }

  /**
   * `import_virtualdj_library`: read the file, deserialise it, project every
   * song. `readFile` stands for `std::fs::read_to_string` (its error is the
   * I/O error's text) and `deserialize` for the XML deserialiser.
   */
  function ImportLibrary(
    xmlPath: string,
    readFile: string -> Result<string, string>,
    deserialize: string -> Result<Database, string>): (r: Result<seq<Track>, string>)
    ensures readFile(xmlPath).Failure? ==> r == Failure(readFile(xmlPath).error)
    ensures readFile(xmlPath).Success? && deserialize(readFile(xmlPath).value).Failure? ==>
      r == Failure(XML_ERROR_PREFIX + deserialize(readFile(xmlPath).value).error)
    ensures r.Success? <==> readFile(xmlPath).Success? && deserialize(readFile(xmlPath).value).Success?
    ensures r.Success? ==>
      var songs := deserialize(readFile(xmlPath).value).value.songs;
      |r.value| == |songs| && forall i :: 0 <= i < |songs| ==> r.value[i] == TrackFromSong(songs[i])
  {
    match readFile(xmlPath)
    case Failure(e) => Failure(e)
    case Success(content) =>
      match deserialize(content)
      case Failure(e) => Failure(XML_ERROR_PREFIX + e)
      case Success(database) => Success(TracksFromSongs(database.songs))
  }

  /** A deserialiser failure is reported with the XML prefix. */
  lemma ImportXmlErrorHasPrefix(
    xmlPath: string,
    readFile: string -> Result<string, string>,
    deserialize: string -> Result<Database, string>)
    requires readFile(xmlPath).Success?
    requires deserialize(readFile(xmlPath).value).Failure?
    ensures ImportLibrary(xmlPath, readFile, deserialize).Failure?
    ensures StartsWith(ImportLibrary(xmlPath, readFile, deserialize).error, XML_ERROR_PREFIX)
  {
    var e := deserialize(readFile(xmlPath).value).error;
    assert (XML_ERROR_PREFIX + e)[..|XML_ERROR_PREFIX|] == XML_ERROR_PREFIX;
  }
}
