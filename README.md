# VirtualDJ integration of the Pika! desktop application

Pika! is a desktop companion for DJs. Its native layer
(`packages/desktop/src-tauri/src/lib.rs`) exposes two commands that read
VirtualDJ's own files:

- `import_virtualdj_library` reads VirtualDJ's XML database. It
  deserialises the `Song` elements and projects each one onto a track record
  holding the file path, artist, title, tempo, key and duration. VirtualDJ
  stores the tempo as a beat period in seconds. The command converts it to
  beats per minute, written with one decimal.
- `read_virtualdj_history` finds the most recently modified `.m3u` file in
  `~/Library/Application Support/VirtualDJ/History`. It reads the last two
  lines of that file: an `#EXTVDJ:` line of `<tag>value</tag>` elements,
  then the track's path. From them it builds the artist, title, path and
  play time of the track now playing.

The model is written in Dafny, in six modules:

- `Wrappers`: `Option` and `Result`.
- `Text`: the string operations the code relies on. These are `str::find`,
  `trim`, `lines` and `starts_with`.
- `Numbers`: parsing of `f64` and `u64`, the `{:.1}` formatting, `f64::round`
  and the saturating `as i32` cast.
- `Library`: the tempo conversion, the song-to-track projection and the
  import command.
- `History`: the history directory path and the newest-file selection. It
  also holds the tag extraction, including its panic, the parsing of the last
  entry, and the history command.
- `HistoryFormat`: a writer for well-formed `#EXTVDJ:` lines. The lemmas here
  prove what the parser recovers from a line the writer produces.

The file system, the environment and the XML deserialiser are inputs to the
commands:

- `HOME` is a `Result` value.
- Directory listing and file reading are functions passed as parameters.
- Deserialisation is a function that returns a `Database` value.

A panic is one possible value of an `Outcome` result.

## Model

| member | source | states |
|---|---|---|
| `Text.Find` | packages/desktop/src-tauri/src/lib.rs:197-198 | `str::find`: the result is the first index where the pattern occurs. None means the pattern occurs nowhere. |
| `Text.StartsWith` | packages/desktop/src-tauri/src/lib.rs:189 | `str::starts_with`: true exactly when the text is the prefix followed by some rest. |
| `Text.Trim` | packages/desktop/src-tauri/src/lib.rs:181 | `str::trim`: the result is empty exactly when the text is all whitespace. Otherwise it neither starts nor ends with whitespace. |
| `Text.TrimIsSlice` | packages/desktop/src-tauri/src/lib.rs:181 | What `trim` keeps is a contiguous slice of the text, and only whitespace lies outside it. |
| `Text.Lines` | packages/desktop/src-tauri/src/lib.rs:181 | `str::lines`: a text has no lines exactly when it is empty. |
| `Text.LinesAppend` | packages/desktop/src-tauri/src/lib.rs:181 | The lines of a text after a newline-terminated prefix are the prefix's lines followed by the text's lines. |
| `Text.LinesOfPair` | packages/desktop/src-tauri/src/lib.rs:181 | Two newline-free pieces joined by a newline give exactly those two lines. |
| `Text.TrimIgnoresPadding` | packages/desktop/src-tauri/src/lib.rs:181 | Whitespace added at either end of a text does not change its trimmed form. |
| `Text.TrimEndDropsWhitespace` | packages/desktop/src-tauri/src/lib.rs:181 | Whitespace appended to a text does not change what `trim_end` keeps. |
| `Text.TrimEndBehindLead` | packages/desktop/src-tauri/src/lib.rs:181 | `trim_end` keeps text in front untouched when the rest holds a non-whitespace character. |
| `Numbers.ParseU64` | packages/desktop/src-tauri/src/lib.rs:204-206 | `str::parse::<u64>`: a success is a non-empty run of digits, with an optional leading `+`, and its value is the number those digits denote. Every such text whose value is below 2^64 parses to that value. |
| `Numbers.ParseU64RoundTrip` | packages/desktop/src-tauri/src/lib.rs:204-206 | Every `u64` written in decimal, with or without `+`, parses back to itself. |
| `Numbers.ParseU64Overflow` | packages/desktop/src-tauri/src/lib.rs:204-206 | A decimal value of 2^64 or more is rejected, so the timestamp falls back to 0. |
| `Numbers.ParseU64NonDigit` | packages/desktop/src-tauri/src/lib.rs:204-206 | A non-digit anywhere after the first character (such as `1a2`) makes the text no `u64`, so the timestamp falls back to 0. |
| `Numbers.ParseU64LeadingZero` | packages/desktop/src-tauri/src/lib.rs:204-206 | A leading zero does not change the parsed value. |
| `Numbers.ParseFloat` | packages/desktop/src-tauri/src/lib.rs:93 | `str::parse::<f64>`: only a non-empty text parses. |
| `Numbers.ParsePointed` | packages/desktop/src-tauri/src/lib.rs:93 | `digits.digits` parses to the finite value it denotes. |
| `Numbers.ParseFloatNegative` | packages/desktop/src-tauri/src/lib.rs:93 | A leading minus negates a finite value, makes an infinity negative and keeps NaN. |
| `Numbers.RoundHalfEven` | packages/desktop/src-tauri/src/lib.rs:98-99 | The result is within one half of the input. A tie goes to the even integer. |
| `Numbers.FormatOneDecimal` | packages/desktop/src-tauri/src/lib.rs:99 | `format!("{:.1}")` of a non-negative value: digits, a point, then exactly one digit. |
| `Numbers.FormatOneDecimalParses` | packages/desktop/src-tauri/src/lib.rs:98-99 | The `{:.1}` text parses back to the value rounded to tenths, which is within 0.05 of the value. |
| `Numbers.RoundHalfAway` | packages/desktop/src-tauri/src/lib.rs:113 | `f64::round`: the result is within one half of the input. A tie goes away from zero. |
| `Numbers.RoundToI32` | packages/desktop/src-tauri/src/lib.rs:113 | `as i32` saturates at the i32 bounds. NaN gives 0 and an infinity gives the bound of its sign. In range, the result is within one half of the value, and a tie goes away from zero as `f64::round` does. |
| `Library.BpmFromPeriod` | packages/desktop/src-tauri/src/lib.rs:94-99 | There is no tempo exactly when the period is at most zero under the IEEE comparison. A NaN period gives "NaN" and +inf gives "0.0". |
| `Library.ConvertBpm` | packages/desktop/src-tauri/src/lib.rs:92-100 | There is no tempo when the text does not parse or its value is at most zero. Otherwise the tempo is the one of the parsed period. |
| `Library.BpmInvertsPeriod` | packages/desktop/src-tauri/src/lib.rs:97-99 | For a positive period, the tempo text parses back to within 0.05 of 60 / period. |
| `Library.BpmOfPositivePeriod` | packages/desktop/src-tauri/src/lib.rs:97-99 | When 600 / period rounds (ties to even) to `10*w + t`, the tempo text is `w.t`. |
| `Library.ConvertBpmOfPointed` | packages/desktop/src-tauri/src/lib.rs:92-100 | Stored text `w.f` whose tempo rounds to `t.d` converts to the text `t.d`. |
| `Library.ConvertBpmHalfSecond` | packages/desktop/src-tauri/src/lib.rs:92-100 | "0.5" converts to "120.0". |
| `Library.ConvertBpmOneSecond` | packages/desktop/src-tauri/src/lib.rs:92-100 | "1.0" converts to "60.0". |
| `Library.ConvertBpmRoundsToTenths` | packages/desktop/src-tauri/src/lib.rs:92-100 | "0.479" converts to "125.3". |
| `Library.SongDuration` | packages/desktop/src-tauri/src/lib.rs:110-113 | A duration is present exactly when `Infos` and `SongLength` are present and the length parses as a float. |
| `Library.TrackFromSong` | packages/desktop/src-tauri/src/lib.rs:102-124 | The path is copied. Each of artist, title and key is present exactly when its element and attribute are, and then has their value. The tempo is the converted `Bpm` when present. The duration is the song's duration. |
| `Library.TrackIgnoresOtherAttributes` | packages/desktop/src-tauri/src/lib.rs:102-124 | Two songs that agree on path, author, title, `Bpm`, key and `SongLength` give the same track. |
| `Library.TracksFromSongs` | packages/desktop/src-tauri/src/lib.rs:135 | There is one track per song, in the same order. |
| `Library.ImportLibrary` | packages/desktop/src-tauri/src/lib.rs:126-138 | A read error is returned as is. A deserialisation error is returned with the XML prefix. Otherwise the result is the song-by-song projection. |
| `Library.ImportXmlErrorHasPrefix` | packages/desktop/src-tauri/src/lib.rs:130-132 | A deserialisation failure gives an error that starts with "XML parsing error: ". |
| `History.JoinPath` | packages/desktop/src-tauri/src/lib.rs:154-158 | `PathBuf::join` adds a separator unless the base is empty or already ends in one. |
| `History.JoinTwice` | packages/desktop/src-tauri/src/lib.rs:154-158 | Two joins equal one join of the parts separated by a slash. |
| `History.HistoryDir` | packages/desktop/src-tauri/src/lib.rs:154-158 | The directory is HOME joined with `Library/Application Support/VirtualDJ/History`. |
| `History.Extension` | packages/desktop/src-tauri/src/lib.rs:167 | `Path::extension` is the dot-free text after the last dot, provided that dot is not at position 0. A name other than `..` with a dot after position 0 has an extension. A name with no such dot has none. |
| `History.ExtensionOfM3u` | packages/desktop/src-tauri/src/lib.rs:167 | `stem.m3u` has the extension "m3u" for every non-empty stem, including one holding dots such as `2024-05-01.session`. |
| `History.M3uExtension` | packages/desktop/src-tauri/src/lib.rs:167 | A name has the extension "m3u" exactly when it is longer than `.m3u` and ends in it. |
| `History.IsHistoryFile` | packages/desktop/src-tauri/src/lib.rs:167 | The filter keeps exactly the regular files whose name is longer than `.m3u` and ends in it. |
| `History.MaxByKey` | packages/desktop/src-tauri/src/lib.rs:168 | `max_by_key` over optional keys: the result holds a key no key exceeds, and every later key is strictly smaller. There is no result exactly when nothing is ranked. |
| `History.LastMaxUnique` | packages/desktop/src-tauri/src/lib.rs:168 | At most one position meets that description, so the choice is determined. |
| `History.LastMaxIsNewest` | packages/desktop/src-tauri/src/lib.rs:165-168 | The choice over the entries' ranks is a newest `.m3u` candidate of the listing. |
| `History.NewestIndex` | packages/desktop/src-tauri/src/lib.rs:163-169 | `max_by_key` over the readable `.m3u` files: the result is a candidate whose time no candidate exceeds. Every later candidate is strictly older, and an unknown time ranks lowest. There is no result exactly when there is no candidate. |
| `History.SelectHistoryFile` | packages/desktop/src-tauri/src/lib.rs:163-169 | A listing error gets the "Failed to read history directory: " prefix. No candidate gives "No history files found". A success is the directory joined with a newest candidate's name. |
| `History.OlderFileIgnored` | packages/desktop/src-tauri/src/lib.rs:168 | Appending a file older than the current choice does not change the choice. |
| `History.NewerFileChosen` | packages/desktop/src-tauri/src/lib.rs:168 | Appending a file that is not older than the current choice makes it the choice, so a tie goes to the last file. |
| `History.MaxIgnoresOlder` | packages/desktop/src-tauri/src/lib.rs:168 | Appending a key below the current choice, or an unranked element, leaves the `max_by_key` choice unchanged. |
| `History.MaxTakesNewer` | packages/desktop/src-tauri/src/lib.rs:168 | Appending a key not below the current choice makes it the `max_by_key` choice. |
| `History.ExtractTag` | packages/desktop/src-tauri/src/lib.rs:194-200 | There is no tag when either marker is missing. The slice panics exactly when the first close tag starts before the end of the first open tag. Otherwise the result is the text between the two. |
| `History.PanicIffCloseBeforeOpen` | packages/desktop/src-tauri/src/lib.rs:197-199 | For a plain tag name, the extraction panics exactly when the first close tag comes before the first open tag. |
| `History.CloseInsideOpen` | packages/desktop/src-tauri/src/lib.rs:197-199 | A close tag cannot start inside an open tag of the same plain name. |
| `History.TextOrUnknown` | packages/desktop/src-tauri/src/lib.rs:202-203 | The tag's text, or "Unknown" when the tag is missing. |
| `History.TimestampOrZero` | packages/desktop/src-tauri/src/lib.rs:204-206 | The parsed `u64` of the tag's text, or 0 when the tag is missing or does not parse. |
| `History.EntryOfLines` | packages/desktop/src-tauri/src/lib.rs:182-213 | There is no entry exactly when there are fewer than two lines or the second-to-last line lacks `#EXTVDJ:`. It panics exactly when one of the three tags does. Otherwise the path is the last line. Artist and title are their tag's text when the tag is found and "Unknown" when it is not. The timestamp is the tag's `u64` value when it is found and parses, and 0 otherwise. |
| `History.EntryOfPair` | packages/desktop/src-tauri/src/lib.rs:189-213 | A marker line and a path give the track built from the three tags' defaults. |
| `History.EntryOfAppend` | packages/desktop/src-tauri/src/lib.rs:186-187 | Lines before the last two do not affect the entry. |
| `History.ParseLastEntry` | packages/desktop/src-tauri/src/lib.rs:181-213 | The path of a parsed entry is non-empty, has no newline and does not end in whitespace. |
| `History.LastLine` | packages/desktop/src-tauri/src/lib.rs:181-186 | The last line of a text that does not end in a newline is its newline-free suffix. |
| `History.TrailingLines` | packages/desktop/src-tauri/src/lib.rs:181 | `content.trim().lines()` is empty exactly when the content is all whitespace. |
| `History.PaddingIgnored` | packages/desktop/src-tauri/src/lib.rs:181 | Whitespace around the file's content does not change the parsed entry. |
| `History.EarlierLinesIgnored` | packages/desktop/src-tauri/src/lib.rs:181-187 | Earlier complete lines do not change the entry parsed from the last two. |
| `History.PairLines` | packages/desktop/src-tauri/src/lib.rs:181 | A marker line and a plain path joined by a newline are already trimmed and split into exactly those two lines. |
| `History.ParseOfPair` | packages/desktop/src-tauri/src/lib.rs:181-191 | Earlier lines followed by a marker line, a path and trailing whitespace parse as the entry of the marker line and the path. |
| `History.ReadHistory` | packages/desktop/src-tauri/src/lib.rs:150-214 | A HOME or selection error is passed through. A failed read gives `Ok(None)`. Otherwise the parse result is returned and a panic propagates. Every error is the HOME error, "No history files found" or the directory error. |
| `HistoryFormat.Lookup` | packages/desktop/src-tauri/src/lib.rs:197-199 | The value of the first field with the tag. None when no field has it. |
| `HistoryFormat.FindsInElements` | packages/desktop/src-tauri/src/lib.rs:197-198 | In a run of well-formed elements, the first open and close tags found are those of the first field with the tag. |
| `HistoryFormat.ExtractFromMarkerLine` | packages/desktop/src-tauri/src/lib.rs:194-200 | Extraction from a written `#EXTVDJ:` line gives the first field's value, and no tag when the field is absent. |
| `HistoryFormat.ParseWrittenEntry` | packages/desktop/src-tauri/src/lib.rs:181-213 | A written marker line, a path, earlier lines and trailing whitespace parse to the fields' values, with defaults. |
| `HistoryFormat.ParseOnePlay` | packages/desktop/src-tauri/src/lib.rs:181-213 | The entry written for one play reads back as the same artist, title, path and play time. |
| `HistoryFormat.MissingFieldsDefault` | packages/desktop/src-tauri/src/lib.rs:202-206 | A marker line without the three tags gives "Unknown", "Unknown" and 0. |
| `HistoryFormat.ReversedTagsPanic` | packages/desktop/src-tauri/src/lib.rs:197-199 | A close tag written before its open tag makes the extraction panic. |
| `HistoryFormat.ReversedArtistPanics` | packages/desktop/src-tauri/src/lib.rs:189-202 | A history line whose artist close tag precedes its open tag makes the whole command panic. |

## Left out

- File system and environment: `std::env::var`, `read_dir`, `metadata` and
  `read_to_string` are parameters of the commands. So are the entries'
  `is_file` flag and modification time. The text of their errors is taken
  as given.
- XML deserialisation (`quick_xml` with serde) is a parameter that returns a
  `Database` value or an error text. The `Comment`/`Poi` children, the
  version attributes and the other ignored attributes are not modelled
  beyond being ignored.
- Floating point: a parsed `f64` is its exact decimal value (or an infinity,
  or NaN). Binary rounding is not modelled. Overflow of a huge literal to
  infinity and underflow to zero are not modelled either.
- Library.BpmFromPeriod: the division `60.0 / beat_period` is exact. For a
  tiny positive period such as `1e-307`, the `f64` quotient overflows and
  Rust writes "inf". The model instead writes the decimal of the exact
  quotient, about 300 digits long. A `{:.1}` tie is
  judged on the exact value, so it is not judged on the nearest double.
- Numbers.ParseFloat: its own contract says only that the text is non-empty.
  What it parses is stated by `ParsePointed`, `ParseFloatNegative` and the
  tempo lemmas.
- Text.Lines: its own contract says only when the result is empty. What it
  splits is stated by `LinesAppend`, `LinesOfPair` and `LastLine`.
- Text positions are counted in characters, not UTF-8 bytes. The patterns
  involved (`<`, `</`, `>`, `#EXTVDJ:`) are ASCII, so the slices are the same.
- Modification times are integers. `SystemTime`'s precision and its error
  cases only reach the model as an absent time.
- The `eprintln!` diagnostic on a failed read is not modelled.
  `get_local_ip` and `run` (network and application wiring) are outside this
  model. So are the Python audio-processing sidecar files.
- A panic is a result value (`Panicked`). What the Tauri runtime then does
  with it is not modelled.
- An unparsable `SongLength` gives no duration. A "NaN" length parses and
  gives a duration of 0 through the cast, as the code does.
- When several history files share the newest time, the code (`max_by_key`)
  takes the last one listed. The model keeps that order.
- Features described for the wider application but absent from this code
  are not modelled: a cache, a lookup service, several candidate
  directories, platform-specific paths, case-insensitive name lookup and a
  fallback to points of interest.
