/** The pure naming and routing decisions of the transfer loop in
    `src/main.py`: month names, the dated folder path, the meeting date, the
    sanitised topic, the local file name and the library a file goes to. */
module Naming {
  import opened Base
  import opened Strings
  import Decimal

  /** One recording artifact of a meeting, with the optional keys of the
      listing record as `Option`s (an absent key is `None`). */
  datatype RecordingFile = RecordingFile(
    fileExtension: Option<string>,
    recordingType: Option<string>,
    downloadUrl: Option<string>,
    recordingStart: Option<string>)

  /** One meeting of a listing. `id` holds the identifier as Python's `str`
      prints it; an absent `recording_files` key is the empty sequence. */
  datatype Meeting = Meeting(
    id: Option<string>,
    topic: Option<string>,
    startTime: Option<string>,
    hostEmail: Option<string>,
    recordingFiles: seq<RecordingFile>)

  // ---------------------------------------------------------------------
  // Month names and the dated folder path

  /** The month table of `get_month_name`. */
  const MonthTable: map<string, string> := map[
    "01" := "January", "02" := "February", "03" := "March", "04" := "April",
    "05" := "May", "06" := "June", "07" := "July", "08" := "August",
    "09" := "September", "10" := "October", "11" := "November", "12" := "December"]

  /** The calendar's month names, January first. */
  const MonthNames: seq<string> := [
    "January", "February", "March", "April", "May", "June", "July",
    "August", "September", "October", "November", "December"]

  /** A two-digit, zero-padded month number "01" .. "12". */
  predicate IsMonthNumber(s: string) {
    |s| == 2 &&
    ((s[0] == '0' && '1' <= s[1] <= '9') || (s[0] == '1' && '0' <= s[1] <= '2'))
  }

  function MonthValue(s: string): (m: nat)
    requires IsMonthNumber(s)
    ensures 1 <= m <= 12
  {
    (s[0] as int - '0' as int) * 10 + (s[1] as int - '0' as int)
  }

  /** A month number written with two digits, as in an ISO date. */
  function TwoDigits(m: nat): string
    requires m < 100
  {
    if m < 10 then "0" + Decimal.NatToString(m) else Decimal.NatToString(m)
  }

  lemma MonthKeys(s: string)
    ensures s in MonthTable <==> IsMonthNumber(s)
  {
    if IsMonthNumber(s) {
      assert s == [s[0], s[1]];
    }
  }

  /** `get_month_name`: the month's name for "01" .. "12", and "Unknown" for
      every other string. */
  function MonthName(monthNum: string): (name: string)
    ensures name != "Unknown" <==> IsMonthNumber(monthNum)
    ensures '/' !in name
  {
    if IsMonthNumber(monthNum) then MonthNames[MonthValue(monthNum) - 1] else "Unknown"
  }

  /** `MonthName` is the lookup in the month table with "Unknown" as the
      default. */
  lemma MonthNameIsTableLookup(s: string)
    ensures MonthName(s) == if s in MonthTable then MonthTable[s] else "Unknown"
  {
    MonthKeys(s);
    if IsMonthNumber(s) {
      MonthTableEntry(s);
    }
  }

  /** The table entry of a month number is its calendar name. */
  lemma MonthTableEntry(s: string)
    requires IsMonthNumber(s)
    ensures s in MonthTable && MonthTable[s] == MonthNames[MonthValue(s) - 1]
  {
    assert s == [s[0], s[1]];
    if s[0] == '0' {
      assert s in {"01", "02", "03", "04", "05", "06", "07", "08", "09"};
    } else {
      assert s in {"10", "11", "12"};
    }
  }

  /** Month `m` is named by the m-th calendar name. */
  lemma MonthNameOfNumber(m: nat)
    requires 1 <= m <= 12
    ensures MonthName(TwoDigits(m)) == MonthNames[m - 1]
  {
    var s := TwoDigits(m);
    assert IsMonthNumber(s) && MonthValue(s) == m by {
      if m < 10 {
        assert s == ['0', Decimal.DigitChar(m)];
      } else {
        assert Decimal.NatToString(m) == Decimal.NatToString(1) + [Decimal.DigitChar(m % 10)];
      }
    }
  }

  /** Python's `s[i:j]` for non-negative bounds: both bounds are clamped to
      the string. */
  function PySlice(s: string, i: nat, j: nat): string
  {
    var lo := if i < |s| then i else |s|;
    var hi := if j < |s| then j else |s|;
    if lo <= hi then s[lo..hi] else ""
  }

  /** A date written "YYYY-MM-DD" with digits in the numeric positions. */
  predicate IsIsoDate(d: string) {
    |d| == 10 && d[4] == '-' && d[7] == '-' &&
    forall i :: 0 <= i < 10 && i != 4 && i != 7 ==> Decimal.IsDigit(d[i])
  }

  /** `create_date_folder_path`: year, then "MM - MonthName", then the date
      itself. */
  function DateFolderPath(date: string): (path: string)
    ensures EndsWith(path, "/" + date)
  {
    var year := PySlice(date, 0, 4);
    var month := PySlice(date, 5, 7);
    year + "/" + month + " - " + MonthName(month) + "/" + date
  }

  /** The characters of an ISO date are digits and dashes, never a slash. */
  lemma IsoDateHasNoSlash(date: string)
    requires IsIsoDate(date)
    ensures '/' !in date && '/' !in date[..4] && '/' !in date[5..7]
  {
    forall i | 0 <= i < 10 ensures date[i] != '/' {
      if i != 4 && i != 7 { assert Decimal.IsDigit(date[i]); }
    }
    assert forall i :: 0 <= i < 4 ==> date[..4][i] == date[i];
    assert forall i :: 0 <= i < 2 ==> date[5..7][i] == date[5 + i];
  }

  /** Three slash-free fields joined by slashes split back into themselves. */
  lemma ThreeLevels(a: string, b: string, c: string)
    requires '/' !in a && '/' !in b && '/' !in c
    ensures Split(a + "/" + b + "/" + c, '/') == [a, b, c]
  {
    SplitAppend(a + "/" + b, c, '/');
    SplitAppend(a, b, '/');
    SplitNoSep(a, '/');
    SplitNoSep(b, '/');
    SplitNoSep(c, '/');
  }

  /** For an ISO date the folder path has exactly three levels: the year,
      the numbered month with its name, and the date. */
  lemma DateFolderPathLevels(date: string)
    requires IsIsoDate(date)
    ensures Split(DateFolderPath(date), '/') ==
      [date[..4], date[5..7] + " - " + MonthName(date[5..7]), date]
    ensures MonthName(date[5..7]) != "Unknown" <==> IsMonthNumber(date[5..7])
  {
    var name := MonthName(date[5..7]);
    var month := date[5..7] + " - " + name;
    IsoDateHasNoSlash(date);
    assert PySlice(date, 0, 4) == date[..4] && PySlice(date, 5, 7) == date[5..7];
    assert '/' !in month;
    assert DateFolderPath(date) == date[..4] + "/" + month + "/" + date;
    ThreeLevels(date[..4], month, date);
  }

  /** Whatever the date string, its folder path ends in a level that is the
      date itself, so different dates never share a folder. */
  lemma {:induction false} DateFolderPathLastLevel(date: string)
    requires '/' !in date
    ensures var levels := Split(DateFolderPath(date), '/');
      levels[|levels| - 1] == date
  {
    var month := PySlice(date, 5, 7);
    var front := PySlice(date, 0, 4) + "/" + month + " - " + MonthName(month);
    assert DateFolderPath(date) == front + "/" + date;
    SplitAppend(front, date, '/');
    SplitNoSep(date, '/');
  }

  lemma DateFolderPathInjective(a: string, b: string)
    requires '/' !in a && '/' !in b
    requires DateFolderPath(a) == DateFolderPath(b)
    ensures a == b
  {
    DateFolderPathLastLevel(a);
    DateFolderPathLastLevel(b);
    var la := Split(DateFolderPath(a), '/');
    assert la[|la| - 1] == a && la[|la| - 1] == b;
  }

  lemma DateFolderPathExample()
    ensures DateFolderPath("2025-12-12") == "2025/12 - December/2025-12-12"
  {
    assert PySlice("2025-12-12", 0, 4) == "2025";
    assert PySlice("2025-12-12", 5, 7) == "12";
    assert MonthName("12") == "December" by {
      assert IsMonthNumber("12") && MonthValue("12") == 12;
    }
  }

  // ---------------------------------------------------------------------
  // Meeting date, topic and file name

  /** `start_time.split("T")[0]`: the text before the first "T", or the
      whole string when there is none. */
  function MeetingDate(startTime: string): (date: string)
    ensures 'T' !in date
    ensures date <= startTime
    ensures date == startTime || startTime[|date|] == 'T'
  {
    SplitHead(startTime, 'T');
    Split(startTime, 'T')[0]
  }

  /** The date of a meeting; an absent `start_time` reads as "". */
  function DateOf(m: Meeting): string {
    MeetingDate(m.startTime.GetOr(""))
  }

  /** The topic with both path separators turned into dashes; an absent
      topic reads as "Unknown". */
  function MeetingTopic(topic: Option<string>): (t: string)
    ensures |t| == |topic.GetOr("Unknown")|
    ensures forall i :: 0 <= i < |t| ==>
      var c := topic.GetOr("Unknown")[i];
      t[i] == (if c == '/' || c == '\\' then '-' else c)
  {
    var raw := topic.GetOr("Unknown");
    var dashed := ReplaceAll(raw, "/", "-");
    ReplaceCharPointwise(raw, '/', '-');
    ReplaceCharPointwise(dashed, '\\', '-');
    ReplaceAll(dashed, "\\", "-")
  }

  /** The characters a file-name topic may keep. */
  predicate IsTopicChar(c: char) {
    IsAlnum(c) || c == ' ' || c == '-' || c == '_'
  }

  /** The generator `c for c in topic if c.isalnum() or c in (' ', '-', '_')`:
      a single character is kept exactly when it is allowed, and the filter
      distributes over concatenation (`KeepTopicCharsAppend`). */
  function KeepTopicChars(s: string): (r: string)
    ensures |r| <= |s|
    ensures forall i :: 0 <= i < |r| ==> IsTopicChar(r[i])
    ensures (forall i :: 0 <= i < |s| ==> IsTopicChar(s[i])) ==> r == s
    ensures |s| == 1 ==> r == (if IsTopicChar(s[0]) then s else "")
    decreases |s|
  {
    if |s| == 0 then ""
    else
      var rest := KeepTopicChars(s[1..]);
      assert (forall i :: 0 <= i < |s| ==> IsTopicChar(s[i])) ==>
        (forall i :: 0 <= i < |s[1..]| ==> IsTopicChar(s[1..][i]));
      if IsTopicChar(s[0]) then
        assert (forall i :: 0 <= i < |s| ==> IsTopicChar(s[i])) ==> [s[0]] + s[1..] == s;
        [s[0]] + rest
      else rest
  }

  /** Filtering a concatenation filters each part. */
  lemma {:induction false} KeepTopicCharsAppend(a: string, b: string)
    ensures KeepTopicChars(a + b) == KeepTopicChars(a) + KeepTopicChars(b)
    decreases |a|
  {
    if |a| == 0 {
      assert a + b == b;
    } else {
      assert (a + b)[0] == a[0];
      assert (a + b)[1..] == a[1..] + b;
      KeepTopicCharsAppend(a[1..], b);
    }
  }

  /** A topic as it may appear in a file name: only allowed characters and
      no space at either end. */
  predicate IsSafeTopic(t: string) {
    (forall i :: 0 <= i < |t| ==> IsTopicChar(t[i])) &&
    (|t| > 0 ==> t[0] != ' ' && t[|t| - 1] != ' ')
  }

  /** `r` is the piece of `kept` starting at `o` with nothing but spaces
      cut from before and after it. */
  predicate TrimmedOfSpaces(kept: string, r: string, o: nat) {
    && o + |r| <= |kept|
    && r == kept[o..o + |r|]
    && (forall i :: 0 <= i < o ==> kept[i] == ' ')
    && (forall i :: o + |r| <= i < |kept| ==> kept[i] == ' ')
  }

  /** `safe_topic`: the kept characters, stripped of surrounding whitespace.
      Since a kept character is whitespace only when it is a space, the
      result is the kept characters between a run of leading spaces and a
      run of trailing spaces. */
  function SafeTopic(topic: string): (r: string)
    ensures IsSafeTopic(r)
    ensures TrimmedOfSpaces(KeepTopicChars(topic), r, StripOffset(KeepTopicChars(topic), PyWhitespace))
  {
    var kept := KeepTopicChars(topic);
    StripKeptSpaces(kept);
    Strip(kept, PyWhitespace)
  }

  /** The only whitespace character allowed in a topic is the space. */
  lemma TopicWhitespaceIsSpace(c: char)
    requires IsTopicChar(c) && c in PyWhitespace
    ensures c == ' '
  {
  }

  /** Stripping whitespace from allowed characters removes only spaces and
      leaves a safe topic. */
  lemma StripKeptSpaces(kept: string)
    requires forall i :: 0 <= i < |kept| ==> IsTopicChar(kept[i])
    ensures IsSafeTopic(Strip(kept, PyWhitespace))
    ensures TrimmedOfSpaces(kept, Strip(kept, PyWhitespace), StripOffset(kept, PyWhitespace))
  {
    forall i | 0 <= i < |kept| && kept[i] in PyWhitespace ensures kept[i] == ' ' {
      TopicWhitespaceIsSpace(kept[i]);
    }
    StripSpacesOnly(kept, PyWhitespace);
  }

  /** Stripping a set of characters that contains the space, from allowed
      characters among which only the space is in the set, removes only
      spaces and leaves a safe topic. */
  lemma StripSpacesOnly(kept: string, cs: set<char>)
    requires ' ' in cs
    requires forall i :: 0 <= i < |kept| ==> IsTopicChar(kept[i])
    requires forall i :: 0 <= i < |kept| && kept[i] in cs ==> kept[i] == ' '
    ensures IsSafeTopic(Strip(kept, cs))
    ensures TrimmedOfSpaces(kept, Strip(kept, cs), StripOffset(kept, cs))
  {
    var r := Strip(kept, cs);
    StripRemovesOnly(kept, cs, ' ');
    assert forall i :: 0 <= i < |r| ==> IsTopicChar(r[i]);
  }

  /** Sanitising leaves a topic alone exactly when it is already safe. */
  lemma SafeTopicFixpoint(t: string)
    ensures SafeTopic(t) == t <==> IsSafeTopic(t)
  {
    if IsSafeTopic(t) {
      assert KeepTopicChars(t) == t;
      assert |t| > 0 ==> t[0] !in PyWhitespace && t[|t| - 1] !in PyWhitespace by {
        if |t| > 0 {
          assert IsTopicChar(t[0]) && IsTopicChar(t[|t| - 1]);
        }
      }
      StripFixpoint(t, PyWhitespace);
    }
  }

  /** Sanitising twice is sanitising once. */
  lemma SafeTopicIdempotent(t: string)
    ensures SafeTopic(SafeTopic(t)) == SafeTopic(t)
  {
    SafeTopicFixpoint(SafeTopic(t));
  }

  /** A slash in a topic reaches the file name as a dash: it is replaced
      before the filter runs, so it is not dropped. */
  lemma SlashBecomesDash(a: string, b: string)
    ensures MeetingTopic(Some(a + "/" + b)) == MeetingTopic(Some(a + "-" + b))
    ensures MeetingTopic(Some(a + "\\" + b)) == MeetingTopic(Some(a + "-" + b))
  {
    var x := MeetingTopic(Some(a + "/" + b));
    var y := MeetingTopic(Some(a + "-" + b));
    var z := MeetingTopic(Some(a + "\\" + b));
    assert forall i :: 0 <= i < |x| ==> x[i] == y[i] == z[i] by {
      forall i | 0 <= i < |x| ensures x[i] == y[i] == z[i] {
        if i < |a| {
          assert (a + "/" + b)[i] == a[i] == (a + "-" + b)[i] == (a + "\\" + b)[i];
        } else if i > |a| {
          assert (a + "/" + b)[i] == b[i - |a| - 1] == (a + "-" + b)[i] == (a + "\\" + b)[i];
        }
      }
    }
  }

  /** The download and upload name `{date}_{safe_topic}_{recording_type}.{ext}`:
      the four fields in order, each where the one before it ends plus one
      separator. */
  function FileName(date: string, safeTopic: string, recordingType: string, ext: string): (name: string)
    ensures StartsWith(name, date + "_")
    ensures EndsWith(name, "." + ext)
    ensures |name| == |date| + |safeTopic| + |recordingType| + |ext| + 3
    ensures name[..|date|] == date && name[|date|] == '_'
    ensures name[|date| + 1..|date| + 1 + |safeTopic|] == safeTopic
    ensures name[|date| + 1 + |safeTopic|] == '_'
    ensures name[|date| + 2 + |safeTopic|..|date| + 2 + |safeTopic| + |recordingType|] == recordingType
    ensures name[|name| - |ext| - 1] == '.' && name[|name| - |ext|..] == ext
  {
    date + "_" + safeTopic + "_" + recordingType + "." + ext
  }

  /** A file's extension; an absent `file_extension` reads as "mp4". */
  function ExtensionOf(f: RecordingFile): string {
    f.fileExtension.GetOr("mp4")
  }

  /** The file name a recording of a meeting is stored under. */
  function RecordingFileName(m: Meeting, f: RecordingFile): string {
    FileName(DateOf(m), SafeTopic(MeetingTopic(m.topic)), f.recordingType.GetOr(""), ExtensionOf(f))
  }

  /** The text after the last dot of a file name is its extension, whatever
      the date, topic and recording type contain. */
  lemma FileNameExtension(date: string, topic: string, recordingType: string, ext: string)
    requires '.' !in ext
    ensures var fields := Split(FileName(date, topic, recordingType, ext), '.');
      fields[|fields| - 1] == ext
  {
    SplitAppend(date + "_" + topic + "_" + recordingType, ext, '.');
    SplitNoSep(ext, '.');
  }

  /** The topic never brings a path separator into the file name. */
  lemma FileNameHasNoSeparator(m: Meeting, f: RecordingFile)
    requires '/' !in DateOf(m) && '/' !in f.recordingType.GetOr("") && '/' !in ExtensionOf(f)
    ensures '/' !in RecordingFileName(m, f)
    ensures '\\' !in SafeTopic(MeetingTopic(m.topic))
  {
    var t := SafeTopic(MeetingTopic(m.topic));
    SafeTopicOmitsSlashes(MeetingTopic(m.topic));
    FileNameLacks(DateOf(m), t, f.recordingType.GetOr(""), ExtensionOf(f), '/');
  }

  /** A sanitised topic holds neither kind of slash. */
  lemma SafeTopicOmitsSlashes(topic: string)
    ensures '/' !in SafeTopic(topic) && '\\' !in SafeTopic(topic)
  {
    SafeTopicHasNo(SafeTopic(topic), '/');
    SafeTopicHasNo(SafeTopic(topic), '\\');
  }

  /** A safe topic holds no character outside the allowed ones. */
  lemma SafeTopicHasNo(t: string, c: char)
    requires IsSafeTopic(t) && !IsTopicChar(c)
    ensures c !in t
  {
  }

  /** A character none of the parts holds, and that is neither "_" nor ".",
      is not in the file name. */
  lemma FileNameLacks(date: string, topic: string, recordingType: string, ext: string, c: char)
    requires c !in date && c !in topic && c !in recordingType && c !in ext && c != '_' && c != '.'
    ensures c !in FileName(date, topic, recordingType, ext)
  {
  }

  // ---------------------------------------------------------------------
  // Library routing

  /** The two document libraries a file can go to. */
  datatype Library = VideoLibrary | AudioLibrary

  /** The extension routing of the transfer loop: "mp4" to the video library,
      "m4a" and "vtt" to the audio library, anything else to the video
      library; case is ignored. */
  function RouteExtension(ext: string): (lib: Library)
    ensures lib == AudioLibrary <==> Lower(ext) == "m4a" || Lower(ext) == "vtt"
    ensures Lower(ext) == "mp4" ==> lib == VideoLibrary
  {
    if Lower(ext) == "mp4" then VideoLibrary
    else if Lower(ext) in ["m4a", "vtt"] then AudioLibrary
    else VideoLibrary
  }

  /** Routing depends on the extension's lower case only. */
  lemma RouteIgnoresCase(ext: string)
    ensures RouteExtension(ext) == RouteExtension(Lower(ext))
  {
    LowerIdempotent(ext);
  }

  lemma RouteExamples()
    ensures RouteExtension("MP4") == VideoLibrary
    ensures RouteExtension("M4A") == AudioLibrary
    ensures RouteExtension("Vtt") == AudioLibrary
    ensures RouteExtension("txt") == VideoLibrary
    ensures RouteExtension("") == VideoLibrary
  {
    assert Lower("MP4") == "mp4";
    assert Lower("M4A") == "m4a";
    assert Lower("Vtt") == "vtt";
    assert Lower("txt") == "txt";
  }
}
