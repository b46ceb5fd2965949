/** `get_video_duration` (main.py): how the length of the video is read off
    the diagnostic text ffmpeg writes to its error stream. */
module Duration {
  import opened Outcomes
  import Strings
  import Numbers

  /** The length as the pipeline reports it: whole minutes (hours are
      dropped) and seconds rounded half to even. */
  datatype Length = Length(minutes: nat, seconds: nat)

  /** `line.split(",")[0].split(" ")[-1]`: the last word before the first
      comma. */
  function TimeField(line: string): string
  {
    var head := Strings.Split(line, ',')[0];
    var words := Strings.Split(head, ' ');
    words[|words| - 1]
  }

  /** Every field converts with `float`. */
  predicate AllConvert(fields: seq<string>)
  {
    forall j :: 0 <= j < |fields| ==> Numbers.ParseDecimal(fields[j]).Some?
  }

  /** The fields before `k` all convert, given each of them does. */
  lemma ConvertedPrefix(fields: seq<string>, k: nat)
    requires 1 <= k <= 3 && k <= |fields|
    requires Numbers.ParseDecimal(fields[0]).Some?
    requires k >= 2 ==> Numbers.ParseDecimal(fields[1]).Some?
    requires k >= 3 ==> Numbers.ParseDecimal(fields[2]).Some?
    ensures AllConvert(fields[..k])
    ensures k == |fields| ==> AllConvert(fields)
  {
    var prefix := fields[..k];
    forall j | 0 <= j < k
      ensures Numbers.ParseDecimal(prefix[j]).Some?
    {
      assert prefix[j] == fields[j];
      if j == 0 {
      } else if j == 1 {
      } else {
        assert j == 2;
      }
    }
    if k == |fields| {
      assert prefix == fields;
    }
  }

  /** `minutes, seconds = map(float, fields)`: it succeeds exactly when
      there are two fields and both convert. */
  function UnpackTwo(fields: seq<string>): (r: Result<(Numbers.Decimal, Numbers.Decimal)>)
    ensures r.Ok? <==> |fields| == 2 && Numbers.ParseDecimal(fields[0]).Some?
                                      && Numbers.ParseDecimal(fields[1]).Some?
    ensures r.Ok? ==> r.value == (Numbers.ParseDecimal(fields[0]).value, Numbers.ParseDecimal(fields[1]).value)
    ensures r.Err? && r.fault.NotAFloat? ==>
              exists k :: 0 <= k < |fields| && k < 3 && r.fault.field == fields[k]
                          && Numbers.ParseDecimal(fields[k]).None?
                          && AllConvert(fields[..k])
    ensures r.Err? && r.fault.NotEnoughValues? ==>
              |fields| < 2 && r.fault.got == |fields| && AllConvert(fields)
    ensures r.Err? && r.fault.TooManyValues? ==>
              |fields| > 2 && AllConvert(fields[..3])
    ensures r.Err? ==> r.fault.NotAFloat? || r.fault.NotEnoughValues? || r.fault.TooManyValues?
  {
    if |fields| == 2 && Numbers.ParseDecimal(fields[0]).Some? && Numbers.ParseDecimal(fields[1]).Some? then
      Ok((Numbers.ParseDecimal(fields[0]).value, Numbers.ParseDecimal(fields[1]).value))
    else
      PairConverts(fields);
      Err(UnpackError(fields))
  }

  /** Two fields all convert exactly when the first and the second do. */
  lemma PairConverts(fields: seq<string>)
    ensures |fields| == 2 ==>
              (AllConvert(fields) <==> Numbers.ParseDecimal(fields[0]).Some? && Numbers.ParseDecimal(fields[1]).Some?)
  {
    if |fields| == 2 && Numbers.ParseDecimal(fields[0]).Some? && Numbers.ParseDecimal(fields[1]).Some? {
      ConvertedPrefix(fields, 2);
    }
  }

  /** The `ValueError` of a failed unpacking. The map is lazy, so `float`
      reaches a field only when unpacking pulls it: a field that does not
      convert raises before the count is checked, and at most three fields
      are converted before unpacking gives up with "too many values". */
  function UnpackError(fields: seq<string>): (f: Fault)
    requires !(|fields| == 2 && AllConvert(fields))
    ensures f.NotAFloat? ==>
              exists k :: 0 <= k < |fields| && k < 3 && f.field == fields[k]
                          && Numbers.ParseDecimal(fields[k]).None?
                          && AllConvert(fields[..k])
    ensures f.NotEnoughValues? ==> |fields| < 2 && f.got == |fields| && AllConvert(fields)
    ensures f.TooManyValues? ==> |fields| > 2 && AllConvert(fields[..3])
    ensures f.NotAFloat? || f.NotEnoughValues? || f.TooManyValues?
  {
    if |fields| == 0 then NotEnoughValues(0)
    else if Numbers.ParseDecimal(fields[0]).None? then
      assert AllConvert(fields[..0]);
      NotAFloat(fields[0])
    else if |fields| == 1 then NotEnoughValues(1)
    else if Numbers.ParseDecimal(fields[1]).None? then
      ConvertedPrefix(fields, 1);
      NotAFloat(fields[1])
    else
      ConvertedPrefix(fields, 2);
      if Numbers.ParseDecimal(fields[2]).None? then NotAFloat(fields[2])
      else
        ConvertedPrefix(fields, 3);
        TooManyValues
  }

  /** The duration on one line that mentions "Duration": the hours field is
      ignored, minutes are truncated and seconds rounded. */
  function ParseDurationLine(line: string): (r: Result<Length>)
    ensures r.Ok? ==> |Strings.Split(TimeField(line), ':')| == 3
    ensures r.Err? ==> r.fault.NotAFloat? || r.fault.NotEnoughValues? || r.fault.TooManyValues?
  {
    var fields := Strings.Split(TimeField(line), ':')[1..];
    match UnpackTwo(fields)
    case Err(f) => Err(f)
    case Ok((m, s)) => Ok(Length(Numbers.Truncate(m), Numbers.RoundHalfEven(s)))
  }

  /** What the loop returns at the first line mentioning "Duration". */
  function LineOutcome(line: string): Result<Option<Length>>
  {
    match ParseDurationLine(line)
    case Err(f) => Err(f)
    case Ok(len) => Ok(Some(len))
  }

  /** The loop over the lines: the first line mentioning "Duration" decides,
      and when there is none the result is `(None, None)`. */
  function ProbeLines(lines: seq<string>): (r: Result<Option<Length>>)
    ensures r == Ok(None) <==> forall k :: 0 <= k < |lines| ==> !Strings.Contains(lines[k], "Duration")
    ensures r.Ok? && r.value.Some? ==> exists k :: 0 <= k < |lines| && ParseDurationLine(lines[k]) == Ok(r.value.value)
  {
    if |lines| == 0 then Ok(None)
    else if Strings.Contains(lines[0], "Duration") then LineOutcome(lines[0])
    else
      var r := ProbeLines(lines[1..]);
      assert forall k :: 1 <= k < |lines| ==> lines[k] == lines[1..][k - 1];
      r
  }

  /** The lines of what ffmpeg wrote to its error stream, read by the
      loop. */
  function ProbeDuration(log: string): Result<Option<Length>>
  {
    ProbeLines(Strings.Split(log, '\n'))
  }

  /** Reading the error stream line by line gives `(None, None)` exactly
      when the stream never mentions "Duration": no mention is cut in two
      by a line break. */
  lemma ProbeDurationNoneIff(log: string)
    ensures ProbeDuration(log) == Ok(None) <==> !Strings.Contains(log, "Duration")
  {
    NoLineBreakInKey();
    Strings.ContainsInJoin(Strings.Split(log, '\n'), '\n', "Duration");
  }

  lemma NoLineBreakInKey()
    ensures '\n' !in "Duration"
  {
  }

  /** `get_video_duration`: running ffmpeg either raises (no ffmpeg to run,
      an error stream that does not decode as text) or hands back the error
      stream, which is then read line by line. */
  function GetVideoDuration(run: Result<string>): (r: Result<Option<Length>>)
    ensures run.Err? ==> r == Err(run.fault)
    ensures r.Ok? ==> run.Ok?
  {
    match run
    case Err(f) => Err(f)
    case Ok(log) => ProbeDuration(log)
  }

  /** The duration is `(None, None)` exactly when ffmpeg ran and its error
      stream never mentions "Duration". */
  lemma GetVideoDurationNoneIff(run: Result<string>)
    ensures GetVideoDuration(run) == Ok(None) <==> run.Ok? && !Strings.Contains(run.value, "Duration")
  {
    if run.Ok? {
      ProbeDurationNoneIff(run.value);
    }
  }

  /** The first line that mentions "Duration" decides the outcome, whatever
      follows it. */
  lemma {:induction false} FirstDurationLineDecides(lines: seq<string>, k: nat)
    requires k < |lines| && Strings.Contains(lines[k], "Duration")
    requires forall j :: 0 <= j < k ==> !Strings.Contains(lines[j], "Duration")
    ensures ProbeLines(lines) == LineOutcome(lines[k])
    decreases k
  {
    if k > 0 {
      SkipsQuietLine(lines);
      QuietPrefixShifts(lines, k);
      FirstDurationLineDecides(lines[1..], k - 1);
    } else {
      StopsAtDurationLine(lines);
    }
  }

  lemma QuietPrefixShifts(lines: seq<string>, k: nat)
    requires 0 < k < |lines|
    requires forall j :: 0 <= j < k ==> !Strings.Contains(lines[j], "Duration")
    ensures lines[1..][k - 1] == lines[k]
    ensures forall j :: 0 <= j < k - 1 ==> !Strings.Contains(lines[1..][j], "Duration")
  {
    forall j | 0 <= j < k - 1
      ensures !Strings.Contains(lines[1..][j], "Duration")
    {
      assert lines[1..][j] == lines[j + 1];
    }
  }

  /** A first line that mentions "Duration" decides. */
  lemma StopsAtDurationLine(lines: seq<string>)
    requires |lines| > 0 && Strings.Contains(lines[0], "Duration")
    ensures ProbeLines(lines) == LineOutcome(lines[0])
  {
  }

  /** A first line that does not mention "Duration" is passed over. */
  lemma SkipsQuietLine(lines: seq<string>)
    requires |lines| > 0 && !Strings.Contains(lines[0], "Duration")
    ensures ProbeLines(lines) == ProbeLines(lines[1..])
  {
  }

  /** Text holding none of the characters the parser splits on. */
  predicate Plain(x: string)
  {
    ',' !in x && ' ' !in x && ':' !in x
  }

  /** The time field is the last word before the first comma. */
  lemma TimeFieldOf(words: string, ts: string, rest: string)
    requires ',' !in words && ',' !in ts && ' ' !in ts
    ensures TimeField(words + " " + ts + "," + rest) == ts
  {
    var head := words + " " + ts;
    assert ',' !in head;
    assert words + " " + ts + "," + rest == head + [','] + rest;
    Strings.SplitAtFirst(head, ',', rest);
    assert head == words + [' '] + ts;
    Strings.SplitLast(words, ' ', ts);
  }

  /** Splitting `HH:MM:SS` on ':' and dropping the hours. */
  lemma FieldsAfterHours(hh: string, mm: string, ss: string)
    requires Plain(hh) && Plain(mm) && Plain(ss)
    ensures Strings.Split(hh + ":" + mm + ":" + ss, ':')[1..] == [mm, ss]
  {
    assert Strings.Join([hh, mm, ss], [':']) == hh + ":" + mm + ":" + ss by {
      assert [hh, mm, ss][1..] == [mm, ss];
      assert [mm, ss][1..] == [ss];
      assert Strings.Join([ss], [':']) == ss;
      assert Strings.Join([mm, ss], [':']) == mm + ":" + ss;
      assert Strings.Join([hh, mm, ss], [':']) == hh + ":" + (mm + ":" + ss);
    }
    Strings.SplitJoin([hh, mm, ss], ':');
  }

  /** A line laid out the way ffmpeg prints it,
      `<prefix>Duration: HH:MM:SS.ff, <rest>`, parses to the minutes field
      truncated and the seconds field rounded. */
  lemma FfmpegLineParses(prefix: string, hh: string, mm: string, ss: string, rest: string,
                         m: Numbers.Decimal, s: Numbers.Decimal)
    requires ',' !in prefix
    requires Plain(hh) && Plain(mm) && Plain(ss)
    requires Numbers.ParseDecimal(mm) == Some(m) && Numbers.ParseDecimal(ss) == Some(s)
    ensures ParseDurationLine(prefix + "Duration: " + hh + ":" + mm + ":" + ss + ", " + rest)
            == Ok(Length(Numbers.Truncate(m), Numbers.RoundHalfEven(s)))
  {
    DurationLineLayout(prefix, hh, mm, ss, rest);
    FieldsAfterHours(hh, mm, ss);
    UnpackedLine(prefix + "Duration: " + hh + ":" + mm + ":" + ss + ", " + rest,
                 hh + ":" + mm + ":" + ss, mm, ss, m, s);
  }

  /** The time field of an ffmpeg duration line is its `HH:MM:SS` part. */
  lemma DurationLineLayout(prefix: string, hh: string, mm: string, ss: string, rest: string)
    requires ',' !in prefix
    requires Plain(hh) && Plain(mm) && Plain(ss)
    ensures TimeField(prefix + "Duration: " + hh + ":" + mm + ":" + ss + ", " + rest) == hh + ":" + mm + ":" + ss
  {
    var ts := hh + ":" + mm + ":" + ss;
    var words := prefix + "Duration:";
    assert ',' !in ts && ' ' !in ts && ',' !in words;
    TimeFieldOf(words, ts, " " + rest);
    Regroup(prefix, hh, mm, ss, rest);
  }

  lemma Regroup(prefix: string, hh: string, mm: string, ss: string, rest: string)
    ensures prefix + "Duration: " + hh + ":" + mm + ":" + ss + ", " + rest
         == (prefix + "Duration:") + " " + (hh + ":" + mm + ":" + ss) + "," + (" " + rest)
  {
  }

  lemma UnpackedLine(line: string, ts: string, mm: string, ss: string, m: Numbers.Decimal, s: Numbers.Decimal)
    requires TimeField(line) == ts && Strings.Split(ts, ':')[1..] == [mm, ss]
    requires Numbers.ParseDecimal(mm) == Some(m) && Numbers.ParseDecimal(ss) == Some(s)
    ensures ParseDurationLine(line) == Ok(Length(Numbers.Truncate(m), Numbers.RoundHalfEven(s)))
  {
    assert UnpackTwo([mm, ss]) == Ok((m, s));
  }

  /** Rounding of the seconds field at the half: `14.50` gives 14 and
      `15.50` gives 16, while `15.30` gives 15. */
  lemma SecondsRoundHalfToEven()
    ensures Numbers.RoundHalfEven(Numbers.Decimal(14, "50")) == 14
    ensures Numbers.RoundHalfEven(Numbers.Decimal(15, "50")) == 16
    ensures Numbers.RoundHalfEven(Numbers.Decimal(15, "30")) == 15
  {
    assert Numbers.Pow10(2) == 100;
    assert Numbers.DigitsValue("50") == 50 by { assert "50"[..1] == "5"; }
    assert Numbers.DigitsValue("30") == 30 by { assert "30"[..1] == "3"; }
  }

  /** The hours field is ignored: the line
      `  Duration: 01:02:15.30, start: 0.000000` reads as 2 minutes 15 seconds. */
  lemma HoursAreDropped()
    ensures ParseDurationLine("  " + "Duration: " + "01" + ":" + "02" + ":" + "15.30" + ", " + "start: 0.000000")
            == Ok(Length(2, 15))
  {
    DecimalFieldExamples();
    SecondsRoundHalfToEven();
    ExampleFieldsArePlain();
    FfmpegLineParses("  ", "01", "02", "15.30", "start: 0.000000",
                     Numbers.Decimal(2, ""), Numbers.Decimal(15, "30"));
  }

  lemma ExampleFieldsArePlain()
    ensures ',' !in "  " && Plain("01") && Plain("02") && Plain("15.30")
  {
  }

  /** `float("02")` is 2 and `float("15.30")` is 15.30. */
  lemma DecimalFieldExamples()
    ensures Numbers.ParseDecimal("02") == Some(Numbers.Decimal(2, ""))
    ensures Numbers.ParseDecimal("15.30") == Some(Numbers.Decimal(15, "30"))
  {
    WholeFieldExample();
    PointFieldExample();
  }

  lemma WholeFieldExample()
    ensures Numbers.ParseDecimal("02") == Some(Numbers.Decimal(2, ""))
  {
    var w := "02";
    assert Numbers.AllDigits(w);
    Numbers.ParseDecimalOfWhole(w);
    assert Numbers.DigitsValue(w) == 2 by { assert w[..1] == "0"; }
  }

  lemma PointFieldExample()
    ensures Numbers.ParseDecimal("15.30") == Some(Numbers.Decimal(15, "30"))
  {
    var w, f := "15", "30";
    PiecesOf1530();
    Numbers.ParseDecimalOfPoint(w, f);
    assert w + "." + f == "15.30";
  }

  lemma PiecesOf1530()
    ensures Numbers.AllDigits("15") && Numbers.AllDigits("30") && Numbers.DigitsValue("15") == 15
  {
    assert "15"[..1] == "1";
  }
}
