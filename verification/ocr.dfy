/** `extract_text_from_frames` (main.py): on-screen text read from every
    frame, in sorted frame order. */
module Ocr {
  import opened Outcomes
  import Strings

  /** What the function returns when no frame carries any text. */
  const NoTextFound: string := "Текст не обнаружен."

  /** What Tesseract gives back for one frame: its text, or an exception,
      which nothing in the loop catches. */
  datatype Reading = Read(text: string) | OcrFailed(fault: Fault)

  /** The OCR engine as an oracle from frame file name to reading. */
  type Engine = string -> Reading

  /** Text worth keeping: not empty once stripped. */
  predicate Kept(text: string)
  {
    text != "" && Strings.Strip(text) == text
  }

  /** What one frame contributes: its stripped text when that is not
      blank, nothing when it is, and its failure when OCR raises. */
  function OneFrame(reading: Reading): (r: Result<seq<string>>)
    ensures r.Ok? ==> |r.value| <= 1 && forall k :: 0 <= k < |r.value| ==> Kept(r.value[k])
    ensures r.Err? <==> reading.OcrFailed?
    ensures reading.OcrFailed? ==> r == Err(reading.fault)
    ensures reading.Read? && Strings.AllSpace(reading.text) ==> r == Ok([])
    ensures reading.Read? && !Strings.AllSpace(reading.text) ==> r == Ok([Strings.Strip(reading.text)])
  {
    match reading
    case OcrFailed(f) => Err(f)
    case Read(text) =>
      Strings.StripIdempotent(text);
      Strings.StripEmptyIff(text);
      if Strings.Strip(text) == "" then Ok([]) else Ok([Strings.Strip(text)])
  }

  /** Combines the outcomes of two consecutive runs of frames: the first
      failure wins, otherwise the kept texts follow one another. */
  function Then(a: Result<seq<string>>, b: Result<seq<string>>): Result<seq<string>>
  {
    if a.Err? then a else if b.Err? then b else Ok(a.value + b.value)
  }

  /** The loop of `extract_text_from_frames`: the stripped, non-blank texts
      of the frames in order, or the first OCR failure. */
  function Collect(frames: seq<string>, ocr: Engine): (r: Result<seq<string>>)
    ensures r.Ok? ==> |r.value| <= |frames|
    ensures r.Ok? ==> forall k :: 0 <= k < |r.value| ==> Kept(r.value[k])
  {
    if |frames| == 0 then Ok([])
    else
      var r := Then(OneFrame(ocr(frames[0])), Collect(frames[1..], ocr));
      assert r.Ok? ==> forall k :: 0 <= k < |r.value| ==>
        r.value[k] in OneFrame(ocr(frames[0])).value || r.value[k] in Collect(frames[1..], ocr).value;
      r
  }

  /** `extract_text_from_frames`: the kept texts joined by newlines, or
      `NoTextFound` when there are none. Never the empty string. */
  function ExtractText(frames: seq<string>, ocr: Engine): (r: Result<string>)
    ensures r.Err? <==> Collect(frames, ocr).Err?
    ensures r.Err? ==> r.fault == Collect(frames, ocr).fault
    ensures r.Ok? ==> r.value != ""
    ensures r.Ok? && Collect(frames, ocr).value == [] ==> r.value == NoTextFound
  {
    match Collect(frames, ocr)
    case Err(f) => Err(f)
    case Ok(texts) =>
      if |texts| == 0 then Ok(NoTextFound)
      else
        JoinOfKeptIsNotEmpty(texts);
        Ok(Strings.Join(texts, "\n"))
  }

  lemma {:induction false} JoinOfKeptIsNotEmpty(texts: seq<string>)
    requires |texts| > 0 && forall k :: 0 <= k < |texts| ==> Kept(texts[k])
    ensures Strings.Join(texts, "\n") != ""
  {
    if |texts| > 1 {
      assert |Strings.Join(texts, "\n")| >= |texts[0]|;
    }
  }

  lemma ThenAssociative(x: Result<seq<string>>, y: Result<seq<string>>, z: Result<seq<string>>)
    ensures Then(Then(x, y), z) == Then(x, Then(y, z))
  {
    if x.Ok? && y.Ok? && z.Ok? {
      assert x.value + (y.value + z.value) == (x.value + y.value) + z.value;
    }
  }

  /** The loop is a filter-map over the frames: reading a list of frames is
      reading its two halves one after the other. */
  lemma {:induction false} CollectSplits(a: seq<string>, b: seq<string>, ocr: Engine)
    ensures Collect(a + b, ocr) == Then(Collect(a, ocr), Collect(b, ocr))
    decreases |a|
  {
    if |a| == 0 {
      assert a + b == b;
      ThenOkEmpty(Collect(b, ocr));
    } else {
      var x, y, z := OneFrame(ocr(a[0])), Collect(a[1..], ocr), Collect(b, ocr);
      CollectCons(a, b, ocr);
      CollectSplits(a[1..], b, ocr);
      ThenAssociative(x, y, z);
    }
  }

  lemma ThenOkEmpty(r: Result<seq<string>>)
    ensures Then(Ok([]), r) == r
  {
    if r.Ok? {
      assert [] + r.value == r.value;
    }
  }

  /** The loop's first step over a concatenation is the first step over
      its first part. */
  lemma CollectCons(a: seq<string>, b: seq<string>, ocr: Engine)
    requires |a| > 0
    ensures Collect(a + b, ocr) == Then(OneFrame(ocr(a[0])), Collect(a[1..] + b, ocr))
  {
    assert (a + b)[0] == a[0] && (a + b)[1..] == a[1..] + b;
  }

  /** ...and a single frame contributes its stripped text when that is not
      blank, nothing when it is, and its failure when OCR raises. */
  lemma CollectOne(frame: string, ocr: Engine)
    ensures Collect([frame], ocr) == OneFrame(ocr(frame))
  {
    assert [frame][1..] == [];
    var x := OneFrame(ocr(frame));
    if x.Ok? {
      assert x.value + [] == x.value;
    }
  }

  /** Every frame's OCR gives a text. */
  predicate AllRead(frames: seq<string>, ocr: Engine)
  {
    forall i :: 0 <= i < |frames| ==> ocr(frames[i]).Read?
  }

  /** A reference for what the loop keeps when no frame fails, built from
      the last frame backwards: the stripped text of every frame whose
      text is not all whitespace, in frame order. */
  function ReadTexts(frames: seq<string>, ocr: Engine): seq<string>
    requires AllRead(frames, ocr)
  {
    if |frames| == 0 then []
    else
      var init := frames[..|frames| - 1];
      var text := ocr(frames[|frames| - 1]).text;
      assert forall i :: 0 <= i < |init| ==> init[i] == frames[i];
      ReadTexts(init, ocr) + (if Strings.AllSpace(text) then [] else [Strings.Strip(text)])
  }

  /** When no frame fails, the loop keeps exactly the reference texts: the
      stripped text of each frame that is not blank, in frame order. */
  lemma {:induction false} CollectIsReadTexts(frames: seq<string>, ocr: Engine)
    requires AllRead(frames, ocr)
    ensures Collect(frames, ocr) == Ok(ReadTexts(frames, ocr))
    decreases |frames|
  {
    if |frames| > 0 {
      var init, last := frames[..|frames| - 1], frames[|frames| - 1];
      assert init + [last] == frames;
      assert forall i :: 0 <= i < |init| ==> init[i] == frames[i];
      CollectIsReadTexts(init, ocr);
      CollectSplits(init, [last], ocr);
      CollectOne(last, ocr);
    }
  }

  /** The run fails exactly when some frame's OCR raises. */
  lemma {:induction false} CollectFailsIff(frames: seq<string>, ocr: Engine)
    ensures Collect(frames, ocr).Err? <==> exists i :: 0 <= i < |frames| && ocr(frames[i]).OcrFailed?
    decreases |frames|
  {
    if |frames| > 0 {
      var tail := frames[1..];
      CollectFailsIff(tail, ocr);
      assert Collect(frames, ocr) == Then(OneFrame(ocr(frames[0])), Collect(tail, ocr));
      assert forall i :: 1 <= i < |frames| ==> frames[i] == tail[i - 1];
      if exists i :: 0 <= i < |tail| && ocr(tail[i]).OcrFailed? {
        var i :| 0 <= i < |tail| && ocr(tail[i]).OcrFailed?;
        assert ocr(frames[i + 1]).OcrFailed?;
      }
    }
  }

  /** Frames whose text is blank can be dropped without changing the result. */
  lemma BlankFrameContributesNothing(a: seq<string>, frame: string, b: seq<string>, ocr: Engine)
    requires ocr(frame).Read? && Strings.AllSpace(ocr(frame).text)
    ensures ExtractText(a + [frame] + b, ocr) == ExtractText(a + b, ocr)
  {
    Strings.StripEmptyIff(ocr(frame).text);
    CollectSplits(a + [frame], b, ocr);
    CollectSplits(a, [frame], ocr);
    CollectOne(frame, ocr);
    CollectSplits(a, b, ocr);
    if Collect(a, ocr).Ok? {
      assert Collect(a, ocr).value + [] == Collect(a, ocr).value;
    }
  }

  /** When every frame's text is blank, the sentinel comes back. */
  lemma AllBlankGivesSentinel(frames: seq<string>, ocr: Engine)
    requires forall i :: 0 <= i < |frames| ==> ocr(frames[i]).Read? && Strings.AllSpace(ocr(frames[i]).text)
    ensures ExtractText(frames, ocr) == Ok(NoTextFound)
  {
    NoKeptFromBlank(frames, ocr);
  }

  lemma {:induction false} NoKeptFromBlank(frames: seq<string>, ocr: Engine)
    requires forall i :: 0 <= i < |frames| ==> ocr(frames[i]).Read? && Strings.AllSpace(ocr(frames[i]).text)
    ensures Collect(frames, ocr) == Ok([])
    decreases |frames|
  {
    if |frames| > 0 {
      Strings.StripEmptyIff(ocr(frames[0]).text);
      assert forall i :: 1 <= i < |frames| ==> frames[1..][i - 1] == frames[i];
      NoKeptFromBlank(frames[1..], ocr);
    }
  }

  /** The lines of the joined text are the lines of the kept texts, in
      frame order: the join adds no line and merges none. */
  lemma LinesAreKeptTexts(frames: seq<string>, ocr: Engine)
    requires Collect(frames, ocr).Ok? && |Collect(frames, ocr).value| > 0
    ensures Strings.Split(ExtractText(frames, ocr).value, '\n')
            == Strings.SplitEach(Collect(frames, ocr).value, '\n')
  {
    Strings.SplitOfJoin(Collect(frames, ocr).value, '\n');
  }

  /** When no kept text spans several lines, each line of the joined text
      is one kept text. */
  lemma OneLinePerKeptText(frames: seq<string>, ocr: Engine)
    requires Collect(frames, ocr).Ok? && |Collect(frames, ocr).value| > 0
    requires forall k :: 0 <= k < |Collect(frames, ocr).value| ==> '\n' !in Collect(frames, ocr).value[k]
    ensures Strings.Split(ExtractText(frames, ocr).value, '\n') == Collect(frames, ocr).value
  {
    LinesAreKeptTexts(frames, ocr);
    Strings.SplitEachWithout(Collect(frames, ocr).value, '\n');
  }

  /** The first frame whose OCR raises decides the failure: the frames
      before it were read, the ones after it are never reached. */
  lemma {:induction false} FirstFailureAborts(frames: seq<string>, ocr: Engine, i: nat)
    requires i < |frames| && ocr(frames[i]).OcrFailed?
    requires forall j :: 0 <= j < i ==> ocr(frames[j]).Read?
    ensures ExtractText(frames, ocr) == Err(ocr(frames[i]).fault)
  {
    var before, after := frames[..i], frames[i..];
    assert before + after == frames;
    CollectSplits(before, after, ocr);
    ReadFramesSucceed(before, ocr);
    assert after == [frames[i]] + frames[i + 1..];
    CollectSplits([frames[i]], frames[i + 1..], ocr);
    CollectOne(frames[i], ocr);
  }

  /** Frames whose OCR all succeeds give a result. */
  lemma ReadFramesSucceed(frames: seq<string>, ocr: Engine)
    requires forall j :: 0 <= j < |frames| ==> ocr(frames[j]).Read?
    ensures Collect(frames, ocr).Ok?
  {
    CollectFailsIff(frames, ocr);
  }
}
