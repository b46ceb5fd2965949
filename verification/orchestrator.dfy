/** `analyze_video` (main.py): the pipeline that downloads a video, reads its
    length, samples frames, publishes them, reads their text and has them
    described, turning any exception on the way into an error report. */
module Orchestrator {
  import opened Outcomes
  import Strings
  import Numbers
  import Ordering
  import Errors
  import Duration
  import Frames
  import Ocr
  import Batching

  /** The report when publishing produced no links. */
  const NotPublished: string := "Не удалось загрузить кадры на GitHub."

  /** Everything outside the program the pipeline depends on, as oracles:
      the download, the ffmpeg run that probes the length (its error stream,
      or the exception running it raised), the sampling run, the repository
      steps, the OCR engine and the chat service. */
  datatype Tools = Tools(
    download: Outcome,
    ffmpegLog: Result<string>,
    extract: Frames.Extraction,
    publish: Frames.PublishOracle,
    ocr: Ocr.Engine,
    chat: Service)

  /** The steps of `analyze_video`, in the order it takes them. */
  datatype Stage = Fetching | ProbingDuration | Sampling | Publishing | ExtractingText | Describing

  const Pipeline: seq<Stage> := [Fetching, ProbingDuration, Sampling, Publishing, ExtractingText, Describing]

  /** The dictionary `analyze_video` returns. */
  datatype Report =
    | Analysis(videoDuration: string, frameCount: nat, summary: string, text: string)
    | Error(message: string)

  /** A run of the pipeline: the stages it started, what it posted to the
      chat service, and its report. */
  datatype Analyzed = Analyzed(stages: seq<Stage>, trace: seq<Event>, report: Report)

  /** `f"{minutes} минут {seconds} секунд"`, where both are `None` when the
      log had no duration line. */
  function DurationText(length: Option<Duration.Length>): string
  {
    match length
    case None => "None минут None секунд"
    case Some(l) => Numbers.NatToString(l.minutes) + " минут " + Numbers.NatToString(l.seconds) + " секунд"
  }

  /** The frames as `sorted(frames_dir.glob("*.png"))` lists them. */
  function ListedFrames(n: nat): seq<string>
  {
    Ordering.Sort(Frames.FrameNames(n))
  }

  /** The run stopped during the `k`-th stage by an exception. */
  function Stopped(k: nat, f: Fault): Analyzed
    requires 1 <= k <= |Pipeline|
  {
    Analyzed(Pipeline[..k], [], Error(Errors.ErrorText(f)))
  }

  /** `analyze_video(url, fps)` with the run identifier (`task_id`) it draws. The
      stages started are always a prefix of the pipeline, a report of
      success means every stage ran, and the chat service is contacted only
      once the last stage has started. */
  function AnalyzeVideo(taskId: string, tools: Tools): (a: Analyzed)
    ensures 1 <= |a.stages| <= |Pipeline| && a.stages == Pipeline[..|a.stages|]
    ensures a.report.Analysis? ==> a.stages == Pipeline && a.report.frameCount > 0
    ensures |a.stages| < |Pipeline| ==> a.trace == []
  {
    if tools.download.Threw? then Stopped(1, tools.download.fault)
    else match Duration.GetVideoDuration(tools.ffmpegLog)
      case Err(f) => Stopped(2, f)
      case Ok(length) =>
        match tools.extract
        case ExtractFailed(f) => Stopped(3, f)
        case Extracted(n) => PublishAndDescribe(taskId, length, ListedFrames(n), tools)
  }

  /** The part of `analyze_video` from `upload_frames_to_github` on. */
  function PublishAndDescribe(taskId: string, length: Option<Duration.Length>, frames: seq<string>, tools: Tools)
    : (a: Analyzed)
    ensures 4 <= |a.stages| <= |Pipeline| && a.stages == Pipeline[..|a.stages|]
    ensures a.report.Analysis? ==> a.stages == Pipeline && a.report.frameCount > 0
    ensures |a.stages| < |Pipeline| ==> a.trace == []
  {
    match Frames.Publish(taskId, frames, tools.publish)
    case Err(f) => Stopped(4, f)
    case Ok(links) =>
      if |links| == 0 then Analyzed(Pipeline[..4], [], Error(NotPublished))
      else ReadAndDescribe(length, frames, links, tools)
  }

  /** The part of `analyze_video` after the links are known to be there. */
  function ReadAndDescribe(length: Option<Duration.Length>, frames: seq<string>, links: seq<string>, tools: Tools)
    : (a: Analyzed)
    requires |links| > 0
    ensures a.stages == Pipeline[..5] || a.stages == Pipeline
    ensures a.report.Analysis? ==> a.stages == Pipeline && a.report.frameCount == |links|
    ensures a.stages != Pipeline ==> a.trace == []
  {
    match Ocr.ExtractText(frames, tools.ocr)
    case Err(f) => Stopped(5, f)
    case Ok(text) =>
      var described := Batching.Describe(links, tools.chat);
      match described.summary
      case Err(f) => Analyzed(Pipeline, described.trace, Error(Errors.ErrorText(f)))
      case Ok(summary) =>
        Analyzed(Pipeline, described.trace, Analysis(DurationText(length), |links|, summary, text))
  }

  /** The tools up to and including publishing all succeed. */
  predicate PublishedFine(tools: Tools)
  {
    && tools.download.Done?
    && Duration.GetVideoDuration(tools.ffmpegLog).Ok?
    && tools.extract.Extracted?
    && tools.publish == Frames.PublishOracle(Done, Done)
  }

  /** A download failure is reported with its own text, and nothing else
      is attempted. */
  lemma DownloadFailureIsReported(taskId: string, tools: Tools)
    requires tools.download.Threw?
    ensures AnalyzeVideo(taskId, tools) == Analyzed([Fetching], [], Error(Errors.ErrorText(tools.download.fault)))
  {
  }

  /** An ffmpeg run that raises, or a duration line that does not unpack,
      ends the run with that exception's text before any frame is sampled. */
  lemma DurationFailureIsReported(taskId: string, tools: Tools)
    requires tools.download.Done? && Duration.GetVideoDuration(tools.ffmpegLog).Err?
    ensures AnalyzeVideo(taskId, tools).report
            == Error(Errors.ErrorText(Duration.GetVideoDuration(tools.ffmpegLog).fault))
    ensures AnalyzeVideo(taskId, tools).stages == Pipeline[..2]
  {
  }

  /** A sampling run that fails is reported with its own text, before
      anything is published. */
  lemma ExtractFailureIsReported(taskId: string, tools: Tools)
    requires tools.download.Done? && Duration.GetVideoDuration(tools.ffmpegLog).Ok?
    requires tools.extract.ExtractFailed?
    ensures AnalyzeVideo(taskId, tools)
            == Analyzed(Pipeline[..3], [], Error(Errors.ErrorText(tools.extract.fault)))
  {
    assert AnalyzeVideo(taskId, tools) == Stopped(3, tools.extract.fault);
  }

  /** A clone, copy, `git add` or commit that raises is reported with its
      own text: neither OCR nor the chat service is used. */
  lemma RepositoryFailureIsReported(taskId: string, tools: Tools)
    requires tools.download.Done? && Duration.GetVideoDuration(tools.ffmpegLog).Ok?
    requires tools.extract.Extracted? && tools.publish.beforePush.Threw?
    ensures AnalyzeVideo(taskId, tools)
            == Analyzed(Pipeline[..4], [], Error(Errors.ErrorText(tools.publish.beforePush.fault)))
  {
    var length := Duration.GetVideoDuration(tools.ffmpegLog).value;
    var frames := ListedFrames(tools.extract.count);
    assert Frames.Publish(taskId, frames, tools.publish) == Err(tools.publish.beforePush.fault);
    assert AnalyzeVideo(taskId, tools) == PublishAndDescribe(taskId, length, frames, tools);
  }

  /** When the push fails (or there are no frames), the run stops with the
      publishing error: neither OCR nor the chat service is used. */
  lemma NoLinksStopsEarly(taskId: string, tools: Tools)
    requires tools.download.Done? && Duration.GetVideoDuration(tools.ffmpegLog).Ok?
    requires tools.extract.Extracted? && tools.publish.beforePush.Done?
    requires tools.publish.push.Threw? || tools.extract.count == 0
    ensures AnalyzeVideo(taskId, tools).report == Error(NotPublished)
    ensures AnalyzeVideo(taskId, tools).stages == Pipeline[..4]
    ensures AnalyzeVideo(taskId, tools).trace == []
  {
    var n := tools.extract.count;
    NothingPublished(taskId, n, tools.publish);
    var length := Duration.GetVideoDuration(tools.ffmpegLog).value;
    assert AnalyzeVideo(taskId, tools) == PublishAndDescribe(taskId, length, ListedFrames(n), tools);
  }

  lemma NothingPublished(taskId: string, n: nat, repo: Frames.PublishOracle)
    requires repo.beforePush.Done? && (repo.push.Threw? || n == 0)
    ensures Frames.Publish(taskId, ListedFrames(n), repo) == Ok([])
  {
    ListedFramesCount(n);
  }

  /** An OCR failure is reported with its own text before any frame is
      sent to the chat service. */
  lemma OcrFailureSkipsChat(taskId: string, tools: Tools)
    requires PublishedFine(tools) && tools.extract.count > 0
    requires Ocr.ExtractText(ListedFrames(tools.extract.count), tools.ocr).Err?
    ensures AnalyzeVideo(taskId, tools).report
            == Error(Errors.ErrorText(Ocr.ExtractText(ListedFrames(tools.extract.count), tools.ocr).fault))
    ensures Requests(AnalyzeVideo(taskId, tools).trace) == []
  {
    ListedFramesCount(tools.extract.count);
  }

  /** The links published for `n` frames, in the order the chat service
      receives them. */
  function PublishedLinks(taskId: string, n: nat): seq<string>
  {
    Frames.FrameLinks(taskId, ListedFrames(n))
  }

  /** A successful run reports one frame per sampled image, and the chat
      service saw them in batches of ten, in time order when there are at
      most 9999 of them. */
  lemma SuccessfulRun(taskId: string, tools: Tools)
    requires PublishedFine(tools) && tools.extract.count > 0
    requires Ocr.ExtractText(ListedFrames(tools.extract.count), tools.ocr).Ok?
    requires Batching.Describe(PublishedLinks(taskId, tools.extract.count), tools.chat).summary.Ok?
    ensures AnalyzeVideo(taskId, tools).report
            == Analysis(DurationText(Duration.GetVideoDuration(tools.ffmpegLog).value),
                        tools.extract.count,
                        Batching.Describe(PublishedLinks(taskId, tools.extract.count), tools.chat).summary.value,
                        Ocr.ExtractText(ListedFrames(tools.extract.count), tools.ocr).value)
    ensures tools.extract.count <= 9999 ==>
              PublishedLinks(taskId, tools.extract.count) == Frames.FrameLinks(taskId, Frames.FrameNames(tools.extract.count))
  {
    var n := tools.extract.count;
    ListedFramesCount(n);
    if n <= 9999 {
      Frames.SortedListingIsTemporal(Frames.FrameNames(n), n);
    }
  }

  /** A crash of the chat service is reported with its own text; the
      requests before it were posted. */
  lemma ChatCrashIsReported(taskId: string, tools: Tools)
    requires PublishedFine(tools) && tools.extract.count > 0
    requires Ocr.ExtractText(ListedFrames(tools.extract.count), tools.ocr).Ok?
    requires Batching.Describe(PublishedLinks(taskId, tools.extract.count), tools.chat).summary.Err?
    ensures AnalyzeVideo(taskId, tools)
            == Analyzed(Pipeline, Batching.Describe(PublishedLinks(taskId, tools.extract.count), tools.chat).trace,
                        Error(Errors.ErrorText(Batching.Describe(PublishedLinks(taskId, tools.extract.count), tools.chat).summary.fault)))
  {
    var n := tools.extract.count;
    ListedFramesCount(n);
  }

  lemma DigitsHaveNoSpace(s: string)
    requires Numbers.AllDigits(s)
    ensures ' ' !in s
  {
    assert forall k :: 0 <= k < |s| ==> s[k] != ' ';
  }

  lemma NumberIsNotNone(v: nat)
    ensures Numbers.NatToString(v) != "None"
  {
    assert Numbers.NatToString(v)[0] != 'N';
  }

  lemma JoinFour(a: string, b: string, c: string, d: string)
    ensures Strings.Join([a, b, c, d], " ") == a + " " + b + " " + c + " " + d
  {
    var parts := [a, b, c, d];
    assert parts[1..] == [b, c, d];
    assert [b, c, d][1..] == [c, d];
    assert [c, d][1..] == [d];
    assert Strings.Join([c, d], " ") == c + " " + d;
    assert Strings.Join([b, c, d], " ") == b + " " + (c + " " + d);
    assert Strings.Join(parts, " ") == a + " " + (b + " " + (c + " " + d));
  }

  /** Two space-free words in the duration template split back out. */
  lemma TemplateWords(a: string, b: string)
    requires ' ' !in a && ' ' !in b
    ensures Strings.Split(a + " минут " + b + " секунд", ' ') == [a, "минут", b, "секунд"]
  {
    JoinFour(a, "минут", b, "секунд");
    assert " минут " == " " + "минут" + " ";
    assert " секунд" == " " + "секунд";
    assert a + " минут " + b + " секунд" == a + " " + "минут" + " " + b + " " + "секунд";
    Strings.SplitJoin([a, "минут", b, "секунд"], ' ');
  }

  lemma ListedFramesCount(n: nat)
    ensures |ListedFrames(n)| == n
  {
    assert |multiset(ListedFrames(n))| == |multiset(Frames.FrameNames(n))|;
  }

  /** The duration text is four words. */
  lemma DurationWords(length: Option<Duration.Length>)
    ensures var words := Strings.Split(DurationText(length), ' ');
            && |words| == 4 && words[1] == "минут" && words[3] == "секунд"
            && (length.None? ==> words[0] == "None" && words[2] == "None")
            && (length.Some? ==> words[0] == Numbers.NatToString(length.value.minutes)
                                 && words[2] == Numbers.NatToString(length.value.seconds))
  {
    if length.Some? {
      var a, b := Numbers.NatToString(length.value.minutes), Numbers.NatToString(length.value.seconds);
      DigitsHaveNoSpace(a);
      DigitsHaveNoSpace(b);
      TemplateWords(a, b);
    } else {
      assert "None минут None секунд" == "None" + " минут " + "None" + " секунд";
      TemplateWords("None", "None");
    }
  }

  /** The duration text gives back the minutes and seconds it was made from,
      and tells a missing duration from every real one. */
  lemma DurationTextReadsBack(x: Option<Duration.Length>, y: Option<Duration.Length>)
    requires DurationText(x) == DurationText(y)
    ensures x == y
  {
    DurationWords(x);
    DurationWords(y);
    if x.Some? { NumberIsNotNone(x.value.minutes); }
    if y.Some? { NumberIsNotNone(y.value.minutes); }
    if x.Some? && y.Some? {
      Numbers.NatToStringInjective(x.value.minutes, y.value.minutes);
      Numbers.NatToStringInjective(x.value.seconds, y.value.seconds);
    }
  }
}
