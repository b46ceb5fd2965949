/** `analyze_video` of analyze_video.py: the variant of the pipeline that has
    every sampled frame described on its own, labels the descriptions with
    their frame numbers, and asks for a summary of the labelled list. */
module FrameByFrame {
  import opened Outcomes
  import Strings
  import Numbers
  import Ordering
  import Errors
  import Frames

  /** The system message of a single-image request. */
  const ImagePrompt: string := "Детально опиши, что происходит на изображении."

  /** The description of a frame whose request failed. */
  const ImageFailed: string := "Ошибка анализа изображения."

  /** The system message of the summary request. */
  const SummaryPrompt: string := "Проанализируй кадры и составь описание видео."

  /** What every label starts with. */
  const LabelHead: string := "Кадр "

  /** Seconds paused after each frame. */
  const FramePause: nat := 1

  /** Where the `name`d frame of a task lies, relative to the working
      directory. */
  function FramePath(taskId: string, name: string): string
  {
    "frames/" + taskId + "/" + name
  }

  /** The request `analyze_image` posts for one frame. */
  function ImageRequest(path: string): seq<Message>
  {
    [Instruction(ImagePrompt), Images(["file://" + path])]
  }

  /** `analyze_image(path)`: the description, the placeholder when the
      request fails, or the exception that escapes it. */
  function AnalyzeImage(path: string, chat: Service): (r: Result<string>)
    ensures r.Err? <==> chat(ImageRequest(path)).Crashed?
    ensures r.Err? ==> r.fault == chat(ImageRequest(path)).fault
    ensures chat(ImageRequest(path)).RequestFailed? ==> r == Ok(ImageFailed)
    ensures chat(ImageRequest(path)).Answered? ==> r == Ok(chat(ImageRequest(path)).content)
  {
    match chat(ImageRequest(path))
    case Answered(content) => Ok(content)
    case RequestFailed(_) => Ok(ImageFailed)
    case Crashed(f) => Err(f)
  }

  /** `f"Кадр {idx+1}: {description}"`. */
  function Label(idx: nat, description: string): string
  {
    LabelHead + Numbers.NatToString(idx + 1) + ": " + description
  }

  /** A label gives back the 1-based frame number and the description it
      was made from. */
  lemma LabelReadsBack(idx: nat, description: string)
    ensures ParseLabel(Label(idx, description)) == Some((idx + 1, description))
  {
    var digits := Numbers.NatToString(idx + 1);
    var s := Label(idx, description);
    assert s == LabelHead + (digits + (": " + description));
    assert s[..|LabelHead|] == LabelHead;
    var rest := s[|LabelHead|..];
    assert rest == digits + (": " + description);
    Numbers.DigitRunOfDigits(digits, ": " + description);
    assert rest[..|digits|] == digits;
    assert rest[|digits|..|digits| + 2] == ": ";
    assert rest[|digits| + 2..] == description;
    Numbers.NatToStringValue(idx + 1);
  }

  /** Reads a label back into its frame number (counted from 1) and its
      description. */
  function ParseLabel(s: string): Option<(nat, string)>
  {
    if |s| < |LabelHead| || s[..|LabelHead|] != LabelHead then None
    else
      var rest := s[|LabelHead|..];
      var n := Numbers.DigitRun(rest);
      if n == 0 || n + 2 > |rest| || rest[n..n + 2] != ": " then None
      else Some((Numbers.DigitsValue(rest[..n]), rest[n + 2..]))
  }

  /** The loop's state after some frames: the labelled descriptions, what
      was posted and slept, and the exception that stopped it, if any. */
  datatype Labelled = Labelled(results: seq<string>, trace: seq<Event>, fault: Option<Fault>)

  /** The first `k` turns of `for idx, frame in enumerate(frame_files)`.
      An exception that stops the loop is one a frame's request raised;
      until then every frame leaves one entry, one post and one pause.
      That it is the first crashing frame's is `FrameCrashIsReported`. */
  function LabelFrames(paths: seq<string>, chat: Service, k: nat): (p: Labelled)
    requires k <= |paths|
    ensures p.fault.Some? ==> exists i :: 0 <= i < k && chat(ImageRequest(paths[i])) == Crashed(p.fault.value)
    ensures p.fault.None? ==> |p.results| == k && |p.trace| == 2 * k
  {
    if k == 0 then Labelled([], [], None)
    else
      var p := LabelFrames(paths, chat, k - 1);
      if p.fault.Some? then p
      else
        var request := ImageRequest(paths[k - 1]);
        match AnalyzeImage(paths[k - 1], chat)
        case Err(f) => Labelled(p.results, p.trace + [Posted(request)], Some(f))
        case Ok(d) => Labelled(p.results + [Label(k - 1, d)], p.trace + [Posted(request), Slept(FramePause)], None)
  }

  /** The request asking for the summary of the labelled descriptions. */
  function SummaryRequest(results: seq<string>): seq<Message>
  {
    [Instruction(SummaryPrompt), Prose(Strings.Join(results, "\n"))]
  }

  /** The dictionary `analyze_video` returns: the two keys of a success, or
      the error text. */
  datatype FrameReport = Summary(summary: string, analysisResults: seq<string>) | Failure(message: string)

  /** The external steps the variant depends on. */
  datatype FrameTools = FrameTools(download: Outcome, extract: Frames.Extraction, chat: Service)

  /** A run: what was posted and slept, and the report. */
  datatype FrameRun = FrameRun(trace: seq<Event>, report: FrameReport)

  /** The sampled frames in the order `sorted(frames_dir.glob("*.png"))`
      gives them, as paths. */
  function FramePaths(taskId: string, n: nat): (paths: seq<string>)
    ensures |paths| == n
  {
    var names := Ordering.Sort(Frames.FrameNames(n));
    assert |multiset(names)| == |multiset(Frames.FrameNames(n))|;
    seq(|names|, i requires 0 <= i < |names| => FramePath(taskId, names[i]))
  }

  /** `analyze_video(url, fps)` with the run identifier (`task_id`) it draws.
      Nothing is posted before the video is downloaded and sampled, and a
      summary comes with one labelled entry per sampled frame. */
  function AnalyzeFrames(taskId: string, tools: FrameTools): (run: FrameRun)
    ensures run.trace != [] ==> tools.download.Done? && tools.extract.Extracted?
    ensures run.report.Summary? ==>
              tools.download.Done? && tools.extract.Extracted?
              && |run.report.analysisResults| == tools.extract.count
  {
    if tools.download.Threw? then FrameRun([], Failure(Errors.ErrorText(tools.download.fault)))
    else match tools.extract
      case ExtractFailed(f) => FrameRun([], Failure(Errors.ErrorText(f)))
      case Extracted(n) =>
        var paths := FramePaths(taskId, n);
        var p := LabelFrames(paths, tools.chat, |paths|);
        match p.fault
        case Some(f) => FrameRun(p.trace, Failure(Errors.ErrorText(f)))
        case None =>
          var request := SummaryRequest(p.results);
          var trace := p.trace + [Posted(request)];
          match tools.chat(request)
          case Answered(summary) => FrameRun(trace, Summary(summary, p.results))
          case RequestFailed(f) => FrameRun(trace, Failure(Errors.ErrorText(f)))
          case Crashed(f) => FrameRun(trace, Failure(Errors.ErrorText(f)))
  }

  /** No frame before the `k`-th made its request crash. */
  predicate NoCrashBefore(paths: seq<string>, chat: Service, k: nat)
    requires k <= |paths|
  {
    forall i :: 0 <= i < k ==> !chat(ImageRequest(paths[i])).Crashed?
  }

  lemma NoCrashShrinks(paths: seq<string>, chat: Service, k: nat)
    requires 0 < k <= |paths| && NoCrashBefore(paths, chat, k)
    ensures NoCrashBefore(paths, chat, k - 1) && !chat(ImageRequest(paths[k - 1])).Crashed?
  {
  }

  /** The description a frame gets from a reply that is not a crash. */
  function Description(reply: Reply): string
  {
    if reply.Answered? then reply.content else ImageFailed
  }

  /** What one uncrashed turn posts: its request, then the pause. */
  function FrameEvents(paths: seq<string>, i: nat): seq<Event>
    requires i < |paths|
  {
    [Posted(ImageRequest(paths[i])), Slept(FramePause)]
  }

  /** One uncrashed turn appends its labelled entry and its events. */
  lemma LabelStep(paths: seq<string>, chat: Service, k: nat)
    requires 0 < k <= |paths| && LabelFrames(paths, chat, k - 1).fault == None
    requires !chat(ImageRequest(paths[k - 1])).Crashed?
    ensures LabelFrames(paths, chat, k)
            == Labelled(LabelFrames(paths, chat, k - 1).results + [Label(k - 1, Description(chat(ImageRequest(paths[k - 1]))))],
                        LabelFrames(paths, chat, k - 1).trace + FrameEvents(paths, k - 1), None)
  {
  }

  /** The labelled entries of the first `k` frames. */
  function Labels(paths: seq<string>, chat: Service, k: nat): seq<string>
    requires k <= |paths|
  {
    seq(k, i requires 0 <= i < k => Label(i, Description(chat(ImageRequest(paths[i])))))
  }

  /** The events of the first `k` frames, frame by frame. */
  function FrameTurns(paths: seq<string>, k: nat): seq<seq<Event>>
    requires k <= |paths|
  {
    seq(k, i requires 0 <= i < k => FrameEvents(paths, i))
  }

  /** The image requests of the first `k` frames. */
  function ImageRequests(paths: seq<string>, k: nat): seq<seq<Message>>
    requires k <= |paths|
  {
    seq(k, i requires 0 <= i < k => ImageRequest(paths[i]))
  }

  lemma LabelsExtend(paths: seq<string>, chat: Service, k: nat)
    requires k < |paths|
    ensures Labels(paths, chat, k + 1) == Labels(paths, chat, k) + [Label(k, Description(chat(ImageRequest(paths[k]))))]
  {
  }

  lemma FrameTurnsExtend(paths: seq<string>, k: nat)
    requires k < |paths|
    ensures FrameTurns(paths, k + 1) == FrameTurns(paths, k) + [FrameEvents(paths, k)]
  {
  }

  lemma ImageRequestsExtend(paths: seq<string>, k: nat)
    requires k < |paths|
    ensures ImageRequests(paths, k + 1) == ImageRequests(paths, k) + [ImageRequest(paths[k])]
  {
  }

  /** Without a crash every frame gets exactly one entry, labelled with its
      1-based position and holding its description or the placeholder. */
  lemma {:induction false} LabelFramesWithoutCrash(paths: seq<string>, chat: Service, k: nat)
    requires k <= |paths| && NoCrashBefore(paths, chat, k)
    ensures LabelFrames(paths, chat, k).fault == None
    ensures LabelFrames(paths, chat, k).results == Labels(paths, chat, k)
    decreases k
  {
    NoFaultIff(paths, chat, k);
    if k > 0 {
      NoCrashShrinks(paths, chat, k);
      LabelFramesWithoutCrash(paths, chat, k - 1);
      LabelsStep(paths, chat, k);
    }
  }

  /** One more uncrashed frame adds its label to both the loop's entries
      and the reference list. */
  lemma LabelsStep(paths: seq<string>, chat: Service, k: nat)
    requires 0 < k <= |paths| && !chat(ImageRequest(paths[k - 1])).Crashed?
    requires LabelFrames(paths, chat, k - 1).fault == None
    requires LabelFrames(paths, chat, k - 1).results == Labels(paths, chat, k - 1)
    ensures LabelFrames(paths, chat, k).results == Labels(paths, chat, k)
  {
    LabelStep(paths, chat, k);
    LabelsExtend(paths, chat, k - 1);
  }

  /** Without a crash every frame posts its own request followed by a pause,
      whatever the request did. */
  lemma {:induction false} FramesTrace(paths: seq<string>, chat: Service, k: nat)
    requires k <= |paths| && NoCrashBefore(paths, chat, k)
    ensures LabelFrames(paths, chat, k).trace == Concat(FrameTurns(paths, k))
    decreases k
  {
    if k > 0 {
      NoCrashShrinks(paths, chat, k);
      FramesTrace(paths, chat, k - 1);
      NoFaultIff(paths, chat, k - 1);
      LabelStep(paths, chat, k);
      FrameTurnsExtend(paths, k - 1);
      ConcatAppend(FrameTurns(paths, k - 1), FrameEvents(paths, k - 1));
    }
  }

  /** A crash on a frame stops the loop there, whatever later frames would
      have done. */
  lemma {:induction false} CrashIsFinal(paths: seq<string>, chat: Service, k: nat, m: nat)
    requires k <= m <= |paths| && LabelFrames(paths, chat, k).fault.Some?
    ensures LabelFrames(paths, chat, m) == LabelFrames(paths, chat, k)
    decreases m - k
  {
    if k < m {
      CrashIsFinal(paths, chat, k, m - 1);
    }
  }

  /** The loop ends without a fault exactly when no frame's request
      crashed. */
  lemma {:induction false} NoFaultIff(paths: seq<string>, chat: Service, k: nat)
    requires k <= |paths|
    ensures LabelFrames(paths, chat, k).fault == None <==> NoCrashBefore(paths, chat, k)
    decreases k
  {
    if k > 0 {
      NoFaultIff(paths, chat, k - 1);
      NoCrashStep(paths, chat, k);
      if LabelFrames(paths, chat, k - 1).fault.None? {
        assert AnalyzeImage(paths[k - 1], chat).Err? <==> chat(ImageRequest(paths[k - 1])).Crashed?;
      }
    }
  }

  /** No crash among the first `k` frames is no crash among the first
      `k - 1` and none at frame `k - 1`. */
  lemma NoCrashStep(paths: seq<string>, chat: Service, k: nat)
    requires 0 < k <= |paths|
    ensures NoCrashBefore(paths, chat, k)
            <==> NoCrashBefore(paths, chat, k - 1) && !chat(ImageRequest(paths[k - 1])).Crashed?
  {
    if NoCrashBefore(paths, chat, k - 1) && !chat(ImageRequest(paths[k - 1])).Crashed? {
      forall i | 0 <= i < k
        ensures !chat(ImageRequest(paths[i])).Crashed?
      {
        if i < k - 1 {
        }
      }
    }
  }

  /** One path per sampled frame, and for at most 9999 frames the `i`-th
      path is that of the `i + 1`-th frame in time. */
  lemma FramePathsInTimeOrder(taskId: string, n: nat)
    ensures |FramePaths(taskId, n)| == n
    ensures n <= 9999 ==>
              forall i :: 0 <= i < n ==> FramePaths(taskId, n)[i] == FramePath(taskId, Frames.FrameName(i + 1))
  {
    if n <= 9999 {
      forall i | 0 <= i < n
        ensures FramePaths(taskId, n)[i] == FramePath(taskId, Frames.FrameName(i + 1))
      {
        FramePathAt(taskId, n, i);
      }
    }
  }

  lemma FramePathAt(taskId: string, n: nat, i: nat)
    requires i < n <= 9999
    ensures FramePaths(taskId, n)[i] == FramePath(taskId, Frames.FrameName(i + 1))
  {
    var names := Ordering.Sort(Frames.FrameNames(n));
    Frames.SortedListingIsTemporal(Frames.FrameNames(n), n);
    assert names[i] == Frames.FrameNames(n)[i];
  }

  /** The labelled entries of a run in which no frame's request crashed. */
  function Entries(paths: seq<string>, chat: Service): seq<string>
  {
    Labels(paths, chat, |paths|)
  }

  /** A run succeeds exactly when the download, the sampling, every frame's
      request and the summary request all get through; it then reports the
      summary and one labelled entry per frame, in frame order, and the
      summary request carried those entries joined by newlines. */
  lemma FrameRunSucceedsIff(taskId: string, tools: FrameTools)
    ensures var run := AnalyzeFrames(taskId, tools);
            run.report.Summary?
            <==> && tools.download.Done? && tools.extract.Extracted?
                 && var paths := FramePaths(taskId, tools.extract.count);
                    && NoCrashBefore(paths, tools.chat, |paths|)
                    && tools.chat(SummaryRequest(Entries(paths, tools.chat))).Answered?
    ensures var run := AnalyzeFrames(taskId, tools);
            run.report.Summary? ==>
              var paths := FramePaths(taskId, tools.extract.count);
              && run.report.analysisResults == Entries(paths, tools.chat)
              && run.report.summary == tools.chat(SummaryRequest(Entries(paths, tools.chat))).content
  {
    if tools.download.Done? && tools.extract.Extracted? {
      var paths := FramePaths(taskId, tools.extract.count);
      NoFaultIff(paths, tools.chat, |paths|);
      if NoCrashBefore(paths, tools.chat, |paths|) {
        LabelFramesWithoutCrash(paths, tools.chat, |paths|);
      }
    }
  }

  /** Every request the loop posts, in order: one per frame, for that
      frame's own image; then the summary request. */
  lemma FrameRunRequests(taskId: string, tools: FrameTools)
    requires tools.download.Done? && tools.extract.Extracted?
    requires NoCrashBefore(FramePaths(taskId, tools.extract.count), tools.chat, tools.extract.count)
    ensures var paths := FramePaths(taskId, tools.extract.count);
            Requests(AnalyzeFrames(taskId, tools).trace)
            == ImageRequests(paths, |paths|) + [SummaryRequest(Entries(paths, tools.chat))]
  {
    var paths := FramePaths(taskId, tools.extract.count);
    LabelFramesWithoutCrash(paths, tools.chat, |paths|);
    FramesTrace(paths, tools.chat, |paths|);
    FrameRequests(paths, |paths|);
    var p := LabelFrames(paths, tools.chat, |paths|);
    var summary := [Posted(SummaryRequest(p.results))];
    assert AnalyzeFrames(taskId, tools).trace == p.trace + summary;
    RequestsAppend(p.trace, summary);
    assert summary[..0] == [];
  }

  /** Each frame's events post exactly that frame's image request. */
  lemma {:induction false} FrameRequests(paths: seq<string>, k: nat)
    requires k <= |paths|
    ensures Requests(Concat(FrameTurns(paths, k))) == ImageRequests(paths, k)
    decreases k
  {
    if k > 0 {
      var before := FrameTurns(paths, k - 1);
      var e := FrameEvents(paths, k - 1);
      FrameRequests(paths, k - 1);
      FrameTurnsExtend(paths, k - 1);
      ConcatAppend(before, e);
      RequestsAppend(Concat(before), e);
      assert Requests(e) == [ImageRequest(paths[k - 1])] by {
        assert e[..1] == [Posted(ImageRequest(paths[k - 1]))];
        assert e[..1][..0] == [];
      }
      ImageRequestsExtend(paths, k - 1);
    }
  }

  /** A frame whose request crashes ends the run with that exception's
      text: no later frame and no summary is requested, and no partial
      result is returned. */
  lemma FrameCrashIsReported(taskId: string, tools: FrameTools, c: nat)
    requires tools.download.Done? && tools.extract.Extracted?
    requires c < |FramePaths(taskId, tools.extract.count)|
    requires NoCrashBefore(FramePaths(taskId, tools.extract.count), tools.chat, c)
    requires tools.chat(ImageRequest(FramePaths(taskId, tools.extract.count)[c])).Crashed?
    ensures AnalyzeFrames(taskId, tools).report
            == Failure(Errors.ErrorText(tools.chat(ImageRequest(FramePaths(taskId, tools.extract.count)[c])).fault))
    ensures Requests(AnalyzeFrames(taskId, tools).trace)
            == ImageRequests(FramePaths(taskId, tools.extract.count), c + 1)
  {
    var paths := FramePaths(taskId, tools.extract.count);
    LabelFramesWithoutCrash(paths, tools.chat, c);
    CrashStep(paths, tools.chat, c + 1);
    CrashIsFinal(paths, tools.chat, c + 1, |paths|);
    CrashedLoopRequests(paths, tools.chat, c);
  }

  /** The requests a loop stopped by the crash of frame `c` posted. */
  lemma CrashedLoopRequests(paths: seq<string>, chat: Service, c: nat)
    requires c < |paths| && NoCrashBefore(paths, chat, c) && chat(ImageRequest(paths[c])).Crashed?
    ensures Requests(LabelFrames(paths, chat, c + 1).trace)
            == ImageRequests(paths, c + 1)
  {
    NoFaultIff(paths, chat, c);
    FramesTrace(paths, chat, c);
    FrameRequests(paths, c);
    var p := LabelFrames(paths, chat, c);
    CrashStep(paths, chat, c + 1);
    var last := [Posted(ImageRequest(paths[c]))];
    RequestsAppend(p.trace, last);
    assert Requests(last) == [ImageRequest(paths[c])] by {
      assert last[..0] == [];
    }
    ImageRequestsExtend(paths, c);
  }

  /** The crashing frame posts its request and records the fault. */
  lemma CrashStep(paths: seq<string>, chat: Service, k: nat)
    requires 0 < k <= |paths| && LabelFrames(paths, chat, k - 1).fault == None
    requires chat(ImageRequest(paths[k - 1])).Crashed?
    ensures LabelFrames(paths, chat, k)
            == Labelled(LabelFrames(paths, chat, k - 1).results,
                        LabelFrames(paths, chat, k - 1).trace + [Posted(ImageRequest(paths[k - 1]))],
                        Some(chat(ImageRequest(paths[k - 1])).fault))
  {
  }

  /** A download that raises is reported with its own text, and nothing
      is posted. */
  lemma DownloadFailureIsReported(taskId: string, tools: FrameTools)
    requires tools.download.Threw?
    ensures AnalyzeFrames(taskId, tools) == FrameRun([], Failure(Errors.ErrorText(tools.download.fault)))
  {
  }

  /** A sampling run that raises after the download is reported with its
      own text, and nothing is posted. */
  lemma ExtractFailureIsReported(taskId: string, tools: FrameTools)
    requires tools.download.Done? && tools.extract.ExtractFailed?
    ensures AnalyzeFrames(taskId, tools) == FrameRun([], Failure(Errors.ErrorText(tools.extract.fault)))
  {
  }

  /** A summary request that does not get an answer, whether it failed or
      crashed, ends the run with that exception's text. */
  lemma SummaryFailureIsReported(taskId: string, tools: FrameTools)
    requires tools.download.Done? && tools.extract.Extracted?
    requires NoCrashBefore(FramePaths(taskId, tools.extract.count), tools.chat, tools.extract.count)
    requires !tools.chat(SummaryRequest(Entries(FramePaths(taskId, tools.extract.count), tools.chat))).Answered?
    ensures AnalyzeFrames(taskId, tools).report
            == Failure(Errors.ErrorText(tools.chat(SummaryRequest(Entries(FramePaths(taskId, tools.extract.count), tools.chat))).fault))
  {
    var paths := FramePaths(taskId, tools.extract.count);
    FramePathsInTimeOrder(taskId, tools.extract.count);
    LabelFramesWithoutCrash(paths, tools.chat, |paths|);
  }

  /** The entries carry the frame numbers 1, 2, 3, ... in order, each
      with its own frame's description. */
  lemma EntriesAreNumbered(paths: seq<string>, chat: Service)
    ensures forall i :: 0 <= i < |paths| ==>
              ParseLabel(Entries(paths, chat)[i]) == Some((i + 1, Description(chat(ImageRequest(paths[i])))))
  {
    var entries := Entries(paths, chat);
    forall i | 0 <= i < |paths|
      ensures ParseLabel(entries[i]) == Some((i + 1, Description(chat(ImageRequest(paths[i])))))
    {
      LabelReadsBack(i, Description(chat(ImageRequest(paths[i]))));
    }
  }

  /** When no description spans several lines, the text of the summary
      request splits back into the entries, one per line. */
  lemma EntriesAreLines(paths: seq<string>, chat: Service)
    requires |paths| > 0
    requires forall i :: 0 <= i < |paths| ==> '\n' !in Description(chat(ImageRequest(paths[i])))
    ensures Strings.Split(Strings.Join(Entries(paths, chat), "\n"), '\n') == Entries(paths, chat)
  {
    var entries := Entries(paths, chat);
    forall i | 0 <= i < |paths|
      ensures '\n' !in entries[i]
    {
      LabelHasNoNewline(i, Description(chat(ImageRequest(paths[i]))));
    }
    Strings.SplitJoin(entries, '\n');
  }

  lemma LabelHasNoNewline(idx: nat, description: string)
    requires '\n' !in description
    ensures '\n' !in Label(idx, description)
  {
    var digits := Numbers.NatToString(idx + 1);
    assert forall k :: 0 <= k < |digits| ==> digits[k] != '\n';
    assert Label(idx, description) == LabelHead + digits + ": " + description;
  }
}
