# Video analysis pipeline — a Dafny model

This project models the core of a small video-analysis service. The service
takes an Instagram or YouTube link, downloads the video and reads its length
from ffmpeg's diagnostic text. It samples frames as `frame_0001.png`,
`frame_0002.png`, … and pushes them to a GitHub repository. It reads the
on-screen text with Tesseract, sends the frame links to a chat-completion
service ten at a time and returns a dictionary report. A second variant of the
pipeline describes every frame on its own, labels each description `Кадр N: …`
and asks for a summary of the labelled list.

Everything outside the program is an oracle passed in as a value:

- the download's outcome;
- ffmpeg's error-stream text, or the exception running it raised;
- the number of frames the sampling run wrote;
- the outcome of the repository steps;
- the OCR engine, as a function from frame file name to reading;
- the chat service, as a function from request to reply.

The replies are `Answered`, `RequestFailed` or `Crashed`:

- `RequestFailed` is a `requests.RequestException`, which the loops catch.
- `Crashed` is any other exception, for example a reply without `choices` (a `KeyError` or `IndexError`). It escapes to `analyze_video`.

Sleeps and posts are recorded as events in a trace, so the order and content
of every request can be stated.

Modules:

- `Outcomes`: `Result`, `Option`, faults, chat messages, replies and traces.
- `Errors`: the `str(e)` text of each fault.
- `Strings`: `split`, `join`, `strip` and `in`.
- `Numbers`: `str`, `%04d`, exact decimals for `float`, `int` and `round`.
- `Ordering`: Python string order and `sorted`.
- `Duration`: `get_video_duration`.
- `Frames`: frame names, their order, links and `upload_frames_to_github`.
- `Ocr`: `extract_text_from_frames`.
- `Batching`: `analyze_video_with_gpt`. It has both a functional model and the loop as a method.
- `Orchestrator`: `analyze_video` of main.py.
- `FrameByFrame`: `analyze_image` and `analyze_video` of analyze_video.py.

Two behaviours of the code are modelled as written, although the program's
own words promise more:

- `get_video_duration` says it returns the video's length ("Получает длительность видео.", main.py:62-63), and the report prints it as `{minutes} минут {seconds} секунд` (main.py:171). The code drops the hours field (`split(":")[1:]`, main.py:71), so a 1 h 2 min 15 s video reports 2 minutes 15 seconds. `Duration.HoursAreDropped` states this.
- Frames are named `frame_%04d.png` (main.py:80), and the links are taken in `sorted` order (main.py:110), which is time order only while every number has four digits. `Frames.SortedListingIsTemporal` proves time order up to 9999 frames, and `Frames.SortedOrderBreaksPast9999` shows `frame_10000.png` sorting before `frame_1001.png`.

## Model

| member | source | states |
|---|---|---|
| Duration.UnpackTwo | main.py:71 | `minutes, seconds = map(float, fields)` succeeds exactly when there are two fields and both convert. Every error is one of three, in the order the lazy `map` meets them: the first field that does not convert, all fields before it converted; "not enough values" with the count of fewer than two fields, all of which converted; or "too many values" for more than two fields, the first three converted. |
| Duration.ParseDurationLine | main.py:70-72 | A line that parses has exactly three ':'-separated pieces in its time word. A line that does not is reported with one of the three unpacking errors. |
| Duration.ProbeDurationNoneIff | main.py:68-73 | Reading ffmpeg's text line by line (`Duration.ProbeDuration`) gives `(None, None)` exactly when "Duration" does not occur in the text anywhere: a line break never cuts the key in two. |
| Duration.GetVideoDuration | main.py:62-73 | An exception from running ffmpeg propagates unchanged, and a duration is read only when ffmpeg ran. |
| Duration.GetVideoDurationNoneIff | main.py:62-73 | The result is `(None, None)` exactly when ffmpeg ran and its text never mentions "Duration". |
| Duration.ProbeLines | main.py:68-73 | The result is `(None, None)` exactly when no line mentions "Duration". Any length found is the parse of one of the lines. |
| Duration.FirstDurationLineDecides | main.py:68-72 | The first line that mentions "Duration" decides the outcome, whether it parses or raises. Later lines are never read. |
| Duration.TimeFieldOf | main.py:70 | `line.split(",")[0].split(" ")[-1]` is the last space-separated word before the first comma. |
| Duration.FieldsAfterHours | main.py:71 | Splitting `HH:MM:SS` on ':' and dropping the first piece gives the minutes and seconds fields. |
| Duration.FfmpegLineParses | main.py:70-72 | A line laid out as ffmpeg prints it parses to the truncated minutes field and the rounded seconds field. |
| Duration.HoursAreDropped | main.py:70-72 | `  Duration: 01:02:15.30, start: 0.000000` reads as 2 minutes 15 seconds: the hour is ignored. |
| Duration.SecondsRoundHalfToEven | main.py:72 | `round` sends 14.50 to 14 and 15.50 to 16 (ties to even), and 15.30 to 15. |
| Duration.DecimalFieldExamples | main.py:71 | `float("02")` is 2 and `float("15.30")` is 15.30 exactly. |
| Numbers.RoundHalfEven | main.py:72 | `round(x)` is the whole part or the next integer. It lies within half a unit of `x`, and at exactly half a unit it is even. |
| Numbers.RoundIsNearest | main.py:72 | No integer is closer to `x` than `round(x)`. |
| Numbers.Truncate | main.py:72 | `int(x)` is the integer `n` with `n <= x < n + 1`. |
| Numbers.ParseDecimalOfWhole | main.py:71 | A digit string reads back through `float` as its own value. |
| Numbers.ParseDecimalOfPoint | main.py:71 | `digits.digits` reads back through `float` as exactly that decimal. |
| Numbers.NatToStringValue | main.py:171 | `int(str(v)) == v`. |
| Numbers.NatToStringInjective | main.py:171 | Distinct naturals print differently. |
| Numbers.Padded | main.py:80 | `%0wd` text has at least `w` digits and no leading zero beyond the padding: it is exactly `w` digits long or starts with a non-zero digit. |
| Numbers.PaddedValue | main.py:80 | `%04d` text reads back as the number, at any width. |
| Numbers.NatToString | main.py:171 | `str(v)` is at least one digit and has no leading zero unless it is "0". |
| Strings.Split | main.py:68 | `s.split(c)` yields at least one piece, no piece holds `c`, and joining the pieces with `c` gives `s` back. |
| Strings.SplitJoin | main.py:151 | Splitting a newline `Strings.Join` gives the parts back when none of them holds a newline. |
| Strings.SplitOfJoin | main.py:151 | Splitting a `c`-join of any parts on `c` gives the pieces of each part in turn, so `Strings.Join` adds and merges no piece. |
| Strings.ContainsInJoin | main.py:68-69 | A key without `c` occurs in a `c`-join exactly when it occurs in one of the parts, so testing each line finds it exactly when the whole text holds it. |
| Strings.Strip | main.py:122-123 | `s.strip()` is the slice of `s` between its leading and trailing whitespace, with no whitespace at either end. |
| Strings.StripEmptyIff | main.py:122 | `s.strip()` is empty exactly when `s` is all whitespace. |
| Strings.StripIdempotent | main.py:123 | Stripping twice is stripping once. |
| Strings.ContainsIff | main.py:69 | `p in s` holds exactly when `p` occurs in `s` at some position. |
| Ordering.LexTotal | main.py:110 | Any two distinct strings are ordered one way or the other. |
| Ordering.LexTransitive | main.py:110 | String order is transitive. |
| Ordering.Sort | main.py:110 | `sorted` returns an ordered permutation of its input. |
| Ordering.OrderedUnique | main.py:110 | Two ordered permutations of the same strings are equal. |
| Ordering.SortIgnoresInputOrder | main.py:120 | `sorted` of a listing does not depend on the order the listing came in. |
| Ordering.SortOrdered | main.py:110 | `sorted` leaves an ordered list unchanged. |
| Frames.FixedDigitsOrder | main.py:80 | Fixed-width digit strings compare like the numbers they spell. |
| Frames.FrameNameOrder | main.py:80 | Below 10000, `frame_%04d.png` names compare like their frame numbers. |
| Frames.FrameNamesIncreasing | main.py:80 | The names of up to 9999 frames are strictly increasing in time order. |
| Frames.SortedListingIsTemporal | main.py:110 | For up to 9999 frames, `sorted(glob(...))` of any listing of the frame files gives them in time order. |
| Frames.SortedOrderBreaksPast9999 | main.py:110 | From 10000 frames on, `frame_10000.png` sorts before `frame_1001.png`, so the sorted listing is not in time order. |
| Frames.LinkDeterminesTaskAndFrame | main.py:111-113 | A frame link determines its frame name and, for identifiers without '/', its task. |
| Frames.LinksKeepOrder | main.py:111-113 | The links are strictly increasing exactly when the frame names are. |
| Frames.Publish | main.py:87-115 | A failure before the push propagates. A failed push gives no links. Otherwise there is one link per frame, in order, each the raw-content prefix of the run identifier followed by the frame name. |
| Ocr.OneFrame | main.py:121-123 | A frame fails exactly when its OCR raises, with that fault. A reading that is all whitespace contributes nothing; any other reading contributes exactly its stripped text, which is not empty. |
| Ocr.Collect | main.py:119-123 | The kept texts are at most one per frame, each stripped and not empty. |
| Ocr.CollectIsReadTexts | main.py:119-123 | When no frame's OCR raises, the loop keeps exactly the stripped text of each frame that is not all whitespace, in frame order (a reference list built from the last frame backwards). |
| Ocr.ExtractText | main.py:124 | The result fails exactly when the loop does, with the same fault. Otherwise it is never empty, and it is "Текст не обнаружен." when no text was kept. |
| Ocr.CollectSplits | main.py:120-123 | Reading a list of frames is reading its two halves one after the other: the first failure wins, otherwise the texts are concatenated. |
| Ocr.CollectOne | main.py:121-123 | A single frame's result is exactly its own contribution. |
| Ocr.CollectFailsIff | main.py:121 | The OCR loop fails exactly when the OCR of some frame raises. |
| Ocr.FirstFailureAborts | main.py:120-121 | The first frame whose OCR raises decides the failure. |
| Ocr.BlankFrameContributesNothing | main.py:122 | Inserting a frame with blank text anywhere does not change the result. |
| Ocr.AllBlankGivesSentinel | main.py:124 | When every frame's text is blank, the result is "Текст не обнаружен.". |
| Ocr.LinesAreKeptTexts | main.py:124 | The lines of the result are the lines of the kept texts, in frame order. |
| Ocr.OneLinePerKeptText | main.py:124 | When no kept text spans lines, splitting the result on newlines gives the kept texts back. |
| Batching.Batches | main.py:137-138 | The batches put back together are the links in order. Each holds 1 to 10 links, all but the last hold exactly 10, and there are ceil(n/10) of them. |
| Batching.BatchAt | main.py:137-138 | The `k`-th batch is `frame_links[10k:10k+10]`. |
| Batching.TwentyThreeLinks | main.py:134-138 | Twenty-three links go out as batches of 10, 10 and 3. |
| Batching.ConversationGrows | main.py:139 | Each request repeats the previous conversation and appends the next batch at the end. |
| Batching.RunWithoutCrash | main.py:137-149 | Without a crash, every batch leaves one entry: the answer, or "Ошибка анализа видео." for a failed request. Every batch posts its request, followed by a pause exactly when it was answered. |
| Batching.TurnsRequests | main.py:137-143 | Without a crash, the requests posted are the conversations through batch 1, 2, …, in order. |
| Batching.CrashIsFinal | main.py:142-149 | Once a request crashes, later batches change nothing. |
| Batching.CrashAborts | main.py:142-149 | A crashing request ends the whole description with its fault. The requests posted are exactly the conversations through the crashing batch. |
| Batching.Run | main.py:137-149 | The batch loop stops with a fault exactly when some batch's request crashes, and the fault is that request's. Without one, it leaves one entry per batch. |
| Batching.Describe | main.py:126-151 | `analyze_video_with_gpt` raises exactly when there are links and some batch's request crashes, with that request's fault. |
| Batching.DescribeWithoutCrash | main.py:137-151 | Without a crash, the summary is the entries joined by newlines, one per batch, in batch order. One request is posted per batch. |
| Batching.SummaryLines | main.py:151 | When no answer spans lines, the summary splits back into one line per batch, each the answer or the placeholder. |
| Batching.NoLinksNoRequests | main.py:130-131 | With no links, the result is "Ошибка: не удалось загрузить кадры." and nothing is posted. |
| Batching.DescribeFrames | main.py:126-151 | The loop over `range(0, n, 10)`, with its growing message list, computes the same summary and trace as the functional model. |
| Errors.ErrorText | main.py:176-178 | The error text of an exception raised outside is its own message. Every other fault has a non-empty text. |
| Orchestrator.AnalyzeVideo | main.py:153-178 | The stages started are a prefix of the pipeline. A successful report means every stage ran and at least one frame was reported. Nothing is posted unless the run reaches its last stage. |
| Orchestrator.PublishAndDescribe | main.py:162-165 | From publishing on, the stages stay a prefix of the pipeline. A successful report means every stage ran with at least one frame. Nothing is posted unless the run reaches its last stage. |
| Orchestrator.ReadAndDescribe | main.py:167-175 | Once links exist, the run stops after OCR or completes the pipeline. A successful report carries one frame per link. Nothing is posted when OCR stops it. |
| Orchestrator.DownloadFailureIsReported | main.py:159 | A download failure is reported with its own text and nothing else is attempted. |
| Orchestrator.DurationFailureIsReported | main.py:160 | A duration line that does not unpack, or an ffmpeg run that raises, ends the run with that exception's text before frames are sampled. |
| Orchestrator.ExtractFailureIsReported | main.py:161 | A sampling run that fails is reported with its own text. Nothing is published and nothing is posted. |
| Orchestrator.RepositoryFailureIsReported | main.py:162 | A repository step that raises before the push is reported with its own text. Neither OCR nor the chat service runs. |
| Orchestrator.NoLinksStopsEarly | main.py:162-165 | A failed push, or no frames, gives "Не удалось загрузить кадры на GitHub." Neither OCR nor the chat service runs, and nothing is posted. |
| Orchestrator.OcrFailureSkipsChat | main.py:167 | An OCR failure is reported with its own text, and no request is posted. |
| Orchestrator.SuccessfulRun | main.py:167-175 | A successful report carries the duration text, the number of sampled frames, the summary and the OCR text. For up to 9999 frames, the links are those of frames 1, 2, … in time order. |
| Orchestrator.ChatCrashIsReported | main.py:168 | A chat-service crash is reported with its own text, after the requests before it. |
| Orchestrator.DurationWords | main.py:171 | The duration text (`Orchestrator.DurationText`) is four words: the minutes, "минут", the seconds and "секунд". A missing length prints "None" in both number places. |
| Orchestrator.DurationTextReadsBack | main.py:171 | Distinct durations, or a missing one, give distinct duration texts. |
| FrameByFrame.AnalyzeImage | analyze_video.py:51-68 | A frame's description is the answer, or "Ошибка анализа изображения." for a failed request. Any other exception escapes with its fault. |
| FrameByFrame.LabelReadsBack | analyze_video.py:86 | A label `Кадр {idx+1}: {description}` (`FrameByFrame.Label`) reads back as the 1-based frame number and the description. |
| FrameByFrame.LabelFrames | analyze_video.py:84-87 | An exception that stops the frame loop is the one some frame's request raised. Without one, every frame leaves one entry, one post and one pause. |
| FrameByFrame.AnalyzeFrames | analyze_video.py:71-105 | Nothing is posted before the video is downloaded and sampled. A summary report carries one labelled entry per sampled frame. The reports of a download or sampling that raises are stated by `FrameByFrame.DownloadFailureIsReported` and `FrameByFrame.ExtractFailureIsReported`. |
| FrameByFrame.DownloadFailureIsReported | analyze_video.py:77-78 | A download that raises is caught by the `except` at the end of the function and gives `{"error": str(e)}` with its own text, and nothing is posted. |
| FrameByFrame.ExtractFailureIsReported | analyze_video.py:77-79 | A sampling run that raises after the download is caught by the same `except` and gives `{"error": str(e)}` with its own text, and nothing is posted. |
| FrameByFrame.LabelFramesWithoutCrash | analyze_video.py:84-87 | Without a crash, frame `i` gets exactly the entry `Кадр i+1: …` with its description or the placeholder. |
| FrameByFrame.FramesTrace | analyze_video.py:84-87 | Without a crash, every frame posts its own request followed by a one-second pause. |
| FrameByFrame.FrameRequests | analyze_video.py:84-85 | The frames' events post exactly each frame's own image request, in order. |
| FrameByFrame.NoFaultIff | analyze_video.py:84-86 | The frame loop ends without an exception exactly when no frame's request crashed. |
| FrameByFrame.CrashIsFinal | analyze_video.py:84-86 | A crash stops the frame loop, and later frames change nothing. |
| FrameByFrame.FramePathsInTimeOrder | analyze_video.py:81 | For up to 9999 frames, the `i`-th sorted path is that of frame `i+1`. |
| FrameByFrame.FrameRunSucceedsIff | analyze_video.py:77-102 | A run succeeds exactly when the download, the sampling, every frame's request and the summary request all get through. It then reports the summary and the labelled entries. |
| FrameByFrame.FrameRunRequests | analyze_video.py:84-98 | Without a frame crash, the requests are one per frame for its own image, then the summary request carrying the entries joined by newlines. |
| FrameByFrame.FrameCrashIsReported | analyze_video.py:103-105 | A crashing frame ends the run with its exception's text. No later frame and no summary is requested. |
| FrameByFrame.CrashedLoopRequests | analyze_video.py:84-85 | A loop stopped by frame `c`'s crash posted the requests of frames 0 to `c`. |
| FrameByFrame.SummaryFailureIsReported | analyze_video.py:98-105 | A summary request that fails or crashes ends the run with that exception's text. |
| FrameByFrame.EntriesAreNumbered | analyze_video.py:84-86 | The entries are numbered 1, 2, 3, … in order, each with its own frame's description. |
| FrameByFrame.EntriesAreLines | analyze_video.py:86-93 | When no description spans lines, the summary request's text splits back into the entries, one per line. |

## Left out

- `check_dependencies`, loading `.env`, the API key check and the command-line entry points: configuration and I/O with nothing to compute.
- Running yt-dlp, ffmpeg, git and Tesseract: each is an oracle value. The deletion of the video after sampling and the directory creation are not modelled.
- `uuid.uuid4()` is a parameter (the run identifier `task_id`). The `fps` argument is not modelled: it only affects how many frames ffmpeg writes, which is itself an oracle.
- Sleeps are recorded as trace events and no clock is modelled. The three-second wait after a successful push is not recorded, because no request depends on it.
- `str(e)` of exceptions raised by the external tools and services is carried in the fault the oracle supplies.
- A reply without `choices` (a `KeyError` or `IndexError` on the reply) is modelled as `Crashed`, because it is not a `requests.RequestException`.
- Numbers.ParseDecimal: accepts only optional surrounding whitespace around digits with an optional fractional part. Signs, exponents, underscores, `inf` and `nan`, and non-ASCII decimal digits (Arabic-Indic digits, for example), which Python's `float` also accepts, are rejected, because ffmpeg does not print them in a duration. Values are kept as exact decimals rather than binary floating point.
- Errors.ErrorText: the `ValueError` text for a field that does not convert quotes the field as `repr` does for printable text without quotes or backslashes. The other escapes of `repr` are not modelled: a field holding a quote or a backslash, or a character that is not printable (`\t`, `\r`, `\x0b`, `\x0c`, `\x85`, `\u2028`, …), is quoted raw where Python would escape it.
- Frames.Publish: assumes the destination directory in the frame repository holds only this task's frames. Frames left there by an earlier run under the same identifier are not modelled.
- Frames.SortedListingIsTemporal: holds only up to 9999 frames, as `Frames.SortedOrderBreaksPast9999` shows.
- FrameByFrame.FramePathsInTimeOrder: the `Path` sort of analyze_video.py is modelled as a sort of file names under one shared directory prefix.
- The HTTP headers, model names and `max_tokens` of the requests are not modelled. Requests are compared by their messages only.
- Logging is left out.
- Outcomes.Reply: an answer whose `content` is JSON `null` is not modelled, because `Answered` always carries text. In main.py the `None` would be kept and the join at line 151 would raise `TypeError` after every batch was posted, so the report would be that error. In analyze_video.py the entry would read `Кадр N: None`, and a `null` summary would be returned as it is.
