/** `analyze_video_with_gpt` (main.py): frame links are sent to the chat
    service ten at a time. The conversation is cumulative, so every request
    repeats all earlier batches; a batch whose request fails gets a fixed
    placeholder and the loop carries on; only a successful batch is followed
    by the pacing pause. */
module Batching {
  import opened Outcomes
  import Strings

  /** `max_frames_per_request`. */
  const MaxFramesPerRequest: nat := 10

  /** The system message that opens every request. */
  const SystemPrompt: string := "Проанализируй последовательность кадров и опиши, что происходит в видео."

  /** The summary entry of a batch whose request failed. */
  const BatchFailed: string := "Ошибка анализа видео."

  /** What comes back when there are no links at all. */
  const NoFrames: string := "Ошибка: не удалось загрузить кадры."

  /** Seconds paused after each answered request. */
  const PaceSeconds: nat := 2

  function Min(a: int, b: int): int
  {
    if a <= b then a else b
  }

  /** The batches `frame_links[i:i + 10]` for `i` in `range(0, n, 10)`:
      non-empty consecutive slices of at most ten links, all but the last
      of exactly ten, ceil(n / 10) of them, which put back together give the
      links again in their order. */
  function Batches<T>(links: seq<T>): (bs: seq<seq<T>>)
    ensures Concat(bs) == links
    ensures forall k :: 0 <= k < |bs| ==> 0 < |bs[k]| <= MaxFramesPerRequest
    ensures forall k :: 0 <= k < |bs| - 1 ==> |bs[k]| == MaxFramesPerRequest
    ensures |bs| == (|links| + MaxFramesPerRequest - 1) / MaxFramesPerRequest
    decreases |links|
  {
    if |links| == 0 then []
    else
      var n := Min(|links|, MaxFramesPerRequest);
      var rest := Batches(links[n..]);
      assert links[..n] + links[n..] == links;
      assert forall k :: 1 <= k < |rest| + 1 ==> ([links[..n]] + rest)[k] == rest[k - 1];
      [links[..n]] + rest
  }

  /** The slice the Python loop takes on its `k`-th turn,
      `frame_links[10k : 10k + 10]`. */
  function Window<T>(links: seq<T>, k: nat): seq<T>
    requires MaxFramesPerRequest * k < |links|
  {
    links[MaxFramesPerRequest * k..Min(MaxFramesPerRequest * k + MaxFramesPerRequest, |links|)]
  }

  /** Past the first ten links, the windows are those of the rest, one
      turn earlier. */
  lemma WindowOfTail<T>(links: seq<T>, k: nat)
    requires 0 < k && MaxFramesPerRequest * k < |links|
    ensures MaxFramesPerRequest * (k - 1) < |links[MaxFramesPerRequest..]|
    ensures Window(links, k) == Window(links[MaxFramesPerRequest..], k - 1)
  {
    var lo := MaxFramesPerRequest * (k - 1);
    var hi := Min(lo + MaxFramesPerRequest, |links| - MaxFramesPerRequest);
    ShiftedBounds(k, |links|);
    SliceOfTail(links, lo, hi);
  }

  /** The `k`-th batch is the slice the loop takes on its `k`-th turn. */
  lemma {:induction false} BatchAt<T>(links: seq<T>, k: nat)
    requires k < |Batches(links)|
    ensures MaxFramesPerRequest * k < |links|
    ensures Batches(links)[k] == Window(links, k)
    decreases k
  {
    MoreBatches(links, k);
    if k > 0 {
      var rest := links[MaxFramesPerRequest..];
      BatchesOfLong(links);
      assert Batches(links)[k] == Batches(rest)[k - 1];
      BatchAt(rest, k - 1);
      WindowOfTail(links, k);
    }
  }

  /** Another batch follows the `k`-th exactly when links remain after the
      first `k` batches. */
  lemma MoreBatches<T>(links: seq<T>, k: nat)
    requires k <= |Batches(links)|
    ensures k < |Batches(links)| <==> MaxFramesPerRequest * k < |links|
  {
  }

  /** Past the first batch, the batches are those of the remaining links. */
  lemma BatchesOfLong<T>(links: seq<T>)
    requires |links| > MaxFramesPerRequest
    ensures Batches(links)[1..] == Batches(links[MaxFramesPerRequest..])
  {
  }

  lemma ShiftedBounds(k: nat, n: nat)
    requires 0 < k && MaxFramesPerRequest <= n
    ensures MaxFramesPerRequest * k == MaxFramesPerRequest * (k - 1) + MaxFramesPerRequest
    ensures Min(MaxFramesPerRequest * k + MaxFramesPerRequest, n)
            == Min(MaxFramesPerRequest * (k - 1) + MaxFramesPerRequest, n - MaxFramesPerRequest) + MaxFramesPerRequest
  {
  }

  lemma SliceOfTail<T>(links: seq<T>, lo: nat, hi: nat)
    requires MaxFramesPerRequest <= |links| && lo <= hi <= |links| - MaxFramesPerRequest
    ensures links[MaxFramesPerRequest..][lo..hi] == links[lo + MaxFramesPerRequest..hi + MaxFramesPerRequest]
  {
  }

  /** The conversation once `k` batches have been appended: the system
      message, then one user message per batch, in batch order. */
  function Conversation(bs: seq<seq<string>>, k: nat): (messages: seq<Message>)
    requires k <= |bs|
    ensures |messages| == k + 1
  {
    [Instruction(SystemPrompt)] + seq(k, j requires 0 <= j < k => Images(bs[j]))
  }

  /** Appending the next batch only extends the conversation: every request
      repeats the previous one and adds the new batch at the end. */
  lemma ConversationGrows(bs: seq<seq<string>>, k: nat)
    requires k < |bs|
    ensures Conversation(bs, k + 1) == Conversation(bs, k) + [Images(bs[k])]
    ensures Conversation(bs, k + 1)[..k + 1] == Conversation(bs, k)
  {
  }

  /** The summary entry of a batch whose request did not crash: the
      answer, or the placeholder when the request failed. */
  function Entry(reply: Reply): string
  {
    if reply.Answered? then reply.content else BatchFailed
  }

  /** The loop's state after some turns: the entries so far, what was posted
      and slept, and the exception that stopped it, if one did. */
  datatype Progress = Progress(summaries: seq<string>, trace: seq<Event>, fault: Option<Fault>)

  /** The first `k` turns of the loop. The loop is stopped exactly when
      some request crashed, and then by that request's exception; until
      then every turn leaves one entry. That the exception is the first
      crashing request's is `CrashAborts`. */
  function Run(bs: seq<seq<string>>, chat: Service, k: nat): (p: Progress)
    requires k <= |bs|
    ensures p.fault.None? <==> NoCrashBefore(bs, chat, k)
    ensures p.fault.Some? ==> exists j :: 0 <= j < k && chat(Request(bs, j)) == Crashed(p.fault.value)
    ensures p.fault.None? ==> |p.summaries| == k
  {
    if k == 0 then Progress([], [], None)
    else
      var p := Run(bs, chat, k - 1);
      if p.fault.Some? then p
      else
        var request := Conversation(bs, k);
        match chat(request)
        case Answered(content) =>
          Progress(p.summaries + [content], p.trace + [Posted(request), Slept(PaceSeconds)], None)
        case RequestFailed(_) =>
          Progress(p.summaries + [BatchFailed], p.trace + [Posted(request)], None)
        case Crashed(f) =>
          assert request == Request(bs, k - 1);
          Progress(p.summaries, p.trace + [Posted(request)], Some(f))
  }

  /** The outcome of `analyze_video_with_gpt`, with the events it caused. */
  datatype Described = Described(trace: seq<Event>, summary: Result<string>)

  /** `analyze_video_with_gpt(frame_links)`. It raises exactly when some
      request crashed, and then with that request's exception. */
  function Describe(links: seq<string>, chat: Service): (d: Described)
    ensures d.summary.Err? <==> |links| > 0 && !NoCrashBefore(Batches(links), chat, |Batches(links)|)
    ensures d.summary.Err? ==>
              exists j :: 0 <= j < |Batches(links)| && chat(Request(Batches(links), j)) == Crashed(d.summary.fault)
  {
    if |links| == 0 then Described([], Ok(NoFrames))
    else
      var bs := Batches(links);
      var p := Run(bs, chat, |bs|);
      match p.fault
      case Some(f) => Described(p.trace, Err(f))
      case None => Described(p.trace, Ok(Strings.Join(p.summaries, "\n")))
  }

  /** The request posted on turn `j`: the conversation through batch `j`. */
  function Request(bs: seq<seq<string>>, j: nat): seq<Message>
    requires j < |bs|
  {
    Conversation(bs, j + 1)
  }

  /** No request before turn `k` made the service crash. */
  predicate NoCrashBefore(bs: seq<seq<string>>, chat: Service, k: nat)
    requires k <= |bs|
  {
    forall j :: 0 <= j < k ==> !chat(Request(bs, j)).Crashed?
  }

  /** What one uncrashed turn posts: its request, then a pause when it was
      answered. */
  function TurnEvents(bs: seq<seq<string>>, chat: Service, j: nat): seq<Event>
    requires j < |bs|
  {
    var request := Request(bs, j);
    if chat(request).Answered? then [Posted(request), Slept(PaceSeconds)] else [Posted(request)]
  }

  /** The events of the first `k` turns, turn by turn. */
  function Turns(bs: seq<seq<string>>, chat: Service, k: nat): seq<seq<Event>>
    requires k <= |bs|
  {
    seq(k, j requires 0 <= j < k => TurnEvents(bs, chat, j))
  }

  /** The requests of the first `k` turns. */
  function Requested(bs: seq<seq<string>>, k: nat): seq<seq<Message>>
    requires k <= |bs|
  {
    seq(k, j requires 0 <= j < k => Request(bs, j))
  }

  /** The summary entries of the first `k` turns. */
  function Entries(bs: seq<seq<string>>, chat: Service, k: nat): seq<string>
    requires k <= |bs|
  {
    seq(k, j requires 0 <= j < k => Entry(chat(Request(bs, j))))
  }

  lemma TurnsExtend(bs: seq<seq<string>>, chat: Service, k: nat)
    requires k < |bs|
    ensures Turns(bs, chat, k + 1) == Turns(bs, chat, k) + [TurnEvents(bs, chat, k)]
  {
  }

  lemma RequestedExtend(bs: seq<seq<string>>, k: nat)
    requires k < |bs|
    ensures Requested(bs, k + 1) == Requested(bs, k) + [Request(bs, k)]
  {
  }

  lemma EntriesExtend(bs: seq<seq<string>>, chat: Service, k: nat)
    requires k < |bs|
    ensures Entries(bs, chat, k + 1) == Entries(bs, chat, k) + [Entry(chat(Request(bs, k)))]
  {
  }

  /** Whatever the reply, a turn posts its request and nothing else. */
  lemma TurnRequests(bs: seq<seq<string>>, chat: Service, j: nat)
    requires j < |bs|
    ensures Requests(TurnEvents(bs, chat, j)) == [Request(bs, j)]
  {
    var e := TurnEvents(bs, chat, j);
    assert e[..1] == [Posted(Request(bs, j))];
    assert e[..1][..0] == [];
  }

  /** One uncrashed turn appends its entry and its events. */
  lemma RunStep(bs: seq<seq<string>>, chat: Service, k: nat)
    requires 0 < k <= |bs| && Run(bs, chat, k - 1).fault == None
    requires !chat(Request(bs, k - 1)).Crashed?
    ensures Run(bs, chat, k)
            == Progress(Run(bs, chat, k - 1).summaries + [Entry(chat(Request(bs, k - 1)))],
                        Run(bs, chat, k - 1).trace + TurnEvents(bs, chat, k - 1), None)
  {
  }

  /** Without a crash, turn `j` leaves exactly one entry, the answer or the
      placeholder, and posts its request followed by a pause exactly when it
      was answered. */
  lemma {:induction false} RunWithoutCrash(bs: seq<seq<string>>, chat: Service, k: nat)
    requires k <= |bs| && NoCrashBefore(bs, chat, k)
    ensures Run(bs, chat, k).fault == None
    ensures Run(bs, chat, k).summaries == Entries(bs, chat, k)
    ensures Run(bs, chat, k).trace == Concat(Turns(bs, chat, k))
    decreases k
  {
    if k > 0 {
      RunWithoutCrash(bs, chat, k - 1);
      RunStep(bs, chat, k);
      EntriesExtend(bs, chat, k - 1);
      TurnsExtend(bs, chat, k - 1);
      ConcatAppend(Turns(bs, chat, k - 1), TurnEvents(bs, chat, k - 1));
    }
  }

  /** The turns together post the cumulative requests, one per turn. */
  lemma {:induction false} TurnsRequests(bs: seq<seq<string>>, chat: Service, k: nat)
    requires k <= |bs|
    ensures Requests(Concat(Turns(bs, chat, k))) == Requested(bs, k)
    decreases k
  {
    if k > 0 {
      var before := Turns(bs, chat, k - 1);
      TurnsRequests(bs, chat, k - 1);
      TurnsExtend(bs, chat, k - 1);
      ConcatAppend(before, TurnEvents(bs, chat, k - 1));
      RequestsAppend(Concat(before), TurnEvents(bs, chat, k - 1));
      TurnRequests(bs, chat, k - 1);
      RequestedExtend(bs, k - 1);
    }
  }

  /** Once a crash has stopped the loop, later turns change nothing. */
  lemma {:induction false} CrashIsFinal(bs: seq<seq<string>>, chat: Service, k: nat, m: nat)
    requires k <= m <= |bs| && Run(bs, chat, k).fault.Some?
    ensures Run(bs, chat, m) == Run(bs, chat, k)
    decreases m - k
  {
    if k < m {
      CrashIsFinal(bs, chat, k, m - 1);
    }
  }

  /** A request that makes the service crash (an exception other than a
      request error) ends the whole description: its fault comes back and
      no later batch is posted. */
  lemma CrashAborts(links: seq<string>, chat: Service, c: nat)
    requires |links| > 0
    requires c < |Batches(links)| && NoCrashBefore(Batches(links), chat, c)
    requires chat(Request(Batches(links), c)).Crashed?
    ensures Describe(links, chat).summary == Err(chat(Request(Batches(links), c)).fault)
    ensures Requests(Describe(links, chat).trace) == Requested(Batches(links), c + 1)
  {
    var bs := Batches(links);
    RunWithoutCrash(bs, chat, c);
    TurnsRequests(bs, chat, c);
    TurnOutcome(links, chat, c);
    RequestsPosted(Run(bs, chat, c).trace, Request(bs, c));
    RequestedExtend(bs, c);
  }

  /** The crashing turn posts its request and records the fault. */
  lemma CrashStep(bs: seq<seq<string>>, chat: Service, k: nat)
    requires 0 < k <= |bs| && Run(bs, chat, k - 1).fault == None
    requires chat(Request(bs, k - 1)).Crashed?
    ensures Run(bs, chat, k)
            == Progress(Run(bs, chat, k - 1).summaries, Run(bs, chat, k - 1).trace + [Posted(Request(bs, k - 1))],
                        Some(chat(Request(bs, k - 1)).fault))
  {
  }

  /** With no crash, the result is one entry per batch — the answer, or the
      placeholder for a failed request — newline-joined in batch order, and
      one request was posted per batch. */
  lemma DescribeWithoutCrash(links: seq<string>, chat: Service)
    requires |links| > 0 && NoCrashBefore(Batches(links), chat, |Batches(links)|)
    ensures var bs := Batches(links);
            && Describe(links, chat).summary == Ok(Strings.Join(Entries(bs, chat, |bs|), "\n"))
            && Requests(Describe(links, chat).trace) == Requested(bs, |bs|)
  {
    RunWithoutCrash(Batches(links), chat, |Batches(links)|);
    TurnsRequests(Batches(links), chat, |Batches(links)|);
  }

  /** Twenty-three links go out as batches of 10, 10 and 3, in order. */
  lemma TwentyThreeLinks(links: seq<string>)
    requires |links| == 23
    ensures |Batches(links)| == 3
    ensures Batches(links) == [links[..10], links[10..20], links[20..]]
  {
    BatchAt(links, 0);
    BatchAt(links, 1);
    BatchAt(links, 2);
    var bs := Batches(links);
    assert bs[0] == links[..10];
    assert bs[1] == links[10..20];
    assert bs[2] == links[20..23] == links[20..];
    assert bs == [bs[0], bs[1], bs[2]];
  }

  /** When no answer spans several lines, the summary reads back line by
      line as one entry per batch, in batch order, and a line is the
      placeholder for every batch whose request failed. */
  lemma SummaryLines(links: seq<string>, chat: Service)
    requires |links| > 0 && NoCrashBefore(Batches(links), chat, |Batches(links)|)
    requires forall j :: 0 <= j < |Batches(links)| && chat(Request(Batches(links), j)).Answered?
                         ==> '\n' !in chat(Request(Batches(links), j)).content
    ensures Describe(links, chat).summary.Ok?
    ensures var bs := Batches(links);
            var lines := Strings.Split(Describe(links, chat).summary.value, '\n');
            && |lines| == |bs|
            && forall j :: 0 <= j < |bs| ==> lines[j] == Entry(chat(Request(bs, j)))
  {
    var bs := Batches(links);
    var entries := Entries(bs, chat, |bs|);
    DescribeWithoutCrash(links, chat);
    assert '\n' !in BatchFailed;
    Strings.SplitJoin(entries, '\n');
  }

  /** No links: the fixed error text, and nothing is posted. */
  lemma NoLinksNoRequests(chat: Service)
    ensures Describe([], chat) == Described([], Ok(NoFrames))
    ensures Requests(Describe([], chat).trace) == []
  {
  }

  /** The Python loop itself, with the message list it keeps appending to. */
  method DescribeFrames(links: seq<string>, chat: Service) returns (summary: Result<string>, trace: seq<Event>)
    ensures Described(trace, summary) == Describe(links, chat)
  {
    if |links| == 0 {
      return Ok(NoFrames), [];
    }
    ghost var bs := Batches(links);
    var messages := [Instruction(SystemPrompt)];
    var summaries: seq<string> := [];
    trace := [];
    var i := 0;
    ghost var k: nat := 0;
    while i < |links|
      invariant k <= |bs|
      invariant i == MaxFramesPerRequest * k
      invariant k < |bs| <==> i < |links|
      invariant messages == Conversation(bs, k)
      invariant Run(bs, chat, k) == Progress(summaries, trace, None)
      decreases |links| - i
    {
      NextBatch(links, k, i);
      var batch := links[i..Min(i + MaxFramesPerRequest, |links|)];
      NextRequest(bs, k);
      messages := messages + [Images(batch)];
      TurnOutcome(links, chat, k);
      trace := trace + [Posted(messages)];
      match chat(messages) {
        case Answered(content) =>
          summaries := summaries + [content];
          trace := trace + [Slept(PaceSeconds)];
        case RequestFailed(_) =>
          summaries := summaries + [BatchFailed];
        case Crashed(f) =>
          return Err(f), trace;
      }
      i := i + MaxFramesPerRequest;
      k := k + 1;
    }
    DescribeIsRun(links, chat);
    summary := Ok(Strings.Join(summaries, "\n"));
  }

  /** The slice the loop takes on turn `k` is the `k`-th batch, and another
      turn follows exactly when links remain after it. */
  lemma NextBatch<T>(links: seq<T>, k: nat, i: nat)
    requires k < |Batches(links)| && i == MaxFramesPerRequest * k
    ensures i < Min(i + MaxFramesPerRequest, |links|) <= |links|
    ensures links[i..Min(i + MaxFramesPerRequest, |links|)] == Batches(links)[k]
    ensures k + 1 < |Batches(links)| <==> i + MaxFramesPerRequest < |links|
  {
    BatchAt(links, k);
    MoreBatches(links, k + 1);
  }

  /** The request of turn `k` extends the conversation by that batch. */
  lemma NextRequest(bs: seq<seq<string>>, k: nat)
    requires k < |bs|
    ensures Conversation(bs, k) + [Images(bs[k])] == Request(bs, k) == Conversation(bs, k + 1)
  {
    ConversationGrows(bs, k);
  }

  /** One turn of the loop, from a state with no fault: a crash decides the
      whole description, anything else extends the run by one entry. */
  lemma TurnOutcome(links: seq<string>, chat: Service, k: nat)
    requires |links| > 0 && k < |Batches(links)| && Run(Batches(links), chat, k).fault == None
    ensures var bs := Batches(links);
            var p := Run(bs, chat, k);
            var reply := chat(Request(bs, k));
            && (reply.Crashed? ==> Describe(links, chat) == Described(p.trace + [Posted(Request(bs, k))], Err(reply.fault)))
            && (!reply.Crashed? ==> Run(bs, chat, k + 1) == Progress(p.summaries + [Entry(reply)], p.trace + TurnEvents(bs, chat, k), None))
  {
    var bs := Batches(links);
    if chat(Request(bs, k)).Crashed? {
      CrashStep(bs, chat, k + 1);
      CrashIsFinal(bs, chat, k + 1, |bs|);
      DescribeIsRun(links, chat);
    } else {
      RunStep(bs, chat, k + 1);
    }
  }

  /** `Describe` of a non-empty list is read off the run over all its batches. */
  lemma DescribeIsRun(links: seq<string>, chat: Service)
    requires |links| > 0
    ensures var p := Run(Batches(links), chat, |Batches(links)|);
            Describe(links, chat) == Described(p.trace, if p.fault.Some? then Err(p.fault.value) else Ok(Strings.Join(p.summaries, "\n")))
  {
  }
}
