/** Failure-carrying values shared by every stage of the pipeline, and the
    shapes of the requests exchanged with the external chat service. */
module Outcomes {
  datatype Option<+T> = None | Some(value: T)

  datatype Result<+T> = Ok(value: T) | Err(fault: Fault)

  /** An exception raised somewhere in the pipeline. The external tools and
      services raise `Raised` with the text `str(e)` would print; the duration
      parser raises the three `ValueError`s Python produces for it. */
  datatype Fault =
    | Raised(message: string)
    | NotEnoughValues(got: nat)
    | TooManyValues
    | NotAFloat(field: string)

  /** How a stage that hands back no value ended. */
  datatype Outcome = Done | Threw(fault: Fault)

  /** One message of a chat-completion request. */
  datatype Message =
    | Instruction(text: string)    // {"role": "system", "content": text}
    | Images(urls: seq<string>)    // {"role": "user", "content": [image_url ...]}
    | Prose(content: string)       // {"role": "user", "content": content}

  /** What one POST to the chat service gives back:
      - `Answered`: the first choice's message content;
      - `RequestFailed`: a `requests.RequestException` (connection error,
        non-2xx status via `raise_for_status`, undecodable JSON);
      - `Crashed`: any other exception, e.g. a reply without "choices". */
  datatype Reply =
    | Answered(content: string)
    | RequestFailed(fault: Fault)
    | Crashed(fault: Fault)

  /** The chat service as an oracle: the reply it gives to a request. */
  type Service = seq<Message> -> Reply

  /** Observable actions of a loop that talks to the service. */
  datatype Event = Posted(messages: seq<Message>) | Slept(seconds: nat)

  /** The requests, in order, among a trace of events. */
  function Requests(trace: seq<Event>): (rs: seq<seq<Message>>)
    ensures |rs| <= |trace|
  {
    if |trace| == 0 then []
    else match trace[|trace| - 1]
      case Posted(m) => Requests(trace[..|trace| - 1]) + [m]
      case Slept(_) => Requests(trace[..|trace| - 1])
  }

  lemma {:induction false} RequestsAppend(a: seq<Event>, b: seq<Event>)
    ensures Requests(a + b) == Requests(a) + Requests(b)
    decreases |b|
  {
    if |b| == 0 {
      assert a + b == a;
    } else {
      assert (a + b)[..|a + b| - 1] == a + b[..|b| - 1];
      RequestsAppend(a, b[..|b| - 1]);
    }
  }

  /** Posting one more request adds it at the end of the requests. */
  lemma RequestsPosted(trace: seq<Event>, m: seq<Message>)
    ensures Requests(trace + [Posted(m)]) == Requests(trace) + [m]
  {
    assert (trace + [Posted(m)])[..|trace|] == trace;
  }

  /** The concatenation of a list of lists. */
  function Concat<T>(ss: seq<seq<T>>): seq<T>
  {
    if |ss| == 0 then [] else ss[0] + Concat(ss[1..])
  }

  lemma {:induction false} ConcatAppend<T>(ss: seq<seq<T>>, s: seq<T>)
    ensures Concat(ss + [s]) == Concat(ss) + s
    decreases |ss|
  {
    if |ss| == 0 {
      assert ss + [s] == [s];
      assert Concat([s]) == s + Concat([s][1..]);
    } else {
      assert (ss + [s])[1..] == ss[1..] + [s];
      ConcatAppend(ss[1..], s);
    }
  }
}
