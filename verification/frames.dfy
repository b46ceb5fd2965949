/** Frame files as ffmpeg names them (`frame_%04d.png`), the order `sorted`
    puts them in, and the raw-content links made for them once they are
    pushed to the frame repository (main.py, `extract_frames` and
    `upload_frames_to_github`). */
module Frames {
  import opened Outcomes
  import Numbers
  import Ordering
  import Strings

  /** Where the frame repository serves its files from. */
  const RawUrl: string := "https://raw.githubusercontent.com/juliakriv0137/video-frames/main/video-frames/frames/"

  /** Width ffmpeg pads the frame number to. */
  const PadWidth: nat := 4

  /** What `extract_frames` comes to: the number of images ffmpeg wrote, or
      the failure of the ffmpeg run, which it re-raises. */
  datatype Extraction = Extracted(count: nat) | ExtractFailed(fault: Fault)

  /** The file ffmpeg writes for the `index`-th sampled image (counted from 1). */
  function FrameName(index: nat): string
  {
    "frame_" + Numbers.Padded(index, PadWidth) + ".png"
  }

  /** The files ffmpeg writes for `n` sampled images, in temporal order. */
  function FrameNames(n: nat): (names: seq<string>)
    ensures |names| == n
  {
    seq(n, (i: nat) => FrameName(i + 1))
  }

  /** Fixed-width digit strings compare like the numbers they spell. */
  lemma {:induction false} FixedDigitsOrder(v: nat, u: nat, w: nat)
    requires v < u < Numbers.Pow10(w)
    ensures Ordering.LexLess(Numbers.FixedDigits(v, w), Numbers.FixedDigits(u, w))
    decreases w
  {
    var a, b := Numbers.FixedDigits(v / 10, w - 1), Numbers.FixedDigits(u / 10, w - 1);
    var dv, du := Numbers.DigitChar(v % 10), Numbers.DigitChar(u % 10);
    assert Numbers.FixedDigits(v, w) == a + [dv];
    assert Numbers.FixedDigits(u, w) == b + [du];
    if v / 10 < u / 10 {
      FixedDigitsOrder(v / 10, u / 10, w - 1);
      Ordering.LexEqualLengthExtend(a, b, [dv], [du]);
    } else {
      assert a == b && v % 10 < u % 10;
      assert Ordering.LexLess([dv], [du]);
      Ordering.LexCommonPrefix(a, [dv], [du]);
    }
  }

  /** For frame numbers below 10000 the name order is the number order. */
  lemma FrameNameOrder(i: nat, j: nat)
    requires i < j < 10000
    ensures Ordering.LexLess(FrameName(i), FrameName(j))
  {
    assert Numbers.Pow10(PadWidth) == 10000;
    var a, b := Numbers.FixedDigits(i, PadWidth), Numbers.FixedDigits(j, PadWidth);
    FixedDigitsOrder(i, j, PadWidth);
    Ordering.LexEqualLengthExtend(a, b, ".png", ".png");
    Ordering.LexCommonPrefix("frame_", a + ".png", b + ".png");
    assert FrameName(i) == "frame_" + (a + ".png");
    assert FrameName(j) == "frame_" + (b + ".png");
  }

  lemma FrameNamesIncreasing(n: nat)
    requires n <= 9999
    ensures Ordering.StrictlyIncreasing(FrameNames(n))
  {
    forall i, j | 0 <= i < j < n
      ensures Ordering.LexLess(FrameNames(n)[i], FrameNames(n)[j])
    {
      ListedNameOrder(n, i, j);
    }
  }

  lemma ListedNameOrder(n: nat, i: nat, j: nat)
    requires i < j < n <= 9999
    ensures Ordering.LexLess(FrameNames(n)[i], FrameNames(n)[j])
  {
    FrameNameOrder(i + 1, j + 1);
  }

  /** However the directory listing comes back, `sorted` puts up to 9999
      frames back into temporal order. */
  lemma SortedListingIsTemporal(listing: seq<string>, n: nat)
    requires n <= 9999
    requires multiset(listing) == multiset(FrameNames(n))
    ensures Ordering.Sort(listing) == FrameNames(n)
  {
    FrameNamesIncreasing(n);
    Ordering.StrictlyIncreasingIsOrdered(FrameNames(n));
    Ordering.SortIgnoresInputOrder(listing, FrameNames(n));
    Ordering.SortOrdered(FrameNames(n));
  }

  lemma NameOfFrame1001()
    ensures FrameName(1001) == "frame_1001.png"
  {
    assert Numbers.Pow10(4) == 10000;
    assert Numbers.FixedDigits(1001, 4) == "1001" by {
      assert Numbers.FixedDigits(1, 1) == "1";
      assert Numbers.FixedDigits(10, 2) == "10";
      assert Numbers.FixedDigits(100, 3) == "100";
    }
  }

  lemma DigitsOf1000()
    ensures Numbers.Pow10(4) == 10000 && Numbers.FixedDigits(1000, 4) == "1000"
  {
    assert Numbers.FixedDigits(1, 1) == "1";
    assert Numbers.FixedDigits(10, 2) == "10";
    assert Numbers.FixedDigits(100, 3) == "100";
  }

  lemma NameOfFrame10000()
    ensures FrameName(10000) == "frame_10000.png"
  {
    DigitsOf1000();
    assert Numbers.Pow10(5) == 100000;
    var d := Numbers.FixedDigits(10000, 5);
    assert d == Numbers.FixedDigits(1000, 4) + [Numbers.DigitChar(0)];
    assert Numbers.Padded(10000, 4) == Numbers.Padded(10000, 5) == d == "10000";
  }

  /** From the 10000th frame on the padding no longer lines the numbers up:
      `frame_10000.png` sorts before `frame_1001.png`, so `sorted` no longer
      yields temporal order. */
  lemma SortedOrderBreaksPast9999(n: nat)
    requires n >= 10000
    ensures Ordering.LexLess(FrameName(10000), FrameName(1001))
    ensures Ordering.Sort(FrameNames(n)) != FrameNames(n)
  {
    TenThousandBefore1001();
    var names := FrameNames(n);
    assert names[1000] == FrameName(1001) && names[9999] == FrameName(10000);
    assert !Ordering.Ordered(names);
  }

  lemma TenThousandBefore1001()
    ensures Ordering.LexLess(FrameName(10000), FrameName(1001))
  {
    NameOfFrame10000();
    NameOfFrame1001();
    NamesOrder(FrameName(10000), FrameName(1001));
  }

  lemma NamesOrder(a: string, b: string)
    requires a == "frame_10000.png" && b == "frame_1001.png"
    ensures Ordering.LexLess(a, b)
  {
    var shared, x, y := "frame_100", "00.png", "1.png";
    assert a == shared + x && b == shared + y;
    assert x[0] < y[0];
    Ordering.LexCommonPrefix(shared, x, y);
  }

  /** The link to one pushed frame. */
  function FrameLink(taskId: string, name: string): string
  {
    RawUrl + taskId + "/" + name
  }

  /** The part of a link that precedes the frame name. */
  function LinkPrefix(taskId: string): string
  {
    RawUrl + taskId + "/"
  }

  /** One link per frame, in the order of the frames. */
  function FrameLinks(taskId: string, names: seq<string>): (links: seq<string>)
    ensures |links| == |names|
  {
    seq(|names|, i requires 0 <= i < |names| => FrameLink(taskId, names[i]))
  }

  /** A link gives back its frame name, and tells which task it belongs to:
      links of two tasks whose identifiers contain no '/' never coincide. */
  lemma LinkDeterminesTaskAndFrame(t1: string, n1: string, t2: string, n2: string)
    requires '/' !in t1 && '/' !in t2
    requires FrameLink(t1, n1) == FrameLink(t2, n2)
    ensures t1 == t2 && n1 == n2
  {
    var s1, s2 := t1 + "/" + n1, t2 + "/" + n2;
    assert FrameLink(t1, n1) == RawUrl + s1;
    assert FrameLink(t2, n2) == RawUrl + s2;
    assert s1 == FrameLink(t1, n1)[|RawUrl|..];
    assert s2 == FrameLink(t2, n2)[|RawUrl|..];
    Strings.SplitAtFirst(t1, '/', n1);
    Strings.SplitAtFirst(t2, '/', n2);
    assert t1 + ['/'] + n1 == s1 && t2 + ['/'] + n2 == s2;
    assert t1 == t2;
    assert n1 == s1[|t1| + 1..];
    assert n2 == s2[|t2| + 1..];
  }

  /** Links keep the order of the frame names they are made from. */
  lemma LinksKeepOrder(taskId: string, names: seq<string>)
    ensures Ordering.StrictlyIncreasing(names) <==> Ordering.StrictlyIncreasing(FrameLinks(taskId, names))
  {
    var links := FrameLinks(taskId, names);
    forall i, j | 0 <= i < j < |names|
      ensures Ordering.LexLess(names[i], names[j]) <==> Ordering.LexLess(links[i], links[j])
    {
      Ordering.LexCommonPrefix(LinkPrefix(taskId), names[i], names[j]);
      assert links[i] == LinkPrefix(taskId) + names[i];
      assert links[j] == LinkPrefix(taskId) + names[j];
    }
  }

  /** What the repository steps of `upload_frames_to_github` come to. The
      clone, copy, `git add` and commit run outside any `try`, so their
      failure escapes; the push sits inside one, so its failure is logged
      and turned into an empty list. */
  datatype PublishOracle = PublishOracle(beforePush: Outcome, push: Outcome)

  /** `upload_frames_to_github`: one link per frame, in the order the
      frames are given, or no links when the push failed. */
  function Publish(taskId: string, frames: seq<string>, repo: PublishOracle): (r: Result<seq<string>>)
    ensures repo.beforePush.Threw? ==> r == Err(repo.beforePush.fault)
    ensures repo.beforePush.Done? ==> r.Ok?
    ensures repo.beforePush.Done? && repo.push.Threw? ==> r.value == []
    ensures repo.beforePush.Done? && repo.push.Done? ==>
              |r.value| == |frames| &&
              forall i :: 0 <= i < |frames| ==>
                |LinkPrefix(taskId)| <= |r.value[i]| &&
                r.value[i][..|LinkPrefix(taskId)|] == LinkPrefix(taskId) &&
                r.value[i][|LinkPrefix(taskId)|..] == frames[i]
  {
    match repo.beforePush
    case Threw(f) => Err(f)
    case Done =>
      match repo.push
      case Threw(_) => Ok([])
      case Done =>
        var links := FrameLinks(taskId, frames);
        assert forall i :: 0 <= i < |frames| ==> links[i] == LinkPrefix(taskId) + frames[i];
        Ok(links)
  }
}
