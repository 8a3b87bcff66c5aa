/**
  `display_video`: open the capture, then, while it is open, stop if the stop
  flag is set, read a frame, count consecutive failed reads and give up once
  more than ten have failed in a row, and otherwise reset the count and process
  the frame; release the capture on the way out.

  The capture is scripted by a `Source`: whether it opens, and what its reads
  return. Every read past the end of the script fails, as OpenCV's reads do
  once a video file is consumed, so every session ends.
 */
module DisplayLoop {
  import opened ViolationLog
  import opened FrameProcessing
  import opened Wrappers

  /** What `cap.read()` returns: a frame (given by the detector's boxes on it) or a failure. */
  datatype ReadResult = Frame(boxes: seq<Detection>) | Failed

  /** A video source: whether `cv2.VideoCapture` opens it, and the results of its reads in order. */
  datatype Source = Source(opens: bool, script: seq<ReadResult>)

  /** How `display_video` ended. */
  datatype Exit =
    | SourceClosed   // the capture was not open at the loop head
    | Stopped        // the stop flag was set
    | StreamLost     // more than MaxFailures reads failed in a row ("Stream lost or ended.")

  /** The number of consecutive failed reads the loop tolerates. */
  const MaxFailures := 10

  /** The result of read number `j` (from 0): past the end of the script, reads fail. */
  function ReadAt(script: seq<ReadResult>, j: int): ReadResult {
    if 0 <= j < |script| then script[j] else Failed
  }

  /** After `n` reads, the last MaxFailures + 1 of them all failed. */
  predicate LostAfter(script: seq<ReadResult>, n: int) {
    n > MaxFailures && forall j :: n - (MaxFailures + 1) <= j < n ==> ReadAt(script, j).Failed?
  }

  /** Searches upwards from `n` for the first read count after which the source is lost. */
  function SearchLoss(script: seq<ReadResult>, n: nat): (k: nat)
    requires forall m :: m < n ==> !LostAfter(script, m)
    ensures n <= k && LostAfter(script, k)
    ensures forall m :: m < k ==> !LostAfter(script, m)
    decreases |script| + MaxFailures + 1 - n
  {
    if LostAfter(script, n) then n
    else
      SearchLoss(script, n + 1)
  }

  /**
    The number of reads an open, unstopped session performs: the first read
    count at which MaxFailures + 1 consecutive reads have failed. The session
    ends on that read and not before.
   */
  function ReadsUntilLost(script: seq<ReadResult>): (n: nat)
    ensures LostAfter(script, n)
    ensures forall m :: m < n ==> !LostAfter(script, m)
    ensures MaxFailures < n <= |script| + MaxFailures + 1
  {
    assert LostAfter(script, |script| + MaxFailures + 1);
    SearchLoss(script, 0)
  }

  /** The frames among the first `n` reads, in read order. */
  function FramesRead(script: seq<ReadResult>, n: nat): (fs: seq<seq<Detection>>)
    ensures |fs| <= n
  {
    if n == 0 then []
    else FramesRead(script, n - 1) + match ReadAt(script, n - 1) case Frame(b) => [b] case Failed => []
  }

  /** The frames of a script, in order. */
  function Frames(script: seq<ReadResult>): (fs: seq<seq<Detection>>)
    ensures |fs| <= |script|
  {
    if script == [] then []
    else (match script[0] case Frame(b) => [b] case Failed => []) + Frames(script[1..])
  }

  lemma {:induction false} FramesConcat(a: seq<ReadResult>, b: seq<ReadResult>)
    ensures Frames(a + b) == Frames(a) + Frames(b)
    decreases |a|
  {
    if a == [] {
      assert a + b == b;
    } else {
      assert (a + b)[0] == a[0];
      assert (a + b)[1..] == a[1..] + b;
      FramesConcat(a[1..], b);
    }
  }

  /** Reading `n` times yields the frames of the first `n` entries of the script; reads past its end add none. */
  lemma {:induction false} FramesReadPrefix(script: seq<ReadResult>, n: nat)
    ensures FramesRead(script, n) == Frames(script[..if n < |script| then n else |script|])
  {
    if n > 0 {
      FramesReadPrefix(script, n - 1);
      if n <= |script| {
        assert script[..n] == script[..n - 1] + [script[n - 1]];
        FramesConcat(script[..n - 1], [script[n - 1]]);
      }
    }
  }

  /** All records logged while processing `frames`, frame after frame. */
  function LoggedAll(frames: seq<seq<Detection>>): (rs: seq<Record>)
    decreases |frames|
  {
    if frames == [] then [] else LoggedAll(frames[..|frames| - 1]) + Logged(frames[|frames| - 1])
  }

  /**
    A source that fails every read (including one with an empty script) is
    given up on after exactly MaxFailures + 1 = 11 reads, with no frame processed.
   */
  lemma AlwaysFailing(script: seq<ReadResult>)
    requires forall j :: 0 <= j < |script| ==> script[j].Failed?
    ensures ReadsUntilLost(script) == MaxFailures + 1 == 11
    ensures FramesRead(script, ReadsUntilLost(script)) == []
  {
    assert LostAfter(script, MaxFailures + 1);
    var n := ReadsUntilLost(script);
    FramesReadPrefix(script, n);
    var p := script[..if n < |script| then n else |script|];
    assert forall j :: 0 <= j < |p| ==> p[j].Failed?;
    NoFramesInFailures(p);
  }

  lemma {:induction false} NoFramesInFailures(script: seq<ReadResult>)
    requires forall j :: 0 <= j < |script| ==> script[j].Failed?
    ensures Frames(script) == []
    decreases |script|
  {
    if script != [] {
      NoFramesInFailures(script[1..]);
    }
  }

  /**
    A finite video whose last read is a frame, and that holds no run of
    MaxFailures + 1 failed reads of its own, is read to its end and then for
    exactly 11 more (failing) reads; every one of its frames is processed, once
    and in order.
   */
  lemma FiniteVideo(script: seq<ReadResult>)
    requires script != [] && script[|script| - 1].Frame?
    requires forall m :: m <= |script| ==> !LostAfter(script, m)
    ensures ReadsUntilLost(script) == |script| + MaxFailures + 1
    ensures FramesRead(script, ReadsUntilLost(script)) == Frames(script)
  {
    var n := ReadsUntilLost(script);
    forall m | |script| < m < |script| + MaxFailures + 1 ensures !LostAfter(script, m) {
      assert ReadAt(script, |script| - 1).Frame?;
    }
    assert LostAfter(script, |script| + MaxFailures + 1);
    FramesReadPrefix(script, n);
    assert script[..|script|] == script;
  }

  /** The number of consecutive failed reads among the first `n` reads, counted back from the last one. */
  function TrailingFailures(script: seq<ReadResult>, n: nat): (t: nat)
    ensures t <= n
  {
    if n == 0 || ReadAt(script, n - 1).Frame? then 0 else TrailingFailures(script, n - 1) + 1
  }

  /** At least `k` trailing failures means exactly that the last `k` reads all failed. */
  lemma {:induction false} TrailingWindow(script: seq<ReadResult>, n: nat, k: nat)
    ensures TrailingFailures(script, n) >= k <==> k <= n && forall j :: n - k <= j < n ==> ReadAt(script, j).Failed?
    decreases k
  {
    if k > 0 && n > 0 {
      TrailingWindow(script, n - 1, k - 1);
      if ReadAt(script, n - 1).Frame? {
        assert !(forall j :: n - k <= j < n ==> ReadAt(script, j).Failed?) by {
          assert n - k <= n - 1 < n;
        }
      }
    }
  }

  /** The source is lost after `n` reads exactly when more than MaxFailures of them trail as failures. */
  lemma LostIffTrailing(script: seq<ReadResult>, n: nat)
    ensures LostAfter(script, n) <==> TrailingFailures(script, n) > MaxFailures
  {
    TrailingWindow(script, n, MaxFailures + 1);
  }

  /**
    What the loop knows at its head after `i` reads with failure counter `f`:
    the counter is the number of trailing failed reads, and it never exceeded
    MaxFailures after any earlier read.
   */
  ghost predicate CounterInvariant(script: seq<ReadResult>, i: nat, f: nat) {
    && f == TrailingFailures(script, i) && f <= MaxFailures && i <= |script| + f
    && forall m: nat :: m <= i ==> TrailingFailures(script, m) <= MaxFailures
  }

  /** A successful read resets the counter, keeps the invariant, and adds its frame after those read before. */
  lemma AfterFrame(script: seq<ReadResult>, i: nat, f: nat)
    requires CounterInvariant(script, i, f) && ReadAt(script, i).Frame?
    ensures CounterInvariant(script, i + 1, 0)
    ensures FramesRead(script, i + 1) == FramesRead(script, i) + [ReadAt(script, i).boxes]
  {
  }

  /**
    A failed read increments the counter and adds no frame; while the counter
    stays within MaxFailures the invariant is kept, and when it exceeds MaxFailures the
    session has made exactly ReadsUntilLost reads.
   */
  lemma AfterFailure(script: seq<ReadResult>, i: nat, f: nat)
    requires CounterInvariant(script, i, f) && ReadAt(script, i).Failed?
    ensures TrailingFailures(script, i + 1) == f + 1
    ensures FramesRead(script, i + 1) == FramesRead(script, i)
    ensures f + 1 <= MaxFailures ==> CounterInvariant(script, i + 1, f + 1)
    ensures f + 1 > MaxFailures ==> ReadsUntilLost(script) == i + 1
  {
    if f + 1 > MaxFailures {
      LostIffTrailing(script, i + 1);
      var n := ReadsUntilLost(script);
      if n < i + 1 {
        LostIffTrailing(script, n);
        assert false;
      }
      assert !(n > i + 1);
    }
  }

  /** Processing one more frame appends its records after those of the frames before it. */
  lemma LogStep(file: Option<seq<Line>>, shown: seq<seq<Detection>>, boxes: seq<Detection>)
    ensures AppendAll(file, LoggedAll(shown + [boxes])) == AppendAll(AppendAll(file, LoggedAll(shown)), Logged(boxes))
  {
    assert (shown + [boxes])[..|shown|] == shown;
    AppendAllConcat(file, LoggedAll(shown), Logged(boxes));
  }

  /** The video capture: `cv2.VideoCapture`, scripted by a `Source`. */
  class Capture {
    const script: seq<ReadResult>
    var isOpen: bool
    var attempts: nat   // reads performed so far
    var releases: nat   // calls of release() so far

    constructor (source: Source)
      ensures script == source.script && isOpen == source.opens
      ensures attempts == 0 && releases == 0
    {
      script := source.script;
      isOpen := source.opens;
      attempts := 0;
      releases := 0;
    }

    /** `cap.isOpened()` */
    predicate IsOpened()
      reads this
    {
      isOpen
    }

    /** `cap.read()`: the next scripted result while open; a failure once released. */
    method Read() returns (r: ReadResult)
      modifies this
      ensures r == if old(isOpen) then ReadAt(script, old(attempts)) else Failed
      ensures attempts == old(attempts) + 1
      ensures isOpen == old(isOpen) && releases == old(releases)
    {
      r := if isOpen then ReadAt(script, attempts) else Failed;
      attempts := attempts + 1;
    }

    /** `cap.release()` */
    method Release()
      modifies this
      ensures !isOpen && releases == old(releases) + 1
      ensures attempts == old(attempts)
    {
      isOpen := false;
      releases := releases + 1;
    }
  }

  /**
    Lines 84-88 of a session for one frame: the frame is processed (its
    triggering boxes logged) and shown after the frames before it.
   */
  method ShowFrame(log: LogFile, ghost start: Option<seq<Line>>, shown: seq<seq<Detection>>, boxes: seq<Detection>)
    returns (shown': seq<seq<Detection>>)
    requires log.content == AppendAll(start, LoggedAll(shown))
    modifies log
    ensures shown' == shown + [boxes]
    ensures log.content == AppendAll(start, LoggedAll(shown'))
  {
    ProcessFrame(log, boxes);
    LogStep(start, shown, boxes);
    shown' := shown + [boxes];
  }

  /**
    One pass of the loop body after the stop test (lines 77-88): read, then
    either count the failure (and report the source lost once more than
    MaxFailures reads in a row have failed) or reset the count and process and
    show the frame.
   */
  method ReadStep(cap: Capture, log: LogFile, ghost start: Option<seq<Line>>, failCount: nat, shown: seq<seq<Detection>>)
    returns (failCount': nat, shown': seq<seq<Detection>>, lost: bool)
    requires cap.isOpen && CounterInvariant(cap.script, cap.attempts, failCount)
    requires shown == FramesRead(cap.script, cap.attempts)
    requires log.content == AppendAll(start, LoggedAll(shown))
    modifies cap, log
    ensures cap.isOpen && cap.releases == old(cap.releases) && cap.attempts == old(cap.attempts) + 1
    ensures shown' == FramesRead(cap.script, cap.attempts)
    ensures log.content == AppendAll(start, LoggedAll(shown'))
    ensures !lost ==> CounterInvariant(cap.script, cap.attempts, failCount')
    ensures lost ==> cap.attempts == ReadsUntilLost(cap.script)
  {
    var r := cap.Read();
    if r.Failed? {
      AfterFailure(cap.script, cap.attempts - 1, failCount);
      failCount' := failCount + 1;
      shown' := shown;
      lost := failCount' > MaxFailures;
    } else {
      AfterFrame(cap.script, cap.attempts - 1, failCount);
      failCount' := 0;
      shown' := ShowFrame(log, start, shown, r.boxes);
      lost := false;
    }
  }

  /**
    `display_video(source)` with the stop button's value `stop`, fixed when the
    session starts. Returns the capture it opened (to observe its reads and
    releases), how the loop ended, and the frames it processed and showed.
   */
  method DisplayVideo(source: Source, stop: bool, log: LogFile)
    returns (cap: Capture, exit: Exit, shown: seq<seq<Detection>>)
    modifies log
    ensures fresh(cap) && cap.script == source.script
    ensures cap.releases == 1 && !cap.isOpen
    ensures !source.opens ==> exit == SourceClosed
    ensures source.opens && stop ==> exit == Stopped
    ensures !source.opens || stop ==> cap.attempts == 0 && shown == [] && log.content == old(log.content)
    ensures source.opens && !stop ==> exit == StreamLost && cap.attempts == ReadsUntilLost(source.script)
    ensures shown == FramesRead(source.script, cap.attempts)
    ensures log.content == AppendAll(old(log.content), LoggedAll(shown))
  {
    ghost var start := log.content;
    cap := new Capture(source);
    exit := SourceClosed;
    shown := [];
    var failCount := 0;
    while cap.IsOpened()
      invariant cap.script == source.script && cap.isOpen == source.opens && cap.releases == 0
      invariant exit == SourceClosed
      invariant CounterInvariant(cap.script, cap.attempts, failCount)
      invariant stop || !source.opens ==> cap.attempts == 0
      invariant shown == FramesRead(cap.script, cap.attempts)
      invariant log.content == AppendAll(start, LoggedAll(shown))
      decreases |cap.script| + MaxFailures + 1 - cap.attempts
    {
      if stop {
        exit := Stopped;
        break;
      }
      var lost;
      failCount, shown, lost := ReadStep(cap, log, start, failCount, shown);
      if lost {
        exit := StreamLost;
        break;
      }
    }
    cap.Release();
  }
}
