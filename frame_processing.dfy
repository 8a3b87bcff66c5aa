/**
  `process_frame`: the detector's boxes for one frame are examined in order, and
  every box whose class name triggers (see module Trigger) is logged with one
  call of `log_violation`. The detector and the annotation it draws are not
  modelled; a frame is given by the boxes the detector reports on it.
 */
module FrameProcessing {
  import opened Trigger
  import opened ViolationLog

  /**
    One box of the detector's output: class name, confidence in hundredths, and
    the wall-clock reading `log_violation` takes if this box is logged.
   */
  datatype Detection = Detection(className: string, confidence: int, seenAt: Timestamp)

  /** The record `log_violation` writes for a box. */
  function RecordOf(d: Detection): Record {
    Record(d.seenAt, d.className, d.confidence)
  }

  /** The records appended while processing one frame: one per triggering box, in box order. */
  function Logged(boxes: seq<Detection>): (rs: seq<Record>)
    ensures |rs| <= |boxes|
    ensures forall k :: 0 <= k < |rs| ==> IsViolation(rs[k].violation)
    decreases |boxes|
  {
    if boxes == [] then []
    else
      var last := boxes[|boxes| - 1];
      Logged(boxes[..|boxes| - 1]) + if IsViolation(last.className) then [RecordOf(last)] else []
  }

  /** Records follow box order: the boxes of `a + b` log what `a` logs, then what `b` logs. */
  lemma {:induction false} LoggedConcat(a: seq<Detection>, b: seq<Detection>)
    ensures Logged(a + b) == Logged(a) + Logged(b)
    decreases |b|
  {
    if b == [] {
      assert a + b == a;
    } else {
      var n := |b| - 1;
      assert (a + b)[..|a + b| - 1] == a + b[..n];
      LoggedConcat(a, b[..n]);
    }
  }

  /** A single box is logged exactly when its class name triggers. */
  lemma LoggedOne(d: Detection)
    ensures Logged([d]) == if IsViolation(d.className) then [RecordOf(d)] else []
  {
    assert [d][..0] == [];
  }

  /** For each box, in box order, whether its class name triggers. */
  function TriggerFlags(boxes: seq<Detection>): (flags: seq<bool>)
    ensures |flags| == |boxes|
    ensures forall i :: 0 <= i < |boxes| ==> flags[i] == IsViolation(boxes[i].className)
    decreases |boxes|
  {
    if boxes == [] then [] else TriggerFlags(boxes[..|boxes| - 1]) + [IsViolation(boxes[|boxes| - 1].className)]
  }

  /** The positions at which `flags` holds. */
  function Positions(flags: seq<bool>): set<int> {
    set i | 0 <= i < |flags| && flags[i]
  }

  /** The indices of the boxes whose class name triggers. */
  function TriggeringBoxes(boxes: seq<Detection>): set<int> {
    Positions(TriggerFlags(boxes))
  }

  /** Exactly as many records are appended as there are triggering boxes: no more, no fewer. */
  lemma {:induction false} LoggedCount(boxes: seq<Detection>)
    ensures |Logged(boxes)| == |TriggeringBoxes(boxes)|
    decreases |boxes|
  {
    if boxes != [] {
      var n := |boxes| - 1;
      LoggedCount(boxes[..n]);
      PositionsSnoc(TriggerFlags(boxes[..n]), IsViolation(boxes[n].className));
    }
  }

  /** One more flag adds its position exactly when it holds. */
  lemma PositionsSnoc(flags: seq<bool>, b: bool)
    ensures |Positions(flags + [b])| == |Positions(flags)| + if b then 1 else 0
  {
    var s, s' := Positions(flags), Positions(flags + [b]);
    if b {
      assert s' == s + {|flags|};
      assert |flags| !in s;
    } else {
      assert s' == s;
    }
  }

  /** A frame without boxes, or without triggering boxes, logs nothing. */
  lemma {:induction false} NothingTriggersNothingLogged(boxes: seq<Detection>)
    requires forall i :: 0 <= i < |boxes| ==> !IsViolation(boxes[i].className)
    ensures Logged(boxes) == []
    decreases |boxes|
  {
    if boxes != [] {
      NothingTriggersNothingLogged(boxes[..|boxes| - 1]);
    }
  }

  /**
    `process_frame(frame)` on the detector's `boxes`: the log ends up with the
    records of the triggering boxes appended in box order.
   */
  method ProcessFrame(log: LogFile, boxes: seq<Detection>)
    modifies log
    ensures log.content == AppendAll(old(log.content), Logged(boxes))
  {
    for i := 0 to |boxes|
      invariant log.content == AppendAll(old(log.content), Logged(boxes[..i]))
    {
      var box := boxes[i];
      ghost var before := Logged(boxes[..i]);
      assert boxes[..i + 1][..i] == boxes[..i];
      if IsViolation(box.className) {
        log.LogViolation(box.className, box.confidence, box.seenAt);
        assert Logged(boxes[..i + 1]) == before + [RecordOf(box)];
        assert (before + [RecordOf(box)])[..|before|] == before;
      } else {
        assert Logged(boxes[..i + 1]) == before;
      }
    }
    assert boxes[..|boxes|] == boxes;
  }
}
