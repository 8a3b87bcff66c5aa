/**
  The violation log (`violation_logs.csv`): a table with the header
  `Timestamp,Violation,Confidence`, written once when the file is created,
  followed by one row per logged violation. `log_violation` creates the file
  when it is absent and appends otherwise; the viewer shows the last ten rows,
  or a "no violations" message when the file is absent.

  Rows are modelled structurally, as sequences of cells; the CSV quoting done by
  pandas is not modelled. The file itself is an `Option<seq<Line>>`: `None` when
  it does not exist.
 */
module ViolationLog {
  import opened Wrappers

  /** A wall-clock reading already formatted as `YYYY-MM-DD HH:MM:SS`. */
  type Timestamp = string

  /** One CSV field: text, or a confidence in hundredths (the value `round(confidence, 2)` stands for). */
  datatype Cell = Text(text: string) | Hundredths(value: int)

  type Line = seq<Cell>

  const Header: Line := [Text("Timestamp"), Text("Violation"), Text("Confidence")]

  /** A violation record: when, which class, with what confidence. */
  datatype Record = Record(timestamp: Timestamp, violation: string, confidence: int)

  /** The data row written for a record: its three fields in header order. */
  function Encode(r: Record): (l: Line)
    ensures |l| == |Header| == 3
    ensures l[0].Text? && l[1].Text? && l[2].Hundredths?
  {
    [Text(r.timestamp), Text(r.violation), Hundredths(r.confidence)]
  }

  /** No data row is the header row: the header's third field is text, a data row's a number. */
  lemma RowIsNotHeader(r: Record)
    ensures Encode(r) != Header
  {
    assert Header[2].Text?;
  }

  /** Reads a data row back; a line that is not three fields of the right kinds is no record. */
  function Decode(l: Line): (r: Option<Record>)
    ensures r.Some? ==> |l| == 3
    ensures l == Header ==> r == None
  {
    if |l| == 3 && l[0].Text? && l[1].Text? && l[2].Hundredths? then
      Some(Record(l[0].text, l[1].text, l[2].value))
    else
      None
  }

  /** Encoding and decoding a row are inverse to each other. */
  lemma RowRoundTrip(r: Record, l: Line)
    ensures Decode(Encode(r)) == Some(r)
    ensures Decode(l).Some? ==> Encode(Decode(l).value) == l
  {
    if Decode(l).Some? {
      assert Encode(Decode(l).value) == [l[0], l[1], l[2]];
    }
  }

  function EncodeAll(rs: seq<Record>): (ls: seq<Line>)
    ensures |ls| == |rs|
    ensures forall k :: 0 <= k < |rs| ==> ls[k] == Encode(rs[k])
    decreases |rs|
  {
    if rs == [] then [] else EncodeAll(rs[..|rs| - 1]) + [Encode(rs[|rs| - 1])]
  }

  /** Reads a sequence of data rows back, failing if any of them is not a record. */
  function DecodeAll(ls: seq<Line>): (r: Option<seq<Record>>)
    ensures r.Some? ==> |r.value| == |ls|
  {
    if ls == [] then Some([])
    else match (Decode(ls[0]), DecodeAll(ls[1..]))
      case (Some(first), Some(rest)) => Some([first] + rest)
      case _ => None
  }

  /** Writing records as rows and reading the rows back yields the same records, in the same order. */
  lemma {:induction false} RowsRoundTrip(rs: seq<Record>)
    ensures DecodeAll(EncodeAll(rs)) == Some(rs)
  {
    if rs != [] {
      assert EncodeAll(rs)[1..] == EncodeAll(rs[1..]);
      RowsRoundTrip(rs[1..]);
      RowRoundTrip(rs[0], []);
      assert [rs[0]] + rs[1..] == rs;
    }
  }

  /** The header is present exactly when the file exists, and every other row is a record. */
  predicate WellFormed(file: Option<seq<Line>>) {
    match file
    case None => true
    case Some(ls) => |ls| > 0 && ls[0] == Header && forall k :: 1 <= k < |ls| ==> Decode(ls[k]).Some?
  }

  /**
    The file's lines after one `log_violation`: an absent file is created with
    the header and the new row; an existing one gets the new row appended and no
    header. Earlier lines are kept, unchanged and in place.
   */
  function Appended(file: Option<seq<Line>>, r: Record): (ls: seq<Line>)
    ensures |ls| == if file.None? then 2 else |file.value| + 1
    ensures ls[|ls| - 1] == Encode(r)
    ensures ls[..|ls| - 1] == if file.None? then [Header] else file.value
  {
    match file
    case None => [Header, Encode(r)]
    case Some(lines) => lines + [Encode(r)]
  }

  /** One append adds a header only when it creates the file. */
  lemma AppendedHeaderCount(file: Option<seq<Line>>, r: Record)
    ensures multiset(Appended(file, r))[Header] == if file.None? then 1 else multiset(file.value)[Header]
  {
    var ls := Appended(file, r);
    RowIsNotHeader(r);
    assert ls == ls[..|ls| - 1] + [Encode(r)];
    assert multiset(ls) == multiset(ls[..|ls| - 1]) + multiset{Encode(r)};
  }

  /** Appending keeps a well-formed log well-formed, and always leaves a file behind. */
  lemma AppendKeepsWellFormed(file: Option<seq<Line>>, r: Record)
    requires WellFormed(file)
    ensures WellFormed(Some(Appended(file, r)))
  {
    var ls := Appended(file, r);
    RowRoundTrip(r, []);
    forall k | 1 <= k < |ls| ensures Decode(ls[k]).Some? {
      if k < |ls| - 1 {
        assert ls[k] == ls[..|ls| - 1][k];
      }
    }
    assert ls[0] == ls[..|ls| - 1][0];
  }

  /** The file after logging `rs`, one after the other. */
  function AppendAll(file: Option<seq<Line>>, rs: seq<Record>): (f: Option<seq<Line>>)
    ensures rs != [] ==> f.Some?
  {
    if rs == [] then file else Some(Appended(AppendAll(file, rs[..|rs| - 1]), rs[|rs| - 1]))
  }

  /** Logging `a` and then `b` is logging `a + b`. */
  lemma {:induction false} AppendAllConcat(file: Option<seq<Line>>, a: seq<Record>, b: seq<Record>)
    ensures AppendAll(file, a + b) == AppendAll(AppendAll(file, a), b)
    decreases |b|
  {
    if b == [] {
      assert a + b == a;
    } else {
      assert (a + b)[..|a + b| - 1] == a + b[..|b| - 1];
      AppendAllConcat(file, a, b[..|b| - 1]);
    }
  }

  /** Logging to an existing file only ever adds rows at its end, one per record. */
  lemma {:induction false} AppendAllToExisting(ls: seq<Line>, rs: seq<Record>)
    ensures AppendAll(Some(ls), rs) == Some(ls + EncodeAll(rs))
    decreases |rs|
  {
    if rs == [] {
      assert ls + EncodeAll(rs) == ls;
    } else {
      var n := |rs| - 1;
      AppendAllToExisting(ls, rs[..n]);
      var before := ls + EncodeAll(rs[..n]);
      assert AppendAll(Some(ls), rs) == Some(Appended(Some(before), rs[n]));
      assert Appended(Some(before), rs[n]) == before + [Encode(rs[n])];
      assert EncodeAll(rs) == EncodeAll(rs[..n]) + [Encode(rs[n])];
      assert before + [Encode(rs[n])] == ls + EncodeAll(rs);
    }
  }

  /**
    Starting from no file, logging a non-empty `rs` creates the file with the
    header first, followed by exactly the rows of `rs` in logging order.
   */
  lemma {:induction false} LogFromAbsent(rs: seq<Record>)
    requires rs != []
    ensures AppendAll(None, rs) == Some([Header] + EncodeAll(rs))
    decreases |rs|
  {
    var n := |rs| - 1;
    var front, e := rs[..n], Encode(rs[n]);
    if front == [] {
      assert AppendAll(None, front) == None;
      assert EncodeAll(rs) == [e];
      assert [Header] + [e] == [Header, e];
    } else {
      LogFromAbsent(front);
      assert ([Header] + EncodeAll(front)) + [e] == [Header] + (EncodeAll(front) + [e]);
    }
  }

  lemma {:induction false} EncodeAllConcat(a: seq<Record>, b: seq<Record>)
    ensures EncodeAll(a + b) == EncodeAll(a) + EncodeAll(b)
    decreases |b|
  {
    if b == [] {
      assert a + b == a;
    } else {
      var n := |b| - 1;
      assert (a + b)[..|a + b| - 1] == a + b[..n];
      EncodeAllConcat(a, b[..n]);
    }
  }

  /**
    However many records are logged starting from no file, the file holds the
    header exactly once, as its first line, and is well-formed; with nothing
    logged there is still no file.
   */
  lemma HeaderExactlyOnce(rs: seq<Record>)
    ensures rs == [] <==> AppendAll(None, rs) == None
    ensures rs != [] ==> AppendAll(None, rs).value[0] == Header
    ensures rs != [] ==> multiset(AppendAll(None, rs).value)[Header] == 1
    ensures WellFormed(AppendAll(None, rs))
  {
    if rs != [] {
      LogFromAbsent(rs);
      HeaderThenRows(rs);
    }
  }

  /** The header followed by the rows of `rs` holds the header once, and is a well-formed file. */
  lemma HeaderThenRows(rs: seq<Record>)
    ensures multiset([Header] + EncodeAll(rs))[Header] == 1
    ensures WellFormed(Some([Header] + EncodeAll(rs)))
  {
    var rows := EncodeAll(rs);
    forall k | 0 <= k < |rows| ensures rows[k] != Header {
      RowIsNotHeader(rs[k]);
    }
    assert Header !in rows;
    assert multiset([Header] + rows) == multiset{Header} + multiset(rows);
    var ls := [Header] + rows;
    forall k | 1 <= k < |ls| ensures Decode(ls[k]).Some? {
      assert ls[k] == Encode(rs[k - 1]);
      RowRoundTrip(rs[k - 1], []);
    }
  }

  /** What the log section of the page shows. */
  datatype View =
    | NoViolations                                              // the file is absent
    | Unreadable                                                // the file exists but is empty: read_csv raises
    | Table(columns: Line, latest: seq<Line>, download: seq<Line>)

  const TailSize := 10

  /** `df.tail(n)`: the last `min(n, |s|)` elements of `s`, in order. */
  function Tail<T>(s: seq<T>, n: nat): (t: seq<T>)
    ensures |t| == if |s| < n then |s| else n
    ensures s == s[..|s| - |t|] + t
  {
    if |s| <= n then s else s[|s| - n..]
  }

  /**
    The viewer: read the file (first line as column names), show its last ten
    rows, and offer the whole table for download.
   */
  function ViewLog(file: Option<seq<Line>>): (v: View)
    ensures v.NoViolations? <==> file.None?
    ensures v.Unreadable? <==> file == Some([])
    ensures v.Table? ==> file.Some? && v.download == file.value && v.columns == file.value[0]
    ensures v.Table? ==> |v.latest| == if |file.value| - 1 < TailSize then |file.value| - 1 else TailSize
    ensures v.Table? ==> file.value == file.value[..|file.value| - |v.latest|] + v.latest
  {
    match file
    case None => NoViolations
    case Some(ls) => if ls == [] then Unreadable else Table(ls[0], Tail(ls[1..], TailSize), ls)
  }

  lemma EncodeAllTail(rs: seq<Record>, n: nat)
    ensures Tail(EncodeAll(rs), n) == EncodeAll(Tail(rs, n))
  {
    if n < |rs| {
      var d := |rs| - n;
      assert rs == rs[..d] + rs[d..];
      EncodeAllConcat(rs[..d], rs[d..]);
      assert EncodeAll(rs)[d..] == EncodeAll(rs[d..]);
    }
  }

  /**
    Round trip through the file: after logging `rs` from no file, the viewer
    reports "no violations" when nothing was logged and otherwise shows the
    header and the last `min(10, |rs|)` records, field for field and in logging
    order, with the full table of records for download.
   */
  lemma ViewAfterLogging(rs: seq<Record>)
    ensures rs == [] ==> ViewLog(AppendAll(None, rs)) == NoViolations
    ensures rs != [] ==> ViewLog(AppendAll(None, rs)).Table?
    ensures rs != [] ==> ViewLog(AppendAll(None, rs)).columns == Header
    ensures rs != [] ==> DecodeAll(ViewLog(AppendAll(None, rs)).latest) == Some(Tail(rs, TailSize))
    ensures rs != [] ==> DecodeAll(ViewLog(AppendAll(None, rs)).download[1..]) == Some(rs)
  {
    if rs != [] {
      LogFromAbsent(rs);
      var ls := [Header] + EncodeAll(rs);
      assert ls[1..] == EncodeAll(rs);
      var v := ViewLog(Some(ls));
      assert v.latest == Tail(EncodeAll(rs), TailSize);
      EncodeAllTail(rs, TailSize);
      RowsRoundTrip(Tail(rs, TailSize));
      RowsRoundTrip(rs);
    }
  }

  /** After any append to a well-formed log, the row just written is the last row the viewer shows. */
  lemma ViewShowsNewestLast(file: Option<seq<Line>>, r: Record)
    requires WellFormed(file)
    ensures ViewLog(Some(Appended(file, r))).Table?
    ensures var v := ViewLog(Some(Appended(file, r))); v.latest != [] && v.latest[|v.latest| - 1] == Encode(r)
  {
  }

  /** The log file, as the file system holds it; `content` is `None` while it does not exist. */
  class LogFile {
    var content: Option<seq<Line>>

    constructor (initial: Option<seq<Line>>)
      ensures content == initial
    {
      content := initial;
    }

    /** `log_violation(class_name, confidence)`, with the wall-clock reading `now` passed in. */
    method LogViolation(className: string, confidence: int, now: Timestamp)
      modifies this
      ensures content == Some(Appended(old(content), Record(now, className, confidence)))
    {
      var entry := Encode(Record(now, className, confidence));
      if content.Some? {
        content := Some(content.value + [entry]);
      } else {
        content := Some([Header, entry]);
      }
    }
  }
}
