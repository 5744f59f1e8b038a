/**
 * What the framer of TCPClient.js promises about the frames it delivers,
 * the errors it reports, the buffer it keeps, and how the stream may be cut
 * into chunks, stated about the specification `Scan` that
 * `TcpClient.DistillFrames` is proved against.
 */
module FramingProperties {
  import opened Wrappers
  import opened HexText
  import opened TcpFraming

  /** A candidate the checksum test rejected: it passed every other test. */
  predicate FailsChecksum(f: string) {
    && IsLowerHex(f)
    && |f| >= 10
    && OccursAt(f, MARKER, 0)
    && |f| == 2 * FrameLen(f)
    && EndsWithTerminator(f)
    && !ChecksumHolds(f, FrameLen(f))
  }

  /** How one pass of the loop relates its outcome to the buffer it examined. */
  lemma ExamineShape(d: string)
    requires IsLowerHex(d) && |d| >= 10 && OccursAt(d, MARKER, 0) && |d| >= 2 * FrameLen(d)
    ensures var st := Examine(d);
      && (st.Resync? ==> st.next == d[1..])
      && (st.Resync? && st.report.Some? ==> FailsChecksum(st.report.value.frame))
      && (st.Resync? && st.report.None? ==> !EndsWithTerminator(d[..2 * FrameLen(d)]))
      && (st.Take? ==> d == st.frame + st.next)
  {
    CandidateHeader(d);
    var n := FrameLen(d);
    assert d == d[..2 * n] + d[2 * n..];
  }

  /**
   * The loop drops exactly the text before the first marker and then, on a
   * failed test, exactly one more hex character; a frame is cut off the
   * front of what is left.
   */
  lemma StepShape(data: string)
    requires IsLowerHex(data)
    ensures var st := ScanStep(data); var i := IndexOf(data, MARKER);
      && (st.Wait? ==> st.rest == data || (i >= 0 && st.rest == data[i..]))
      && (st.Resync? ==> i >= 0 && st.next == data[i + 1..])
      && (st.Resync? && st.report.Some? ==> FailsChecksum(st.report.value.frame))
      && (st.Take? ==> i >= 0 && data[i..] == st.frame + st.next)
  {
    var i := IndexOf(data, MARKER);
    if i < 0 {
      StepNoMarker(data);
    } else {
      var d := data[i..];
      if |d| < 10 || |d| < 2 * FrameLen(d) {
        StepIncomplete(data, d);
      } else {
        CandidateShape(data, i, d);
      }
    }
  }

  lemma CandidateShape(data: string, i: nat, d: string)
    requires IsLowerHex(data) && IndexOf(data, MARKER) == i && d == data[i..]
    requires |d| >= 10 && |d| >= 2 * FrameLen(d)
    ensures var st := ScanStep(data);
      && !st.Wait?
      && (st.Resync? ==> st.next == data[i + 1..])
      && (st.Resync? && st.report.Some? ==> FailsChecksum(st.report.value.frame))
      && (st.Take? ==> data[i..] == st.frame + st.next)
  {
    StepCandidate(data, d);
    ExamineShape(d);
    assert d[1..] == data[i + 1..];
  }

  /** Every frame delivered passed all of the framer's tests. */
  lemma {:induction false} FramesValid(data: string)
    requires IsLowerHex(data)
    ensures forall f :: f in Scan(data).frames ==> ValidFrame(f)
    decreases |data|
  {
    match ScanStep(data)
    case Wait(_) =>
    case Resync(next, _) =>
      FramesValid(next);
    case Take(frame, next) =>
      FramesValid(next);
  }

  /**
   * The error handler only hears of candidates whose checksum failed; a bad
   * terminator is never reported.
   */
  lemma {:induction false} ErrorsFailChecksum(data: string)
    requires IsLowerHex(data)
    ensures forall e :: e in Scan(data).errors ==> FailsChecksum(e.frame)
    decreases |data|
  {
    StepShape(data);
    match ScanStep(data)
    case Wait(_) =>
    case Resync(next, report) =>
      ErrorsFailChecksum(next);
    case Take(frame, next) =>
      ErrorsFailChecksum(next);
  }

  /** A buffer with no marker yields nothing and is kept whole. */
  lemma NoMarkerKept(data: string)
    requires IsLowerHex(data) && !HasMarker(data)
    ensures Scan(data) == Outcome([], [], data)
  {
    StepNoMarker(data);
  }

  /** Gaps and frames laid end to end: `gaps[0] + frames[0] + gaps[1] + frames[1] + ...`. */
  function Interleave(gaps: seq<string>, frames: seq<string>): (r: string)
    requires |gaps| == |frames|
    decreases |gaps|
  {
    if gaps == [] then [] else gaps[0] + frames[0] + Interleave(gaps[1..], frames[1..])
  }

  /** Dropping `data[..i + 1]` in front of a layout of the rest: the dropped text joins the first gap. */
  lemma ResyncLayout(data: string, i: nat, g: seq<string>, t: string, frames: seq<string>, rest: string)
    returns (gaps: seq<string>, skipped: string)
    requires i < |data| && |g| == |frames|
    requires data[i + 1..] == Interleave(g, frames) + t + rest
    ensures |gaps| == |frames|
    ensures data == Interleave(gaps, frames) + skipped + rest
  {
    var p := data[..i + 1];
    assert data == p + data[i + 1..];
    if g == [] {
      gaps, skipped := [], p + t;
    } else {
      gaps, skipped := [p + g[0]] + g[1..], t;
      assert gaps[1..] == g[1..];
    }
  }

  /** Cutting `frame` after the text `data[..i]`: that text becomes a new first gap. */
  lemma TakeLayout(data: string, i: nat, frame: string, next: string, g: seq<string>, t: string, frames: seq<string>, rest: string)
    returns (gaps: seq<string>, skipped: string)
    requires i <= |data| && data[i..] == frame + next && |g| == |frames|
    requires next == Interleave(g, frames) + t + rest
    ensures |gaps| == |frames| + 1
    ensures data == Interleave(gaps, [frame] + frames) + skipped + rest
  {
    var p := data[..i];
    assert data == p + data[i..];
    gaps, skipped := [p] + g, t;
    assert gaps[1..] == g;
    assert ([frame] + frames)[1..] == frames;
  }

  /**
   * The frames are non-overlapping pieces of the buffer, in order: the
   * buffer is the frames with the text skipped before each, then text
   * skipped after the last one, then the retained rest.
   */
  lemma {:induction false} Layout(data: string) returns (gaps: seq<string>, skipped: string)
    requires IsLowerHex(data)
    ensures |gaps| == |Scan(data).frames|
    ensures data == Interleave(gaps, Scan(data).frames) + skipped + Scan(data).rest
    decreases |data|, 1
  {
    match ScanStep(data)
    case Wait(rest) =>
      gaps, skipped := LayoutWait(data, rest);
    case Resync(next, report) =>
      gaps, skipped := LayoutResync(data, next, report);
    case Take(frame, next) =>
      gaps, skipped := LayoutTake(data, frame, next);
  }

  lemma LayoutWait(data: string, rest: string) returns (gaps: seq<string>, skipped: string)
    requires IsLowerHex(data) && ScanStep(data) == Wait(rest)
    ensures |gaps| == |Scan(data).frames|
    ensures data == Interleave(gaps, Scan(data).frames) + skipped + Scan(data).rest
  {
    StepShape(data);
    var i := IndexOf(data, MARKER);
    gaps := [];
    if rest == data {
      skipped := [];
    } else {
      skipped := data[..i];
      assert data == data[..i] + data[i..];
    }
  }

  lemma {:induction false} LayoutResync(data: string, next: string, report: Option<FrameError>)
    returns (gaps: seq<string>, skipped: string)
    requires IsLowerHex(data) && ScanStep(data) == Resync(next, report)
    ensures |gaps| == |Scan(data).frames|
    ensures data == Interleave(gaps, Scan(data).frames) + skipped + Scan(data).rest
    decreases |data|, 0
  {
    StepShape(data);
    var g, t := Layout(next);
    var o := Scan(next);
    gaps, skipped := ResyncLayout(data, IndexOf(data, MARKER), g, t, o.frames, o.rest);
  }

  lemma {:induction false} LayoutTake(data: string, frame: string, next: string)
    returns (gaps: seq<string>, skipped: string)
    requires IsLowerHex(data) && ScanStep(data) == Take(frame, next)
    ensures |gaps| == |Scan(data).frames|
    ensures data == Interleave(gaps, Scan(data).frames) + skipped + Scan(data).rest
    decreases |data|, 0
  {
    StepShape(data);
    var g, t := Layout(next);
    var o := Scan(next);
    gaps, skipped := TakeLayout(data, IndexOf(data, MARKER), frame, next, g, t, o.frames, o.rest);
  }

  // Cutting the stream into chunks does not change what is delivered.

  /** `indexOf` finds a given occurrence when there is none before it. */
  lemma IndexOfFirst(s: string, pat: string, j: nat)
    requires OccursAt(s, pat, j) && forall k: nat :: k < j ==> !OccursAt(s, pat, k)
    ensures IndexOf(s, pat) == j
  {
  }

  /** Text appended after the first marker does not move it. */
  lemma IndexOfAppend(s: string, b: string)
    requires IndexOf(s, MARKER) >= 0
    ensures IndexOf(s + b, MARKER) == IndexOf(s, MARKER)
  {
    var i := IndexOf(s, MARKER);
    forall k: nat | k < i
      ensures !OccursAt(s + b, MARKER, k)
    {
      assert (s + b)[k..k + 4] == s[k..k + 4];
      assert !OccursAt(s, MARKER, k);
    }
    assert (s + b)[i..i + 4] == s[i..i + 4];
    IndexOfFirst(s + b, MARKER, i);
  }

  lemma DropAppend(s: string, b: string, i: nat)
    requires i <= |s|
    ensures (s + b)[i..] == s[i..] + b
  {
  }

  /** The step taken on a longer buffer, when the step on the shorter one did not wait. */
  function Extend(st: Step, b: string): Step {
    match st
    case Wait(rest) => Wait(rest + b)
    case Resync(next, report) => Resync(next + b, report)
    case Take(frame, next) => Take(frame, next + b)
  }

  lemma ExamineAppend(d: string, b: string)
    requires IsLowerHex(d) && |d| >= 10 && OccursAt(d, MARKER, 0) && |d| >= 2 * FrameLen(d)
    requires IsLowerHex(b)
    ensures IsLowerHex(d + b) && |d + b| >= 10 && OccursAt(d + b, MARKER, 0)
    ensures FrameLen(d + b) == FrameLen(d) && |d + b| >= 2 * FrameLen(d + b)
    ensures Examine(d + b) == Extend(Examine(d), b)
  {
    var n := FrameLen(d);
    assert (d + b)[6..10] == d[6..10];
    assert (d + b)[..4] == d[..4];
    assert (d + b)[..2 * n] == d[..2 * n];
    assert (d + b)[1..] == d[1..] + b;
    assert (d + b)[2 * n..] == d[2 * n..] + b;
  }

  /** A step that examined a candidate is the same step on a longer buffer. */
  lemma StepAppendCandidate(data: string, b: string, i: nat, d: string)
    requires IsLowerHex(data) && IsLowerHex(b)
    requires IndexOf(data, MARKER) == i && d == data[i..]
    requires |d| >= 10 && |d| >= 2 * FrameLen(d)
    ensures ScanStep(data + b) == Extend(ScanStep(data), b)
  {
    StepCandidate(data, d);
    IndexOfAppend(data, b);
    DropAppend(data, b, i);
    ExamineAppend(d, b);
    StepCandidate(data + b, d + b);
  }

  /** A step that waited on a marker resumes on the retained text followed by the new chunk. */
  lemma StepAppendIncomplete(data: string, b: string, i: nat, d: string)
    requires IsLowerHex(data) && IsLowerHex(b)
    requires IndexOf(data, MARKER) == i && d == data[i..]
    requires |d| < 10 || |d| < 2 * FrameLen(d)
    ensures IsLowerHex(d + b) && ScanStep(data + b) == ScanStep(d + b)
  {
    IndexOfAppend(data, b);
    DropAppend(data, b, i);
    assert d[..4] == data[i..i + 4];
    assert (d + b)[..4] == d[..4];
    IndexOfFirst(d + b, MARKER, 0);
    assert (d + b)[0..] == d + b;
  }

  lemma StepAppend(data: string, b: string)
    requires IsLowerHex(data) && IsLowerHex(b)
    ensures var st := ScanStep(data);
      && (st.Wait? ==> IsLowerHex(st.rest + b) && ScanStep(data + b) == ScanStep(st.rest + b))
      && (!st.Wait? ==> ScanStep(data + b) == Extend(st, b))
  {
    var i := IndexOf(data, MARKER);
    if i < 0 {
      StepNoMarker(data);
    } else {
      var d := data[i..];
      if |d| < 10 || |d| < 2 * FrameLen(d) {
        StepIncomplete(data, d);
        StepAppendIncomplete(data, b, i, d);
      } else {
        StepAppendCandidate(data, b, i, d);
      }
    }
  }

  /** The outcome of scanning one buffer and then the retained text followed by more input. */
  function Then(first: Outcome, second: Outcome): Outcome {
    Outcome(first.frames + second.frames, first.errors + second.errors, second.rest)
  }

  /**
   * Scanning `data + b` in one go is scanning `data`, then scanning what
   * was retained followed by `b`.
   */
  lemma {:induction false} ScanAppend(data: string, b: string)
    requires IsLowerHex(data) && IsLowerHex(b)
    ensures IsLowerHex(Scan(data).rest + b)
    ensures Scan(data + b) == Then(Scan(data), Scan(Scan(data).rest + b))
    decreases |data|, 1
  {
    StepAppend(data, b);
    match ScanStep(data)
    case Wait(rest) =>
      assert [] + Scan(rest + b).frames == Scan(rest + b).frames;
      assert [] + Scan(rest + b).errors == Scan(rest + b).errors;
    case Resync(next, report) =>
      ScanAppendResync(data, b, next, report);
    case Take(frame, next) =>
      ScanAppendTake(data, b, frame, next);
  }

  lemma {:induction false} ScanAppendResync(data: string, b: string, next: string, report: Option<FrameError>)
    requires IsLowerHex(data) && IsLowerHex(b) && ScanStep(data) == Resync(next, report)
    requires ScanStep(data + b) == Resync(next + b, report)
    ensures IsLowerHex(Scan(data).rest + b)
    ensures Scan(data + b) == Then(Scan(data), Scan(Scan(data).rest + b))
    decreases |data|, 0
  {
    ScanAppend(next, b);
    var o := Scan(next);
    ConcatAssoc(Reports(report), o.errors, Scan(o.rest + b).errors);
  }

  lemma {:induction false} ScanAppendTake(data: string, b: string, frame: string, next: string)
    requires IsLowerHex(data) && IsLowerHex(b) && ScanStep(data) == Take(frame, next)
    requires ScanStep(data + b) == Take(frame, next + b)
    ensures IsLowerHex(Scan(data).rest + b)
    ensures Scan(data + b) == Then(Scan(data), Scan(Scan(data).rest + b))
    decreases |data|, 0
  {
    ScanAppend(next, b);
    var o := Scan(next);
    ConcatAssoc([frame], o.frames, Scan(o.rest + b).frames);
  }

  /**
   * Two calls of the `data` handler, with chunks `a` and then `b`, deliver
   * the same frames and errors and leave the same buffer as one call with
   * `a + b`.
   */
  lemma TwoChunks(buffer: string, a: string, b: string)
    requires IsLowerHex(buffer) && IsHex(a) && IsHex(b)
    ensures IsLowerHex(buffer + Lower(a)) && IsLowerHex(buffer + Lower(a + b))
    ensures IsLowerHex(Scan(buffer + Lower(a)).rest + Lower(b))
    ensures Scan(buffer + Lower(a + b)) == Then(Scan(buffer + Lower(a)), Scan(Scan(buffer + Lower(a)).rest + Lower(b)))
  {
    var x := buffer + Lower(a);
    var y := Lower(b);
    LowerConcat(a, b);
    LowerHexConcat(buffer, Lower(a));
    LowerHexConcat(x, y);
    assert buffer + Lower(a + b) == x + y;
    ScanAppend(x, y);
  }

  // A valid frame at the front of the buffer is always delivered.

  lemma ValidHead(f: string, tail: string)
    requires ValidFrame(f) && IsLowerHex(tail)
    ensures ScanStep(f + tail) == Take(f, tail)
  {
    var n := FrameLen(f);
    assert f[..2 * n] == f && f[2 * n..] == [];
    ExamineAccepted(f, n);
    ExamineAppend(f, tail);
    assert [] + tail == tail;
    assert (f + tail)[..4] == f[..4];
    IndexOfFirst(f + tail, MARKER, 0);
    assert (f + tail)[0..] == f + tail;
    StepCandidate(f + tail, f + tail);
  }

  lemma ScanTakeOutcome(data: string, frame: string, next: string)
    requires IsLowerHex(data) && ScanStep(data) == Take(frame, next)
    ensures IsLowerHex(next)
    ensures var o := Scan(next); Scan(data) == Outcome([frame] + o.frames, o.errors, o.rest)
  {
  }

  function Concat(fs: seq<string>): string {
    if fs == [] then [] else fs[0] + Concat(fs[1..])
  }

  /** Back-to-back valid frames are all delivered, in order, with nothing reported or kept. */
  lemma {:induction false} ValidFramesDelivered(fs: seq<string>)
    requires forall f :: f in fs ==> ValidFrame(f)
    ensures IsLowerHex(Concat(fs))
    ensures Scan(Concat(fs)) == Outcome(fs, [], [])
  {
    if fs == [] {
      NothingDelivered();
    } else {
      var tail := fs[1..];
      assert forall f :: f in tail ==> f in fs;
      ValidFramesDelivered(tail);
      ConcatCons(fs);
      ConsDelivered(fs[0], Concat(tail), tail);
    }
  }

  lemma NothingDelivered()
    ensures Concat([]) == [] && Scan([]) == Outcome([], [], [])
  {
    StepNoMarker([]);
  }

  lemma ConcatCons(fs: seq<string>)
    requires fs != []
    ensures Concat(fs) == fs[0] + Concat(fs[1..]) && fs == [fs[0]] + fs[1..]
  {
  }

  lemma ConsDelivered(f: string, rest: string, fs: seq<string>)
    requires ValidFrame(f) && IsLowerHex(rest) && Scan(rest) == Outcome(fs, [], [])
    ensures IsLowerHex(f + rest) && Scan(f + rest) == Outcome([f] + fs, [], [])
  {
    LowerHexConcat(f, rest);
    ValidHead(f, rest);
    ScanTakeOutcome(f + rest, f, rest);
  }

  /**
   * The first pass over a rejected candidate followed by more text: one
   * checksum report, and scanning resumes one character on.
   */
  lemma RejectedHead(f1: string, f2: string)
    requires FailsChecksum(f1) && IsLowerHex(f2)
    ensures IsLowerHex(f1 + f2)
    ensures ScanStep(f1 + f2) == Resync(f1[1..] + f2, Some(ChecksumMismatch(f1)))
  {
    LowerHexConcat(f1, f2);
    var data := f1 + f2;
    var n := FrameLen(f1);
    assert data[..4] == f1[..4];
    IndexOfFirst(data, MARKER, 0);
    assert data[0..] == data;
    ExamineAppend(f1, f2);
    assert f1[..2 * n] == f1 && f1[2 * n..] == [];
    ExamineBadChecksum(f1, n);
    StepCandidate(data, data);
    assert data[1..] == f1[1..] + f2;
  }

  /**
   * Resynchronisation after a corrupted frame: a candidate that fails only
   * its checksum, followed by a valid frame, is reported once, and the
   * valid frame is then delivered unaltered with nothing kept. This needs
   * no marker in the candidate after its first character; a false marker
   * there is examined first (FalseMarkerWaits).
   */
  lemma ResyncRecovers(f1: string, f2: string)
    requires FailsChecksum(f1) && ValidFrame(f2)
    requires !HasMarker(f1[1..])
    ensures IsLowerHex(f1 + f2)
    ensures Scan(f1 + f2) == Outcome([f2], [ChecksumMismatch(f1)], [])
  {
    RejectedHead(f1, f2);
    NextFrameStep(f1, f2);
    NothingDelivered();
    ScanTakeOutcome(f1[1..] + f2, f2, []);
  }

  /** The pass after the report finds no marker before the valid frame, and takes it. */
  lemma NextFrameStep(f1: string, f2: string)
    requires FailsChecksum(f1) && ValidFrame(f2)
    requires !HasMarker(f1[1..])
    ensures IsLowerHex(f1[1..] + f2)
    ensures ScanStep(f1[1..] + f2) == Take(f2, [])
  {
    var next := f1[1..] + f2;
    FrameAfterRejected(f1, f2);
    assert next[|f1| - 1..] == f2;
    var m := FrameLen(f2);
    assert f2[..2 * m] == f2 && f2[2 * m..] == [];
    ExamineAccepted(f2, m);
    StepCandidate(next, f2);
  }

  /**
   * After the rejected candidate's first character, the first marker is
   * the one of the valid frame: the candidate's own terminator ends in `b`,
   * so no marker straddles the two.
   */
  lemma FrameAfterRejected(f1: string, f2: string)
    requires FailsChecksum(f1) && ValidFrame(f2)
    requires !HasMarker(f1[1..])
    ensures IsLowerHex(f1[1..] + f2)
    ensures IndexOf(f1[1..] + f2, MARKER) == |f1| - 1
  {
    var next := f1[1..] + f2;
    LowerHexConcat(f1[1..], f2);
    var j := |f1| - 1;
    forall k: nat | k < j
      ensures !OccursAt(next, MARKER, k)
    {
      if k + 4 <= j {
        assert next[k..k + 4] == f1[1..][k..k + 4];
        assert !OccursAt(f1[1..], MARKER, k);
      } else {
        assert next[j - 1] == f1[|f1| - 1] == 'b';
        assert k <= j - 1 < k + 4;
        assert next[k..k + 4][j - 1 - k] == 'b';
      }
    }
    assert next[j..j + 4] == f2[..4];
    IndexOfFirst(next, MARKER, j);
  }

  /**
   * Where resynchronisation stalls: a false marker at character `i` of the
   * rejected candidate, whose declared length reaches past the buffer, is
   * waited on, so the valid frame behind it is kept in `lastData` and not
   * delivered by this call.
   */
  lemma FalseMarkerWaits(f1: string, f2: string, i: nat)
    requires FailsChecksum(f1) && ValidFrame(f2)
    requires 1 <= i && i + 10 <= |f1| && OccursAt(f1, MARKER, i)
    requires forall k :: 1 <= k < i ==> !OccursAt(f1, MARKER, k)
    requires |f1| - i + |f2| < 2 * FrameLen(f1[i..])
    ensures IsLowerHex(f1 + f2)
    ensures Scan(f1 + f2) == Outcome([], [ChecksumMismatch(f1)], f1[i..] + f2)
  {
    RejectedHead(f1, f2);
    var next := f1[1..] + f2;
    FalseMarkerStep(f1, f2, i);
    assert Scan(next) == Outcome([], [], f1[i..] + f2);
  }

  /** The pass after the report finds the false marker and waits for its frame. */
  lemma FalseMarkerStep(f1: string, f2: string, i: nat)
    requires IsLowerHex(f1) && IsLowerHex(f2)
    requires 1 <= i && i + 10 <= |f1| && OccursAt(f1, MARKER, i)
    requires forall k :: 1 <= k < i ==> !OccursAt(f1, MARKER, k)
    requires |f1| - i + |f2| < 2 * FrameLen(f1[i..])
    ensures IsLowerHex(f1[1..] + f2)
    ensures ScanStep(f1[1..] + f2) == Wait(f1[i..] + f2)
  {
    var next := f1[1..] + f2;
    LowerHexConcat(f1[1..], f2);
    forall k: nat | k < i - 1
      ensures !OccursAt(next, MARKER, k)
    {
      assert next[k..k + 4] == f1[k + 1..k + 5];
      assert !OccursAt(f1, MARKER, k + 1);
    }
    assert next[i - 1..i + 3] == f1[i..i + 4];
    IndexOfFirst(next, MARKER, i - 1);
    var d := next[i - 1..];
    assert d == f1[i..] + f2;
    assert d[6..10] == f1[i..][6..10];
    StepIncomplete(next, d);
  }

  // The frame layout as a sender builds it, TCPClient.js reads it back.

  const MARKER_BYTE: Byte := 0x26
  const TERMINATOR_BYTE: Byte := 0x0b

  /**
   * A frame as a device sends it: marker, command id, the declared length
   * L = |body| + 2 big-endian, the body, the XOR of everything before it,
   * and the terminator, L + 5 bytes in all.
   */
  function EncodeFrame(cmd: Byte, body: seq<Byte>): (bs: seq<Byte>)
    requires |body| + 2 < 65536
    ensures |bs| == |body| + 7
  {
    var len := |body| + 2;
    var head := [MARKER_BYTE, MARKER_BYTE, cmd, len / 256, len % 256] + body;
    head + [XorBytes(head), TERMINATOR_BYTE]
  }

  /** Bytes that start with two marker bytes read back as text that starts with the marker. */
  lemma MarkerOf(bs: seq<Byte>)
    requires |bs| >= 2 && bs[0] == MARKER_BYTE && bs[1] == MARKER_BYTE
    ensures OccursAt(ToHex(bs), MARKER, 0)
  {
    ToHexPairAt(bs, 0);
    MarkerDigits();
  }

  lemma MarkerDigits()
    ensures HexByte(MARKER_BYTE) + HexByte(MARKER_BYTE) == MARKER
  {
    assert MARKER_BYTE / 16 == 2 && MARKER_BYTE % 16 == 6;
    assert HEX_DIGITS[2] == '2' && HEX_DIGITS[6] == '6';
  }

  /** Bytes 3 and 4 holding a big-endian length `len` read back as a frame of `len + 5` bytes. */
  lemma LengthOf(bs: seq<Byte>, len: nat)
    requires |bs| >= 5 && len < 65536 && bs[3] == len / 256 && bs[4] == len % 256
    ensures IsLowerHex(ToHex(bs)) && |ToHex(bs)| >= 10 && FrameLen(ToHex(bs)) == len + 5
  {
    var f := ToHex(bs);
    LengthDigits(bs);
    HexNatPair(bs[3], bs[4]);
    assert HexNat(f[6..10]) == 256 * (bs[3] as int) + bs[4] as int;
  }

  lemma LengthDigits(bs: seq<Byte>)
    requires |bs| >= 5
    ensures ToHex(bs)[6..10] == HexByte(bs[3]) + HexByte(bs[4])
  {
    ToHexPairAt(bs, 3);
  }

  /** Bytes that end with the terminator read back as text that ends with it. */
  lemma TerminatorOf(bs: seq<Byte>)
    requires |bs| >= 2 && bs[|bs| - 1] == TERMINATOR_BYTE
    ensures EndsWithTerminator(ToHex(bs))
  {
    ToHexLast(bs);
    TerminatorDigits();
  }

  lemma {:induction false} ToHexLast(bs: seq<Byte>)
    requires |bs| > 0
    ensures ToHex(bs)[2 * |bs| - 2..] == HexByte(bs[|bs| - 1])
  {
    if |bs| > 1 {
      ToHexLast(bs[1..]);
      assert ToHex(bs)[2..] == ToHex(bs[1..]);
    }
  }

  lemma TerminatorDigits()
    ensures HexByte(TERMINATOR_BYTE) == TERMINATOR
  {
    assert TERMINATOR_BYTE / 16 == 0 && TERMINATOR_BYTE % 16 == 11;
    assert HEX_DIGITS[0] == '0' && HEX_DIGITS[11] == 'b';
  }

  /** Bytes whose next-to-last byte is the XOR of those before it read back with a matching checksum. */
  lemma ChecksumOf(bs: seq<Byte>)
    requires |bs| >= 2 && bs[|bs| - 2] == XorBytes(bs[..|bs| - 2])
    ensures ChecksumHolds(ToHex(bs), |bs|)
  {
    ByteAtToHex(bs, |bs| - 2);
    XorPrefixToHex(bs, |bs| - 2);
  }

  lemma EncodedHeader(cmd: Byte, body: seq<Byte>)
    requires |body| + 2 < 65536
    ensures OccursAt(ToHex(EncodeFrame(cmd, body)), MARKER, 0)
    ensures FrameLen(ToHex(EncodeFrame(cmd, body))) == |body| + 7
  {
    var bs := EncodeFrame(cmd, body);
    MarkerOf(bs);
    LengthOf(bs, |body| + 2);
  }

  lemma EncodedTrailer(cmd: Byte, body: seq<Byte>)
    requires |body| + 2 < 65536
    ensures EndsWithTerminator(ToHex(EncodeFrame(cmd, body)))
    ensures ChecksumHolds(ToHex(EncodeFrame(cmd, body)), |body| + 7)
  {
    var bs := EncodeFrame(cmd, body);
    var len := |body| + 2;
    assert bs[..|bs| - 2] == [MARKER_BYTE, MARKER_BYTE, cmd, len / 256, len % 256] + body;
    TerminatorOf(bs);
    ChecksumOf(bs);
  }

  lemma EncodedFrameValid(cmd: Byte, body: seq<Byte>)
    requires |body| + 2 < 65536
    ensures ValidFrame(ToHex(EncodeFrame(cmd, body)))
  {
    EncodedHeader(cmd, body);
    EncodedTrailer(cmd, body);
  }

  /** What the framer reads back from an encoded frame is that frame, and nothing else. */
  lemma EncodeRoundTrip(cmd: Byte, body: seq<Byte>)
    requires |body| + 2 < 65536
    ensures var f := ToHex(EncodeFrame(cmd, body)); Scan(f) == Outcome([f], [], [])
  {
    var f := ToHex(EncodeFrame(cmd, body));
    EncodedFrameValid(cmd, body);
    ValidFramesDelivered([f]);
    assert Concat([f]) == f;
  }
}
