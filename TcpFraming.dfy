/**
 * The stream framer of TCPClient.js: the socket's `data` handler appends
 * each hex chunk to a carry-over buffer, cuts validated frames out of it
 * and keeps whatever cannot be decided yet for the next chunk.
 *
 * Wire layout, as the code reads it (one byte is two hex characters):
 *   bytes 0-1   marker 0x26 0x26
 *   byte  2     command id
 *   bytes 3-4   declared length L, big-endian; the frame has L + 5 bytes
 *   byte  L + 3 checksum, the XOR of bytes 0 .. L + 2
 *   byte  L + 4 terminator 0x0b
 */
module TcpFraming {
  import opened Wrappers
  import opened HexText

  const MARKER := "2626"
  const TERMINATOR := "0b"

  /** The error passed to the error handler when a candidate's checksum is wrong. */
  datatype FrameError = ChecksumMismatch(frame: string)

  predicate OccursAt(s: string, pat: string, k: nat) {
    k + |pat| <= |s| && s[k..k + |pat|] == pat
  }

  predicate HasMarker(s: string) {
    exists k: nat :: k < |s| && OccursAt(s, MARKER, k)
  }

  predicate IsSuffix(s: string, t: string) {
    |s| <= |t| && t[|t| - |s|..] == s
  }

  /** The first position at or after `from` where `pat` occurs, or -1. */
  function IndexFrom(s: string, pat: string, from: nat): (r: int)
    ensures r < 0 ==> r == -1 && forall k: nat :: from <= k ==> !OccursAt(s, pat, k)
    ensures r >= 0 ==> from <= r && OccursAt(s, pat, r)
    ensures r >= 0 ==> forall k: nat :: from <= k < r ==> !OccursAt(s, pat, k)
    decreases |s| - from
  {
    if from + |pat| > |s| then -1
    else if OccursAt(s, pat, from) then from
    else IndexFrom(s, pat, from + 1)
  }

  /** `s.indexOf(pat)`: the first position where `pat` occurs, or -1. */
  function IndexOf(s: string, pat: string): (r: int)
    ensures r < 0 ==> r == -1 && forall k: nat :: !OccursAt(s, pat, k)
    ensures r >= 0 ==> OccursAt(s, pat, r) && forall k: nat :: k < r ==> !OccursAt(s, pat, k)
  {
    IndexFrom(s, pat, 0)
  }

  /** The frame length in bytes: the big-endian length at hex chars 6..10, plus 5. */
  function FrameLen(d: string): (n: nat)
    requires IsLowerHex(d) && |d| >= 10
    ensures 5 <= n
  {
    HexNat(d[6..10]) + 5
  }

  /**
   * What the buffer may hold after a call: no marker at all, or a marker at
   * its start with the header or the declared frame still incomplete.
   */
  predicate Retained(s: string)
    requires IsLowerHex(s)
  {
    !HasMarker(s) || (OccursAt(s, MARKER, 0) && (|s| < 10 || |s| < 2 * FrameLen(s)))
  }

  predicate EndsWithTerminator(f: string) {
    |f| >= 2 && f[|f| - 2..] == TERMINATOR
  }

  /** The byte before the terminator equals the XOR of all bytes before it. */
  predicate ChecksumHolds(f: string, n: nat)
    requires IsLowerHex(f) && |f| == 2 * n && n >= 2
  {
    ByteAt(f, n - 2) == XorPrefix(f, n - 2)
  }

  /** A frame as the framer accepts it: marker, declared length, terminator and checksum agree. */
  predicate ValidFrame(f: string) {
    && IsLowerHex(f)
    && |f| >= 10
    && OccursAt(f, MARKER, 0)
    && |f| == 2 * FrameLen(f)
    && EndsWithTerminator(f)
    && ChecksumHolds(f, FrameLen(f))
  }

  /** The candidate cut from a buffer that starts with a marker repeats the buffer's header. */
  lemma CandidateHeader(d: string)
    requires IsLowerHex(d) && |d| >= 10 && OccursAt(d, MARKER, 0) && |d| >= 2 * FrameLen(d)
    ensures var f := d[..2 * FrameLen(d)];
      IsLowerHex(f) && |f| >= 10 && OccursAt(f, MARKER, 0) && FrameLen(f) == FrameLen(d)
  {
    var f := d[..2 * FrameLen(d)];
    assert f[6..10] == d[6..10];
    assert f[..4] == d[..4];
  }

  /** A candidate that passes the terminator and checksum tests is a valid frame. */
  lemma CandidateAccepted(f: string, n: nat)
    requires IsLowerHex(f) && |f| >= 10 && OccursAt(f, MARKER, 0) && FrameLen(f) == n && |f| == 2 * n
    requires EndsWithTerminator(f) && ChecksumHolds(f, n)
    ensures ValidFrame(f)
  {
  }

  /** One pass of the `while` loop of `distillFrames`. */
  datatype Step =
    | Wait(rest: string)                           // a `break`: keep `rest`
    | Resync(next: string, report: Option<FrameError>)  // `data.slice(1)`, possibly after reporting an error
    | Take(frame: string, next: string)            // `frames.push(frame)`

  /**
   * The tests made on a buffer that starts with a marker and holds the
   * whole declared frame: terminator first, then the running XOR.
   */
  function Examine(d: string): (st: Step)
    requires IsLowerHex(d) && |d| >= 10 && OccursAt(d, MARKER, 0) && |d| >= 2 * FrameLen(d)
    ensures !st.Wait?
    ensures st.Take? ==> ValidFrame(st.frame)
    ensures IsLowerHex(st.next) && IsSuffix(st.next, d) && |st.next| < |d|
  {
    var n := FrameLen(d);
    var frame := d[..2 * n];
    CandidateHeader(d);
    SuffixFrom(d, 1);
    SuffixFrom(d, 2 * n);
    if !EndsWithTerminator(frame) then Resync(d[1..], None)
    else if !ChecksumHolds(frame, n) then
      Resync(d[1..], Some(ChecksumMismatch(frame)))
    else
      CandidateAccepted(frame, n);
      Take(frame, d[2 * n..])
  }

  lemma SuffixFrom(s: string, k: nat)
    requires 0 < k <= |s|
    ensures IsSuffix(s[k..], s) && |s[k..]| < |s|
    ensures IsLowerHex(s) ==> IsLowerHex(s[k..])
  {
  }

  function ScanStep(data: string): (st: Step)
    requires IsLowerHex(data)
    ensures st.Wait? ==> IsLowerHex(st.rest) && Retained(st.rest) && IsSuffix(st.rest, data)
    ensures st.Take? ==> ValidFrame(st.frame)
    ensures st.Resync? || st.Take? ==> IsLowerHex(st.next) && IsSuffix(st.next, data) && |st.next| < |data|
  {
    var i := IndexOf(data, MARKER);
    if i < 0 then Wait(data)
    else
      var d := data[i..];
      assert OccursAt(d, MARKER, 0) by {
        assert d[..4] == data[i..i + 4];
      }
      if |d| < 10 || |d| < 2 * FrameLen(d) then Wait(d)
      else Examine(d)
  }

  /** Everything `distillFrames` produces from one buffer: frames, errors reported, and the new `lastData`. */
  datatype Outcome = Outcome(frames: seq<string>, errors: seq<FrameError>, rest: string)

  function Reports(r: Option<FrameError>): seq<FrameError> {
    if r.Some? then [r.value] else []
  }

  /** The whole loop of `distillFrames`, run on the concatenated buffer. */
  function Scan(data: string): (o: Outcome)
    requires IsLowerHex(data)
    ensures IsLowerHex(o.rest) && Retained(o.rest) && IsSuffix(o.rest, data)
    decreases |data|
  {
    match ScanStep(data)
    case Wait(rest) => Outcome([], [], rest)
    case Resync(next, report) =>
      var o := Scan(next);
      assert IsSuffix(next, data);
      Outcome(o.frames, Reports(report) + o.errors, o.rest)
    case Take(frame, next) =>
      var o := Scan(next);
      assert IsSuffix(next, data);
      Outcome([frame] + o.frames, o.errors, o.rest)
  }

  /**
   * The same loop with the frames and errors found so far carried along,
   * the way `distillFrames` keeps them in local state.
   */
  function ScanFrom(data: string, frames: seq<string>, errors: seq<FrameError>): Outcome
    requires IsLowerHex(data)
    decreases |data|
  {
    match ScanStep(data)
    case Wait(rest) => Outcome(frames, errors, rest)
    case Resync(next, report) => ScanFrom(next, frames, errors + Reports(report))
    case Take(frame, next) => ScanFrom(next, frames + [frame], errors)
  }

  lemma {:induction false} ScanFromScan(data: string, frames: seq<string>, errors: seq<FrameError>)
    requires IsLowerHex(data)
    ensures var o := Scan(data);
      ScanFrom(data, frames, errors) == Outcome(frames + o.frames, errors + o.errors, o.rest)
    decreases |data|
  {
    match ScanStep(data)
    case Wait(rest) =>
      assert frames + [] == frames && errors + [] == errors;
    case Resync(next, report) =>
      ScanFromScan(next, frames, errors + Reports(report));
      ConcatAssoc(errors, Reports(report), Scan(next).errors);
    case Take(frame, next) =>
      ScanFromScan(next, frames + [frame], errors);
      ConcatAssoc(frames, [frame], Scan(next).frames);
  }

  lemma ScanFromStart(data: string, errors: seq<FrameError>)
    requires IsLowerHex(data)
    ensures var o := Scan(data); ScanFrom(data, [], errors) == Outcome(o.frames, errors + o.errors, o.rest)
  {
    ScanFromScan(data, [], errors);
    assert [] + Scan(data).frames == Scan(data).frames;
  }

  /** A run of the loop from the start ends where `Scan` does. */
  lemma ScanFromFinish(data: string, errors0: seq<FrameError>, frames: seq<string>, errors: seq<FrameError>, rest: string)
    requires IsLowerHex(data) && ScanFrom(data, [], errors0) == Outcome(frames, errors, rest)
    ensures frames == Scan(data).frames && rest == Scan(data).rest && errors == errors0 + Scan(data).errors
  {
    ScanFromStart(data, errors0);
  }

  lemma ConcatAssoc<T>(a: seq<T>, b: seq<T>, c: seq<T>)
    ensures a + (b + c) == (a + b) + c
  {
  }

  // The ways one pass of the loop can end, as facts about ScanStep.

  lemma StepNoMarker(data: string)
    requires IsLowerHex(data) && IndexOf(data, MARKER) < 0
    ensures ScanStep(data) == Wait(data)
  {
  }

  lemma StepIncomplete(data: string, d: string)
    requires IsLowerHex(data) && IndexOf(data, MARKER) >= 0 && d == data[IndexOf(data, MARKER)..]
    requires |d| < 10 || |d| < 2 * FrameLen(d)
    ensures ScanStep(data) == Wait(d)
  {
  }

  lemma StepCandidate(data: string, d: string)
    requires IsLowerHex(data) && IndexOf(data, MARKER) >= 0 && d == data[IndexOf(data, MARKER)..]
    requires |d| >= 10 && |d| >= 2 * FrameLen(d)
    ensures IsLowerHex(d) && OccursAt(d, MARKER, 0) && ScanStep(data) == Examine(d)
  {
  }

  lemma ExamineBadTerminator(d: string, frameLen: nat)
    requires IsLowerHex(d) && |d| >= 10 && OccursAt(d, MARKER, 0)
    requires frameLen == FrameLen(d) && |d| >= 2 * frameLen
    requires !EndsWithTerminator(d[..2 * frameLen])
    ensures Examine(d) == Resync(d[1..], None)
  {
    CandidateHeader(d);
  }

  lemma ExamineBadChecksum(d: string, frameLen: nat)
    requires IsLowerHex(d) && |d| >= 10 && OccursAt(d, MARKER, 0)
    requires frameLen == FrameLen(d) && |d| >= 2 * frameLen
    requires EndsWithTerminator(d[..2 * frameLen]) && !ChecksumHolds(d[..2 * frameLen], frameLen)
    ensures Examine(d) == Resync(d[1..], Some(ChecksumMismatch(d[..2 * frameLen])))
  {
    CandidateHeader(d);
  }

  lemma ExamineAccepted(d: string, frameLen: nat)
    requires IsLowerHex(d) && |d| >= 10 && OccursAt(d, MARKER, 0)
    requires frameLen == FrameLen(d) && |d| >= 2 * frameLen
    requires EndsWithTerminator(d[..2 * frameLen]) && ChecksumHolds(d[..2 * frameLen], frameLen)
    ensures Examine(d) == Take(d[..2 * frameLen], d[2 * frameLen..])
  {
    CandidateHeader(d);
  }

  // The same passes as steps of `ScanFrom`, the form the loop of `distillFrames` uses.

  lemma PassNoMarker(data: string, frames: seq<string>, errors: seq<FrameError>)
    requires IsLowerHex(data) && IndexOf(data, MARKER) < 0
    ensures Retained(data)
    ensures ScanFrom(data, frames, errors) == Outcome(frames, errors, data)
  {
    StepNoMarker(data);
  }

  lemma PassIncomplete(data: string, d: string, frames: seq<string>, errors: seq<FrameError>)
    requires IsLowerHex(data) && IndexOf(data, MARKER) >= 0 && d == data[IndexOf(data, MARKER)..]
    requires |d| < 10 || |d| < 2 * FrameLen(d)
    ensures IsLowerHex(d) && Retained(d)
    ensures ScanFrom(data, frames, errors) == Outcome(frames, errors, d)
  {
    StepIncomplete(data, d);
  }

  lemma PassBadTerminator(data: string, d: string, frameLen: nat, frames: seq<string>, errors: seq<FrameError>)
    requires IsLowerHex(data) && IndexOf(data, MARKER) >= 0 && d == data[IndexOf(data, MARKER)..]
    requires |d| >= 10 && frameLen == FrameLen(d) && |d| >= 2 * frameLen
    requires !EndsWithTerminator(d[..2 * frameLen])
    ensures IsLowerHex(d[1..])
    ensures ScanFrom(data, frames, errors) == ScanFrom(d[1..], frames, errors)
  {
    StepCandidate(data, d);
    ExamineBadTerminator(d, frameLen);
    assert errors + Reports(None) == errors;
  }

  lemma PassBadChecksum(data: string, d: string, frameLen: nat, frames: seq<string>, errors: seq<FrameError>)
    requires IsLowerHex(data) && IndexOf(data, MARKER) >= 0 && d == data[IndexOf(data, MARKER)..]
    requires |d| >= 10 && frameLen == FrameLen(d) && |d| >= 2 * frameLen
    requires EndsWithTerminator(d[..2 * frameLen]) && !ChecksumHolds(d[..2 * frameLen], frameLen)
    ensures IsLowerHex(d[1..])
    ensures ScanFrom(data, frames, errors)
      == ScanFrom(d[1..], frames, errors + [ChecksumMismatch(d[..2 * frameLen])])
  {
    StepCandidate(data, d);
    ExamineBadChecksum(d, frameLen);
  }

  lemma PassAccepted(data: string, d: string, frameLen: nat, frames: seq<string>, errors: seq<FrameError>)
    requires IsLowerHex(data) && IndexOf(data, MARKER) >= 0 && d == data[IndexOf(data, MARKER)..]
    requires |d| >= 10 && frameLen == FrameLen(d) && |d| >= 2 * frameLen
    requires EndsWithTerminator(d[..2 * frameLen]) && ChecksumHolds(d[..2 * frameLen], frameLen)
    ensures IsLowerHex(d[2 * frameLen..]) && |d[2 * frameLen..]| < |data|
    ensures ScanFrom(data, frames, errors)
      == ScanFrom(d[2 * frameLen..], frames + [d[..2 * frameLen]], errors)
  {
    StepCandidate(data, d);
    ExamineAccepted(d, frameLen);
  }

  /** The comparison `checkDigit !== lastXor` made in the loop is the negation of `ChecksumHolds`. */
  lemma CheckDigitTest(f: string, n: nat, checkDigit: nat, lastXor: Byte)
    requires IsLowerHex(f) && |f| == 2 * n && n >= 5
    requires checkDigit == HexNat(f[|f| - 2 * 2..|f| - 1 * 2]) && lastXor == XorPrefix(f, n - 2)
    ensures checkDigit == lastXor <==> ChecksumHolds(f, n)
  {
    var k := n - 2;
    assert |f| - 2 * 2 == 2 * k && |f| - 1 * 2 == 2 * k + 2;
    assert f[|f| - 2 * 2..|f| - 1 * 2] == f[2 * k..2 * k + 2];
    assert ByteAt(f, k) == checkDigit;
  }

  /**
   * The checksum test of the loop body: the check byte is parsed from the
   * two digits before the terminator, and the inner `for` loop XORs every
   * byte before it.
   */
  method ChecksumMatches(frame: string, frameLen: nat) returns (ok: bool)
    requires IsLowerHex(frame) && |frame| == 2 * frameLen && frameLen >= 5
    ensures ok == ChecksumHolds(frame, frameLen)
  {
    LowerHexSlice(frame, |frame| - 2 * 2, |frame| - 1 * 2);
    var checkDigit := HexNat(frame[|frame| - 2 * 2..|frame| - 1 * 2]);
    var lastXor: Byte := 0;
    for i := 0 to frameLen - 2
      invariant lastXor == XorPrefix(frame, i)
    {
      lastXor := XorByte(lastXor, ByteAt(frame, i));
    }
    CheckDigitTest(frame, frameLen, checkDigit, lastXor);
    ok := checkDigit == lastXor;
  }

  /**
   * The client object. Only the part of it that `distillFrames` touches is
   * modelled: the carry-over buffer `lastData`, and the error handler as a
   * log of the errors handed to it.
   */
  class TcpClient {
    var lastData: string
    var errorLog: seq<FrameError>

    ghost predicate Valid()
      reads this
    {
      IsLowerHex(lastData) && Retained(lastData)
    }

    constructor ()
      ensures Valid() && lastData == [] && errorLog == []
    {
      lastData := [];
      errorLog := [];
    }

    /**
     * The socket's `data` handler: `distillFrames(chunk)`. The frames are
     * returned (the source hands them to `dataHandle`), checksum failures
     * are appended to `errorLog` as they are found.
     */
    method DistillFrames(chunk: string) returns (frames: seq<string>)
      requires Valid() && IsHex(chunk)
      modifies this
      ensures Valid()
      ensures var o := Scan(old(lastData) + Lower(chunk));
        && frames == o.frames
        && lastData == o.rest
        && errorLog == old(errorLog) + o.errors
    {
      var data := lastData + Lower(chunk);
      LowerHexConcat(lastData, Lower(chunk));
      ghost var total := data;
      frames := [];
      while true
        invariant IsLowerHex(data)
        invariant ScanFrom(data, frames, errorLog) == ScanFrom(total, [], old(errorLog))
        invariant lastData == old(lastData)
        decreases |data|
      {
        ghost var before := data;
        var startIndex := IndexOf(data, MARKER);
        if startIndex < 0 {
          PassNoMarker(before, frames, errorLog);
          break;
        }
        data := data[startIndex..];
        if |data| < 5 * 2 {
          PassIncomplete(before, data, frames, errorLog);
          break;
        }
        var frameLen := FrameLen(data);
        if |data| < frameLen * 2 {
          PassIncomplete(before, data, frames, errorLog);
          break;
        }
        var frame := data[..frameLen * 2];
        LowerHexSlice(data, 0, frameLen * 2);
        if !EndsWithTerminator(frame) {
          PassBadTerminator(before, data, frameLen, frames, errorLog);
          data := data[1..];
          continue;
        }
        var checksumOk := ChecksumMatches(frame, frameLen);
        if !checksumOk {
          PassBadChecksum(before, data, frameLen, frames, errorLog);
          data := data[1..];
          errorLog := errorLog + [ChecksumMismatch(frame)];
          continue;
        }
        PassAccepted(before, data, frameLen, frames, errorLog);
        frames := frames + [frame];
        data := data[frameLen * 2..];
      }
      ScanFromFinish(total, old(errorLog), frames, errorLog, data);
      lastData := data;
    }
  }
}
