/**
 * The TM1637 start-up animation
 * (components/tm1637_startup_animation/tm1637_startup_animation.cpp): a
 * dark frame, a single segment running across the four digits, passes of
 * horizontal bars filling and clearing, a full flash, and a dark frame.
 *
 * A frame is the set of lit segments of each of the four digits; the
 * segment bit values of the driver (tm1637.h is not part of this model) do
 * not matter. Delays are kept as numbers; the display write is a parameter
 * giving the result of the n-th write.
 */
module StartupAnimation {
  import opened Wrappers

  datatype Segment = SegA | SegB | SegC | SegD | SegE | SegF | SegG

  type Digit = set<Segment>

  /** Four digits, left to right. */
  type Frame = f: seq<Digit> | |f| == 4 witness [{}, {}, {}, {}]

  /** `segment_order`: A to G. */
  const SegmentOrder: seq<Segment> := [SegA, SegB, SegC, SegD, SegE, SegF, SegG]

  const Dark: Frame := [{}, {}, {}, {}]

  /** A|D|G, the horizontal bars. */
  const Bars: Digit := {SegA, SegD, SegG}

  const AllSegments: Digit := {SegA, SegB, SegC, SegD, SegE, SegF, SegG}

  /** `kDigitFill`. */
  const Flash: Frame := [AllSegments, AllSegments, AllSegments, AllSegments]

  /** `tm1637_startup_animation_preset_t`; `OtherPreset` is any other value. */
  datatype Preset = Fast | Calm | OtherPreset(code: int)

  /** `animation_timing_t`. */
  datatype Timing = Timing(
    initialMs: nat, ringStepMs: nat, ringSteps: nat, pulseStepMs: nat,
    pulsePasses: nat, flashMs: nat, finalMs: nat)

  const FastTiming: Timing := Timing(35, 28, 10, 45, 1, 75, 50)
  const CalmTiming: Timing := Timing(60, 45, 14, 70, 2, 110, 80)

  /** `get_timing`: FAST has its own timing; CALM and any unknown preset get the calm one. */
  function GetTiming(p: Preset): (r: Timing)
    ensures p == Fast <==> r == FastTiming
    ensures p != Fast <==> r == CalmTiming
  {
    if p == Fast then FastTiming else CalmTiming
  }

  /** Which way a pulse pass switches the bars off again. */
  datatype ClearOrder = LeftToRight | RightToLeft

  function ClearDigits(o: ClearOrder): seq<nat> {
    if o == LeftToRight then [0, 1, 2, 3] else [3, 2, 1, 0]
  }

  /** One frame shown, and how long it stays. */
  datatype Shown = Shown(frame: Frame, delayMs: nat)

  /** Ring step `k`: all digits cleared, then digit `k % 4` set to segment `k % 7`. */
  function RingFrame(k: nat): (r: Frame)
    ensures r[k % 4] == {SegmentOrder[k % 7]}
    ensures forall j :: 0 <= j < 4 && j != k % 4 ==> r[j] == {}
  {
    Dark[k % 4 := {SegmentOrder[k % 7]}]
  }

  /** The frames written when digits are set to `v` one at a time, in the given order. */
  function Steps(buf: Frame, digits: seq<nat>, v: Digit): (r: seq<Frame>)
    requires forall i :: 0 <= i < |digits| ==> digits[i] < 4
    ensures |r| == |digits|
    decreases |digits|
  {
    if digits == [] then []
    else
      var b: Frame := buf[digits[0] := v];
      [b] + Steps(b, digits[1..], v)
  }

  /**
   * One pulse pass on the shared `pulse_frame` buffer: bars set on digits
   * 0..3, then cleared in the given order, each change shown.
   */
  function Pass(buf: Frame, o: ClearOrder): (r: seq<Frame>)
    ensures |r| == 8
  {
    var fill := Steps(buf, [0, 1, 2, 3], Bars);
    fill + Steps(fill[3], ClearDigits(o), {})
  }

  /** `n` passes; each starts from the buffer the previous one left. */
  function Passes(n: nat, buf: Frame, o: ClearOrder): (r: seq<Frame>)
    ensures |r| == 8 * n
  {
    if n == 0 then []
    else
      var p := Pass(buf, o);
      p + Passes(n - 1, p[7], o)
  }

  function WithDelay(frames: seq<Frame>, ms: nat): (r: seq<Shown>)
    ensures |r| == |frames|
    ensures forall i :: 0 <= i < |r| ==> r[i] == Shown(frames[i], ms)
  {
    seq(|frames|, i requires 0 <= i < |frames| => Shown(frames[i], ms))
  }

  /** The frames of ring steps `0..n-1`. */
  function RingFrames(n: nat): (r: seq<Frame>)
    ensures |r| == n && forall k :: 0 <= k < n ==> r[k] == RingFrame(k)
  {
    seq(n, k requires 0 <= k < n => RingFrame(k))
  }

  /** Everything `show_frame` is called with, in order, when no write fails. */
  function Sequence(t: Timing, o: ClearOrder): (r: seq<Shown>)
    ensures |r| == 3 + t.ringSteps + 8 * t.pulsePasses
  {
    [Shown(Dark, t.initialMs)]
      + WithDelay(RingFrames(t.ringSteps), t.ringStepMs)
      + WithDelay(Passes(t.pulsePasses, Dark, o), t.pulseStepMs)
      + [Shown(Flash, t.flashMs), Shown(Dark, t.finalMs)]
  }

  /** Reference frame: bars on digits `0..i`, the rest as in `buf`. */
  function FillFrame(buf: Frame, i: nat): Frame {
    seq(4, j requires 0 <= j < 4 => if j <= i then Bars else buf[j])
  }

  /** Reference frame: bars everywhere except the first `i + 1` digits in clearing order. */
  function ClearFrame(o: ClearOrder, i: nat): Frame {
    seq(4, j requires 0 <= j < 4 => if (o == LeftToRight && j <= i) || (o == RightToLeft && 3 - i <= j) then {} else Bars)
  }

  /** Four single-digit changes, frame by frame. */
  lemma FourSteps(buf: Frame, d: seq<nat>, v: Digit)
    requires |d| == 4 && forall i :: 0 <= i < 4 ==> d[i] < 4
    ensures var b0: Frame := buf[d[0] := v];
      var b1: Frame := b0[d[1] := v];
      var b2: Frame := b1[d[2] := v];
      Steps(buf, d, v) == [b0, b1, b2, b2[d[3] := v]]
  {
    var b0: Frame := buf[d[0] := v];
    var b1: Frame := b0[d[1] := v];
    var b2: Frame := b1[d[2] := v];
    var b3: Frame := b2[d[3] := v];
    assert d[3..][1..] == [];
    assert Steps(b2, d[3..], v) == [b3];
    assert d[2..][1..] == d[3..];
    assert Steps(b1, d[2..], v) == [b2, b3];
    assert d[1..][1..] == d[2..];
    assert Steps(b0, d[1..], v) == [b1, b2, b3];
  }

  /** The fill half of a pass. */
  lemma FillSteps(buf: Frame)
    ensures Steps(buf, [0, 1, 2, 3], Bars) == [FillFrame(buf, 0), FillFrame(buf, 1), FillFrame(buf, 2), FillFrame(buf, 3)]
  {
    FourSteps(buf, [0, 1, 2, 3], Bars);
    var b0: Frame := buf[0 := Bars];
    var b1: Frame := b0[1 := Bars];
    var b2: Frame := b1[2 := Bars];
    assert b0 == FillFrame(buf, 0);
    assert b1 == FillFrame(buf, 1);
    assert b2 == FillFrame(buf, 2);
    assert b2[3 := Bars] == FillFrame(buf, 3);
  }

  /** The clearing half of a pass, from all bars. */
  lemma ClearSteps(o: ClearOrder)
    ensures Steps([Bars, Bars, Bars, Bars], ClearDigits(o), {})
      == [ClearFrame(o, 0), ClearFrame(o, 1), ClearFrame(o, 2), ClearFrame(o, 3)]
  {
    var d := ClearDigits(o);
    FourSteps([Bars, Bars, Bars, Bars], d, {});
    var b0: Frame := [Bars, Bars, Bars, Bars][d[0] := {}];
    var b1: Frame := b0[d[1] := {}];
    var b2: Frame := b1[d[2] := {}];
    assert b0 == ClearFrame(o, 0);
    assert b1 == ClearFrame(o, 1);
    assert b2 == ClearFrame(o, 2);
    assert b2[d[3] := {}] == ClearFrame(o, 3);
  }

  /**
   * A pass fills digits left to right with the bars, whatever the buffer
   * held, and then clears them in its order, leaving the display dark.
   */
  lemma PassShape(buf: Frame, o: ClearOrder)
    ensures Pass(buf, o) == [FillFrame(buf, 0), FillFrame(buf, 1), FillFrame(buf, 2), FillFrame(buf, 3),
      ClearFrame(o, 0), ClearFrame(o, 1), ClearFrame(o, 2), ClearFrame(o, 3)]
    ensures ClearFrame(o, 3) == Dark
  {
    var fill := Steps(buf, [0, 1, 2, 3], Bars);
    assert fill == [FillFrame(buf, 0), FillFrame(buf, 1), FillFrame(buf, 2), FillFrame(buf, 3)] by {
      FillSteps(buf);
    }
    assert fill[3] == [Bars, Bars, Bars, Bars];
    assert Steps(fill[3], ClearDigits(o), {}) == [ClearFrame(o, 0), ClearFrame(o, 1), ClearFrame(o, 2), ClearFrame(o, 3)] by {
      ClearSteps(o);
    }
    assert ClearFrame(o, 3) == Dark;
  }

  /** A pass from the dark display ends dark. */
  lemma PassEndsDark(o: ClearOrder)
    ensures Pass(Dark, o)[7] == Dark
  {
    PassShape(Dark, o);
  }

  /**
   * Every pass of a run starts and ends dark, so all passes show the same
   * eight frames.
   */
  lemma PassesRepeat(n: nat, o: ClearOrder)
    ensures forall i :: 0 <= i < 8 * n ==> Passes(n, Dark, o)[i] == Pass(Dark, o)[i % 8]
  {
    forall i | 0 <= i < 8 * n
      ensures Passes(n, Dark, o)[i] == Pass(Dark, o)[i % 8]
    {
      PassesAtIndex(n, o, i);
    }
  }

  /** `s` written `n` times. */
  function Repeat<T>(s: seq<T>, n: nat): seq<T>
    decreases n
  {
    if n == 0 then [] else s + Repeat(s, n - 1)
  }

  lemma {:induction false} RepeatAt<T>(s: seq<T>, n: nat, p: nat, k: nat)
    requires |s| == 8 && p < n && k < 8
    ensures |Repeat(s, n)| == 8 * n && Repeat(s, n)[8 * p + k] == s[k]
    decreases n
  {
    var rest := Repeat(s, n - 1);
    if n > 1 {
      RepeatAt(s, n - 1, 0, 0);
    }
    if p > 0 {
      RepeatAt(s, n - 1, p - 1, k);
      assert (s + rest)[8 * p + k] == rest[8 * (p - 1) + k];
    }
  }

  /** Every pass of a run from the dark display starts dark. */
  lemma {:induction false} PassesFromDark(n: nat, o: ClearOrder)
    ensures Passes(n, Dark, o) == Repeat(Pass(Dark, o), n)
    decreases n
  {
    if n > 0 {
      PassEndsDark(o);
      PassesFromDark(n - 1, o);
    }
  }

  /** The same, for a position counted from the start of the run. */
  lemma PassesAtIndex(n: nat, o: ClearOrder, i: nat)
    requires i < 8 * n
    ensures Passes(n, Dark, o)[i] == Pass(Dark, o)[i % 8]
  {
    var p, k := i / 8, i % 8;
    assert i == 8 * p + k && p < n;
    PassesFromDark(n, o);
    RepeatAt(Pass(Dark, o), n, p, k);
  }

  lemma InSecond<T>(a: seq<T>, b: seq<T>, c: seq<T>, d: seq<T>, i: nat)
    requires |a| <= i < |a| + |b|
    ensures (a + b + c + d)[i] == b[i - |a|]
  {
  }

  lemma InThird<T>(a: seq<T>, b: seq<T>, c: seq<T>, d: seq<T>, i: nat)
    requires |a| + |b| <= i < |a| + |b| + |c|
    ensures (a + b + c + d)[i] == c[i - |a| - |b|]
  {
  }

  /** Position `i` of a run, within the ring. */
  lemma SequenceRingAt(t: Timing, o: ClearOrder, i: nat)
    requires 1 <= i <= t.ringSteps
    ensures Sequence(t, o)[i] == Shown(RingFrame(i - 1), t.ringStepMs)
  {
    var ring := WithDelay(RingFrames(t.ringSteps), t.ringStepMs);
    var passes := WithDelay(Passes(t.pulsePasses, Dark, o), t.pulseStepMs);
    InSecond([Shown(Dark, t.initialMs)], ring, passes, [Shown(Flash, t.flashMs), Shown(Dark, t.finalMs)], i);
  }

  /** Ring step `k` is shown at position `1 + k`. */
  lemma SequenceRing(t: Timing, o: ClearOrder)
    ensures forall i :: 1 <= i <= t.ringSteps ==> Sequence(t, o)[i] == Shown(RingFrame(i - 1), t.ringStepMs)
  {
    forall i | 1 <= i <= t.ringSteps
      ensures Sequence(t, o)[i] == Shown(RingFrame(i - 1), t.ringStepMs)
    {
      SequenceRingAt(t, o, i);
    }
  }

  /** Frame `j` of the passes, with its delay. */
  lemma PulseShownAt(n: nat, o: ClearOrder, ms: nat, j: nat)
    requires j < 8 * n
    ensures WithDelay(Passes(n, Dark, o), ms)[j] == Shown(Pass(Dark, o)[j % 8], ms)
  {
    PassesAtIndex(n, o, j);
  }

  /** Position `i` of a run, within the passes. */
  lemma SequencePassAt(t: Timing, o: ClearOrder, i: nat)
    requires 1 + t.ringSteps <= i < 1 + t.ringSteps + 8 * t.pulsePasses
    ensures Sequence(t, o)[i] == Shown(Pass(Dark, o)[(i - 1 - t.ringSteps) % 8], t.pulseStepMs)
  {
    var ring := WithDelay(RingFrames(t.ringSteps), t.ringStepMs);
    var passes := WithDelay(Passes(t.pulsePasses, Dark, o), t.pulseStepMs);
    InThird([Shown(Dark, t.initialMs)], ring, passes, [Shown(Flash, t.flashMs), Shown(Dark, t.finalMs)], i);
    PulseShownAt(t.pulsePasses, o, t.pulseStepMs, i - 1 - t.ringSteps);
  }

  /** The pass frames follow the ring, eight to a pass. */
  lemma SequencePasses(t: Timing, o: ClearOrder)
    ensures forall i :: 1 + t.ringSteps <= i < 1 + t.ringSteps + 8 * t.pulsePasses ==>
      Sequence(t, o)[i] == Shown(Pass(Dark, o)[(i - 1 - t.ringSteps) % 8], t.pulseStepMs)
  {
    forall i | 1 + t.ringSteps <= i < 1 + t.ringSteps + 8 * t.pulsePasses
      ensures Sequence(t, o)[i] == Shown(Pass(Dark, o)[(i - 1 - t.ringSteps) % 8], t.pulseStepMs)
    {
      SequencePassAt(t, o, i);
    }
  }

  /**
   * The shape of a whole run: dark first and last, the flash before the
   * last frame, ring step `k` at position `1 + k`, then the pass frames,
   * the last of each pass dark.
   */
  lemma SequenceShape(t: Timing, o: ClearOrder)
    ensures Sequence(t, o)[0] == Shown(Dark, t.initialMs)
    ensures Sequence(t, o)[|Sequence(t, o)| - 1] == Shown(Dark, t.finalMs)
    ensures Sequence(t, o)[|Sequence(t, o)| - 2] == Shown(Flash, t.flashMs)
    ensures forall i :: 1 <= i <= t.ringSteps ==> Sequence(t, o)[i] == Shown(RingFrame(i - 1), t.ringStepMs)
    ensures forall i :: 1 + t.ringSteps <= i < 1 + t.ringSteps + 8 * t.pulsePasses ==>
      Sequence(t, o)[i] == Shown(Pass(Dark, o)[(i - 1 - t.ringSteps) % 8], t.pulseStepMs)
    ensures forall i :: 1 + t.ringSteps <= i < 1 + t.ringSteps + 8 * t.pulsePasses && (i - 1 - t.ringSteps) % 8 == 7 ==>
      Sequence(t, o)[i].frame == Dark
  {
    SequenceRing(t, o);
    SequencePasses(t, o);
    PassEndsDark(o);
  }

  /**
   * `show_frame` for each frame in turn, stopping at the first write that
   * fails and returning its error. `write(i)` is the result of the i-th
   * write. Gives the error, how many writes were made and the frames sent,
   * in order.
   */
  method Play(frames: seq<Shown>, write: nat -> EspErr) returns (err: EspErr, writes: nat, shown: seq<Shown>)
    ensures writes <= |frames| && shown == frames[..writes]
    ensures err == Ok <==> forall i :: 0 <= i < |frames| ==> write(i) == Ok
    ensures err == Ok ==> writes == |frames|
    ensures err != Ok ==> 0 < writes && err == write(writes - 1)
    ensures forall i :: 0 <= i < writes - 1 ==> write(i) == Ok
  {
    writes := 0;
    shown := [];
    while writes < |frames|
      invariant writes <= |frames| && shown == frames[..writes]
      invariant forall i :: 0 <= i < writes ==> write(i) == Ok
    {
      var result := write(writes);
      shown := shown + [frames[writes]];
      writes := writes + 1;
      if result != Ok {
        return result, writes, shown;
      }
    }
    err := Ok;
  }

  /**
   * `tm1637_startup_animation_play_preset`: no display is INVALID_ARG and
   * nothing is written; otherwise the preset's sequence with bars cleared
   * left to right.
   */
  method PlayPreset(displayPresent: bool, p: Preset, write: nat -> EspErr) returns (err: EspErr, writes: nat, shown: seq<Shown>)
    ensures !displayPresent ==> err == InvalidArg && writes == 0 && shown == []
    ensures displayPresent ==> writes <= |Sequence(GetTiming(p), LeftToRight)|
    ensures displayPresent ==> shown == Sequence(GetTiming(p), LeftToRight)[..writes]
    ensures displayPresent && err == Ok ==> writes == 3 + GetTiming(p).ringSteps + 8 * GetTiming(p).pulsePasses
    ensures displayPresent ==>
      (err == Ok <==> forall i :: 0 <= i < |Sequence(GetTiming(p), LeftToRight)| ==> write(i) == Ok)
    ensures displayPresent && err != Ok ==> 0 < writes && err == write(writes - 1)
  {
    if !displayPresent {
      return InvalidArg, 0, [];
    }
    err, writes, shown := Play(Sequence(GetTiming(p), LeftToRight), write);
  }

  /** A successful FAST run writes 21 frames, a CALM (or unknown preset) run 33. */
  lemma PresetFrameCounts(p: Preset)
    ensures |Sequence(GetTiming(p), LeftToRight)| == if p == Fast then 21 else 33
  {
  }
}
