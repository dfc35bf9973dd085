/**
 * The status display's own copy of the start-up animation
 * (main/status_display_startup_animation.cpp): the CALM timing written out
 * as constants, but with the bars of each pulse pass cleared right to left.
 */
module StatusDisplayAnimation {
  import opened Wrappers
  import opened StartupAnimation

  /** The constants of `status_display_play_startup_sequence`. */
  const StatusTiming: Timing := Timing(60, 45, 14, 70, 2, 110, 80)

  const StatusSequence: seq<Shown> := Sequence(StatusTiming, RightToLeft)

  /**
   * `status_display_play_startup_sequence`: no display is INVALID_ARG and
   * nothing is written; otherwise 33 frames, stopping at the first write
   * that fails.
   */
  method PlayStatus(displayPresent: bool, write: nat -> EspErr) returns (err: EspErr, writes: nat, shown: seq<Shown>)
    ensures !displayPresent ==> err == InvalidArg && writes == 0 && shown == []
    ensures displayPresent ==> writes <= 33 && shown == StatusSequence[..writes]
    ensures displayPresent ==> (err == Ok <==> forall i :: 0 <= i < 33 ==> write(i) == Ok)
    ensures displayPresent && err == Ok ==> writes == 33
    ensures displayPresent && err != Ok ==> 0 < writes && err == write(writes - 1)
  {
    if !displayPresent {
      return InvalidArg, 0, [];
    }
    err, writes, shown := Play(StatusSequence, write);
  }

  /**
   * The status display plays the CALM animation frame for frame except in
   * the clearing half of each pass: after the first bar goes off, the
   * status display still lights the three left digits where the component
   * lights the three right ones.
   */
  lemma StatusMirrorsCalm()
    ensures StatusTiming == GetTiming(Calm)
    ensures |StatusSequence| == |Sequence(GetTiming(Calm), LeftToRight)| == 33
    ensures forall i :: 0 <= i < 15 ==> StatusSequence[i] == Sequence(GetTiming(Calm), LeftToRight)[i]
    ensures StatusSequence[19].frame == [Bars, Bars, Bars, {}]
    ensures Sequence(GetTiming(Calm), LeftToRight)[19].frame == [{}, Bars, Bars, Bars]
  {
    SequenceShape(StatusTiming, RightToLeft);
    SequenceShape(StatusTiming, LeftToRight);
    PassShape(Dark, RightToLeft);
    PassShape(Dark, LeftToRight);
    assert StatusSequence[19] == Shown(Pass(Dark, RightToLeft)[4], 70);
    assert ClearFrame(RightToLeft, 0) == [Bars, Bars, Bars, {}];
    assert ClearFrame(LeftToRight, 0) == [{}, Bars, Bars, Bars];
  }
}
