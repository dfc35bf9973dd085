/**
 * Pulse accounting of the flow meter (main/prutokomer.cpp): the interrupt
 * counts pulses in a 32-bit counter; every sample adds the pulses since the
 * previous sample to a running total and advances a flash counter, one
 * litre (270 pulses) per step, towards the total. The flow-rate estimate,
 * which is floating point, is not part of this model.
 */
module Prutokomer {
  /** `FLOW_PULSES_PER_LITER` times `COUNTER_INCREMENT_LITERS`: pulses per flash step. */
  const PulsesPerStep: nat := 270
  const U32Limit: nat := 0x1_0000_0000

  type U32 = x: int | 0 <= x < U32Limit

  /**
   * `current_pulse_count - previous_pulse_count` in `uint32_t`: the pulses
   * since the previous sample, modulo 2^32.
   */
  function NewPulses(current: U32, previous: U32): (r: U32)
    ensures (previous + r) % U32Limit == current
  {
    (current - previous) % U32Limit
  }

  /**
   * The interrupt counter may wrap between samples: as long as fewer than
   * 2^32 pulses arrived, the difference is exactly how many did.
   */
  lemma NewPulsesAcrossWrap(previous: U32, arrived: nat)
    requires arrived < U32Limit
    ensures NewPulses((previous + arrived) % U32Limit, previous) == arrived
  {
    var current := (previous + arrived) % U32Limit;
    if previous + arrived >= U32Limit {
      assert current == previous + arrived - U32Limit;
    }
  }

  /** What the sampling task keeps between samples. */
  datatype Flow = Flow(previous: U32, totalPulses: nat, persistedSteps: nat)

  /** The flash counter never runs ahead of the pulses counted. */
  predicate Valid(f: Flow) {
    f.persistedSteps <= f.totalPulses / PulsesPerStep
  }

  /**
   * `prutokomer_init` and the start of `pocitani_pulsu`: the total restarts
   * at the stored step count times 270 pulses, and the interrupt counter's
   * current value is the first reference point.
   */
  function Init(storedSteps: nat, pulseCount: U32): (r: Flow)
    ensures Valid(r) && r.persistedSteps == r.totalPulses / PulsesPerStep
    ensures r.totalPulses % PulsesPerStep == 0 && r.persistedSteps == storedSteps
  {
    Flow(pulseCount, storedSteps * PulsesPerStep, storedSteps)
  }

  /**
   * One sample of `pocitani_pulsu`: adds the new pulses to the total, then
   * increments the flash counter one step at a time until it reaches
   * total / 270, stopping at the first increment that fails. The flash
   * accepts `accepted` increments before it fails. Gives the new state and
   * how many increments were written.
   */
  method Sample(f: Flow, current: U32, accepted: nat) returns (r: Flow, written: nat)
    requires Valid(f)
    ensures Valid(r)
    ensures r.previous == current
    ensures r.totalPulses == f.totalPulses + NewPulses(current, f.previous)
    ensures r.persistedSteps == f.persistedSteps + written
    ensures written <= accepted
    ensures r.persistedSteps == r.totalPulses / PulsesPerStep || written == accepted
  {
    var total := f.totalPulses + NewPulses(current, f.previous);
    var target := total / PulsesPerStep;
    var persisted := f.persistedSteps;
    written := 0;
    DivMonotone(f.totalPulses, total);
    while persisted < target
      invariant f.persistedSteps <= persisted <= target && written <= accepted
      invariant persisted == f.persistedSteps + written
      decreases target - persisted
    {
      if written == accepted {
        break;
      }
      persisted := persisted + 1;
      written := written + 1;
    }
    r := Flow(current, total, persisted);
  }

  lemma DivMonotone(a: nat, b: nat)
    requires a <= b
    ensures a / PulsesPerStep <= b / PulsesPerStep
  {
  }
}
