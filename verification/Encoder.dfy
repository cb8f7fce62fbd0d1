/** encoder_module.c: a 16-bit hardware counter and timestamp unwrapped into a running count. */
module Encoder {
  import opened Bytes

  const WORD := 0x1_0000
  const HALF := 0x8000

  /** What encoder_read adds to raw_counts between two readings of the counter. */
  function CountStep(prev: nat, now: nat): int
    requires prev < WORD && now < WORD
  {
    var d := now - prev;
    if d > HALF then d - WORD else if d < -HALF then d + WORD else d
  }

  /** Timestamp clocks between two readings, allowing for one rollover. */
  function ElapsedClocks(prev: nat, now: nat): int
    requires prev < WORD && now < WORD
  {
    now - prev + (if now < prev then WORD else 0)
  }

  /** The integer part of an encoder; a register word holds the count below the timestamp. */
  datatype Reading = Reading(raw: int, count: nat, stamp: nat)

  predicate InRange(s: Reading) { s.count < WORD && s.stamp < WORD }

  const INITIAL := Reading(0, 0, 0)

  function Step(s: Reading, word: nat): (s': Reading)
    requires InRange(s) && word < U32_LIMIT
    ensures InRange(s')
  {
    Reading(s.raw + CountStep(s.count, word % WORD), word % WORD, word / WORD)
  }

  /** The readings of a whole run. */
  function Run(words: seq<nat>): (s: Reading)
    requires forall i | 0 <= i < |words| :: words[i] < U32_LIMIT
    ensures InRange(s)
  {
    if words == [] then INITIAL else Step(Run(words[..|words| - 1]), words[|words| - 1])
  }

  class Encoder {
    var count: nat
    var timeStamp: nat
    var globalTimeStamp: nat
    var rawCounts: int
    var position: real
    var velocity: real
    var scale: real
    const secondsPerTsdivClock: real

    ghost predicate Valid()
      reads this
    {
      count < WORD && timeStamp < WORD && globalTimeStamp < WORD && secondsPerTsdivClock > 0.0
    }

    ghost function State(): Reading
      reads this
    {
      Reading(rawCounts, count, timeStamp)
    }

    /** encoder_init */
    constructor (secondsPerTsdivClock: real)
      requires secondsPerTsdivClock > 0.0
      ensures Valid() && State() == INITIAL && scale == 1.0 && position == 0.0 && velocity == 0.0
      ensures rawCounts == 0 && count == 0 && timeStamp == 0 && globalTimeStamp == 0
    {
      this.secondsPerTsdivClock := secondsPerTsdivClock;
      count, timeStamp, globalTimeStamp, rawCounts := 0, 0, 0, 0;
      position, velocity, scale := 0.0, 0.0, 1.0;
    }

    /** encoder_read, given what the registers read as. */
    method Read(tsc: nat, reg: nat)
      requires Valid() && tsc < U32_LIMIT && reg < U32_LIMIT
      modifies this
      ensures Valid() && State() == Step(old(State()), reg) && globalTimeStamp == tsc % 0x1_0000
      ensures count == reg % 0x1_0000 && timeStamp == reg / 0x1_0000
      ensures scale == (if old(scale) == 0.0 then 1.0 else old(scale)) && position == rawCounts as real / scale
      ensures var moved, clocks := rawCounts - old(rawCounts), ElapsedClocks(old(timeStamp), timeStamp);
        velocity == if count == old(count) then 0.0
                    else if clocks > 0 then moved as real / scale / (clocks as real * secondsPerTsdivClock)
                    else old(velocity)
    {
      var prevRawCounts := rawCounts;
      if scale == 0.0 {
        scale := 1.0;
      }
      var regCount := reg % WORD;
      var regCountDiff := regCount - count;
      var regTimeStamp := reg / WORD;
      if regCountDiff == 0 {
        velocity := 0.0;
      } else {
        if regCountDiff > 32768 {
          regCountDiff := regCountDiff - 65536;
        }
        if regCountDiff < -32768 {
          regCountDiff := regCountDiff + 65536;
        }
        assert regCountDiff == CountStep(count, regCount);
        rawCounts := rawCounts + regCountDiff;
        var tscRollover := 0;
        if regTimeStamp < timeStamp {
          tscRollover := tscRollover + 1;
        }
        var dTClocks := regTimeStamp - timeStamp + tscRollover * WORD;
        assert dTClocks == ElapsedClocks(timeStamp, regTimeStamp);
        var dTSeconds := dTClocks as real * secondsPerTsdivClock;
        var dSCounts := rawCounts - prevRawCounts;
        var dSMeters := dSCounts as real / scale;
        if dTClocks > 0 {
          velocity := dSMeters / dTSeconds;
        }
      }
      position := rawCounts as real / scale;
      count := regCount;
      timeStamp := regTimeStamp;
      globalTimeStamp := tsc % WORD;
    }
  }

  /** Over any run the running count agrees with the last counter value modulo 65536. */
  lemma {:induction false} RunCongruent(words: seq<nat>)
    requires forall i | 0 <= i < |words| :: words[i] < U32_LIMIT
    ensures Run(words).raw % WORD == Run(words).count
    ensures words != [] ==> Run(words).count == words[|words| - 1] % WORD
  {
    if words != [] {
      var s := Run(words[..|words| - 1]);
      RunCongruent(words[..|words| - 1]);
      StepCongruent(s.raw, words[|words| - 1] % WORD);
    }
  }

  /** Over any run count and timestamp are the two halves of the last word, or 0 at first. */
  lemma RunHalves(words: seq<nat>)
    requires forall i | 0 <= i < |words| :: words[i] < U32_LIMIT
    ensures var last := if words == [] then 0 else words[|words| - 1];
      Run(words).count == last % 0x1_0000 && Run(words).stamp == last / 0x1_0000
  {
  }

  lemma StepCongruent(raw: int, now: nat)
    requires now < WORD
    ensures (raw + CountStep(raw % WORD, now)) % WORD == now
  {
    var step, prev := CountStep(raw % WORD, now), raw % WORD;
    var q := raw / WORD;
    assert raw == q * WORD + prev;
    var carry := if now - prev > HALF then -1 else if now - prev < -HALF then 1 else 0;
    ModUnique(raw + step, q + carry, now, WORD);
  }

  /** One step recovers a movement exactly when it is less than half the counter's range, or just
      half of it and the counter did not wrap on the way. */
  lemma StepTracks(p: int, d: int)
    ensures CountStep(p % WORD, (p + d) % WORD) == d <==>
            -HALF < d < HALF || ((d == HALF || d == -HALF) && 0 <= p % WORD + d < WORD)
  {
    if -HALF <= d <= HALF {
      var q, r := p / WORD, p % WORD;
      assert p == q * WORD + r;
      var carry := if r + d >= WORD then 1 else if r + d < 0 then -1 else 0;
      ModUnique(p + d, q + carry, r + d - carry * WORD, WORD);
    }
  }

  /** How far the true position moved before reading i; it starts at 0. */
  function Moved(positions: seq<int>, i: nat): int
    requires i < |positions|
  {
    positions[i] - (if i == 0 then 0 else positions[i - 1])
  }

  /** Tracking: when the true position starts at 0 and moves by less than half the counter's range
      between readings, the running count is the position, however far it goes. */
  lemma {:induction false} RunTracks(words: seq<nat>, positions: seq<int>)
    requires |positions| == |words| && forall i | 0 <= i < |words| :: words[i] < U32_LIMIT
    requires forall i | 0 <= i < |words| :: words[i] % WORD == positions[i] % WORD
    requires forall i | 0 <= i < |words| :: -HALF < Moved(positions, i) < HALF
    ensures Run(words).raw == if words == [] then 0 else positions[|words| - 1]
  {
    if words != [] {
      var n := |words| - 1;
      forall i | 0 <= i < n
        ensures -HALF < Moved(positions[..n], i) < HALF
      {
        assert Moved(positions[..n], i) == Moved(positions, i);
      }
      RunTracks(words[..n], positions[..n]);
      RunCongruent(words[..n]);
      var before := if n == 0 then 0 else positions[n - 1];
      assert Moved(positions, n) == positions[n] - before;
      StepTracks(before, positions[n] - before);
    }
  }

  /** The elapsed clocks are the timestamp difference modulo 65536, and never negative. */
  lemma ElapsedCongruent(prev: nat, now: nat)
    requires prev < WORD && now < WORD
    ensures 0 <= ElapsedClocks(prev, now) < 0x1_0000
    ensures (prev + ElapsedClocks(prev, now)) % 0x1_0000 == now
  {
    ModUnique(prev + ElapsedClocks(prev, now), if now < prev then 1 else 0, now, WORD);
  }
}
