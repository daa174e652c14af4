/** The overload sentinel: three samples in a row above the threshold, and a sample that
    is recent and still above it, before a request is refused. */
module Overload {
  import opened Options
  import opened Rounding

  const CONSECUTIVE := 3
  const MAX_AGE := 30_000_000_000

  datatype Resource = Cpu | Memory | Disk

  datatype Config = Config(enabled: bool, cpu: int, memory: int, disk: int) {
    function Threshold(r: Resource): int {
      match r case Cpu => cpu case Memory => memory case Disk => disk
    }
  }

  datatype Usage = Usage(cpu: real, memory: real, disk: real) {
    function Of(r: Resource): real {
      match r case Cpu => cpu case Memory => memory case Disk => disk
    }
  }

  datatype Status = Status(usage: Usage, sampledAt: Option<int>, cpuOver: bool, memoryOver: bool, diskOver: bool) {
    predicate Over(r: Resource) {
      match r case Cpu => cpuOver case Memory => memoryOver case Disk => diskOver
    }
  }

  predicate Exceeds(usage: real, threshold: int) {
    threshold > 0 && Truncated(usage) > threshold
  }

  /** The fraction is cut off first, so a usage counts only from one full percent above
      the threshold: at 90, a usage of 90.9 does not. */
  lemma ExceedsIff(usage: real, threshold: int)
    ensures Exceeds(usage, threshold) <==> threshold > 0 && usage >= (threshold + 1) as real
    ensures !Exceeds(90.9, 90) && 90.9 > 90 as real
  {
  }

  // ---------------------------------------------------------------------------
  // The monitor
  // ---------------------------------------------------------------------------

  /** One round of the monitor. */
  datatype Round = Round(config: Config, usage: Usage, now: int)

  const NO_USAGE := Usage(0.0, 0.0, 0.0)

  class Monitor {
    var cpuSamples: int
    var memorySamples: int
    var diskSamples: int
    var latest: Status
    /** Every round so far. */
    ghost var rounds: seq<Round>

    ghost predicate Valid()
      reads this
    {
      && cpuSamples == Capped(rounds, Cpu) && memorySamples == Capped(rounds, Memory)
      && diskSamples == Capped(rounds, Disk) && latest == Latest(rounds)
    }

    constructor ()
      ensures Valid() && rounds == []
    {
      cpuSamples, memorySamples, diskSamples := 0, 0, 0;
      latest := Status(NO_USAGE, None, false, false, false);
      rounds := [];
    }

    /** Counting stops at three, falls back to zero at the first sample that is not above
        the threshold, and starts anew when monitoring was off. */
    method Tick(round: Round)
      requires Valid()
      modifies this
      ensures Valid() && rounds == old(rounds) + [round]
    {
      CappedSnoc(rounds, round, Cpu);
      CappedSnoc(rounds, round, Memory);
      CappedSnoc(rounds, round, Disk);
      rounds := rounds + [round];
      if !round.config.enabled {
        cpuSamples, memorySamples, diskSamples := 0, 0, 0;
        latest := Status(NO_USAGE, Some(round.now), false, false, false);
        return;
      }
      var cpuOver, memoryOver, diskOver;
      cpuSamples, cpuOver := Count(cpuSamples, Exceeds(round.usage.cpu, round.config.cpu));
      memorySamples, memoryOver := Count(memorySamples, Exceeds(round.usage.memory, round.config.memory));
      diskSamples, diskOver := Count(diskSamples, Exceeds(round.usage.disk, round.config.disk));
      latest := Status(round.usage, Some(round.now), cpuOver, memoryOver, diskOver);
    }
  }

  method Count(samples: int, over: bool) returns (next: int, marked: bool)
    requires 0 <= samples <= CONSECUTIVE
    ensures next == if over then Min(samples + 1, CONSECUTIVE) else 0
    ensures marked <==> over && samples >= CONSECUTIVE - 1
  {
    if !over {
      return 0, false;
    }
    next := Min(samples + 1, CONSECUTIVE);
    marked := next == CONSECUTIVE;
  }

  // ---------------------------------------------------------------------------
  // What it remembers
  // ---------------------------------------------------------------------------

  function Min(a: int, b: int): int {
    if a <= b then a else b
  }

  /** Monitoring was on and the sample exceeded the threshold then in force. */
  predicate High(round: Round, r: Resource) {
    round.config.enabled && Exceeds(round.usage.Of(r), round.config.Threshold(r))
  }

  /** How many rounds in a row, up to the last one, were high. */
  function Streak(rounds: seq<Round>, r: Resource): nat {
    if rounds == [] || !High(rounds[|rounds| - 1], r) then 0 else 1 + Streak(rounds[..|rounds| - 1], r)
  }

  /** The streak as far as it is counted. */
  function Capped(rounds: seq<Round>, r: Resource): (n: int)
    ensures 0 <= n <= CONSECUTIVE
  {
    Min(Streak(rounds, r), CONSECUTIVE)
  }

  lemma CappedSnoc(rounds: seq<Round>, round: Round, r: Resource)
    ensures Capped(rounds + [round], r) == if High(round, r) then Min(Capped(rounds, r) + 1, CONSECUTIVE) else 0
    ensures Streak(rounds + [round], r) >= CONSECUTIVE <==> High(round, r) && Capped(rounds, r) >= CONSECUTIVE - 1
  {
    StreakSnoc(rounds, round, r);
  }

  lemma StreakSnoc(rounds: seq<Round>, round: Round, r: Resource)
    ensures Streak(rounds + [round], r) == if High(round, r) then 1 + Streak(rounds, r) else 0
  {
    assert (rounds + [round])[..|rounds|] == rounds;
  }

  function Latest(rounds: seq<Round>): Status {
    if rounds == [] then Status(NO_USAGE, None, false, false, false)
    else
      var last := rounds[|rounds| - 1];
      if !last.config.enabled then Status(NO_USAGE, Some(last.now), false, false, false)
      else Status(last.usage, Some(last.now), Streak(rounds, Cpu) >= CONSECUTIVE,
                  Streak(rounds, Memory) >= CONSECUTIVE, Streak(rounds, Disk) >= CONSECUTIVE)
  }

  /** The last three rounds were all high. */
  predicate LastThreeHigh(rounds: seq<Round>, r: Resource) {
    |rounds| >= CONSECUTIVE && forall i :: |rounds| - CONSECUTIVE <= i < |rounds| ==> High(rounds[i], r)
  }

  lemma {:induction false} StreakReaches(rounds: seq<Round>, r: Resource, n: nat)
    ensures Streak(rounds, r) >= n <==> |rounds| >= n && forall i :: |rounds| - n <= i < |rounds| ==> High(rounds[i], r)
  {
    if n > 0 && rounds != [] {
      var front := rounds[..|rounds| - 1];
      StreakReaches(front, r, n - 1);
      assert forall i :: 0 <= i < |front| ==> front[i] == rounds[i];
      if High(rounds[|rounds| - 1], r) && Streak(front, r) >= n - 1 {
        forall i | |rounds| - n <= i < |rounds| ensures High(rounds[i], r) {
          if i < |front| { assert High(front[i], r); }
        }
      }
      if |rounds| >= n && forall i :: |rounds| - n <= i < |rounds| ==> High(rounds[i], r) {
        assert High(rounds[|rounds| - 1], r);
        forall i | |front| - (n - 1) <= i < |front| ensures High(front[i], r) {
          assert High(rounds[i], r);
        }
      }
    }
  }

  /** A resource is marked exactly when the last three samples were taken with monitoring
      on and each exceeded the threshold of its time. */
  lemma MarkedIff(rounds: seq<Round>, r: Resource)
    ensures Latest(rounds).Over(r) <==> LastThreeHigh(rounds, r)
  {
    StreakReaches(rounds, r, CONSECUTIVE);
  }

  // ---------------------------------------------------------------------------
  // The verdict
  // ---------------------------------------------------------------------------

  predicate Blames(status: Status, config: Config, r: Resource) {
    status.Over(r) && Exceeds(status.usage.Of(r), config.Threshold(r))
  }

  function Check(status: Status, config: Config, now: int): Option<Resource> {
    if !config.enabled || status.sampledAt.None? || now - status.sampledAt.value > MAX_AGE then None
    else if Blames(status, config, Cpu) then Some(Cpu)
    else if Blames(status, config, Memory) then Some(Memory)
    else if Blames(status, config, Disk) then Some(Disk)
    else None
  }

  /** Reason enough to refuse a request for this resource at this moment. */
  predicate Overloaded(rounds: seq<Round>, config: Config, now: int, r: Resource) {
    && config.enabled && LastThreeHigh(rounds, r)
    && now - rounds[|rounds| - 1].now <= MAX_AGE
    && Exceeds(rounds[|rounds| - 1].usage.Of(r), config.Threshold(r))
  }

  /** A request is refused exactly when some resource was high in the last three rounds,
      the last of them is at most thirty seconds old and is high under today's settings
      too; the resource named is the first such one. */
  lemma RefusedIff(rounds: seq<Round>, config: Config, now: int)
    ensures var verdict := Check(Latest(rounds), config, now);
            && (verdict.Some? <==> exists r :: Overloaded(rounds, config, now, r))
            && (verdict.Some? ==> Overloaded(rounds, config, now, verdict.value))
            && (verdict == Some(Memory) ==> !Overloaded(rounds, config, now, Cpu))
            && (verdict == Some(Disk) ==> !Overloaded(rounds, config, now, Cpu) && !Overloaded(rounds, config, now, Memory))
  {
    MarkedIff(rounds, Cpu);
    MarkedIff(rounds, Memory);
    MarkedIff(rounds, Disk);
    BlamedIff(rounds, config, now, Cpu);
    BlamedIff(rounds, config, now, Memory);
    BlamedIff(rounds, config, now, Disk);
  }

  lemma BlamedIff(rounds: seq<Round>, config: Config, now: int, r: Resource)
    ensures var status := Latest(rounds);
            Overloaded(rounds, config, now, r) <==>
            && config.enabled && status.sampledAt.Some? && now - status.sampledAt.value <= MAX_AGE
            && Blames(status, config, r)
  {
    MarkedIff(rounds, r);
    if LastThreeHigh(rounds, r) {
      assert High(rounds[|rounds| - 1], r);
    }
  }
}
