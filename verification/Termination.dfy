/** Why every run comes to an end unless the network duplicates for ever. */
module Termination {
  import opened Common
  import opened Machines
  import opened Fifo
  import Effort
  import CppEffort

  /** What the argument needs of a state; every run keeps it, also when block numbers of an upload wrap. */
  ghost predicate Ready(c: Config, s: System) {
    if c.kind.CppUpload? then CppEffort.Ready(c, s) else Inv(c, s)
  }

  function BlocksLeft(c: Config, s: System): int {
    if c.kind.CppUpload? then CppEffort.BlocksLeft(c, s) else Effort.BlocksLeft(c, s)
  }

  function WorkLeft(c: Config, s: System): nat
    requires s.snd.count <= |c.blocks|
  {
    if c.kind.CppUpload? then CppEffort.WorkLeft(c, s) else Effort.WorkLeft(c, s)
  }

  /** Lexicographic order on (blocks left, time left, work left). */
  ghost predicate Less(c: Config, s: System, s': System)
    requires s.snd.count <= |c.blocks| && s'.snd.count <= |c.blocks|
  {
    if c.kind.CppUpload? then CppEffort.Less(c, s, s') else Effort.Less(c, s, s')
  }

  /** Every step but a duplication by the network gets nearer to the end. */
  lemma {:induction false} StepGetsOn(c: Config, s: System, t: Step)
    requires c.Valid() && Ready(c, s) && Enabled(c, s, t) && !Effort.IsDuplication(t)
    ensures Ready(c, Next(c, s, t)) && Less(c, Next(c, s, t), s) && 0 <= BlocksLeft(c, Next(c, s, t))
  {
    if c.kind.CppUpload? {
      CppEffort.StepGetsOn(c, s, t);
    } else {
      Effort.StepGetsOn(c, s, t);
    }
  }

  lemma {:induction false} DuplicationKeepsReady(c: Config, s: System, t: Step)
    requires Ready(c, s) && Enabled(c, s, t) && Effort.IsDuplication(t)
    ensures Ready(c, Next(c, s, t))
  {
    if !c.kind.CppUpload? {
      NetworkKeepsInv(c, s, t);
    }
  }

  lemma {:induction false} Reachable(c: Config, steps: seq<Step>)
    requires c.Valid() && Run(c, steps).Some?
    ensures Ready(c, Run(c, steps).value)
  {
    if steps == [] {
    } else {
      var before, t := steps[..|steps| - 1], steps[|steps| - 1];
      Reachable(c, before);
      if Effort.IsDuplication(t) {
        DuplicationKeepsReady(c, Run(c, before).value, t);
      } else {
        StepGetsOn(c, Run(c, before).value, t);
      }
    }
  }

  predicate Usable(c: Config, s: System, t: Step) {
    Enabled(c, s, t) && !Effort.IsDuplication(t)
  }

  /** The state after n choices of a scheduler; choices that are not usable change nothing. */
  function Play(c: Config, s: System, choose: (nat, System) -> Step, n: nat): System {
    if n == 0 then s
    else
      var q := Play(c, s, choose, n - 1);
      var t := choose(n - 1, q);
      if Usable(c, q, t) then Next(c, q, t) else q
  }

  ghost predicate Halts(c: Config, s: System, choose: (nat, System) -> Step, n: nat) {
    var q := Play(c, s, choose, n);
    Ready(c, q) && !Usable(c, q, choose(n, q))
  }

  /**
   * No scheduler, however it loses packets and fires timers, can keep the two parties busy for ever:
   * from every reachable state it runs out of usable steps after finitely many.
   */
  lemma {:induction false} EveryScheduleEnds(c: Config, s: System, choose: (nat, System) -> Step, n: nat)
    returns (end: nat)
    requires c.Valid() && Ready(c, Play(c, s, choose, n))
    ensures n <= end && Halts(c, s, choose, end)
    decreases
      BlocksLeft(c, Play(c, s, choose, n)),
      Effort.TimeLeft(c, Play(c, s, choose, n)),
      WorkLeft(c, Play(c, s, choose, n))
  {
    var q := Play(c, s, choose, n);
    var t := choose(n, q);
    if Usable(c, q, t) {
      StepGetsOn(c, q, t);
      assert Play(c, s, choose, n + 1) == Next(c, q, t);
      end := EveryScheduleEnds(c, s, choose, n + 1);
    } else {
      end := n;
    }
  }

  /** Where no step is usable both parties have stopped, or the request has been lost for good. */
  lemma {:induction false} NothingUsableMeansStopped(c: Config, s: System)
    requires c.Valid() && Ready(c, s) && forall t :: !Usable(c, s, t)
    ensures s.data == [] && s.acks == []
    ensures s.snd.pc.Finished? || s.snd.pc.Failed? || s.snd.pc.Listening?
    ensures s.rcv.pc.Finished? || s.rcv.pc.Failed? || s.rcv.pc.Listening?
  {
    assert !Usable(c, s, SndSend) && !Usable(c, s, SndTimeout);
    assert !Usable(c, s, RcvAdvance) && !Usable(c, s, RcvTimeout);
    assert !Usable(c, s, DropData(0)) && !Usable(c, s, DropAck(0));
  }
}
