/** The round-time process synchronization (round_time_sync.c) and the measurement loop that uses it
    (benchmarkCollective.c). */
module RoundTime {
  import opened Allreduce

  const CORRECT := 0
  const INVALID := 1
  const OUT_OF_TIME_VALID := 2
  const OUT_OF_TIME_INVALID := 3

  /** What one rank sees in one attempt: the common start time, the global times it reads while waiting
      for it, the times around the measured call, and the reading when it stops. */
  datatype Attempt = Attempt(start: real, polls: seq<real>, tstart: real, tend: real, stopReading: real)

  /** Waiting ends: some poll reaches the start time.  In barrier mode nobody polls. */
  predicate Waits(a: Attempt)
  {
    a.polls != [] && a.polls[|a.polls| - 1] >= a.start
  }

  /** The rank was waiting before the start time. */
  predicate InTime(a: Attempt)
    requires Waits(a)
  {
    a.polls[0] < a.start
  }

  type Packet = (int, int)

  function MaxInt(a: int, b: int): int { if a < b then b else a }

  /** MPI_MAX on a packet of two ints. */
  function MaxPacket(a: Packet, b: Packet): Packet
  {
    (MaxInt(a.0, b.0), MaxInt(a.1, b.1))
  }

  /** What stop_synchronization makes of the reduced packet. */
  function Verdict(packet: Packet): int
  {
    if packet.1 == 1 then (if packet.0 == CORRECT then OUT_OF_TIME_VALID else OUT_OF_TIME_INVALID)
    else if packet.0 != CORRECT then INVALID else CORRECT
  }

  /** The flags a rank contributes in an attempt. */
  function LocalPacket(barrierMode: bool, jobStart: real, timeSlot: real, a: Attempt): Packet
    requires barrierMode || Waits(a)
  {
    (if !barrierMode && !InTime(a) then INVALID else CORRECT,
     if a.stopReading - jobStart >= timeSlot then 1 else 0)
  }

  /** The static variables of the module on one rank. */
  class RoundTimeSync {
    var invalid: int
    var start_sync: real
    var job_start_time: real
    var stop_flag: int
    var barrier_sync_mode: int
    var switch_count: int
    var time_slot: real

    constructor (time_slot: real, switch_count: int)
      ensures barrier_sync_mode == 0 && this.time_slot == time_slot && this.switch_count == switch_count
    {
      invalid, start_sync, job_start_time, stop_flag := CORRECT, 0.0, 0.0, 0;
      barrier_sync_mode, this.switch_count, this.time_slot := 0, switch_count, time_slot;
    }

    /** Called with the count of every job that starts. */
    method InitSynchronization(count: int)
      modifies this`barrier_sync_mode
      ensures barrier_sync_mode == NextMode(old(barrier_sync_mode), switch_count, count)
    {
      if barrier_sync_mode == 0 && switch_count > -1 && count >= switch_count {
        barrier_sync_mode := 1;
      }
    }

    method InitSyncRound(now: real)
      modifies this`job_start_time, this`stop_flag, this`invalid
      ensures job_start_time == now && stop_flag == 0 && invalid == CORRECT
    {
      job_start_time := now;
      stop_flag := 0;
      invalid := CORRECT;
    }

    /** Waits until the broadcast start time; a rank whose first look is too late flags the attempt. */
    method StartSynchronization(a: Attempt)
      requires barrier_sync_mode != 1 ==> Waits(a)
      modifies this`invalid, this`start_sync
      ensures barrier_sync_mode == 1 ==> invalid == old(invalid)
      ensures barrier_sync_mode != 1 ==> invalid == if InTime(a) then CORRECT else INVALID
      ensures start_sync == if barrier_sync_mode == 1 then old(start_sync) else a.start
    {
      if barrier_sync_mode != 1 {
        var is_first := 1;
        invalid := CORRECT;
        start_sync := a.start;
        var k := 0;
        while true
          invariant 0 <= k < |a.polls| && start_sync == a.start
          invariant is_first == if k == 0 then 1 else 0
          invariant forall j :: 0 <= j < k ==> a.polls[j] < a.start
          invariant invalid == CORRECT
          decreases |a.polls| - k
        {
          var global_time := a.polls[k];
          if global_time >= start_sync {
            if is_first == 1 {
              invalid := INVALID;
            }
            break;
          }
          is_first := 0;
          k := k + 1;
        }
      }
    }

    /** The half of stop_synchronization before the reduction. */
    method StopPacket(now: real) returns (packet: Packet)
      modifies this`stop_flag
      ensures stop_flag == if now - job_start_time >= time_slot then 1 else old(stop_flag)
      ensures packet == (invalid, stop_flag)
    {
      var current_runtime := now - job_start_time;
      if current_runtime >= time_slot {
        stop_flag := 1;
      }
      packet := (invalid, stop_flag);
    }
  }

  // ----- the switch to barrier mode -----

  /** The mode after one more job has started. */
  function NextMode(mode: int, switch_count: int, count: int): int
  {
    if mode == 0 && 0 <= switch_count <= count then 1 else mode
  }

  /** The mode after jobs with these counts have started, from clock-sync mode. */
  function ModeAfter(switch_count: int, counts: seq<int>): int
  {
    if counts == [] then 0 else NextMode(ModeAfter(switch_count, counts[..|counts| - 1]), switch_count, counts[|counts| - 1])
  }

  /** A job runs in barrier mode exactly if its count, or that of a job before it, has reached the switch count
      and there is one: ranks that start the same jobs are always in the same mode, and it never changes back. */
  lemma {:induction false} SwitchedForGood(switch_count: int, counts: seq<int>)
    ensures ModeAfter(switch_count, counts) == 0 || ModeAfter(switch_count, counts) == 1
    ensures ModeAfter(switch_count, counts) == 1 <==> exists j :: 0 <= j < |counts| && 0 <= switch_count <= counts[j]
  {
    if counts != [] {
      var n := |counts| - 1;
      var before := counts[..n];
      SwitchedForGood(switch_count, before);
      if j :| 0 <= j < n && 0 <= switch_count <= counts[j] {
        assert before[j] == counts[j];
      }
      if j :| 0 <= j < n && 0 <= switch_count <= before[j] {
        assert before[j] == counts[j];
      }
      if 0 <= switch_count <= counts[n] {
        assert ModeAfter(switch_count, counts) == 1;
      }
    }
  }

  // ----- the measurement loop -----

  /** slots[j] is the attempt whose times are in entry j; n is the final job.n_rep once done. */
  datatype Loop = Loop(done: bool, n: nat, slots: seq<nat>)

  function LoopStep(n_rep: nat, s: Loop, k: nat, verdict: int): Loop
  {
    if s.done then s
    else if verdict == INVALID then s
    else if verdict == OUT_OF_TIME_VALID then Loop(true, |s.slots| + 1, s.slots + [k])
    else if verdict == OUT_OF_TIME_INVALID then Loop(true, if |s.slots| >= 1 then |s.slots| - 1 else 0, s.slots)
    else Loop(|s.slots| + 1 == n_rep, n_rep, s.slots + [k])
  }

  /** The loop after the first k attempts, given the reduced packets. */
  function LoopAfter(n_rep: nat, reduced: seq<Packet>, k: nat): Loop
    requires k <= |reduced|
  {
    if k == 0 then Loop(false, n_rep, [])
    else LoopStep(n_rep, LoopAfter(n_rep, reduced, k - 1), k - 1, Verdict(reduced[k - 1]))
  }

  /** The first n entries hold the times of the attempts in slots. */
  ghost predicate Stored(tstart: seq<real>, tend: seq<real>, mine: seq<Attempt>, slots: seq<nat>, n: nat)
  {
    forall j {:trigger slots[j]} :: 0 <= j < |slots| && j < n ==>
      j < |tstart| && j < |tend| && slots[j] < |mine| &&
      tstart[j] == mine[slots[j]].tstart && tend[j] == mine[slots[j]].tend
  }

  /** Storing attempt k behind the kept entries keeps them, whether or not it is kept itself. */
  lemma StoredAfter(tstart: seq<real>, tend: seq<real>, mine: seq<Attempt>, slots: seq<nat>, slots': seq<nat>, k: nat, n: nat)
    requires |slots| < |tstart| == |tend| && k < |mine| && Stored(tstart, tend, mine, slots, |slots|)
    requires slots' == slots || slots' == slots + [k]
    ensures Stored(tstart[|slots| := mine[k].tstart], tend[|slots| := mine[k].tend], mine, slots', n)
  {
  }

  /** The packets a rank contributes in its first k attempts. */
  function LocalPackets(barrierMode: bool, jobStart: real, timeSlot: real, mine: seq<Attempt>, k: nat): (p: seq<Packet>)
    requires k <= |mine| && forall j :: 0 <= j < |mine| ==> barrierMode || Waits(mine[j])
    ensures |p| == k
    ensures forall j :: 0 <= j < k ==> p[j] == LocalPacket(barrierMode, jobStart, timeSlot, mine[j])
  {
    seq(k, j requires 0 <= j < k => LocalPacket(barrierMode, jobStart, timeSlot, mine[j]))
  }

  /** One attempt: synchronize, measure into entry i, and stop. */
  method MeasureOnce(sync: RoundTimeSync, a: Attempt, tstart_sec: array<real>, tend_sec: array<real>, i: nat) returns (packet: Packet)
    requires (sync.barrier_sync_mode != 1 ==> Waits(a)) && i < tstart_sec.Length == tend_sec.Length && tstart_sec != tend_sec
    requires sync.stop_flag == 0 && (sync.barrier_sync_mode == 1 ==> sync.invalid == CORRECT)
    modifies sync`invalid, sync`start_sync, sync`stop_flag, tstart_sec, tend_sec
    ensures packet == LocalPacket(sync.barrier_sync_mode == 1, sync.job_start_time, sync.time_slot, a)
    ensures packet == (sync.invalid, sync.stop_flag)
    ensures tstart_sec[..] == old(tstart_sec[..])[i := a.tstart] && tend_sec[..] == old(tend_sec[..])[i := a.tend]
  {
    sync.StartSynchronization(a);
    tstart_sec[i] := a.tstart;
    tend_sec[i] := a.tend;
    packet := sync.StopPacket(a.stopReading);
  }

  /** What the loop does with the verdict on attempt k: redo it, keep it, or stop. */
  method HandleVerdict(is_invalid: int, n_rep: nat, k: nat, i: nat, ghost slots: seq<nat>)
    returns (finished: bool, new_n_rep: nat, new_i: nat, ghost new_slots: seq<nat>)
    requires i == |slots| < n_rep
    ensures Loop(finished, new_n_rep, new_slots) == LoopStep(n_rep, Loop(false, n_rep, slots), k, is_invalid)
    ensures new_slots == slots || new_slots == slots + [k]
    ensures !finished ==> new_i == |new_slots| < n_rep
    ensures new_n_rep <= n_rep
  {
    finished, new_n_rep, new_i, new_slots := false, n_rep, i, slots;
    if is_invalid == INVALID {
      // redo the measurement
    } else if is_invalid == OUT_OF_TIME_VALID {
      new_slots := slots + [k];
      new_n_rep := i + 1;
      finished := true;
    } else if is_invalid == OUT_OF_TIME_INVALID {
      new_n_rep := if 0 > i - 1 then 0 else i - 1;
      finished := true;
    } else {
      new_slots := slots + [k];
      new_i := i + 1;
    }
    if new_i == n_rep {
      finished := true;
    }
  }

  /** The loop is still running before each of the first k attempts. */
  ghost predicate RunsUntil(n_rep: nat, reduced: seq<Packet>, k: nat)
    requires k <= |reduced|
  {
    forall j: nat {:trigger LoopAfter(n_rep, reduced, j)} :: j < k ==> !LoopAfter(n_rep, reduced, j).done
  }

  lemma RunsOneMore(n_rep: nat, reduced: seq<Packet>, k: nat)
    requires k < |reduced| && RunsUntil(n_rep, reduced, k) && !LoopAfter(n_rep, reduced, k).done
    ensures RunsUntil(n_rep, reduced, k + 1)
  {
  }

  /** One turn of the loop: attempt k is measured into entry i and handled. */
  method LoopTurn(sync: RoundTimeSync, n_rep: nat, mine: seq<Attempt>, reduced: seq<Packet>, k: nat,
                  tstart_sec: array<real>, tend_sec: array<real>, i: nat, ghost slots: seq<nat>)
    returns (packet: Packet, finished: bool, new_n_rep: nat, new_i: nat, ghost new_slots: seq<nat>)
    requires k < |mine| == |reduced| && (sync.barrier_sync_mode != 1 ==> Waits(mine[k]))
    requires i == |slots| < n_rep == tstart_sec.Length == tend_sec.Length && tstart_sec != tend_sec
    requires sync.stop_flag == 0 && (sync.barrier_sync_mode == 1 ==> sync.invalid == CORRECT)
    requires LoopAfter(n_rep, reduced, k) == Loop(false, n_rep, slots) && RunsUntil(n_rep, reduced, k)
    requires Stored(tstart_sec[..], tend_sec[..], mine, slots, n_rep)
    modifies sync`invalid, sync`start_sync, sync`stop_flag, tstart_sec, tend_sec
    ensures packet == LocalPacket(sync.barrier_sync_mode == 1, sync.job_start_time, sync.time_slot, mine[k])
    ensures packet == (sync.invalid, sync.stop_flag)
    ensures LoopAfter(n_rep, reduced, k + 1) == Loop(finished, new_n_rep, new_slots) && RunsUntil(n_rep, reduced, k + 1)
    ensures !finished ==> new_i == |new_slots| < n_rep && new_n_rep == n_rep
    ensures new_n_rep <= n_rep
    ensures Stored(tstart_sec[..], tend_sec[..], mine, new_slots, new_n_rep)
  {
    ghost var tstart, tend := tstart_sec[..], tend_sec[..];
    packet := MeasureOnce(sync, mine[k], tstart_sec, tend_sec, i);
    finished, new_n_rep, new_i, new_slots := HandleVerdict(Verdict(reduced[k]), n_rep, k, i, slots);
    StoredAfter(tstart, tend, mine, slots, new_slots, k, new_n_rep);
    RunsOneMore(n_rep, reduced, k);
  }

  lemma OneMorePacket(barrierMode: bool, jobStart: real, timeSlot: real, mine: seq<Attempt>, k: nat)
    requires k < |mine| && forall j :: 0 <= j < |mine| ==> barrierMode || Waits(mine[j])
    ensures LocalPackets(barrierMode, jobStart, timeSlot, mine, k + 1) ==
            LocalPackets(barrierMode, jobStart, timeSlot, mine, k) + [LocalPacket(barrierMode, jobStart, timeSlot, mine[k])]
  {
  }

  /** run_collective's loop on one rank, for the attempts in mine; reduced holds the result of the reduction
      in each of them.  If the attempts run out before the loop ends, finished is false.  The reduction
      never loses a raised stop flag. */
  method RunCollective(sync: RoundTimeSync, n_rep: nat, mine: seq<Attempt>, reduced: seq<Packet>,
                       tstart_sec: array<real>, tend_sec: array<real>, now: real)
    returns (finished: bool, new_n_rep: nat, packets: seq<Packet>)
    requires n_rep >= 1 && |mine| == |reduced| && tstart_sec.Length == tend_sec.Length == n_rep && tstart_sec != tend_sec
    requires forall k :: 0 <= k < |mine| ==> sync.barrier_sync_mode == 1 || Waits(mine[k])
    requires forall k :: 0 <= k < |mine| ==> (mine[k].stopReading - now >= sync.time_slot ==> reduced[k].1 == 1)
    modifies sync, tstart_sec, tend_sec
    ensures |packets| <= |mine|
    ensures packets == LocalPackets(old(sync.barrier_sync_mode) == 1, now, old(sync.time_slot), mine, |packets|)
    ensures LoopAfter(n_rep, reduced, |packets|) == LoopAfter(n_rep, reduced, |reduced|)
    ensures RunsUntil(n_rep, reduced, |packets|)
    ensures var l := LoopAfter(n_rep, reduced, |reduced|);
      && finished == l.done && new_n_rep == l.n <= n_rep
      && forall j {:trigger l.slots[j]} :: 0 <= j < |l.slots| && j < new_n_rep ==>
           l.slots[j] < |mine| && tstart_sec[j] == mine[l.slots[j]].tstart && tend_sec[j] == mine[l.slots[j]].tend
  {
    sync.InitSyncRound(now);
    packets, finished, new_n_rep := [], false, n_rep;
    var i, k := 0, 0;
    ghost var slots: seq<nat>, mode, timeSlot := [], sync.barrier_sync_mode, sync.time_slot;
    while k < |mine| && !finished
      invariant 0 <= k <= |mine|
      invariant sync.barrier_sync_mode == mode && sync.time_slot == timeSlot && sync.job_start_time == now
      invariant !finished ==> sync.stop_flag == 0 && i == |slots| < n_rep && new_n_rep == n_rep
      invariant mode == 1 ==> sync.invalid == CORRECT
      invariant packets == LocalPackets(mode == 1, now, timeSlot, mine, k)
      invariant LoopAfter(n_rep, reduced, k) == Loop(finished, new_n_rep, slots) && RunsUntil(n_rep, reduced, k)
      invariant new_n_rep <= n_rep
      invariant Stored(tstart_sec[..], tend_sec[..], mine, slots, new_n_rep)
    {
      OneMorePacket(mode == 1, now, timeSlot, mine, k);
      var packet;
      packet, finished, new_n_rep, i, slots :=
        LoopTurn(sync, n_rep, mine, reduced, k, tstart_sec, tend_sec, i, slots);
      packets := packets + [packet];
      k := k + 1;
    }
    if finished { LoopStays(n_rep, reduced, k, |reduced|); }
  }

  lemma {:induction false} LoopStays(n_rep: nat, reduced: seq<Packet>, k: nat, m: nat)
    requires k <= m <= |reduced| && LoopAfter(n_rep, reduced, k).done
    ensures LoopAfter(n_rep, reduced, m) == LoopAfter(n_rep, reduced, k)
  {
    if k < m { LoopStays(n_rep, reduced, k, m - 1); }
  }

  // ----- what the kept entries are -----

  /** Every rank was in time. */
  predicate ValidAttempt(packet: Packet)
  {
    packet.0 == CORRECT
  }

  /** Some rank's time slot is used up. */
  predicate OutOfTime(packet: Packet)
  {
    packet.1 == 1
  }

  /** An invalid last attempt that is out of time costs a valid one. */
  predicate LosesOne(last: Packet, valid: nat)
  {
    OutOfTime(last) && !ValidAttempt(last) && valid >= 1
  }

  /** The valid attempts among the first k. */
  function ValidAttempts(reduced: seq<Packet>, k: nat): seq<nat>
    requires k <= |reduced|
  {
    if k == 0 then []
    else ValidAttempts(reduced, k - 1) + if ValidAttempt(reduced[k - 1]) then [k - 1] else []
  }

  /** As long as the loop runs, it has stored every valid attempt and nothing else, in order; it ends with the
      attempt that fills the last entry or is out of time, not before. */
  lemma {:induction false} SlotsAreValidAttempts(n_rep: nat, reduced: seq<Packet>, k: nat)
    requires n_rep >= 1 && k <= |reduced|
    requires RunsUntil(n_rep, reduced, k)
    ensures var s := LoopAfter(n_rep, reduced, k);
      && s.slots == ValidAttempts(reduced, k)
      && |s.slots| <= n_rep
      && (s.done <==> |s.slots| == n_rep || exists j :: 0 <= j < k && OutOfTime(reduced[j]))
      && (!s.done ==> s.n == n_rep)
      && (s.done ==> k > 0 && s.n == if LosesOne(reduced[k - 1], |s.slots|) then |s.slots| - 1 else |s.slots|)
  {
    if k > 0 {
      SlotsAreValidAttempts(n_rep, reduced, k - 1);
      assert forall j :: 0 <= j < k - 1 ==> !OutOfTime(reduced[j]);
    }
  }

  /** The number of valid attempts among the first k. */
  function CountValid(reduced: seq<Packet>, k: nat): nat
    requires k <= |reduced|
  {
    if k == 0 then 0 else CountValid(reduced, k - 1) + if ValidAttempt(reduced[k - 1]) then 1 else 0
  }

  /** When the measurement ends, in terms of the flags all ranks see: the loop is over within k attempts exactly if
      the requested number of them is valid or one of them is out of time. */
  lemma {:induction false} EndsExactly(n_rep: nat, reduced: seq<Packet>, k: nat)
    requires n_rep >= 1 && k <= |reduced|
    ensures LoopAfter(n_rep, reduced, k).done <==>
      CountValid(reduced, k) >= n_rep || exists j :: 0 <= j < k && OutOfTime(reduced[j])
    ensures RunsUntil(n_rep, reduced, k) ==> |LoopAfter(n_rep, reduced, k).slots| == CountValid(reduced, k)
  {
    if k > 0 {
      EndsExactly(n_rep, reduced, k - 1);
      if !LoopAfter(n_rep, reduced, k - 1).done {
        StillRuns(n_rep, reduced, k - 1);
      }
    }
  }

  /** A loop that runs has run all the time. */
  lemma {:induction false} StillRuns(n_rep: nat, reduced: seq<Packet>, k: nat)
    requires k <= |reduced| && !LoopAfter(n_rep, reduced, k).done
    ensures RunsUntil(n_rep, reduced, k)
  {
    if k > 0 { StillRuns(n_rep, reduced, k - 1); }
  }

  lemma MaxPacketIsAllreduceOp()
    ensures AssociativeCommutative(MaxPacket)
  {
    forall a, b, c ensures Allreduce.AssociativeAt(MaxPacket, a, b, c) { }
    forall a, b ensures Allreduce.CommutativeAt(MaxPacket, a, b) { }
  }

  /** The maximum is an upper bound, and one of the packets attains each part of it. */
  lemma {:induction false} ReduceIsMaximum(ps: seq<Packet>)
    requires ps != []
    ensures forall r :: 0 <= r < |ps| ==> ps[r].0 <= Reduce(MaxPacket, ps).0 && ps[r].1 <= Reduce(MaxPacket, ps).1
    ensures exists r :: 0 <= r < |ps| && ps[r].0 == Reduce(MaxPacket, ps).0
    ensures exists r :: 0 <= r < |ps| && ps[r].1 == Reduce(MaxPacket, ps).1
  {
    if |ps| == 1 {
      assert ps[0] == Reduce(MaxPacket, ps);
    } else {
      var tail := ps[1..];
      ReduceIsMaximum(tail);
      var m, n := Reduce(MaxPacket, ps), Reduce(MaxPacket, tail);
      assert m == MaxPacket(ps[0], n);
      assert forall r :: 0 < r < |ps| ==> ps[r] == tail[r - 1];
      var x :| 0 <= x < |tail| && tail[x].0 == n.0;
      var y :| 0 <= y < |tail| && tail[y].1 == n.1;
      var x', y' := if ps[0].0 == m.0 then 0 else x + 1, if ps[0].1 == m.1 then 0 else y + 1;
      assert ps[x'].0 == m.0 && ps[y'].1 == m.1;
    }
  }

  /** All ranks' inputs for a run: the same attempts, each with a start time common to all. */
  ghost predicate World(ranks: seq<seq<Attempt>>, attempts: nat, barrierMode: bool)
  {
    && ranks != []
    && (forall r :: 0 <= r < |ranks| ==> |ranks[r]| == attempts)
    && (forall r, k :: 0 <= r < |ranks| && 0 <= k < attempts ==> barrierMode || Waits(ranks[r][k]))
    && (forall r, k :: 0 <= r < |ranks| && 0 <= k < attempts ==> ranks[r][k].start == ranks[0][k].start)
  }

  /** The packets the Allreduce delivers to every rank. */
  ghost predicate AllReduced(ranks: seq<seq<Attempt>>, jobStart: seq<real>, timeSlot: real, barrierMode: bool, reduced: seq<Packet>)
    requires World(ranks, |reduced|, barrierMode) && |jobStart| == |ranks|
  {
    forall k {:trigger reduced[k]} :: 0 <= k < |reduced| ==>
      reduced[k] == Reduce(MaxPacket, seq(|ranks|, r requires 0 <= r < |ranks| =>
        LocalPacket(barrierMode, jobStart[r], timeSlot, ranks[r][k])))
  }

  /** The flags all ranks see are the worst of the ranks' own flags. */
  lemma ReducedFlags(ranks: seq<seq<Attempt>>, jobStart: seq<real>, timeSlot: real, barrierMode: bool, reduced: seq<Packet>, k: nat)
    requires World(ranks, |reduced|, barrierMode) && |jobStart| == |ranks| && k < |reduced|
    requires AllReduced(ranks, jobStart, timeSlot, barrierMode, reduced)
    ensures reduced[k].0 == CORRECT <==> barrierMode || forall r :: 0 <= r < |ranks| ==> ranks[r][k].polls[0] < ranks[r][k].start
    ensures reduced[k].1 == 1 <==> exists r :: 0 <= r < |ranks| && ranks[r][k].stopReading - jobStart[r] >= timeSlot
    ensures reduced[k].1 == 0 || reduced[k].1 == 1
  {
    var ps := seq(|ranks|, r requires 0 <= r < |ranks| => LocalPacket(barrierMode, jobStart[r], timeSlot, ranks[r][k]));
    assert reduced[k] == Reduce(MaxPacket, ps);
    ReduceIsMaximum(ps);
    var x :| 0 <= x < |ps| && ps[x].0 == reduced[k].0;
    var y :| 0 <= y < |ps| && ps[y].1 == reduced[k].1;
    if reduced[k].0 == CORRECT {
      forall r | 0 <= r < |ranks| ensures barrierMode || InTime(ranks[r][k]) { assert ps[r].0 <= CORRECT; }
    }
    if r :| 0 <= r < |ranks| && ranks[r][k].stopReading - jobStart[r] >= timeSlot {
      assert ps[r].1 == 1;
    }
  }

  // ----- main results -----

  /** What is reported: in clock-sync mode every kept entry comes from an attempt in which every rank was
      already waiting before the common start time; entries are in the order of the attempts, none is used
      twice, and there are at most as many as requested. */
  lemma KeptEntriesAreSynchronized(ranks: seq<seq<Attempt>>, jobStart: seq<real>, timeSlot: real, n_rep: nat, reduced: seq<Packet>, k: nat, j: nat)
    requires n_rep >= 1 && World(ranks, |reduced|, false) && |jobStart| == |ranks| && k <= |reduced|
    requires AllReduced(ranks, jobStart, timeSlot, false, reduced)
    requires RunsUntil(n_rep, reduced, k)
    requires j < |LoopAfter(n_rep, reduced, k).slots|
    ensures var slots := LoopAfter(n_rep, reduced, k).slots;
      && |slots| <= n_rep && slots[j] < k
      && (j > 0 ==> slots[j - 1] < slots[j])
      && forall r :: 0 <= r < |ranks| ==> ranks[r][slots[j]].polls[0] < ranks[0][slots[j]].start
  {
    SlotsAreValidAttempts(n_rep, reduced, k);
    ValidAttemptsOrdered(reduced, k, j);
    ReducedFlags(ranks, jobStart, timeSlot, false, reduced, LoopAfter(n_rep, reduced, k).slots[j]);
  }

  lemma {:induction false} ValidAttemptsOrdered(reduced: seq<Packet>, k: nat, j: nat)
    requires k <= |reduced| && j < |ValidAttempts(reduced, k)|
    ensures var v := ValidAttempts(reduced, k);
      v[j] < k && ValidAttempt(reduced[v[j]]) && (j > 0 ==> v[j - 1] < v[j])
  {
    if j < |ValidAttempts(reduced, k - 1)| {
      ValidAttemptsOrdered(reduced, k - 1, j);
    } else if j > 0 {
      ValidAttemptsOrdered(reduced, k - 1, j - 1);
    }
  }

  /** How many entries are reported: all valid attempts, except that a run which ends out of time in an
      invalid attempt also gives up its last valid one. */
  lemma ReportedCount(n_rep: nat, reduced: seq<Packet>, k: nat)
    requires n_rep >= 1 && 0 < k <= |reduced|
    requires RunsUntil(n_rep, reduced, k)
    requires LoopAfter(n_rep, reduced, k).done
    ensures var valid := |ValidAttempts(reduced, k)|;
      && LoopAfter(n_rep, reduced, k).n <= valid <= n_rep
      && (LoopAfter(n_rep, reduced, k).n == valid <==> !LosesOne(reduced[k - 1], valid))
      && valid - 1 <= LoopAfter(n_rep, reduced, k).n
  {
    SlotsAreValidAttempts(n_rep, reduced, k);
  }

  /** In barrier mode no attempt is ever repeated. */
  lemma BarrierModeNeverRepeats(ranks: seq<seq<Attempt>>, jobStart: seq<real>, timeSlot: real, reduced: seq<Packet>, k: nat)
    requires World(ranks, |reduced|, true) && |jobStart| == |ranks| && k < |reduced|
    requires AllReduced(ranks, jobStart, timeSlot, true, reduced)
    ensures ValidAttempt(reduced[k])
  {
    ReducedFlags(ranks, jobStart, timeSlot, true, reduced, k);
  }
}
