/** The dissemination barrier of dissem_barrier_impl.c. */
module DisseminationBarrier {
  import opened Bits
  import opened Ranks
  import opened RoundExchange

  /** The least number of doublings that reaches np. */
  function CeilLog2(np: nat): nat
  {
    if np == 0 then 0 else BitLength(np - 1)
  }

  /** In round i a rank signals the rank 2^i ahead and waits for the one 2^i behind; messages carry
      nothing but their arrival. */
  function Barrier(np: nat): Protocol<(), int>
  {
    Protocol(np, CeilLog2(np),
             (i: nat, r: nat) => Ahead(np, r, Pow2(i)),
             (i: nat, r: nat) => Behind(np, r, Pow2(i)),
             (r: nat) => (),
             (i: nat, s: ()) => 1,
             (i: nat, s: (), m: int) => ())
  }

  lemma RoundDistance(np: nat, i: nat)
    requires i < CeilLog2(np)
    ensures 0 < Pow2(i) < np <= Pow2(CeilLog2(np))
  {
    BitLengthBounds(np - 1);
    Pow2Monotone(i, CeilLog2(np) - 1);
  }

  lemma BarrierMatched(np: nat)
    ensures Matched(Barrier(np))
  {
    var P := Barrier(np);
    forall i: nat, r: nat | i < P.rounds && r < P.p ensures MatchedAt(P, i, r) {
      RoundDistance(np, i);
      AheadBehind(np, r, Pow2(i));
    }
  }

  /** A rank's first action in the barrier is to post its first send. */
  ghost predicate Entered(s: Net<(), int>, r: nat)
  {
    r < |s.sent| && s.sent[r] > 0
  }

  ghost predicate Left(np: nat, s: Net<(), int>, r: nat)
  {
    r < |s.done| && s.done[r] == CeilLog2(np)
  }

  /** A rank that has finished round i knows that the rank it waited for there had entered, and was through
      the rounds before. */
  lemma WaitedFor(np: nat, s: Net<(), int>, i: nat, r: nat)
    requires Inv(Barrier(np), s) && r < np && i < s.done[r]
    ensures i < CeilLog2(np) && Behind(np, r, Pow2(i)) < np
    ensures var a := Behind(np, r, Pow2(i)); Entered(s, a) && i <= s.done[a]
  {
    var P := Barrier(np);
    assert RankInv(P, s, r);
    RoundDistance(np, i);
    assert CausalAt(P, s, r, i);
    assert RankInv(P, s, Behind(np, r, Pow2(i)));
  }

  lemma {:induction false} EntriesFrom(np: nat, s: Net<(), int>, i: nat, r: nat, j: nat)
    requires Inv(Barrier(np), s) && r < np && i <= s.done[r] && Entered(s, r) && j < np && j < Pow2(i)
    ensures Entered(s, Behind(np, r, j))
    decreases i
  {
    if i == 0 {
      AheadBehind(np, r, 0);
    } else {
      var d := Pow2(i - 1);
      if j < d {
        EntriesFrom(np, s, i - 1, r, j);
      } else {
        WaitedFor(np, s, i - 1, r);
        BehindBehind(np, r, d, j - d);
        EntriesFrom(np, s, i - 1, Behind(np, r, d), j - d);
      }
    }
  }

  /** A rank that has finished i rounds causally follows the entry of the 2^i ranks up to itself. */
  lemma EntriesBehind(np: nat, s: Net<(), int>, i: nat, r: nat, j: nat)
    requires Inv(Barrier(np), s) && r < np && 0 < i <= s.done[r] && j < np && j < Pow2(i)
    ensures Entered(s, Behind(np, r, j))
  {
    assert RankInv(Barrier(np), s, r);
    EntriesFrom(np, s, i, r, j);
  }

  lemma BehindBehind(np: nat, r: nat, d: nat, e: nat)
    requires r < np && d + e < np
    ensures Behind(np, r, d) < np && Behind(np, Behind(np, r, d), e) == Behind(np, r, d + e)
    ensures e == 0 ==> Behind(np, r, d + e) == Behind(np, r, d)
  {
    AheadBehind(np, r, d);
    AheadBehind(np, r, d + e);
    AheadBehind(np, Behind(np, r, d), e);
  }

  // ----- main results -----

  /** Safety: in no interleaving does a rank leave before every other rank has entered. */
  lemma NobodyLeavesEarly(np: nat, run: seq<Net<(), int>>, r: nat, q: nat)
    requires Run(Barrier(np), run) && r < np && q < np && q != r
    requires Left(np, run[|run| - 1], r)
    ensures Entered(run[|run| - 1], q)
  {
    BarrierMatched(np);
    RunInv(Barrier(np), run);
    var s := run[|run| - 1];
    var rounds := CeilLog2(np);
    BitLengthBounds(np - 1);
    var j := if q <= r then r - q else r - q + np;
    AheadBehind(np, r, j);
    EntriesBehind(np, s, rounds, r, j);
  }

  /** Liveness: every run is finite, and one that cannot go on has let every rank leave and has no
      message left over. */
  lemma BarrierCompletes(np: nat, run: seq<Net<(), int>>)
    requires Run(Barrier(np), run)
    ensures |run| - 1 <= 2 * (np * CeilLog2(np))
    ensures var s := run[|run| - 1];
            (Stuck(Barrier(np), s) <==> forall r: nat :: r < np ==> Left(np, s, r)) &&
            (Stuck(Barrier(np), s) ==> NoMessages(Barrier(np), s))
  {
    var P, s := Barrier(np), run[|run| - 1];
    BarrierMatched(np);
    RunsAreBounded(P, run);
    NeverStuck(P, run);
    if Stuck(P, s) {
      NoMessageLeft(P, run);
    }
    if forall r: nat :: r < np ==> Left(np, s, r) {
      forall r | 0 <= r < np ensures s.done[r] == P.rounds { assert Left(np, s, r); }
    }
  }

  /** No rank sends to itself, and none sends to the same rank twice. */
  lemma PartnersDiffer(np: nat, r: nat, i: nat, j: nat)
    requires r < np && i < CeilLog2(np) && j < CeilLog2(np)
    ensures Ahead(np, r, Pow2(i)) != r
    ensures Ahead(np, r, Pow2(i)) == Ahead(np, r, Pow2(j)) <==> i == j
  {
    RoundDistance(np, i);
    RoundDistance(np, j);
    AheadBehind(np, r, Pow2(i));
    AheadBehind(np, r, Pow2(j));
    if i < j {
      Pow2Monotone(i, j);
    } else if j < i {
      Pow2Monotone(j, i);
    }
  }

  /** In round i one of the two ranks sends to the other. */
  predicate Exchange(np: nat, a: nat, b: nat, i: nat)
  {
    Ahead(np, a, Pow2(i)) == b || Ahead(np, b, Pow2(i)) == a
  }

  /** The rank that one signals in round i is the one it waits for in round j exactly if the two distances
      add up to np. */
  lemma SentToThenWaitedFor(np: nat, r: nat, i: nat, j: nat)
    requires r < np && i < CeilLog2(np) && j < CeilLog2(np)
    ensures Ahead(np, r, Pow2(i)) == Behind(np, r, Pow2(j)) <==> Pow2(i) + Pow2(j) == np
  {
    RoundDistance(np, i);
    RoundDistance(np, j);
    AheadBehind(np, r, Pow2(i));
    AheadBehind(np, r, Pow2(j));
    BitLengthBounds(np - 1);
    Pow2Monotone(i, CeilLog2(np) - 1);
    Pow2Monotone(j, CeilLog2(np) - 1);
  }

  /** A pair exchanges in two different rounds i and j exactly if np is 2^i + 2^j, and then every rank is in
      such a pair. */
  lemma PairExchangesTwice(np: nat, r: nat, i: nat, j: nat)
    requires r < np && i < CeilLog2(np) && j < CeilLog2(np) && i != j
    ensures (exists q: nat :: q < np && Exchange(np, r, q, i) && Exchange(np, r, q, j)) <==> Pow2(i) + Pow2(j) == np
  {
    RoundDistance(np, i);
    RoundDistance(np, j);
    AheadBehind(np, r, Pow2(i));
    AheadBehind(np, r, Pow2(j));
    SentToThenWaitedFor(np, r, i, j);
    SentToThenWaitedFor(np, r, j, i);
    PartnersDiffer(np, r, i, j);
    if q: nat :| q < np && Exchange(np, r, q, i) && Exchange(np, r, q, j) {
      AheadBehind(np, q, Pow2(i));
      AheadBehind(np, q, Pow2(j));
      PartnersDiffer(np, q, i, j);
      SentToThenWaitedFor(np, q, i, j);
    }
    if Pow2(i) + Pow2(j) == np {
      assert Exchange(np, r, Ahead(np, r, Pow2(i)), i) && Exchange(np, r, Ahead(np, r, Pow2(i)), j);
    }
  }

  /** With three ranks, ranks 0 and 1 exchange in both rounds: first 0 signals 1, then 1 signals 0. */
  lemma ThreeRanksExchangeTwice()
    ensures CeilLog2(3) == 2
    ensures Ahead(3, 0, Pow2(0)) == 1 && Ahead(3, 1, Pow2(1)) == 0
    ensures Exchange(3, 0, 1, 0) && Exchange(3, 0, 1, 1)
  {
    assert BitLength(2) == 2;
    assert Pow2(0) == 1 && Pow2(1) == 2;
  }

  /** ceil(log2 np), by doubling. */
  method RoundsFor(np: nat) returns (nrounds: nat)
    requires np > 0
    ensures nrounds == CeilLog2(np)
  {
    var reach := 1;
    nrounds := 0;
    while reach < np
      invariant reach == Pow2(nrounds) && (nrounds == 0 || Pow2(nrounds - 1) < np)
      decreases np - reach
    {
      nrounds, reach := nrounds + 1, 2 * reach;
    }
    if nrounds > 0 {
      BitLengthUnique(np - 1, nrounds - 1);
    }
  }

  /** The partners of the first rounds are those of the protocol. */
  ghost predicate ListsPartners(np: nat, r: nat, partners: seq<(nat, nat)>)
  {
    forall i: nat {:trigger partners[i]} :: i < |partners| ==> partners[i] == (Barrier(np).to(i, r), Barrier(np).from(i, r))
  }

  lemma PartnersOfRound(np: nat, r: nat, i: nat, d: nat)
    requires r < np && i < CeilLog2(np) && d == Pow2(i)
    ensures r - d + np >= 0
    ensures ((r + d) % np, (r - d + np) % np) == (Barrier(np).to(i, r), Barrier(np).from(i, r))
  {
    RoundDistance(np, i);
  }

  /** The loop run by one rank; the result lists the two partners of each of its rounds. */
  method DisseminationBarrier(my_rank: nat, np: nat) returns (partners: seq<(nat, nat)>)
    requires my_rank < np
    ensures |partners| == CeilLog2(np) && ListsPartners(np, my_rank, partners)
  {
    var nrounds := RoundsFor(np);
    var distance := 1;
    partners := [];
    for i := 0 to nrounds
      invariant |partners| == i && distance == Pow2(i) && ListsPartners(np, my_rank, partners)
    {
      PartnersOfRound(np, my_rank, i, distance);
      var send_rank := (my_rank + distance) % np;
      var recv_rank := (my_rank - distance + np) % np;
      partners := partners + [(send_rank, recv_rank)];
      distance := 2 * distance;
    }
  }
}
