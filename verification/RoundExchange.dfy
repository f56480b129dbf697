/** Ranks that exchange one message per round over per-pair FIFO channels.

    In round k every rank r sends one message to `to(k, r)` and receives one from `from(k, r)`, as a
    single send-receive.  Nothing else orders the ranks: a fast rank may be many rounds ahead of a slow
    one.  This is the communication pattern of the circulant Allreduce and of the dissemination barrier;
    messages between a pair do not overtake each other (section 3.5 of MPI 3.1). */
module RoundExchange {
  import opened Sums

  datatype Protocol<!S, !M> = Protocol(
    p: nat,
    rounds: nat,
    to: (nat, nat) -> nat,
    from: (nat, nat) -> nat,
    init: nat -> S,
    emit: (nat, S) -> M,
    absorb: (nat, S, M) -> S)

  /** In every round `from` inverts `to`: each send has exactly one receive. */
  ghost predicate Matched<S(!new), M(!new)>(P: Protocol<S, M>)
  {
    forall k: nat, r: nat {:trigger MatchedAt(P, k, r)} :: k < P.rounds && r < P.p ==> MatchedAt(P, k, r)
  }

  ghost predicate MatchedAt<S(!new), M(!new)>(P: Protocol<S, M>, k: nat, r: nat)
  {
    P.to(k, r) < P.p && P.from(k, r) < P.p && P.from(k, P.to(k, r)) == r && P.to(k, P.from(k, r)) == r
  }

  /** sent[r] and done[r] count the rounds in which rank r has sent and has finished its receive. */
  datatype Net<!S, !M> = Net(
    sent: seq<nat>,
    done: seq<nat>,
    local: seq<S>,
    chan: map<(nat, nat), seq<M>>)
  {
    function Queue(a: nat, b: nat): seq<M>
    {
      if (a, b) in chan then chan[(a, b)] else []
    }
  }

  ghost predicate Shape<S(!new), M(!new)>(P: Protocol<S, M>, s: Net<S, M>)
  {
    |s.sent| == P.p && |s.done| == P.p && |s.local| == P.p
  }

  ghost predicate Init<S(!new), M(!new)>(P: Protocol<S, M>, s: Net<S, M>)
  {
    && Shape(P, s)
    && s.chan == map[]
    && forall r :: 0 <= r < P.p ==> s.sent[r] == 0 && s.done[r] == 0 && s.local[r] == P.init(r)
  }

  /** Rank r posts the send half of its next round. */
  ghost predicate CanSend<S(!new), M(!new)>(P: Protocol<S, M>, s: Net<S, M>, r: nat)
    requires Shape(P, s)
  {
    r < P.p && s.sent[r] == s.done[r] < P.rounds
  }

  ghost function Send<S(!new), M(!new)>(P: Protocol<S, M>, s: Net<S, M>, r: nat): Net<S, M>
    requires Shape(P, s) && CanSend(P, s, r)
  {
    var k := s.sent[r];
    var b := P.to(k, r);
    s.(sent := s.sent[r := k + 1],
       chan := s.chan[(r, b) := s.Queue(r, b) + [P.emit(k, s.local[r])]])
  }

  /** Rank r completes its round: the oldest message of its partner is taken off the channel. */
  ghost predicate CanReceive<S(!new), M(!new)>(P: Protocol<S, M>, s: Net<S, M>, r: nat)
    requires Shape(P, s)
  {
    r < P.p && s.sent[r] == s.done[r] + 1 && s.done[r] < P.rounds &&
    s.Queue(P.from(s.done[r], r), r) != []
  }

  ghost function Receive<S(!new), M(!new)>(P: Protocol<S, M>, s: Net<S, M>, r: nat): Net<S, M>
    requires Shape(P, s) && CanReceive(P, s, r)
  {
    var k := s.done[r];
    var a := P.from(k, r);
    var q := s.Queue(a, r);
    s.(done := s.done[r := k + 1],
       local := s.local[r := P.absorb(k, s.local[r], q[0])],
       chan := s.chan[(a, r) := q[1..]])
  }

  ghost predicate Next<S(!new), M(!new)>(P: Protocol<S, M>, s: Net<S, M>, s': Net<S, M>)
  {
    && Shape(P, s)
    && exists r: nat ::
        (CanSend(P, s, r) && s' == Send(P, s, r)) || (CanReceive(P, s, r) && s' == Receive(P, s, r))
  }

  ghost predicate Run<S(!new), M(!new)>(P: Protocol<S, M>, run: seq<Net<S, M>>)
  {
    && |run| > 0
    && Init(P, run[0])
    && forall i :: 0 < i < |run| ==> Next(P, run[i - 1], run[i])
  }

  /** No rank can take a step. */
  ghost predicate Stuck<S(!new), M(!new)>(P: Protocol<S, M>, s: Net<S, M>)
  {
    !exists s' :: Next(P, s, s')
  }

  ghost predicate NoMessages<S(!new), M(!new)>(P: Protocol<S, M>, s: Net<S, M>)
  {
    forall a: nat, b: nat :: a < P.p && b < P.p ==> s.Queue(a, b) == []
  }

  ghost predicate AllDone<S(!new), M(!new)>(P: Protocol<S, M>, s: Net<S, M>)
    requires Shape(P, s)
  {
    forall r :: 0 <= r < P.p ==> s.done[r] == P.rounds
  }

  // ----- the lockstep reference -----

  /** State of rank r after k rounds if all ranks moved in lockstep. */
  ghost function Sync<S(!new), M(!new)>(P: Protocol<S, M>, k: nat, r: nat): S
    decreases k, 0
  {
    if k == 0 then P.init(r)
    else P.absorb(k - 1, Sync(P, k - 1, r), SyncMessage(P, k - 1, P.from(k - 1, r)))
  }

  /** What rank a sends in round k of the lockstep execution. */
  ghost function SyncMessage<S(!new), M(!new)>(P: Protocol<S, M>, k: nat, a: nat): M
    decreases k, 1
  {
    P.emit(k, Sync(P, k, a))
  }

  /** Messages of rounds lo..hi that go from a to b, oldest first. */
  ghost function Pending<S(!new), M(!new)>(P: Protocol<S, M>, a: nat, b: nat, lo: nat, hi: nat): seq<M>
    decreases hi - lo
  {
    if lo >= hi then []
    else (if P.to(lo, a) == b then [SyncMessage(P, lo, a)] else []) + Pending(P, a, b, lo + 1, hi)
  }

  // ----- the invariant -----

  ghost predicate RankInv<S(!new), M(!new)>(P: Protocol<S, M>, s: Net<S, M>, r: nat)
    requires Shape(P, s) && r < P.p
  {
    && s.done[r] <= s.sent[r] <= s.done[r] + 1
    && s.sent[r] <= P.rounds
    && s.local[r] == Sync(P, s.done[r], r)
  }

  /** A finished round of r is a sent round of its partner. */
  ghost predicate Causal<S(!new), M(!new)>(P: Protocol<S, M>, s: Net<S, M>)
    requires Shape(P, s)
  {
    forall r: nat, k: nat {:trigger CausalAt(P, s, r, k)} :: r < P.p && k < s.done[r] ==> CausalAt(P, s, r, k)
  }

  ghost predicate CausalAt<S(!new), M(!new)>(P: Protocol<S, M>, s: Net<S, M>, r: nat, k: nat)
    requires Shape(P, s)
  {
    P.from(k, r) < P.p && k < s.sent[P.from(k, r)]
  }

  ghost predicate ChannelInv<S(!new), M(!new)>(P: Protocol<S, M>, s: Net<S, M>)
    requires Shape(P, s)
  {
    forall a: nat, b: nat {:trigger ChannelAt(P, s, a, b)} :: a < P.p && b < P.p ==> ChannelAt(P, s, a, b)
  }

  /** The channel from a to b holds the messages a has sent and b has not taken yet. */
  ghost predicate ChannelAt<S(!new), M(!new)>(P: Protocol<S, M>, s: Net<S, M>, a: nat, b: nat)
    requires Shape(P, s) && a < P.p && b < P.p
  {
    s.Queue(a, b) == Pending(P, a, b, s.done[b], s.sent[a])
  }

  ghost predicate Inv<S(!new), M(!new)>(P: Protocol<S, M>, s: Net<S, M>)
  {
    && Shape(P, s)
    && (forall r: nat {:trigger RankInv(P, s, r)} :: r < P.p ==> RankInv(P, s, r))
    && Causal(P, s)
    && ChannelInv(P, s)
  }

  lemma {:induction false} PendingSnoc<S(!new), M(!new)>(P: Protocol<S, M>, a: nat, b: nat, lo: nat, hi: nat)
    requires lo <= hi
    ensures Pending(P, a, b, lo, hi + 1) ==
            Pending(P, a, b, lo, hi) + (if P.to(hi, a) == b then [SyncMessage(P, hi, a)] else [])
    decreases hi - lo
  {
    if lo == hi {
      assert Pending(P, a, b, lo + 1, hi + 1) == [];
    } else {
      PendingSnoc(P, a, b, lo + 1, hi);
    }
  }

  /** The rank that the next send goes to has not finished that round. */
  lemma TargetIsNotAhead<S(!new), M(!new)>(P: Protocol<S, M>, s: Net<S, M>, r: nat)
    requires Matched(P) && Inv(P, s) && CanSend(P, s, r)
    ensures var b := P.to(s.sent[r], r); b < P.p && s.done[b] <= s.sent[r]
  {
    var k := s.sent[r];
    assert MatchedAt(P, k, r);
    assert s.done[P.to(k, r)] > k ==> CausalAt(P, s, P.to(k, r), k);
  }

  lemma SendKeepsOwnChannel<S(!new), M(!new)>(P: Protocol<S, M>, s: Net<S, M>, r: nat, b: nat)
    requires Shape(P, s) && CanSend(P, s, r) && b < P.p
    requires RankInv(P, s, r) && ChannelAt(P, s, r, b)
    requires P.to(s.sent[r], r) == b ==> s.done[b] <= s.sent[r]
    ensures ChannelAt(P, Send(P, s, r), r, b)
  {
    var k := s.sent[r];
    if s.done[b] <= k {
      PendingSnoc(P, r, b, s.done[b], k);
    }
  }

  lemma SendKeepsChannel<S(!new), M(!new)>(P: Protocol<S, M>, s: Net<S, M>, r: nat, a: nat, b: nat)
    requires Matched(P) && Inv(P, s) && CanSend(P, s, r) && a < P.p && b < P.p
    ensures ChannelAt(P, Send(P, s, r), a, b)
  {
    assert ChannelAt(P, s, a, b);
    if a == r {
      assert RankInv(P, s, r);
      TargetIsNotAhead(P, s, r);
      SendKeepsOwnChannel(P, s, r, b);
    } else {
      assert Send(P, s, r).Queue(a, b) == s.Queue(a, b);
    }
  }

  lemma ReceiveTakesRound<S(!new), M(!new)>(P: Protocol<S, M>, s: Net<S, M>, r: nat)
    requires Matched(P) && Inv(P, s) && CanReceive(P, s, r)
    ensures var k := s.done[r]; var a := P.from(k, r);
            a < P.p && k < s.sent[a] && P.to(k, a) == r &&
            s.Queue(a, r) == [SyncMessage(P, k, a)] + Pending(P, a, r, k + 1, s.sent[a])
  {
    var k := s.done[r];
    assert MatchedAt(P, k, r);
    assert ChannelAt(P, s, P.from(k, r), r);
  }

  lemma ReceiveKeepsOtherChannel<S(!new), M(!new)>(P: Protocol<S, M>, s: Net<S, M>, r: nat, a: nat, b: nat)
    requires Matched(P) && Inv(P, s) && CanReceive(P, s, r) && a < P.p && b < P.p
    requires a != P.from(s.done[r], r) || b != r
    ensures ChannelAt(P, Receive(P, s, r), a, b)
  {
    assert Receive(P, s, r).Queue(a, b) == s.Queue(a, b);
    assert ChannelAt(P, s, a, b);
    if b == r {
      // this round does not go from a to r
      assert MatchedAt(P, s.done[r], a);
      assert P.to(s.done[r], a) != r;
    }
  }

  lemma ReceiveKeepsChannel<S(!new), M(!new)>(P: Protocol<S, M>, s: Net<S, M>, r: nat, a: nat, b: nat)
    requires Matched(P) && Inv(P, s) && CanReceive(P, s, r) && a < P.p && b < P.p
    ensures ChannelAt(P, Receive(P, s, r), a, b)
  {
    if a == P.from(s.done[r], r) && b == r {
      ReceiveTakesRound(P, s, r);
    } else {
      ReceiveKeepsOtherChannel(P, s, r, a, b);
    }
  }

  lemma SendInv<S(!new), M(!new)>(P: Protocol<S, M>, s: Net<S, M>, r: nat)
    requires Matched(P) && Inv(P, s) && CanSend(P, s, r)
    ensures Inv(P, Send(P, s, r))
  {
    var s' := Send(P, s, r);
    forall q: nat | q < P.p ensures RankInv(P, s', q) { assert RankInv(P, s, q); }
    forall q: nat, k: nat | q < P.p && k < s'.done[q] ensures CausalAt(P, s', q, k) { assert CausalAt(P, s, q, k); }
    forall a: nat, b: nat | a < P.p && b < P.p ensures ChannelAt(P, s', a, b) { SendKeepsChannel(P, s, r, a, b); }
  }

  lemma ReceiveInv<S(!new), M(!new)>(P: Protocol<S, M>, s: Net<S, M>, r: nat)
    requires Matched(P) && Inv(P, s) && CanReceive(P, s, r)
    ensures Inv(P, Receive(P, s, r))
  {
    var s' := Receive(P, s, r);
    ReceiveTakesRound(P, s, r);
    forall q: nat | q < P.p ensures RankInv(P, s', q) { assert RankInv(P, s, q); }
    forall q: nat, k: nat | q < P.p && k < s'.done[q] ensures CausalAt(P, s', q, k) {
      if q != r || k < s.done[q] { assert CausalAt(P, s, q, k); }
    }
    forall a: nat, b: nat | a < P.p && b < P.p ensures ChannelAt(P, s', a, b) { ReceiveKeepsChannel(P, s, r, a, b); }
  }

  lemma InitInv<S(!new), M(!new)>(P: Protocol<S, M>, s: Net<S, M>)
    requires Init(P, s)
    ensures Inv(P, s)
  {
    forall a: nat, b: nat | a < P.p && b < P.p ensures ChannelAt(P, s, a, b) { }
  }

  lemma NextInv<S(!new), M(!new)>(P: Protocol<S, M>, s: Net<S, M>, s': Net<S, M>)
    requires Matched(P) && Inv(P, s) && Next(P, s, s')
    ensures Inv(P, s')
  {
    var r: nat :| (CanSend(P, s, r) && s' == Send(P, s, r)) || (CanReceive(P, s, r) && s' == Receive(P, s, r));
    if CanSend(P, s, r) && s' == Send(P, s, r) {
      SendInv(P, s, r);
    } else {
      ReceiveInv(P, s, r);
    }
  }

  lemma {:induction false} RunInv<S(!new), M(!new)>(P: Protocol<S, M>, run: seq<Net<S, M>>)
    requires Matched(P) && Run(P, run)
    ensures Inv(P, run[|run| - 1])
    decreases |run|
  {
    if |run| == 1 {
      InitInv(P, run[0]);
    } else {
      RunInv(P, run[..|run| - 1]);
      assert Next(P, run[|run| - 2], run[|run| - 1]);
      NextInv(P, run[|run| - 2], run[|run| - 1]);
    }
  }

  // ----- main results -----

  /** Whatever the interleaving, a rank that has finished k rounds is in its lockstep state. */
  lemma RunsAgreeWithLockstep<S(!new), M(!new)>(P: Protocol<S, M>, run: seq<Net<S, M>>, r: nat)
    requires Matched(P) && Run(P, run) && r < P.p
    ensures var s := run[|run| - 1];
            Shape(P, s) && s.done[r] <= P.rounds && s.local[r] == Sync(P, s.done[r], r)
  {
    RunInv(P, run);
    assert RankInv(P, run[|run| - 1], r);
  }

  /** No reachable state is stuck before every rank has finished. */
  lemma NeverStuck<S(!new), M(!new)>(P: Protocol<S, M>, run: seq<Net<S, M>>)
    requires Matched(P) && Run(P, run)
    ensures var s := run[|run| - 1];
            Shape(P, s) && (AllDone(P, s) <==> Stuck(P, s))
  {
    RunInv(P, run);
    var s := run[|run| - 1];
    if AllDone(P, s) {
      forall r: nat ensures !CanSend(P, s, r) && !CanReceive(P, s, r) {
      }
    } else {
      var r :| 0 <= r < P.p && s.done[r] != P.rounds;
      assert RankInv(P, s, r);
      var m := Slowest(s.done, r);
      assert RankInv(P, s, m);
      var k := s.done[m];
      if s.sent[m] == k {
        assert CanSend(P, s, m);
        assert Next(P, s, Send(P, s, m));
      } else {
        var a := P.from(k, m);
        assert MatchedAt(P, k, m);
        assert RankInv(P, s, a);
        if s.sent[a] == k {
          assert CanSend(P, s, a);
          assert Next(P, s, Send(P, s, a));
        } else {
          assert ChannelAt(P, s, a, m);
          assert CanReceive(P, s, m);
          assert Next(P, s, Receive(P, s, m));
        }
      }
    }
  }

  /** When all ranks have finished no message is left in any channel. */
  lemma NoMessageLeft<S(!new), M(!new)>(P: Protocol<S, M>, run: seq<Net<S, M>>)
    requires Matched(P) && Run(P, run)
    requires Shape(P, run[|run| - 1]) && AllDone(P, run[|run| - 1])
    ensures NoMessages(P, run[|run| - 1])
  {
    RunInv(P, run);
    var s := run[|run| - 1];
    forall a: nat, b: nat | a < P.p && b < P.p ensures s.Queue(a, b) == [] {
      assert RankInv(P, s, a);
      assert ChannelAt(P, s, a, b);
    }
  }

  /** The index of a state in a run is the number of half-rounds done so far. */
  lemma {:induction false} StepsAreHalfRounds<S(!new), M(!new)>(P: Protocol<S, M>, run: seq<Net<S, M>>)
    requires Matched(P) && Run(P, run)
    ensures |run| - 1 == Sum(run[|run| - 1].sent) + Sum(run[|run| - 1].done)
    decreases |run|
  {
    if |run| == 1 {
      SumBound(run[0].sent, 0);
      SumBound(run[0].done, 0);
    } else {
      StepsAreHalfRounds(P, run[..|run| - 1]);
      NextIsHalfRound(P, run[|run| - 2], run[|run| - 1]);
    }
  }

  lemma NextIsHalfRound<S(!new), M(!new)>(P: Protocol<S, M>, s: Net<S, M>, s': Net<S, M>)
    requires Next(P, s, s')
    ensures Sum(s'.sent) + Sum(s'.done) == Sum(s.sent) + Sum(s.done) + 1
  {
    if r: nat :| CanSend(P, s, r) && s' == Send(P, s, r) {
      SendIsHalfRound(P, s, r);
    } else {
      var r: nat :| CanReceive(P, s, r) && s' == Receive(P, s, r);
      ReceiveIsHalfRound(P, s, r);
    }
  }

  lemma SendIsHalfRound<S(!new), M(!new)>(P: Protocol<S, M>, s: Net<S, M>, r: nat)
    requires Shape(P, s) && CanSend(P, s, r)
    ensures Sum(Send(P, s, r).sent) == Sum(s.sent) + 1 && Send(P, s, r).done == s.done
  {
    SumUpdate(s.sent, r, s.sent[r] + 1);
  }

  lemma ReceiveIsHalfRound<S(!new), M(!new)>(P: Protocol<S, M>, s: Net<S, M>, r: nat)
    requires Shape(P, s) && CanReceive(P, s, r)
    ensures Sum(Receive(P, s, r).done) == Sum(s.done) + 1 && Receive(P, s, r).sent == s.sent
  {
    SumUpdate(s.done, r, s.done[r] + 1);
  }

  /** Every run stops: it has at most 2 * p * rounds steps, and exactly that many once all ranks are done. */
  lemma RunsAreBounded<S(!new), M(!new)>(P: Protocol<S, M>, run: seq<Net<S, M>>)
    requires Matched(P) && Run(P, run)
    ensures |run| - 1 <= 2 * (P.p * P.rounds)
    ensures Shape(P, run[|run| - 1])
    ensures |run| - 1 == 2 * (P.p * P.rounds) <==> AllDone(P, run[|run| - 1])
  {
    RunInv(P, run);
    var s := run[|run| - 1];
    StepsAreHalfRounds(P, run);
    forall r | 0 <= r < P.p ensures s.done[r] <= s.sent[r] <= P.rounds { assert RankInv(P, s, r); }
    SumBound(s.sent, P.rounds);
    SumBound(s.done, P.rounds);
    if AllDone(P, s) {
      SumOfEqual(s.sent, P.rounds);
      SumOfEqual(s.done, P.rounds);
    }
  }
}
