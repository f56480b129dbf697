/** The binomial broadcast of reprompi_collectives.c as asynchronous steps of all ranks. */
module BinomialBroadcast {
  import opened Options
  import opened Bits

  /** A rank receives from itself minus its top bit (rank 0: from itself). */
  function Parent(r: nat): (p: nat)
    ensures p <= r
  {
    if r == 0 then 0 else TopBitBounds(r); r - Pow2(BitLength(r) - 1)
  }

  /** The i-th rank a rank sends to, if it is a rank at all. */
  function Child(r: nat, i: nat): nat
  {
    r + Pow2(BitLength(r) + i)
  }

  /** Which of its parent's children a rank is. */
  function Slot(r: nat): nat
    requires r > 0
  {
    ParentIsShorter(r);
    BitLength(r) - 1 - BitLength(Parent(r))
  }

  lemma ParentIsShorter(r: nat)
    requires r > 0
    ensures BitLength(Parent(r)) < BitLength(r)
    ensures Parent(r) < r
  {
    TopBitBounds(r);
    var p := Parent(r);
    if p > 0 {
      TopBitBounds(p);
      if BitLength(p) >= BitLength(r) {
        Pow2Monotone(BitLength(r) - 1, BitLength(p) - 1);
      }
    }
  }

  /** Sends and receives pair up: r's i-th send goes to c exactly when c receives from r in that slot. */
  lemma SendsMatchReceives(r: nat, i: nat, c: nat)
    ensures c == Child(r, i) <==> c > 0 && Parent(c) == r && Slot(c) == i
  {
    ChildParent(r, i);
    if c > 0 {
      ParentIsShorter(c);
      ParentChild(c);
    }
  }

  lemma ChildParent(r: nat, i: nat)
    ensures Child(r, i) > 0 && BitLength(Child(r, i)) == BitLength(r) + i + 1 && Parent(Child(r, i)) == r
  {
    BitLengthBounds(r);
    Pow2Monotone(BitLength(r), BitLength(r) + i);
    BitLengthUnique(Child(r, i), BitLength(r) + i);
  }

  lemma ParentChild(c: nat)
    requires c > 0
    ensures Child(Parent(c), Slot(c)) == c
  {
    ParentIsShorter(c);
  }

  // ----- the asynchronous machine -----

  datatype Bcast<!V> = Bcast(
    got: seq<bool>,
    sent: seq<nat>,
    buffer: seq<V>,
    chan: map<(nat, nat), seq<V>>)
  {
    function Queue(a: nat, b: nat): seq<V>
    {
      if (a, b) in chan then chan[(a, b)] else []
    }
  }

  ghost predicate Shape<V>(size: nat, s: Bcast<V>)
  {
    |s.got| == |s.sent| == |s.buffer| == size
  }

  ghost predicate Init<V>(size: nat, s: Bcast<V>)
  {
    Shape(size, s) && s.chan == map[] && forall r :: 0 <= r < size ==> !s.got[r] && s.sent[r] == 0
  }

  /** The rank is past its receive. */
  ghost predicate Ready<V>(size: nat, root: nat, s: Bcast<V>, r: nat)
    requires Shape(size, s) && r < size
  {
    r == root || s.got[r]
  }

  ghost predicate CanReceive<V>(size: nat, root: nat, s: Bcast<V>, r: nat)
    requires Shape(size, s)
  {
    r < size && !Ready(size, root, s, r) && s.Queue(Parent(r), r) != []
  }

  ghost function Receive<V>(size: nat, root: nat, s: Bcast<V>, r: nat): Bcast<V>
    requires Shape(size, s) && CanReceive(size, root, s, r)
  {
    var q := s.Queue(Parent(r), r);
    s.(got := s.got[r := true], buffer := s.buffer[r := q[0]], chan := s.chan[(Parent(r), r) := q[1..]])
  }

  ghost predicate CanSend<V>(size: nat, root: nat, s: Bcast<V>, r: nat)
    requires Shape(size, s)
  {
    r < size && Ready(size, root, s, r) && Child(r, s.sent[r]) < size
  }

  ghost function Send<V>(size: nat, root: nat, s: Bcast<V>, r: nat): Bcast<V>
    requires Shape(size, s) && CanSend(size, root, s, r)
  {
    var c := Child(r, s.sent[r]);
    s.(sent := s.sent[r := s.sent[r] + 1], chan := s.chan[(r, c) := s.Queue(r, c) + [s.buffer[r]]])
  }

  ghost predicate Next<V(!new)>(size: nat, root: nat, s: Bcast<V>, s': Bcast<V>)
  {
    Shape(size, s) &&
    exists r: nat ::
      (CanReceive(size, root, s, r) && s' == Receive(size, root, s, r)) ||
      (CanSend(size, root, s, r) && s' == Send(size, root, s, r))
  }

  ghost predicate Run<V(!new)>(size: nat, root: nat, run: seq<Bcast<V>>)
  {
    && |run| > 0
    && Init(size, run[0])
    && forall i :: 0 < i < |run| ==> Next(size, root, run[i - 1], run[i])
  }

  ghost predicate Stuck<V(!new)>(size: nat, root: nat, s: Bcast<V>)
  {
    !exists s' :: Next(size, root, s, s')
  }

  /** The rank has returned from the broadcast. */
  ghost predicate Finished<V>(size: nat, root: nat, s: Bcast<V>, r: nat)
    requires Shape(size, s)
  {
    r < size && Ready(size, root, s, r) && Child(r, s.sent[r]) >= size
  }

  ghost predicate AllFinished<V>(size: nat, root: nat, s: Bcast<V>)
    requires Shape(size, s)
  {
    forall r: nat :: r < size ==> Finished(size, root, s, r)
  }

  // ----- root 0 -----

  /** Rank r's parent has sent to it. */
  ghost predicate SentTo<V>(size: nat, s: Bcast<V>, r: nat)
    requires Shape(size, s) && 0 < r < size
  {
    Slot(r) < s.sent[Parent(r)]
  }

  ghost predicate RankInv<V>(size: nat, v: V, s: Bcast<V>, r: nat)
    requires Shape(size, s) && r < size
  {
    && (r == 0 || s.got[r] ==> s.buffer[r] == v)
    && (r == 0 ==> !s.got[r])
    && (s.got[r] ==> SentTo(size, s, r))
    && (s.sent[r] > 0 ==> r == 0 || s.got[r])
    && (s.sent[r] > 0 ==> Child(r, s.sent[r] - 1) < size)
  }

  ghost predicate ChannelAt<V>(size: nat, v: V, s: Bcast<V>, a: nat, b: nat)
    requires Shape(size, s) && a < size && b < size
  {
    s.Queue(a, b) == if b > 0 && Parent(b) == a && SentTo(size, s, b) && !s.got[b] then [v] else []
  }

  ghost predicate Inv<V>(size: nat, v: V, s: Bcast<V>)
  {
    && Shape(size, s)
    && (forall r: nat {:trigger RankInv(size, v, s, r)} :: r < size ==> RankInv(size, v, s, r))
    && (forall a: nat, b: nat {:trigger ChannelAt(size, v, s, a, b)} :: a < size && b < size ==> ChannelAt(size, v, s, a, b))
  }

  lemma ReceiveInv<V>(size: nat, v: V, s: Bcast<V>, r: nat)
    requires Inv(size, v, s) && CanReceive(size, 0, s, r)
    ensures Inv(size, v, Receive(size, 0, s, r))
  {
    var s' := Receive(size, 0, s, r);
    assert ChannelAt(size, v, s, Parent(r), r);
    forall q: nat | q < size ensures RankInv(size, v, s', q) { assert RankInv(size, v, s, q); }
    forall a: nat, b: nat | a < size && b < size ensures ChannelAt(size, v, s', a, b) {
      assert ChannelAt(size, v, s, a, b);
      assert (a, b) == (Parent(r), r) || s'.Queue(a, b) == s.Queue(a, b);
    }
  }

  /** A send reaches exactly one new rank. */
  lemma SendReaches<V>(size: nat, s: Bcast<V>, r: nat)
    requires Shape(size, s) && CanSend(size, 0, s, r)
    ensures var c := Child(r, s.sent[r]); c > 0 && Parent(c) == r && !SentTo(size, s, c)
    ensures forall b: nat :: 0 < b < size ==>
      (SentTo(size, Send(size, 0, s, r), b) <==> SentTo(size, s, b) || b == Child(r, s.sent[r]))
  {
    SendsMatchReceives(r, s.sent[r], Child(r, s.sent[r]));
    forall b: nat | 0 < b < size
      ensures SentTo(size, Send(size, 0, s, r), b) <==> SentTo(size, s, b) || b == Child(r, s.sent[r])
    {
      SendsMatchReceives(r, s.sent[r], b);
    }
  }

  lemma SendKeepsRank<V>(size: nat, v: V, s: Bcast<V>, r: nat, q: nat)
    requires Shape(size, s) && CanSend(size, 0, s, r) && q < size
    requires RankInv(size, v, s, q)
    ensures RankInv(size, v, Send(size, 0, s, r), q)
  {
    if q > 0 {
      SendReaches(size, s, r);
    }
  }

  lemma SendKeepsChannel<V>(size: nat, v: V, s: Bcast<V>, r: nat, a: nat, b: nat)
    requires Shape(size, s) && CanSend(size, 0, s, r) && a < size && b < size
    requires RankInv(size, v, s, r) && RankInv(size, v, s, Child(r, s.sent[r]))
    requires ChannelAt(size, v, s, a, b)
    ensures ChannelAt(size, v, Send(size, 0, s, r), a, b)
  {
    var s', c := Send(size, 0, s, r), Child(r, s.sent[r]);
    SendReaches(size, s, r);
    if (a, b) == (r, c) {
      assert s.Queue(a, b) == [];
    } else {
      assert s'.Queue(a, b) == s.Queue(a, b);
    }
  }

  lemma SendInv<V>(size: nat, v: V, s: Bcast<V>, r: nat)
    requires Inv(size, v, s) && CanSend(size, 0, s, r)
    ensures Inv(size, v, Send(size, 0, s, r))
  {
    forall q: nat | q < size ensures RankInv(size, v, Send(size, 0, s, r), q) {
      SendKeepsRank(size, v, s, r, q);
    }
    forall a: nat, b: nat | a < size && b < size ensures ChannelAt(size, v, Send(size, 0, s, r), a, b) {
      assert RankInv(size, v, s, r) && RankInv(size, v, s, Child(r, s.sent[r]));
      SendKeepsChannel(size, v, s, r, a, b);
    }
  }

  lemma {:induction false} RunInv<V(!new)>(size: nat, run: seq<Bcast<V>>)
    requires size > 0 && Run(size, 0, run)
    ensures Inv(size, run[0].buffer[0], run[|run| - 1])
    decreases |run|
  {
    var v := run[0].buffer[0];
    if |run| == 1 {
      forall q: nat | q < size ensures RankInv(size, v, run[0], q) { }
      forall a: nat, b: nat | a < size && b < size ensures ChannelAt(size, v, run[0], a, b) { }
    } else {
      RunInv(size, run[..|run| - 1]);
      var s, s' := run[|run| - 2], run[|run| - 1];
      assert Next(size, 0, s, s');
      if r: nat :| CanReceive(size, 0, s, r) && s' == Receive(size, 0, s, r) {
        ReceiveInv(size, v, s, r);
      } else {
        var r: nat :| CanSend(size, 0, s, r) && s' == Send(size, 0, s, r);
        SendInv(size, v, s, r);
      }
    }
  }

  // ----- main results -----

  /** With root 0, a rank that has returned holds the root's value, in every interleaving. */
  lemma EveryRankGetsTheRootsValue<V(!new)>(size: nat, run: seq<Bcast<V>>, r: nat)
    requires Run(size, 0, run) && r < size && Shape(size, run[|run| - 1])
    requires Finished(size, 0, run[|run| - 1], r)
    ensures run[|run| - 1].buffer[r] == run[0].buffer[0]
  {
    RunInv(size, run);
    assert RankInv(size, run[0].buffer[0], run[|run| - 1], r);
  }

  /** With root 0, a state without a next step is one in which every rank has returned, and then no
      message is left. */
  lemma BroadcastNeverStuck<V(!new)>(size: nat, run: seq<Bcast<V>>)
    requires size > 0 && Run(size, 0, run)
    ensures var s := run[|run| - 1]; Shape(size, s) && (Stuck(size, 0, s) <==> AllFinished(size, 0, s))
    ensures var s := run[|run| - 1];
            Stuck(size, 0, s) ==> forall a: nat, b: nat :: a < size && b < size ==> s.Queue(a, b) == []
  {
    RunInv(size, run);
    var v, s := run[0].buffer[0], run[|run| - 1];
    if AllFinished(size, 0, s) {
      forall r: nat ensures !CanReceive(size, 0, s, r) && !CanSend(size, 0, s, r) {
        if r < size {
          assert Finished(size, 0, s, r);
        }
      }
      forall a: nat, b: nat | a < size && b < size ensures s.Queue(a, b) == [] {
        assert ChannelAt(size, v, s, a, b);
        assert Finished(size, 0, s, b);
      }
    } else {
      var r0: nat :| r0 < size && !Finished(size, 0, s, r0);
      var r := LeastUnfinished(size, s, r0);
      UnfinishedCanMove(size, v, s, r);
    }
  }

  lemma {:induction false} LeastUnfinished<V>(size: nat, s: Bcast<V>, r0: nat) returns (r: nat)
    requires Shape(size, s) && r0 < size && !Finished(size, 0, s, r0)
    ensures r < size && !Finished(size, 0, s, r)
    ensures forall q: nat :: q < r ==> Finished(size, 0, s, q)
  {
    if q: nat :| q < r0 && !Finished(size, 0, s, q) {
      r := LeastUnfinished(size, s, q);
    } else {
      r := r0;
    }
  }

  lemma UnfinishedCanMove<V(!new)>(size: nat, v: V, s: Bcast<V>, r: nat)
    requires Inv(size, v, s) && r < size && !Finished(size, 0, s, r)
    requires forall q: nat :: q < r ==> Finished(size, 0, s, q)
    ensures !Stuck(size, 0, s)
  {
    if Ready(size, 0, s, r) {
      assert Next(size, 0, s, Send(size, 0, s, r));
    } else {
      var p := Parent(r);
      ParentIsShorter(r);
      assert Finished(size, 0, s, p);
      assert SentTo(size, s, r) by {
        SendsMatchReceives(p, Slot(r), r);
        if s.sent[p] <= Slot(r) {
          Pow2Monotone(BitLength(p) + s.sent[p], BitLength(p) + Slot(r));
        }
      }
      assert ChannelAt(size, v, s, p, r);
      assert Next(size, 0, s, Receive(size, 0, s, r));
    }
  }

  ghost function Reached<V>(size: nat, s: Bcast<V>): set<nat>
    requires Shape(size, s)
  {
    set r: nat | 0 < r < size && SentTo(size, s, r)
  }

  ghost function Gotten<V>(size: nat, s: Bcast<V>): set<nat>
    requires Shape(size, s)
  {
    set r: nat | 0 < r < size && s.got[r]
  }

  /** Every step is the one send to some rank or the one receive of some rank: with root 0 a run has at
      most 2 * (size - 1) steps. */
  lemma {:induction false} RunsAreBounded<V(!new)>(size: nat, run: seq<Bcast<V>>)
    requires size > 0 && Run(size, 0, run)
    ensures Shape(size, run[|run| - 1])
    ensures |run| - 1 == |Reached(size, run[|run| - 1])| + |Gotten(size, run[|run| - 1])| <= 2 * (size - 1)
    decreases |run|
  {
    RunInv(size, run);
    var s' := run[|run| - 1];
    if |run| == 1 {
      assert Reached(size, s') == {} && Gotten(size, s') == {};
    } else {
      RunsAreBounded(size, run[..|run| - 1]);
      RunInv(size, run[..|run| - 1]);
      StepCounts(size, run[0].buffer[0], run[|run| - 2], s');
    }
    RanksBelow(size);
    SubsetSize(Reached(size, s'), Others(size));
    SubsetSize(Gotten(size, s'), Others(size));
  }

  lemma StepCounts<V(!new)>(size: nat, v: V, s: Bcast<V>, s': Bcast<V>)
    requires Inv(size, v, s) && Next(size, 0, s, s')
    ensures Shape(size, s')
    ensures |Reached(size, s')| + |Gotten(size, s')| == |Reached(size, s)| + |Gotten(size, s)| + 1
  {
    if r: nat :| CanReceive(size, 0, s, r) && s' == Receive(size, 0, s, r) {
      ReceiveCounts(size, v, s, r);
    } else {
      var r: nat :| CanSend(size, 0, s, r) && s' == Send(size, 0, s, r);
      SendCounts(size, v, s, r);
    }
  }

  lemma ReceiveCounts<V>(size: nat, v: V, s: Bcast<V>, r: nat)
    requires Inv(size, v, s) && CanReceive(size, 0, s, r)
    ensures var s' := Receive(size, 0, s, r);
            Reached(size, s') == Reached(size, s) && |Gotten(size, s')| == |Gotten(size, s)| + 1
  {
    var s' := Receive(size, 0, s, r);
    assert Reached(size, s') == Reached(size, s);
    assert Gotten(size, s') == Gotten(size, s) + {r};
  }

  lemma SendCounts<V>(size: nat, v: V, s: Bcast<V>, r: nat)
    requires Inv(size, v, s) && CanSend(size, 0, s, r)
    ensures var s' := Send(size, 0, s, r);
            |Reached(size, s')| == |Reached(size, s)| + 1 && Gotten(size, s') == Gotten(size, s)
  {
    var s' := Send(size, 0, s, r);
    SendReaches(size, s, r);
    assert Gotten(size, s') == Gotten(size, s);
    assert Reached(size, s') == Reached(size, s) + {Child(r, s.sent[r])};
  }

  /** All ranks but rank 0. */
  ghost function Others(size: nat): set<nat>
  {
    if size <= 1 then {} else Others(size - 1) + {size - 1}
  }

  lemma {:induction false} RanksBelow(size: nat)
    requires size > 0
    ensures |Others(size)| == size - 1
    ensures forall r: nat :: r in Others(size) <==> 0 < r < size
  {
    if size > 1 {
      RanksBelow(size - 1);
    }
  }

  lemma {:induction false} SubsetSize<T>(a: set<T>, b: set<T>)
    requires a <= b
    ensures |a| <= |b|
  {
    if a != {} {
      var x :| x in a;
      SubsetSize(a - {x}, b - {x});
    }
  }

  // ----- other roots -----

  ghost predicate RankZeroWaits<V>(size: nat, s: Bcast<V>)
  {
    Shape(size, s) && size > 0 && !s.got[0] && s.Queue(0, 0) == []
  }

  lemma {:induction false} RankZeroWaitsForever<V(!new)>(size: nat, root: nat, run: seq<Bcast<V>>)
    requires 0 < root < size && Run(size, root, run)
    ensures RankZeroWaits(size, run[|run| - 1])
    decreases |run|
  {
    if |run| > 1 {
      RankZeroWaitsForever(size, root, run[..|run| - 1]);
      assert Next(size, root, run[|run| - 2], run[|run| - 1]);
    }
  }

  /** The code does not renumber the ranks: the broadcast can finish exactly when the root is rank 0. */
  lemma FinishesExactlyFromRootZero<V(!new)>(size: nat, root: nat, run: seq<Bcast<V>>)
    requires root < size && Run(size, root, run) && Shape(size, run[|run| - 1])
    requires Stuck(size, root, run[|run| - 1])
    ensures AllFinished(size, root, run[|run| - 1]) <==> root == 0
  {
    if root == 0 {
      BroadcastNeverStuck(size, run);
    } else {
      RankZeroWaitsForever(size, root, run);
      assert !Finished(size, root, run[|run| - 1], 0);
    }
  }

  // ----- the code of one rank -----

  /** The loop that finds the rank's top bit (dd) and the power of two above it (d). */
  method TopBit(rank: nat) returns (d: nat, dd: nat)
    ensures d == Pow2(BitLength(rank)) && rank - dd == Parent(rank)
  {
    d, dd := 1, 0;
    ghost var j := 0;
    while rank >= d
      invariant d == Pow2(j) && dd == (if j == 0 then 0 else Pow2(j - 1))
      invariant j > 0 ==> Pow2(j - 1) <= rank
      decreases rank - d
    {
      dd := d;
      d := 2 * d;
      j := j + 1;
    }
    if j > 0 { BitLengthUnique(rank, j - 1); }
  }

  /** The i-th send goes to the i-th child, and all of them are ranks. */
  predicate ListsChildren(rank: nat, size: nat, sends: seq<nat>)
  {
    forall i: nat {:trigger sends[i]} :: i < |sends| ==> sends[i] == Child(rank, i) < size
  }

  /** The sending loop of a rank: all its children below size, in order. */
  method SendLoop(rank: nat, size: nat, first: nat) returns (sends: seq<nat>)
    requires first == Child(rank, 0) - rank
    ensures ListsChildren(rank, size, sends) && Child(rank, |sends|) >= size
  {
    var d := first;
    sends := [];
    while rank + d < size
      invariant rank + d == Child(rank, |sends|) && d > 0
      invariant ListsChildren(rank, size, sends)
      decreases size - d
    {
      sends := sends + [rank + d];
      d := 2 * d;
    }
  }

  /** One rank's broadcast: whom it receives from (if at all), its buffer afterwards, and whom it sends
      that buffer to, in order. */
  method BcastBinomial<V>(rank: nat, size: nat, root: nat, buffer: V, incoming: V)
    returns (source: Option<nat>, result: V, sends: seq<nat>)
    requires rank < size
    ensures source.None? <==> rank == root
    ensures source.Some? ==> source.value == Parent(rank)
    ensures result == if rank != root then incoming else buffer
    ensures ListsChildren(rank, size, sends) && Child(rank, |sends|) >= size
  {
    var d, dd := TopBit(rank);
    if rank != root {
      source, result := Some(rank - dd), incoming;
    } else {
      source, result := None, buffer;
    }
    assert Child(rank, 0) == rank + d;
    sends := SendLoop(rank, size, d);
  }

  lemma {:induction false} ChildrenAscend(r: nat, i: nat, j: nat)
    requires i < j
    ensures Child(r, i) < Child(r, j)
  {
    Pow2Monotone(BitLength(r) + i, BitLength(r) + j);
  }

  lemma SameCount(size: nat, r: nat, m: nat, n: nat)
    requires Child(r, m) >= size && (m > 0 ==> Child(r, m - 1) < size)
    requires Child(r, n) >= size && (n > 0 ==> Child(r, n - 1) < size)
    ensures m == n
  {
    if m < n - 1 {
      ChildrenAscend(r, m, n - 1);
    } else if n < m - 1 {
      ChildrenAscend(r, n, m - 1);
    }
  }

  /** The two loops are the machine's program of a rank: when a rank has returned, it has taken exactly the
      sends its sending loop lists, those go to exactly the ranks that wait for it, and what it passes on is
      what it received, the root's value. */
  lemma FinishedRankFollowsLoops<V(!new)>(size: nat, run: seq<Bcast<V>>, r: nat, sends: seq<nat>)
    requires Run(size, 0, run) && r < size && Shape(size, run[|run| - 1])
    requires Finished(size, 0, run[|run| - 1], r)
    requires ListsChildren(r, size, sends) && Child(r, |sends|) >= size
    ensures run[|run| - 1].sent[r] == |sends|
    ensures run[|run| - 1].buffer[r] == run[0].buffer[0]
    ensures forall c: nat :: 0 < c < size ==>
      (c in sends <==> Parent(c) == r) && (c in sends ==> SentTo(size, run[|run| - 1], c))
  {
    var s := run[|run| - 1];
    RunInv(size, run);
    EveryRankGetsTheRootsValue(size, run, r);
    assert RankInv(size, run[0].buffer[0], s, r);
    assert |sends| > 0 ==> sends[|sends| - 1] == Child(r, |sends| - 1);
    SameCount(size, r, s.sent[r], |sends|);
    forall c: nat | 0 < c < size
      ensures (c in sends <==> Parent(c) == r) && (c in sends ==> SentTo(size, s, c))
    {
      if c in sends {
        var i: nat :| i < |sends| && sends[i] == c;
        SendsMatchReceives(r, i, c);
      }
      if Parent(c) == r {
        SendsMatchReceives(r, Slot(c), c);
        if Slot(c) > |sends| { ChildrenAscend(r, |sends|, Slot(c)); }
        assert sends[Slot(c)] == c;
      }
    }
  }
}
