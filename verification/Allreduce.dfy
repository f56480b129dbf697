/** The circulant Allreduce of reprompi_collectives.c: ceil(log2 size) rounds steered by the binary
    digits of size - 1, for any associative and commutative operation. */
module Allreduce {
  import opened Options
  import opened Bits
  import opened Ranks
  import opened RoundExchange

  /** recvbuf and partbuf of one rank; None is memory that was never written. */
  datatype Buffers<+T> = Buffers(recv: Option<T>, part: Option<T>)

  ghost predicate AssociativeCommutative<T(!new)>(op: (T, T) -> T)
  {
    && (forall a, b, c {:trigger AssociativeAt(op, a, b, c)} :: AssociativeAt(op, a, b, c))
    && (forall a, b {:trigger CommutativeAt(op, a, b)} :: CommutativeAt(op, a, b))
  }

  ghost predicate AssociativeAt<T>(op: (T, T) -> T, a: T, b: T, c: T)
  {
    op(op(a, b), c) == op(a, op(b, c))
  }

  ghost predicate CommutativeAt<T>(op: (T, T) -> T, a: T, b: T)
  {
    op(a, b) == op(b, a)
  }

  function ReduceLocal<T>(op: (T, T) -> T, input: Option<T>, inout: Option<T>): Option<T>
  {
    if input.Some? && inout.Some? then Some(op(input.value, inout.value)) else None
  }

  // ----- the schedule -----

  function Rounds(size: nat): nat
  {
    if size == 0 then 0 else BitLength(size - 1)
  }

  /** The first k binary digits of n. */
  function Prefix(n: nat, k: nat): nat
  {
    if k <= BitLength(n) then Shr(n, BitLength(n) - k) else n
  }

  /** Digit number k of n, counted from the top. */
  function Digit(n: nat, k: nat): nat
  {
    if k < BitLength(n) then Shr(n, BitLength(n) - 1 - k) % 2 else 0
  }

  /** How many ranks' inputs the message of round k carries; also the distance it travels. */
  function Block(n: nat, k: nat): nat
  {
    Prefix(n, k) + Digit(n, k)
  }

  function Emit<T>(n: nat, k: nat, s: Buffers<T>): Option<T>
  {
    if Digit(n, k) == 1 then s.recv else s.part
  }

  /** In the first round the message lands in partbuf itself. */
  function Absorb<T>(op: (T, T) -> T, k: nat, s: Buffers<T>, m: Option<T>): Buffers<T>
  {
    Buffers(ReduceLocal(op, m, s.recv), if k == 0 then m else ReduceLocal(op, m, s.part))
  }

  /** The Allreduce of the inputs x as a round protocol. */
  function Circulant<T>(op: (T, T) -> T, x: seq<T>): Protocol<Buffers<T>, Option<T>>
  {
    var size := |x|;
    var n := if size == 0 then 0 else size - 1;
    Protocol(size, Rounds(size),
             (k: nat, r: nat) => Behind(size, r, Block(n, k)),
             (k: nat, r: nat) => Ahead(size, r, Block(n, k)),
             (r: nat) => Buffers(if r < |x| then Some(x[r]) else None, None),
             (k: nat, s: Buffers<T>) => Emit(n, k, s),
             (k: nat, s: Buffers<T>, m: Option<T>) => Absorb(op, k, s, m))
  }

  lemma PrefixStep(n: nat, k: nat)
    requires k < BitLength(n)
    ensures Prefix(n, k + 1) == 2 * Prefix(n, k) + Digit(n, k)
    ensures Prefix(n, 0) == 0
    ensures k == 0 ==> Digit(n, k) == 1
    ensures k > 0 ==> Prefix(n, k) > 0
    ensures Prefix(n, k) <= n && Prefix(n, k + 1) <= n
  {
    var len := BitLength(n);
    ShrShr(n, len - 1 - k, 1);
    assert Shr(Prefix(n, k + 1), 1) == Shr(Prefix(n, k + 1) / 2, 0);
    PrefixStart(n);
    PrefixBounds(n, k);
    PrefixBounds(n, k + 1);
  }

  lemma PrefixStart(n: nat)
    requires n > 0
    ensures Prefix(n, 0) == 0 && Prefix(n, 1) == 1 && Digit(n, 0) == 1
  {
    BitLengthBounds(n);
    ShrBelow(n, BitLength(n));
    ShrTop(n, BitLength(n) - 1);
  }

  lemma PrefixEnd(n: nat)
    ensures Prefix(n, BitLength(n)) == n
  {
  }

  lemma PrefixBounds(n: nat, k: nat)
    requires n > 0 && k <= BitLength(n)
    ensures Prefix(n, k) <= n
    ensures k > 0 ==> Prefix(n, k) > 0
  {
    ShrShrinks(n, BitLength(n) - k);
    if k > 0 { PrefixPositive(n, k); }
  }

  lemma PrefixPositive(n: nat, k: nat)
    requires 0 < k <= BitLength(n)
    ensures Prefix(n, k) > 0
  {
    BitLengthBounds(n);
    Pow2Monotone(BitLength(n) - k, BitLength(n) - 1);
    ShrPositive(n, BitLength(n) - k);
  }

  lemma {:induction false} ShrPositive(n: nat, k: nat)
    requires Pow2(k) <= n
    ensures Shr(n, k) > 0
  {
    if k > 0 {
      ShrPositive(n / 2, k - 1);
    }
  }

  lemma {:induction false} ShrShrinks(n: nat, k: nat)
    ensures Shr(n, k) <= n
  {
    if k > 0 {
      ShrShrinks(n / 2, k - 1);
    }
  }

  // ----- ranges of inputs -----

  /** The left-to-right reduction of a non-empty sequence. */
  ghost function Reduce<T>(op: (T, T) -> T, x: seq<T>): T
    requires |x| > 0
  {
    if |x| == 1 then x[0] else op(x[0], Reduce(op, x[1..]))
  }

  /** x[start], x[start+1], ... (len of them) with indices modulo |x|. */
  ghost function Ring<T>(x: seq<T>, start: nat, len: nat): (s: seq<T>)
    requires start + len <= 2 * |x|
    ensures |s| == len
  {
    (x + x)[start..start + len]
  }

  lemma {:induction false} ReduceConcat<T(!new)>(op: (T, T) -> T, s: seq<T>, t: seq<T>)
    requires AssociativeCommutative(op) && |s| > 0 && |t| > 0
    ensures Reduce(op, s + t) == op(Reduce(op, s), Reduce(op, t))
    decreases |s|
  {
    assert (s + t)[1..] == s[1..] + t;
    if |s| > 1 {
      ReduceConcat(op, s[1..], t);
      assert AssociativeAt(op, s[0], Reduce(op, s[1..]), Reduce(op, t));
    } else {
      assert s[1..] + t == t;
    }
  }

  /** Two adjacent ranges combine into one, in either order. */
  lemma RingConcat<T(!new)>(op: (T, T) -> T, x: seq<T>, start: nat, a: nat, b: nat)
    requires AssociativeCommutative(op) && a > 0 && b > 0 && start + a + b <= 2 * |x|
    ensures op(Reduce(op, Ring(x, start + a, b)), Reduce(op, Ring(x, start, a))) == Reduce(op, Ring(x, start, a + b))
  {
    var s, t := Ring(x, start, a), Ring(x, start + a, b);
    assert s + t == Ring(x, start, a + b);
    ReduceConcat(op, s, t);
    assert CommutativeAt(op, Reduce(op, s), Reduce(op, t));
  }

  lemma RingPeriodic<T>(x: seq<T>, start: nat, len: nat)
    requires start + len <= |x|
    ensures Ring(x, start + |x|, len) == Ring(x, start, len)
  {
  }

  /** A range that starts d ranks further on, seen from the rank it starts at. */
  lemma RingFrom<T>(x: seq<T>, r: nat, d: nat, from: nat, len: nat)
    requires r < |x| && from == (if r + d < |x| then r + d else r + d - |x|) && r + d + len <= 2 * |x|
    requires d <= |x| && from + len <= 2 * |x|
    ensures Ring(x, r + d, len) == Ring(x, from, len)
  {
    if from != r + d { RingPeriodic(x, from, len); }
  }

  /** A full turn of the circle is the reduction over all inputs, wherever it starts. */
  lemma FullTurn<T(!new)>(op: (T, T) -> T, x: seq<T>, r: nat)
    requires AssociativeCommutative(op) && r < |x|
    ensures Reduce(op, Ring(x, r, |x|)) == Reduce(op, x)
  {
    RingSplit(x, r);
    if r == 0 {
      assert x[r..] + x[..r] == x;
    } else {
      ReduceConcat(op, x[..r], x[r..]);
      ReduceConcat(op, x[r..], x[..r]);
      assert CommutativeAt(op, Reduce(op, x[..r]), Reduce(op, x[r..]));
    }
  }

  lemma RingSplit<T>(x: seq<T>, r: nat)
    requires r < |x|
    ensures x == x[..r] + x[r..]
    ensures Ring(x, r, |x|) == x[r..] + x[..r]
  {
  }

  // ----- correctness of the rounds -----

  lemma CirculantMatched<T(!new)>(op: (T, T) -> T, x: seq<T>)
    ensures Matched(Circulant(op, x))
  {
    var P := Circulant(op, x);
    forall k: nat, r: nat | k < P.rounds && r < P.p ensures MatchedAt(P, k, r) {
      PrefixStep(|x| - 1, k);
      AheadBehind(|x|, r, Block(|x| - 1, k));
    }
  }

  /** After k rounds rank r holds the reduction of the c0 + 1 inputs from its own rank onwards, and of
      the same range without its own input; c0 is the number formed by the digits read so far. */
  ghost predicate Holds<T>(op: (T, T) -> T, x: seq<T>, k: nat, r: nat, s: Buffers<T>)
    requires r < |x|
  {
    HoldsRange(op, x, Prefix(|x| - 1, k), r, s)
  }

  ghost predicate HoldsRange<T>(op: (T, T) -> T, x: seq<T>, c0: nat, r: nat, s: Buffers<T>)
    requires r < |x|
  {
    && c0 < |x|
    && s.recv == Some(Reduce(op, Ring(x, r, c0 + 1)))
    && s.part == if c0 == 0 then None else Some(Reduce(op, Ring(x, r + 1, c0)))
  }

  /** A round whose digit is one: the partner's receive buffer arrives. */
  lemma OneRound<T(!new)>(op: (T, T) -> T, x: seq<T>, k: nat, c0: nat, r: nat, s: Buffers<T>, from: nat, sFrom: Buffers<T>)
    requires AssociativeCommutative(op) && r < |x| && from < |x| && 2 * c0 + 1 < |x| && (k == 0 <==> c0 == 0)
    requires from == if r + c0 + 1 < |x| then r + c0 + 1 else r + c0 + 1 - |x|
    requires HoldsRange(op, x, c0, r, s) && HoldsRange(op, x, c0, from, sFrom)
    ensures HoldsRange(op, x, 2 * c0 + 1, r, Absorb(op, k, s, sFrom.recv))
  {
    RingFrom(x, r, c0 + 1, from, c0 + 1);
    RingConcat(op, x, r, c0 + 1, c0 + 1);
    if c0 > 0 {
      RingConcat(op, x, r + 1, c0, c0 + 1);
    }
  }

  /** A round whose digit is zero: the partner's partial buffer arrives. */
  lemma ZeroRound<T(!new)>(op: (T, T) -> T, x: seq<T>, k: nat, c0: nat, r: nat, s: Buffers<T>, from: nat, sFrom: Buffers<T>)
    requires AssociativeCommutative(op) && r < |x| && from < |x| && 2 * c0 < |x| && 0 < c0 && 0 < k
    requires from == if r + c0 < |x| then r + c0 else r + c0 - |x|
    requires HoldsRange(op, x, c0, r, s) && HoldsRange(op, x, c0, from, sFrom)
    ensures HoldsRange(op, x, 2 * c0, r, Absorb(op, k, s, sFrom.part))
  {
    if from == r + c0 {
    } else {
      RingPeriodic(x, from + 1, c0);
    }
    RingConcat(op, x, r, c0 + 1, c0);
    RingConcat(op, x, r + 1, c0, c0);
  }

  /** A round with its digit as a number. */
  lemma DigitRound<T(!new)>(op: (T, T) -> T, x: seq<T>, k: nat, c0: nat, digit: nat, r: nat, s: Buffers<T>, from: nat, sFrom: Buffers<T>)
    requires AssociativeCommutative(op) && r < |x| && from < |x|
    requires digit <= 1 && 2 * c0 + digit < |x| && (k == 0 <==> c0 == 0) && (k == 0 ==> digit == 1)
    requires from == Ahead(|x|, r, c0 + digit)
    requires HoldsRange(op, x, c0, r, s) && HoldsRange(op, x, c0, from, sFrom)
    ensures HoldsRange(op, x, 2 * c0 + digit, r, Absorb(op, k, s, if digit == 1 then sFrom.recv else sFrom.part))
  {
    AheadBehind(|x|, r, c0 + digit);
    if digit == 1 {
      OneRound(op, x, k, c0, r, s, from, sFrom);
    } else {
      ZeroRound(op, x, k, c0, r, s, from, sFrom);
    }
  }

  lemma RoundHolds<T(!new)>(op: (T, T) -> T, x: seq<T>, k: nat, r: nat, s: Buffers<T>, from: nat, sFrom: Buffers<T>)
    requires AssociativeCommutative(op) && r < |x| && from < |x| && k < Rounds(|x|)
    requires from == Ahead(|x|, r, Block(|x| - 1, k))
    requires Holds(op, x, k, r, s) && Holds(op, x, k, from, sFrom)
    ensures Holds(op, x, k + 1, r, Absorb(op, k, s, Emit(|x| - 1, k, sFrom)))
  {
    PrefixStep(|x| - 1, k);
    DigitRound(op, x, k, Prefix(|x| - 1, k), Digit(|x| - 1, k), r, s, from, sFrom);
  }

  lemma SyncUnfold<T(!new)>(op: (T, T) -> T, x: seq<T>, k: nat, r: nat)
    requires |x| > 0
    ensures var P, from := Circulant(op, x), Ahead(|x|, r, Block(|x| - 1, k));
            Sync(P, k + 1, r) == Absorb(op, k, Sync(P, k, r), Emit(|x| - 1, k, Sync(P, k, from)))
  {
  }

  lemma {:induction false} SyncHolds<T(!new)>(op: (T, T) -> T, x: seq<T>, k: nat, r: nat)
    requires AssociativeCommutative(op) && r < |x| && k <= Rounds(|x|)
    ensures Holds(op, x, k, r, Sync(Circulant(op, x), k, r))
    decreases k
  {
    if k == 0 {
      if |x| > 1 { PrefixStart(|x| - 1); }
      assert Ring(x, r, 1) == [x[r]];
    } else {
      SyncHoldsStep(op, x, k - 1, r);
    }
  }

  lemma {:induction false} SyncHoldsStep<T(!new)>(op: (T, T) -> T, x: seq<T>, k: nat, r: nat)
    requires AssociativeCommutative(op) && r < |x| && k < Rounds(|x|)
    ensures Holds(op, x, k + 1, r, Sync(Circulant(op, x), k + 1, r))
    decreases k + 1, 0
  {
    var P := Circulant(op, x);
    var from := Ahead(|x|, r, Block(|x| - 1, k));
    assert from < |x| by {
      PrefixStep(|x| - 1, k);
      AheadBehind(|x|, r, Block(|x| - 1, k));
    }
    SyncHolds(op, x, k, r);
    SyncHolds(op, x, k, from);
    RoundHolds(op, x, k, r, Sync(P, k, r), from, Sync(P, k, from));
    SyncUnfold(op, x, k, r);
  }

  lemma HoldsAtEnd<T(!new)>(op: (T, T) -> T, x: seq<T>, r: nat, s: Buffers<T>)
    requires AssociativeCommutative(op) && r < |x| && Holds(op, x, Rounds(|x|), r, s)
    ensures s.recv == Some(Reduce(op, x))
  {
    var n := |x| - 1;
    PrefixEnd(n);
    assert Prefix(n, Rounds(|x|)) == n && HoldsRange(op, x, n, r, s);
    FullTurn(op, x, r);
  }

  // ----- main results -----

  /** In every reachable state of every interleaving, each rank's buffers are the two ranges that belong
      to the rounds it has finished. */
  lemma BuffersHoldRanges<T(!new)>(op: (T, T) -> T, x: seq<T>, run: seq<Net<Buffers<T>, Option<T>>>, r: nat)
    requires AssociativeCommutative(op) && r < |x| && Run(Circulant(op, x), run)
    ensures var s := run[|run| - 1];
            Shape(Circulant(op, x), s) && s.done[r] <= Rounds(|x|) && Holds(op, x, s.done[r], r, s.local[r])
  {
    CirculantMatched(op, x);
    RunsAgreeWithLockstep(Circulant(op, x), run, r);
    SyncHolds(op, x, run[|run| - 1].done[r], r);
  }

  /** Allreduce is correct: a rank that has finished has the reduction over all inputs, each used once. */
  lemma AllreduceCorrect<T(!new)>(op: (T, T) -> T, x: seq<T>, run: seq<Net<Buffers<T>, Option<T>>>, r: nat)
    requires AssociativeCommutative(op) && r < |x| && Run(Circulant(op, x), run)
    requires Shape(Circulant(op, x), run[|run| - 1]) && run[|run| - 1].done[r] == Rounds(|x|)
    ensures run[|run| - 1].local[r].recv == Some(Reduce(op, x))
  {
    BuffersHoldRanges(op, x, run, r);
    HoldsAtEnd(op, x, r, run[|run| - 1].local[r]);
  }

  /** partbuf is never sent before it was written. */
  lemma MessagesAreInitialised<T(!new)>(op: (T, T) -> T, x: seq<T>, run: seq<Net<Buffers<T>, Option<T>>>, r: nat)
    requires AssociativeCommutative(op) && r < |x| && Run(Circulant(op, x), run)
    ensures Shape(Circulant(op, x), run[|run| - 1])
    ensures var s := run[|run| - 1];
            s.done[r] < Rounds(|x|) ==> Emit(|x| - 1, s.done[r], s.local[r]).Some?
  {
    BuffersHoldRanges(op, x, run, r);
    var k := run[|run| - 1].done[r];
    if k < Rounds(|x|) {
      PrefixStep(|x| - 1, k);
    }
  }

  /** The collective always completes: every run is finite, and a run that cannot go on has every rank
      finished with the full reduction and no message left over. */
  lemma AllreduceCompletes<T(!new)>(op: (T, T) -> T, x: seq<T>, run: seq<Net<Buffers<T>, Option<T>>>)
    requires AssociativeCommutative(op) && |x| > 0 && Run(Circulant(op, x), run)
    ensures |run| - 1 <= 2 * (|x| * Rounds(|x|))
    ensures var P, s := Circulant(op, x), run[|run| - 1];
            Shape(P, s) && (Stuck(P, s) ==> EveryRankHas(op, x, s) && NoMessages(P, s))
  {
    var P, s := Circulant(op, x), run[|run| - 1];
    CirculantMatched(op, x);
    RunsAreBounded(P, run);
    NeverStuck(P, run);
    if Stuck(P, s) {
      NoMessageLeft(P, run);
      forall r | 0 <= r < |s.local| ensures s.local[r].recv == Some(Reduce(op, x)) {
        AllreduceCorrect(op, x, run, r);
      }
    }
  }

  ghost predicate EveryRankHas<T(!new)>(op: (T, T) -> T, x: seq<T>, s: Net<Buffers<T>, Option<T>>)
    requires |x| > 0
  {
    |s.local| == |x| && forall r :: 0 <= r < |x| ==> s.local[r].recv == Some(Reduce(op, x))
  }

  // ----- the code of one rank -----

  /** Buffers of rank r after its first k receives, given the messages it received. */
  ghost function LocalState<T>(op: (T, T) -> T, input: T, inbox: seq<Option<T>>, k: nat): Buffers<T>
    requires k <= |inbox|
  {
    if k == 0 then Buffers(Some(input), None)
    else Absorb(op, k - 1, LocalState(op, input, inbox, k - 1), inbox[k - 1])
  }

  /** A rank whose messages are the ones its partners send in the protocol goes through the protocol's
      local states. */
  lemma {:induction false} LocalStateIsSync<T(!new)>(op: (T, T) -> T, x: seq<T>, r: nat, inbox: seq<Option<T>>, k: nat)
    requires r < |x| && k <= |inbox|
    requires forall i: nat :: i < k ==>
      inbox[i] == SyncMessage(Circulant(op, x), i, Ahead(|x|, r, Block(|x| - 1, i)))
    ensures LocalState(op, x[r], inbox, k) == Sync(Circulant(op, x), k, r)
  {
    if k > 0 {
      LocalStateIsSync(op, x, r, inbox, k - 1);
    }
  }

  /** Destination and contents of the first k messages the rank sends. */
  ghost function Sends<T>(op: (T, T) -> T, rank: nat, size: nat, input: T, inbox: seq<Option<T>>, k: nat)
    : seq<(nat, Option<T>)>
    requires 0 < size && k <= |inbox|
  {
    if k == 0 then []
    else Sends(op, rank, size, input, inbox, k - 1) +
         [(Behind(size, rank, Block(size - 1, k - 1)),
           Emit(size - 1, k - 1, LocalState(op, input, inbox, k - 1)))]
  }

  /** The ranks it receives its first k messages from. */
  ghost function Sources(rank: nat, size: nat, k: nat): seq<nat>
    requires 0 < size
  {
    if k == 0 then [] else Sources(rank, size, k - 1) + [Ahead(size, rank, Block(size - 1, k - 1))]
  }

  lemma LogStep<T>(op: (T, T) -> T, rank: nat, size: nat, input: T, inbox: seq<Option<T>>, k: nat)
    requires 0 < size && k < |inbox|
    ensures Sends(op, rank, size, input, inbox, k + 1) ==
            Sends(op, rank, size, input, inbox, k) +
            [(Behind(size, rank, Block(size - 1, k)), Emit(size - 1, k, LocalState(op, input, inbox, k)))]
    ensures Sources(rank, size, k + 1) == Sources(rank, size, k) + [Ahead(size, rank, Block(size - 1, k))]
    ensures LocalState(op, input, inbox, k + 1) == Absorb(op, k, LocalState(op, input, inbox, k), inbox[k])
  {
  }

  class Buffer<T> {
    var contents: Option<T>

    constructor (contents: Option<T>)
      ensures this.contents == contents
    {
      this.contents := contents;
    }
  }

  /** The receive half of a round: the message goes to tempbuf, which is partbuf itself in the first
      round, and is reduced into the buffers that do not hold it already. */
  method ReceiveAndReduce<T>(op: (T, T) -> T, m: Option<T>, tempbuf: Buffer<T>, recvbuf: Buffer<T>, partbuf: Buffer<T>)
    requires recvbuf != partbuf && tempbuf != recvbuf
    modifies tempbuf, recvbuf, partbuf
    ensures recvbuf.contents == ReduceLocal(op, m, old(recvbuf.contents))
    ensures partbuf.contents == if tempbuf == partbuf then m else ReduceLocal(op, m, old(partbuf.contents))
    ensures tempbuf.contents == m
  {
    tempbuf.contents := m;
    recvbuf.contents := ReduceLocal(op, tempbuf.contents, recvbuf.contents);
    if tempbuf != partbuf {
      partbuf.contents := ReduceLocal(op, tempbuf.contents, partbuf.contents);
    }
  }

  /** Whom a rank receives from and sends to in a round, and how many inputs travel. */
  method ChoosePartners(rank: nat, size: nat, digit: bool, c0: nat, c1: nat) returns (cyci: nat, cyco: nat, b: nat)
    requires rank < size && c1 <= size && c0 <= size
    ensures b == if digit then c1 else c0
    ensures cyci == Ahead(size, rank, b) && cyco == Behind(size, rank, b)
  {
    if digit {
      cyci := (rank + c1) % size;
      cyco := (rank - c1 + size) % size;
      b := c1;
    } else {
      cyci := (rank + c0) % size;
      cyco := (rank - c0 + size) % size;
      b := c0;
    }
  }

  /** The counters after reading a digit. */
  method ShiftIn(digit: bool, c0: nat, c1: nat, c: nat) returns (d0: nat, d1: nat, d: nat)
    requires c1 == c0 + 1 && c == c0
    ensures d0 == 2 * c0 + (if digit then 1 else 0) && d1 == d0 + 1 && d == d0
  {
    d0, d1, d := c0, c1, 2 * c;
    if digit {
      d0 := d0 + d1;
      d1 := d1 + d1;
      d := d + 1;
    } else {
      d1 := d1 + d0;
      d0 := d0 + d0;
    }
  }

  /** The loop run by one rank.  inbox holds the messages the network delivers to it, in order; the
      results list what it sends to whom, whom it receives from, and its final receive buffer. */
  method AllreduceBitwiseCommutative<T>(op: (T, T) -> T, rank: nat, size: nat, sendbuf: T, inbox: seq<Option<T>>)
    returns (result: Option<T>, outbox: seq<(nat, Option<T>)>, sources: seq<nat>, s: nat)
    requires rank < size <= 0x7fff_ffff
    requires |inbox| == Rounds(size)
    ensures outbox == Sends(op, rank, size, sendbuf, inbox, Rounds(size))
    ensures sources == Sources(rank, size, Rounds(size))
    ensures result == LocalState(op, sendbuf, inbox, Rounds(size)).recv
    ensures s == size
  {
    var recvbuf := new Buffer<T>(Some(sendbuf));
    var partbuf := new Buffer<T>(None);
    var inbuf := new Buffer<T>(None);
    var n := size - 1;
    var bit := Flp2(n);
    LoopStart(n);
    var c0, c1, c := 0, 1, 0;
    var tempbuf := partbuf;
    s := 1;
    outbox, sources := [], [];
    var k := 0;
    ghost var len := |inbox|;
    while bit != 0
      invariant 0 <= k <= len && bit == Mask(n, k)
      invariant c0 == c == Prefix(n, k) <= n && c1 == c0 + 1 && s == c0 + 1
      invariant tempbuf == if k == 0 then partbuf else inbuf
      invariant recvbuf != partbuf && recvbuf != inbuf && partbuf != inbuf
      invariant Buffers(recvbuf.contents, partbuf.contents) == LocalState(op, sendbuf, inbox, k)
      invariant outbox == Sends(op, rank, size, sendbuf, inbox, k)
      invariant sources == Sources(rank, size, k)
      decreases len - k
    {
      var cyci, cyco, b;
      var digit := BitAnd(n, bit) == bit;
      ReadDigit(n, k);
      PrefixBounds(n, k + 1);
      cyci, cyco, b := ChoosePartners(rank, size, digit, c0, c1);
      var outbuf := if digit then recvbuf else partbuf;
      assert b == Block(n, k) && outbuf.contents == Emit(n, k, LocalState(op, sendbuf, inbox, k));
      LogStep(op, rank, size, sendbuf, inbox, k);
      outbox := outbox + [(cyco, outbuf.contents)];
      sources := sources + [cyci];
      assert tempbuf != outbuf;  // send and receive buffers never overlap
      s := s + b;
      ReceiveAndReduce(op, inbox[k], tempbuf, recvbuf, partbuf);
      tempbuf := inbuf;
      c0, c1, c := ShiftIn(digit, c0, c1, c);
      bit := bit / 2;
      k := k + 1;
    }
    LoopEnd(n, k);
    result := recvbuf.contents;
  }

  /** The loop's mask: the power of two of digit k, or 0 behind the last digit. */
  ghost function Mask(n: nat, k: nat): nat
  {
    if k < BitLength(n) then Pow2(BitLength(n) - 1 - k) else 0
  }

  /** Masking with the loop's bit reads the next digit of n. */
  lemma ReadDigit(n: nat, k: nat)
    requires k < BitLength(n)
    ensures BitAnd(n, Mask(n, k)) == Mask(n, k) <==> Digit(n, k) == 1
    ensures Prefix(n, k + 1) == 2 * Prefix(n, k) + Digit(n, k) && Digit(n, k) < 2
    ensures Mask(n, k) / 2 == Mask(n, k + 1)
    ensures k == 0 ==> Digit(n, k) == 1
  {
    PrefixStep(n, k);
    var top := BitLength(n) - 1 - k;
    BitAndPow2(n, top);
    if top > 0 {
      assert Pow2(top) == 2 * Pow2(top - 1);
    } else {
      assert Pow2(top) == 1;
    }
  }

  lemma LoopStart(n: nat)
    requires n < 0x1_0000_0000
    ensures Flp2(n) == Mask(n, 0) && Prefix(n, 0) == 0
  {
    Flp2IsTopBit(n);
    if n > 0 { PrefixStart(n); }
  }

  lemma LoopEnd(n: nat, k: nat)
    requires k <= BitLength(n) && Mask(n, k) == 0
    ensures k == BitLength(n) && Prefix(n, k) == n
  {
    PrefixEnd(n);
  }
}
