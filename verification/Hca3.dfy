/** HCA3 clock synchronization (HCA3ClockSync.cpp): top-down, each rank learning its model against a
    parent whose clock is already global.  There is no barrier between the rounds; the two sides of
    `learn_model` wait for each other. */
module Hca3 {
  import opened Bits
  import opened Sums
  import opened ClockModels
  import opened Hca

  datatype Role = Idle | ParentOf(child: nat) | ChildOf(parent: nat)

  /** Stage k is round n - k of the descending loop; stage n pairs the leftover ranks. */
  function Stages(nprocs: nat): nat { Rounds(nprocs) + 1 }

  /** What a rank does in a stage. */
  function RoleAt(nprocs: nat, r: nat, k: nat): Role
  {
    var n, max_power_two := Rounds(nprocs), MaxPowerTwo(nprocs);
    if k < n then
      var running_power, next_power := Pow2(n - k), Pow2(n - k - 1);
      if r >= max_power_two then Idle
      else if r % running_power == 0 then ParentOf(r + next_power)
      else if r % running_power == next_power && r >= next_power then ChildOf(r - next_power)
      else Idle
    else if r >= max_power_two then ChildOf(r - max_power_two)
    else if nprocs >= max_power_two && r < nprocs - max_power_two then ParentOf(r + max_power_two)
    else Idle
  }

  /** The stage in which a rank is a child. */
  function ChildStage(nprocs: nat, r: nat): nat
    requires r > 0
  {
    if r >= MaxPowerTwo(nprocs) then Rounds(nprocs)
    else if LowBitIndex(r) < Rounds(nprocs) then Rounds(nprocs) - 1 - LowBitIndex(r) else 0
  }

  lemma LowBitIndexBound(nprocs: nat, r: nat)
    requires 0 < r < MaxPowerTwo(nprocs)
    ensures LowBitIndex(r) < Rounds(nprocs)
  {
    LowBitIndexIsMultiplicity(r, 0);
    if LowBitIndex(r) >= Rounds(nprocs) {
      Pow2Monotone(Rounds(nprocs), LowBitIndex(r));
    }
  }

  /** Roles in terms of the lowest set bit of the rank. */
  lemma TreeRole(nprocs: nat, r: nat, k: nat)
    requires r < MaxPowerTwo(nprocs) && k < Rounds(nprocs)
    ensures RoleAt(nprocs, r, k) ==
      var i := Rounds(nprocs) - k;
      if r == 0 || i <= LowBitIndex(r) then ParentOf(r + Pow2(i - 1))
      else if LowBitIndex(r) == i - 1 then ChildOf(r - LowBit(r))
      else Idle
  {
    var i := Rounds(nprocs) - k;
    MultipleIsMod(r, i);
    if r == 0 {
      assert IsMultiple(0, i) by { MultipleZero(i); }
    } else {
      LowBitIndexIsMultiplicity(r, i);
      LowBitResidue(r, i - 1);
      LowBitIndexIsMultiplicity(r, i - 1);
    }
  }

  lemma {:induction false} MultipleZero(i: nat)
    ensures IsMultiple(0, i)
  {
    if i > 0 { MultipleZero(i - 1); }
  }

  /** Every nonzero rank is a child in exactly one stage, and its parent there is its tree parent. */
  lemma ChildExactlyOnce(nprocs: nat, r: nat, k: nat)
    requires 0 < r < nprocs && k < Stages(nprocs)
    ensures RoleAt(nprocs, r, k).ChildOf? <==> k == ChildStage(nprocs, r)
    ensures ChildStage(nprocs, r) < Stages(nprocs)
    ensures k == ChildStage(nprocs, r) ==> RoleAt(nprocs, r, k) == ChildOf(Parent(nprocs, r))
  {
    if r < MaxPowerTwo(nprocs) {
      LowBitIndexBound(nprocs, r);
      if k < Rounds(nprocs) {
        TreeRole(nprocs, r, k);
      }
    }
  }

  /** Rank 0 is never a child. */
  lemma RankZeroIsNoChild(nprocs: nat, k: nat)
    requires 0 < nprocs && k < Stages(nprocs)
    ensures !RoleAt(nprocs, 0, k).ChildOf?
  {
    if k < Rounds(nprocs) {
      TreeRole(nprocs, 0, k);
    }
  }

  /** Both partners of a pairing choose each other in the same stage. */
  lemma PartnersAgree(nprocs: nat, p: nat, c: nat, k: nat)
    requires p < nprocs && k < Stages(nprocs)
    ensures RoleAt(nprocs, p, k) == ParentOf(c) ==> c < nprocs && c != p && RoleAt(nprocs, c, k) == ChildOf(p)
    ensures c < nprocs && RoleAt(nprocs, c, k) == ChildOf(p) ==> RoleAt(nprocs, p, k) == ParentOf(c)
  {
    var n := Rounds(nprocs);
    TopBitBounds(nprocs);
    if k < n {
      if RoleAt(nprocs, p, k) == ParentOf(c) {
        TreeRole(nprocs, p, k);
        ParentPairs(nprocs, p, n - k);
        TreeRole(nprocs, c, k);
      }
      if c < nprocs && RoleAt(nprocs, c, k) == ChildOf(p) {
        TreeRole(nprocs, c, k);
        ChildPairs(c, n - k);
        TreeRole(nprocs, p, k);
      }
    }
  }

  lemma ParentPairs(nprocs: nat, p: nat, i: nat)
    requires p < MaxPowerTwo(nprocs) && 0 < i <= Rounds(nprocs) && (p == 0 || i <= LowBitIndex(p))
    ensures var c := p + Pow2(i - 1);
            0 < c < MaxPowerTwo(nprocs) && LowBitIndex(c) == i - 1 && LowBit(c) == Pow2(i - 1)
  {
    var c := p + Pow2(i - 1);
    if p == 0 { MultipleZero(i); } else { LowBitIndexIsMultiplicity(p, i); }
    MultipleRoom(p, i, Rounds(nprocs));
    MultipleSplit(p, i - 1);
    LowBitIndexIsMultiplicity(c, i - 1);
    LowBitIndexIsMultiplicity(c, i);
  }

  lemma {:induction false} ChildPairs(c: nat, i: nat)
    requires c > 0 && i > 0 && LowBitIndex(c) == i - 1
    ensures LowBit(c) == Pow2(i - 1) <= c
    ensures c - LowBit(c) == 0 || i <= LowBitIndex(c - LowBit(c))
  {
    LowBitIndexIsMultiplicity(c, 0);
    if c % 2 == 0 {
      ChildPairs(c / 2, i - 1);
      if c != LowBit(c) {
        assert (c - LowBit(c)) / 2 == c / 2 - LowBit(c / 2);
      }
    }
  }

  /** A rank acts as a parent only in stages after the one in which it was synchronized itself. */
  lemma ParentOnlyAfterChild(nprocs: nat, p: nat, k: nat)
    requires 0 < p < nprocs && k < Stages(nprocs) && RoleAt(nprocs, p, k).ParentOf?
    ensures ChildStage(nprocs, p) < k
  {
    if p < MaxPowerTwo(nprocs) {
      LowBitIndexBound(nprocs, p);
      if k < Rounds(nprocs) {
        TreeRole(nprocs, p, k);
      }
    }
  }

  // ----- the asynchronous machine -----

  /** stage[r] counts the stages rank r is through; model[r] is its my_clock over its local clock. */
  datatype State = State(stage: seq<nat>, model: seq<LinModel>)

  predicate Shape(nprocs: nat, s: State)
  {
    |s.stage| == |s.model| == nprocs
  }

  predicate Init(nprocs: nat, s: State)
  {
    Shape(nprocs, s) && forall r :: 0 <= r < nprocs ==> s.stage[r] == 0 && s.model[r] == Identity
  }

  predicate CanSkip(nprocs: nat, s: State, r: nat)
    requires Shape(nprocs, s)
  {
    r < nprocs && s.stage[r] < Stages(nprocs) && RoleAt(nprocs, r, s.stage[r]) == Idle
  }

  function Skip(nprocs: nat, s: State, r: nat): State
    requires Shape(nprocs, s) && r < nprocs
  {
    s.(stage := s.stage[r := s.stage[r] + 1])
  }

  predicate CanMeet(nprocs: nat, s: State, p: nat, c: nat)
    requires Shape(nprocs, s)
  {
    p < nprocs && c < nprocs && p != c && s.stage[p] == s.stage[c] < Stages(nprocs) &&
    RoleAt(nprocs, p, s.stage[p]) == ParentOf(c) && RoleAt(nprocs, c, s.stage[p]) == ChildOf(p)
  }

  /** The model learned between the two current clocks is exact. */
  ghost predicate LearnsExactly(clocks: nat -> AffineClock, s: State, p: nat, c: nat, lm: LinModel)
    requires p < |s.model| && c < |s.model|
  {
    forall t: real {:trigger clocks(c).At(t)} ::
      Apply(lm, Apply(s.model[c], clocks(c).At(t))) == Apply(s.model[p], clocks(p).At(t))
  }

  /** learn_model on both sides: the child's clock becomes the learned model over its local clock. */
  function Meet(nprocs: nat, s: State, p: nat, c: nat, lm: LinModel): State
    requires Shape(nprocs, s) && p < nprocs && c < nprocs && p != c
  {
    s.(stage := s.stage[p := s.stage[p] + 1][c := s.stage[c] + 1], model := s.model[c := lm])
  }

  /** A rank idles through a stage, or a pair meets and the child takes whatever model it learns. */
  ghost predicate Next(nprocs: nat, s: State, s': State)
  {
    && Shape(nprocs, s)
    && ((exists r: nat :: CanSkip(nprocs, s, r) && s' == Skip(nprocs, s, r))
        || (exists p: nat, c: nat, lm: LinModel :: CanMeet(nprocs, s, p, c) && s' == Meet(nprocs, s, p, c, lm)))
  }

  ghost predicate Run(nprocs: nat, run: seq<State>)
  {
    && |run| > 0
    && Init(nprocs, run[0])
    && forall i :: 0 < i < |run| ==> Next(nprocs, run[i - 1], run[i])
  }

  ghost predicate Stuck(nprocs: nat, s: State)
  {
    !exists s' :: Next(nprocs, s, s')
  }

  /** If the step is a meeting, what the child learns in it is exact. */
  ghost predicate StepExact(nprocs: nat, clocks: nat -> AffineClock, s: State, s': State)
    requires Shape(nprocs, s)
  {
    forall p: nat, c: nat, lm: LinModel {:trigger Meet(nprocs, s, p, c, lm)} ::
      CanMeet(nprocs, s, p, c) && s' == Meet(nprocs, s, p, c, lm) ==> LearnsExactly(clocks, s, p, c, lm)
  }

  /** Every model learned in the run is exact. */
  ghost predicate ExactRun(nprocs: nat, clocks: nat -> AffineClock, run: seq<State>)
  {
    forall i: nat {:trigger ExactAt(nprocs, clocks, run, i)} :: 0 < i < |run| ==> ExactAt(nprocs, clocks, run, i)
  }

  ghost predicate ExactAt(nprocs: nat, clocks: nat -> AffineClock, run: seq<State>, i: nat)
    requires 0 < i < |run|
  {
    Shape(nprocs, run[i - 1]) && StepExact(nprocs, clocks, run[i - 1], run[i])
  }

  predicate AllDone(nprocs: nat, s: State)
  {
    Shape(nprocs, s) && forall r :: 0 <= r < nprocs ==> s.stage[r] == Stages(nprocs)
  }

  // ----- the invariant -----

  /** The rank is rank 0, or is through the stage in which it is a child. */
  predicate Synced(nprocs: nat, s: State, r: nat)
    requires Shape(nprocs, s) && r < nprocs
  {
    r == 0 || ChildStage(nprocs, r) < s.stage[r]
  }

  /** The schedule: stages, partners, and clocks that are still the local ones.  No fit need be exact. */
  ghost predicate RankInv(nprocs: nat, s: State, r: nat)
    requires Shape(nprocs, s) && r < nprocs
  {
    && s.stage[r] <= Stages(nprocs)
    && (!Synced(nprocs, s, r) || r == 0 ==> s.model[r] == Identity)
    && (forall k: nat {:trigger PairMoved(nprocs, s, r, k)} :: k < Stages(nprocs) ==> PairMoved(nprocs, s, r, k))
  }

  /** The partner of rank r in stage k is through stage k exactly when r is. */
  predicate PairMoved(nprocs: nat, s: State, r: nat, k: nat)
    requires Shape(nprocs, s) && r < nprocs
  {
    match RoleAt(nprocs, r, k)
    case Idle => true
    case ParentOf(c) => c < nprocs && (k < s.stage[r] <==> k < s.stage[c])
    case ChildOf(p) => p < nprocs && (k < s.stage[r] <==> k < s.stage[p])
  }

  ghost predicate Inv(nprocs: nat, s: State)
  {
    && Shape(nprocs, s)
    && forall r: nat {:trigger RankInv(nprocs, s, r)} :: r < nprocs ==> RankInv(nprocs, s, r)
  }

  /** Every synchronized rank's clock reads rank 0's time. */
  ghost predicate ClocksExact(nprocs: nat, clocks: nat -> AffineClock, s: State)
    requires Shape(nprocs, s)
  {
    forall r: nat {:trigger s.model[r]} :: r < nprocs && Synced(nprocs, s, r) ==> Exact(clocks(0), clocks(r), s.model[r])
  }

  lemma PartnersExist(nprocs: nat, r: nat, k: nat)
    requires r < nprocs && k < Stages(nprocs)
    ensures match RoleAt(nprocs, r, k)
            case Idle => true
            case ParentOf(c) => c < nprocs
            case ChildOf(p) => p < nprocs
  {
    match RoleAt(nprocs, r, k)
    case Idle =>
    case ParentOf(c) => PartnersAgree(nprocs, r, c, k);
    case ChildOf(p) =>
      if r == 0 {
        RankZeroIsNoChild(nprocs, k);
      } else {
        ChildExactlyOnce(nprocs, r, k);
      }
  }

  lemma IdentityIsExact(c: AffineClock)
    ensures Exact(c, c, Identity)
  {
    forall t: real ensures Apply(Identity, c.At(t)) == c.At(t) {
      IdentityApplies(c.At(t));
    }
  }

  /** A fresh child that learns exactly from a synchronized parent reads rank 0's time. */
  lemma LearnedFromSynced(clocks: nat -> AffineClock, s: State, p: nat, c: nat, lm: LinModel)
    requires p < |s.model| && c < |s.model| && LearnsExactly(clocks, s, p, c, lm)
    requires Exact(clocks(0), clocks(p), s.model[p]) && s.model[c] == Identity
    ensures Exact(clocks(0), clocks(c), lm)
  {
    forall t: real ensures Apply(lm, clocks(c).At(t)) == clocks(0).At(t) {
      IdentityApplies(clocks(c).At(t));
      assert Apply(s.model[p], clocks(p).At(t)) == clocks(0).At(t);
    }
  }

  lemma MeetIsBetweenSyncedAndFresh(nprocs: nat, s: State, p: nat, c: nat)
    requires Shape(nprocs, s) && CanMeet(nprocs, s, p, c)
    ensures c > 0 && Synced(nprocs, s, p) && !Synced(nprocs, s, c) && ChildStage(nprocs, c) == s.stage[c]
  {
    var k := s.stage[p];
    if p > 0 { ParentOnlyAfterChild(nprocs, p, k); }
    if c == 0 { RankZeroIsNoChild(nprocs, k); } else { ChildExactlyOnce(nprocs, c, k); }
  }

  lemma InitInv(nprocs: nat, s: State)
    requires Init(nprocs, s)
    ensures Inv(nprocs, s)
  {
    forall r: nat | r < nprocs ensures RankInv(nprocs, s, r) {
      forall k: nat | k < Stages(nprocs) ensures PairMoved(nprocs, s, r, k) {
        PartnersExist(nprocs, r, k);
      }
    }
  }

  lemma SkipPairs(nprocs: nat, s: State, r: nat, q: nat, k: nat)
    requires Inv(nprocs, s) && CanSkip(nprocs, s, r) && q < nprocs && k < Stages(nprocs)
    ensures PairMoved(nprocs, Skip(nprocs, s, r), q, k)
  {
    assert RankInv(nprocs, s, q);
    assert PairMoved(nprocs, s, q, k);
    // nobody is paired with r in the stage it skips
    if k == s.stage[r] {
      PartnersAgree(nprocs, q, r, k);
      PartnersAgree(nprocs, r, q, k);
    }
  }

  lemma SkipInv(nprocs: nat, s: State, r: nat)
    requires Inv(nprocs, s) && CanSkip(nprocs, s, r)
    ensures Inv(nprocs, Skip(nprocs, s, r))
    ensures forall q: nat :: q < nprocs ==> (Synced(nprocs, Skip(nprocs, s, r), q) <==> Synced(nprocs, s, q))
  {
    var s' := Skip(nprocs, s, r);
    if r > 0 { ChildExactlyOnce(nprocs, r, s.stage[r]); }
    forall q: nat | q < nprocs ensures RankInv(nprocs, s', q) {
      assert RankInv(nprocs, s, q);
      forall k: nat | k < Stages(nprocs) ensures PairMoved(nprocs, s', q, k) {
        SkipPairs(nprocs, s, r, q, k);
      }
    }
  }

  lemma MeetPairs(nprocs: nat, s: State, p: nat, c: nat, lm: LinModel, q: nat, k: nat)
    requires Inv(nprocs, s) && CanMeet(nprocs, s, p, c) && q < nprocs && k < Stages(nprocs)
    ensures PairMoved(nprocs, Meet(nprocs, s, p, c, lm), q, k)
  {
    assert RankInv(nprocs, s, q);
    assert PairMoved(nprocs, s, q, k);
    if k == s.stage[p] {
      match RoleAt(nprocs, q, k)
      case Idle =>
      case ParentOf(x) => PartnersAgree(nprocs, q, x, k);
      case ChildOf(x) => PartnersAgree(nprocs, x, q, k);
    }
  }

  lemma MeetInv(nprocs: nat, s: State, p: nat, c: nat, lm: LinModel)
    requires Inv(nprocs, s) && CanMeet(nprocs, s, p, c)
    ensures Inv(nprocs, Meet(nprocs, s, p, c, lm))
  {
    var s' := Meet(nprocs, s, p, c, lm);
    MeetIsBetweenSyncedAndFresh(nprocs, s, p, c);
    forall q: nat | q < nprocs ensures RankInv(nprocs, s', q) {
      assert RankInv(nprocs, s, q);
      MeetSyncs(nprocs, s, p, c, lm, q);
      forall k: nat | k < Stages(nprocs) ensures PairMoved(nprocs, s', q, k) {
        MeetPairs(nprocs, s, p, c, lm, q, k);
      }
    }
  }

  /** A meeting synchronizes its child and nobody else. */
  lemma MeetSyncs(nprocs: nat, s: State, p: nat, c: nat, lm: LinModel, q: nat)
    requires Shape(nprocs, s) && CanMeet(nprocs, s, p, c) && q < nprocs
    ensures Synced(nprocs, Meet(nprocs, s, p, c, lm), q) <==> Synced(nprocs, s, q) || q == c
  {
    MeetIsBetweenSyncedAndFresh(nprocs, s, p, c);
  }

  lemma {:induction false} RunInv(nprocs: nat, run: seq<State>)
    requires Run(nprocs, run)
    ensures Inv(nprocs, run[|run| - 1])
    decreases |run|
  {
    if |run| == 1 {
      InitInv(nprocs, run[0]);
    } else {
      RunInv(nprocs, run[..|run| - 1]);
      var s, s' := run[|run| - 2], run[|run| - 1];
      assert Next(nprocs, s, s');
      if r: nat :| CanSkip(nprocs, s, r) && s' == Skip(nprocs, s, r) {
        SkipInv(nprocs, s, r);
      } else {
        var p: nat, c: nat, lm: LinModel :| CanMeet(nprocs, s, p, c) && s' == Meet(nprocs, s, p, c, lm);
        MeetInv(nprocs, s, p, c, lm);
      }
    }
  }

  lemma MeetKeepsExact(nprocs: nat, clocks: nat -> AffineClock, s: State, p: nat, c: nat, lm: LinModel)
    requires Inv(nprocs, s) && ClocksExact(nprocs, clocks, s) && CanMeet(nprocs, s, p, c)
    requires LearnsExactly(clocks, s, p, c, lm)
    ensures ClocksExact(nprocs, clocks, Meet(nprocs, s, p, c, lm))
  {
    var s' := Meet(nprocs, s, p, c, lm);
    MeetIsBetweenSyncedAndFresh(nprocs, s, p, c);
    assert RankInv(nprocs, s, c);
    LearnedFromSynced(clocks, s, p, c, lm);
    forall q: nat {:trigger s'.model[q]} | q < nprocs && Synced(nprocs, s', q)
      ensures Exact(clocks(0), clocks(q), s'.model[q])
    {
      MeetSyncs(nprocs, s, p, c, lm, q);
      assert q != c ==> s'.model[q] == s.model[q];
    }
  }

  lemma SkipKeepsExact(nprocs: nat, clocks: nat -> AffineClock, s: State, r: nat)
    requires Inv(nprocs, s) && ClocksExact(nprocs, clocks, s) && CanSkip(nprocs, s, r)
    ensures ClocksExact(nprocs, clocks, Skip(nprocs, s, r))
  {
    SkipInv(nprocs, s, r);
    assert Skip(nprocs, s, r).model == s.model;
  }

  lemma InitExact(nprocs: nat, clocks: nat -> AffineClock, s: State)
    requires Init(nprocs, s)
    ensures ClocksExact(nprocs, clocks, s)
  {
    forall r: nat {:trigger s.model[r]} | r < nprocs && Synced(nprocs, s, r)
      ensures Exact(clocks(0), clocks(r), s.model[r])
    {
      IdentityIsExact(clocks(r));
    }
  }

  lemma NextKeepsExact(nprocs: nat, clocks: nat -> AffineClock, s: State, s': State)
    requires Inv(nprocs, s) && ClocksExact(nprocs, clocks, s)
    requires Next(nprocs, s, s') && StepExact(nprocs, clocks, s, s')
    ensures Shape(nprocs, s') && ClocksExact(nprocs, clocks, s')
  {
    if r: nat :| CanSkip(nprocs, s, r) && s' == Skip(nprocs, s, r) {
      SkipKeepsExact(nprocs, clocks, s, r);
    } else {
      var p: nat, c: nat, lm: LinModel :| CanMeet(nprocs, s, p, c) && s' == Meet(nprocs, s, p, c, lm);
      MeetKeepsExact(nprocs, clocks, s, p, c, lm);
    }
  }

  lemma {:induction false} ExactRunInv(nprocs: nat, clocks: nat -> AffineClock, run: seq<State>)
    requires Run(nprocs, run) && ExactRun(nprocs, clocks, run)
    ensures Shape(nprocs, run[|run| - 1]) && ClocksExact(nprocs, clocks, run[|run| - 1])
    decreases |run|
  {
    if |run| == 1 {
      InitExact(nprocs, clocks, run[0]);
    } else {
      var before := run[..|run| - 1];
      assert Run(nprocs, before);
      forall i: nat | 0 < i < |before| ensures ExactAt(nprocs, clocks, before, i) {
        assert ExactAt(nprocs, clocks, run, i);
      }
      RunInv(nprocs, before);
      ExactRunInv(nprocs, clocks, before);
      assert ExactAt(nprocs, clocks, run, |run| - 1);
      NextKeepsExact(nprocs, clocks, run[|run| - 2], run[|run| - 1]);
    }
  }

  // ----- main results -----

  /** Whatever is learned, a pairing always synchronizes a fresh child, whose clock is still its local one,
      from a synchronized parent. */
  lemma MeetingsJoinSyncedAndFresh(nprocs: nat, run: seq<State>, p: nat, c: nat)
    requires Run(nprocs, run) && Shape(nprocs, run[|run| - 1]) && CanMeet(nprocs, run[|run| - 1], p, c)
    ensures Synced(nprocs, run[|run| - 1], p) && !Synced(nprocs, run[|run| - 1], c)
    ensures run[|run| - 1].model[c] == Identity
  {
    RunInv(nprocs, run);
    MeetIsBetweenSyncedAndFresh(nprocs, run[|run| - 1], p, c);
    assert RankInv(nprocs, run[|run| - 1], c);
  }

  /** If every model learned in a run is exact, every synchronized rank's clock reads rank 0's time. */
  lemma SyncedClocksReadRankZero(nprocs: nat, clocks: nat -> AffineClock, run: seq<State>, r: nat)
    requires Run(nprocs, run) && ExactRun(nprocs, clocks, run) && r < nprocs
    ensures Shape(nprocs, run[|run| - 1])
    ensures Synced(nprocs, run[|run| - 1], r) ==> Exact(clocks(0), clocks(r), run[|run| - 1].model[r])
  {
    ExactRunInv(nprocs, clocks, run);
    assert Synced(nprocs, run[|run| - 1], r) ==> Exact(clocks(0), clocks(r), run[|run| - 1].model[r]);
  }

  /** HCA3 and HCA agree: when all ranks are done, every running clock's model is the path model that HCA
      merges from exact pairwise models. */
  lemma AgreesWithHca(nprocs: nat, clocks: nat -> AffineClock, run: seq<State>, learned: Learned<LinModel>, r: nat)
    requires Run(nprocs, run) && ExactRun(nprocs, clocks, run) && r < nprocs && AllDone(nprocs, run[|run| - 1])
    requires clocks(r).rate != 0.0
    requires forall c: nat {:trigger Parent(nprocs, c)} :: 0 < c <= r ==>
      Exact(clocks(Parent(nprocs, c)), clocks(c), learned(Parent(nprocs, c), c))
    ensures Exact(clocks(0), clocks(r), run[|run| - 1].model[r])
    ensures run[|run| - 1].model[r] == PathModel(LinearModels, nprocs, learned, r)
  {
    var s := run[|run| - 1];
    SyncedClocksReadRankZero(nprocs, clocks, run, r);
    if r > 0 { ChildExactlyOnce(nprocs, r, 0); }
    PathModelReadsRankZero(nprocs, learned, clocks, r);
    ExactModelsAgree(clocks(0), clocks(r), s.model[r], PathModel(LinearModels, nprocs, learned, r));
  }

  lemma ExactModelsAgree(ref: AffineClock, client: AffineClock, a: LinModel, b: LinModel)
    requires client.rate != 0.0 && Exact(ref, client, a) && Exact(ref, client, b)
    ensures a == b
  {
    assert Apply(a, client.At(0.0)) == Apply(b, client.At(0.0));
    assert Apply(a, client.At(1.0)) == Apply(b, client.At(1.0));
    ModelDetermined(a, b, client.At(0.0), client.At(1.0));
  }

  /** The rounds never deadlock, whatever is learned: a reachable state has no next step exactly if all ranks
      are done. */
  lemma NeverStuck(nprocs: nat, run: seq<State>)
    requires Run(nprocs, run)
    ensures Stuck(nprocs, run[|run| - 1]) <==> AllDone(nprocs, run[|run| - 1])
  {
    RunInv(nprocs, run);
    var s := run[|run| - 1];
    if !AllDone(nprocs, s) {
      SomeStep(nprocs, s);
    }
  }

  /** The slowest rank, or the pair it belongs to, can move. */
  lemma SomeStep(nprocs: nat, s: State)
    requires Inv(nprocs, s) && !AllDone(nprocs, s)
    ensures !Stuck(nprocs, s)
  {
    var r0 :| 0 <= r0 < nprocs && s.stage[r0] != Stages(nprocs);
    assert RankInv(nprocs, s, r0);
    var m := Slowest(s.stage, r0);
    assert RankInv(nprocs, s, m);
    var k := s.stage[m];
    assert PairMoved(nprocs, s, m, k);
    match RoleAt(nprocs, m, k)
    case Idle => assert CanSkip(nprocs, s, m) && Next(nprocs, s, Skip(nprocs, s, m));
    case ParentOf(c) =>
      PartnersAgree(nprocs, m, c, k);
      assert CanMeet(nprocs, s, m, c) && Next(nprocs, s, Meet(nprocs, s, m, c, Identity));
    case ChildOf(p) =>
      PartnersAgree(nprocs, p, m, k);
      PartnersAgree(nprocs, p, RoleAt(nprocs, p, k).child, k);
      assert CanMeet(nprocs, s, p, m) && Next(nprocs, s, Meet(nprocs, s, p, m, Identity));
  }

  /** Every run ends: a step moves one rank, or the two ranks of a pair, one stage on. */
  lemma {:induction false} RunsAreBounded(nprocs: nat, run: seq<State>)
    requires Run(nprocs, run)
    ensures |run| - 1 <= Sum(run[|run| - 1].stage) <= nprocs * Stages(nprocs)
    decreases |run|
  {
    RunInv(nprocs, run);
    var s' := run[|run| - 1];
    forall r: nat | r < nprocs ensures s'.stage[r] <= Stages(nprocs) { assert RankInv(nprocs, s', r); }
    SumBound(s'.stage, Stages(nprocs));
    if |run| > 1 {
      RunsAreBounded(nprocs, run[..|run| - 1]);
      StepMovesOn(nprocs, run[|run| - 2], s');
    }
  }

  lemma StepMovesOn(nprocs: nat, s: State, s': State)
    requires Next(nprocs, s, s')
    ensures Sum(s.stage) + 1 <= Sum(s'.stage)
  {
    if r: nat :| CanSkip(nprocs, s, r) && s' == Skip(nprocs, s, r) {
      SkipMovesOn(nprocs, s, r);
    } else {
      var p: nat, c: nat, lm: LinModel :| CanMeet(nprocs, s, p, c) && s' == Meet(nprocs, s, p, c, lm);
      MeetMovesOn(nprocs, s, p, c, lm);
    }
  }

  lemma SkipMovesOn(nprocs: nat, s: State, r: nat)
    requires Shape(nprocs, s) && r < nprocs
    ensures Sum(Skip(nprocs, s, r).stage) == Sum(s.stage) + 1
  {
    SumUpdate(s.stage, r, s.stage[r] + 1);
  }

  lemma MeetMovesOn(nprocs: nat, s: State, p: nat, c: nat, lm: LinModel)
    requires Shape(nprocs, s) && p < nprocs && c < nprocs && p != c
    ensures Sum(Meet(nprocs, s, p, c, lm).stage) == Sum(s.stage) + 2
  {
    SumUpdate(s.stage, p, s.stage[p] + 1);
    SumUpdate(s.stage[p := s.stage[p] + 1], c, s.stage[c] + 1);
  }

  // ----- the code of one rank -----

  /** The branches of one round. */
  method RoleInRound(my_rank: nat, nprocs: nat, i: nat) returns (role: Role)
    requires i < Rounds(nprocs)
    ensures role == RoleAt(nprocs, my_rank, Rounds(nprocs) - 1 - i)
  {
    var max_power_two, running_power, next_power := MaxPowerTwo(nprocs), Pow2(i + 1), Pow2(i);
    role := Idle;
    if my_rank < max_power_two {
      if my_rank % running_power == 0 {
        role := ParentOf(my_rank + next_power);
      } else if my_rank % running_power == next_power {
        ResidueBelow(my_rank, running_power);
        role := ChildOf(my_rank - next_power);
      }
    }
  }

  /** The branches after the rounds: a leftover rank is the child of the rank max_power_two below it. */
  method LeftoverRole(my_rank: nat, nprocs: nat) returns (role: Role)
    requires my_rank < nprocs
    ensures role == RoleAt(nprocs, my_rank, Rounds(nprocs))
  {
    var max_power_two := MaxPowerTwo(nprocs);
    TopBitBounds(nprocs);
    role := Idle;
    if my_rank >= max_power_two {
      role := ChildOf(my_rank - max_power_two);
    } else if my_rank < nprocs - max_power_two {
      role := ParentOf(my_rank + max_power_two);
    }
  }

  /** The roles of one rank in all stages. */
  ghost predicate PlaysRoles(nprocs: nat, my_rank: nat, roles: seq<Role>)
  {
    forall k: nat {:trigger roles[k]} :: k < |roles| ==> roles[k] == RoleAt(nprocs, my_rank, k)
  }

  /** The rounds as one rank runs them.  fits[k] is what learn_model returns to it in stage k; the result
      lists its role in every stage and the model of its final clock. */
  method SynchronizeAllClocks(my_rank: nat, nprocs: nat, fits: seq<LinModel>)
    returns (my_clock: LinModel, roles: seq<Role>)
    requires my_rank < nprocs && |fits| == Stages(nprocs)
    ensures |roles| == Stages(nprocs) && PlaysRoles(nprocs, my_rank, roles)
    ensures my_rank > 0 ==> ChildStage(nprocs, my_rank) < Stages(nprocs) && my_clock == fits[ChildStage(nprocs, my_rank)]
    ensures my_rank == 0 ==> my_clock == Identity
  {
    var nrounds_step1 := Rounds(nprocs);
    my_clock := LinModel(0.0, 0.0);
    roles := [];
    for i := nrounds_step1 downto 0
      invariant |roles| == nrounds_step1 - i && PlaysRoles(nprocs, my_rank, roles)
      invariant my_clock == ClockAfter(nprocs, my_rank, fits, |roles|)
    {
      var role := RoleInRound(my_rank, nprocs, i);
      if role.ChildOf? {
        my_clock := fits[|roles|];
      }
      roles := roles + [role];
    }
    var role := LeftoverRole(my_rank, nprocs);
    if role.ChildOf? {
      my_clock := fits[|roles|];
    }
    roles := roles + [role];
    ClockAfterChild(nprocs, my_rank, fits, Stages(nprocs));
    if my_rank > 0 { ChildExactlyOnce(nprocs, my_rank, 0); }
  }

  lemma ResidueBelow(a: nat, d: nat)
    requires d > 0
    ensures a % d <= a
  {
    if a < d {
      DivUnique(a, d, 0, a);
    }
  }

  /** The clock after the first k stages: the model of the last stage in which the rank was a child. */
  ghost function ClockAfter(nprocs: nat, r: nat, fits: seq<LinModel>, k: nat): LinModel
    requires k <= |fits|
  {
    if k == 0 then Identity
    else if RoleAt(nprocs, r, k - 1).ChildOf? then fits[k - 1]
    else ClockAfter(nprocs, r, fits, k - 1)
  }

  lemma {:induction false} ClockAfterChild(nprocs: nat, r: nat, fits: seq<LinModel>, k: nat)
    requires r < nprocs && k <= |fits| == Stages(nprocs)
    ensures ClockAfter(nprocs, r, fits, k) ==
            if r > 0 && ChildStage(nprocs, r) < k then fits[ChildStage(nprocs, r)] else Identity
  {
    if k > 0 {
      ClockAfterChild(nprocs, r, fits, k - 1);
      if r == 0 {
        RankZeroIsNoChild(nprocs, k - 1);
      } else {
        ChildExactlyOnce(nprocs, r, k - 1);
      }
    }
  }
}
