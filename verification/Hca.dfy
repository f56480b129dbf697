/** HCA clock synchronization (HCAClockSync.cpp): pairwise models are learned bottom-up in a binary tree
    of ranks and merged on the way to rank 0. */
module Hca {
  import opened Bits
  import opened ClockModels

  /** Models that can be merged, and the model of a clock that needs no correction.  The tree algorithm
      uses no more than that; `LinearModels` is the instance the code runs with. */
  datatype Merging<!M> = Merging(unit: M, merge: (M, M) -> M)

  const LinearModels: Merging<LinModel> := Merging(Identity, (a: LinModel, b: LinModel) => Merge(a, b))

  /** learned(p, c) is the model rank c learns against rank p. */
  type Learned<!M> = (nat, nat) -> M

  ghost predicate Monoid<M(!new)>(G: Merging<M>)
  {
    && (forall a {:trigger UnitAt(G, a)} :: UnitAt(G, a))
    && (forall a, b, c {:trigger AssociativeAt(G, a, b, c)} :: AssociativeAt(G, a, b, c))
  }

  ghost predicate UnitAt<M>(G: Merging<M>, a: M)
  {
    G.merge(G.unit, a) == a && G.merge(a, G.unit) == a
  }

  ghost predicate AssociativeAt<M>(G: Merging<M>, a: M, b: M, c: M)
  {
    G.merge(G.merge(a, b), c) == G.merge(a, G.merge(b, c))
  }

  lemma LinearModelsAreMonoid()
    ensures Monoid(LinearModels)
  {
    forall a ensures UnitAt(LinearModels, a) { MergeIdentity(a); }
    forall a, b, c ensures AssociativeAt(LinearModels, a, b, c) { MergeAssociative(a, b, c); }
  }

  /** floor(log2 nprocs) */
  function Rounds(nprocs: nat): nat
  {
    if nprocs == 0 then 0 else TopBitBounds(nprocs); BitLength(nprocs) - 1
  }

  function MaxPowerTwo(nprocs: nat): nat
  {
    Pow2(Rounds(nprocs))
  }

  // ----- the reference: the path of a rank to rank 0 -----

  /** The rank a rank learns its model against. */
  function Parent(nprocs: nat, r: nat): (p: nat)
    requires 0 < r
    ensures p < r
  {
    if r >= MaxPowerTwo(nprocs) then r - MaxPowerTwo(nprocs) else r - LowBit(r)
  }

  /** Correct with the model towards the parent, then towards its parent, and so on up to rank 0. */
  function PathModel<M(!new)>(G: Merging<M>, nprocs: nat, learned: Learned<M>, r: nat): M
  {
    if r == 0 then G.unit
    else G.merge(PathModel(G, nprocs, learned, Parent(nprocs, r)), learned(Parent(nprocs, r), r))
  }

  /** The path from r up to m inside the tree of step 1. */
  ghost function PathTo<M(!new)>(G: Merging<M>, learned: Learned<M>, m: nat, r: nat): M
    decreases r
  {
    if r <= m then G.unit
    else G.merge(PathTo(G, learned, m, r - LowBit(r)), learned(r - LowBit(r), r))
  }

  lemma {:induction false} PathModelInTree<M(!new)>(G: Merging<M>, nprocs: nat, learned: Learned<M>, r: nat)
    requires r < MaxPowerTwo(nprocs)
    ensures PathModel(G, nprocs, learned, r) == PathTo(G, learned, 0, r)
  {
    if r > 0 {
      PathModelInTree(G, nprocs, learned, r - LowBit(r));
    }
  }

  /** The path from inside the right half of a subtree goes through the root of that half. */
  lemma {:induction false} PathThroughClient<M(!new)>(G: Merging<M>, learned: Learned<M>, m: nat, i: nat, k: nat)
    requires Monoid(G)
    requires IsMultiple(m, i + 1) && k < Pow2(i)
    ensures var o := m + Pow2(i);
            PathTo(G, learned, m, o + k) == G.merge(learned(m, o), PathTo(G, learned, o, o + k))
    decreases k
  {
    var o := m + Pow2(i);
    MultipleSplit(m, i);
    assert UnitAt(G, learned(m, o));
    if k == 0 {
      assert PathTo(G, learned, m, m) == G.unit;
    } else {
      LowBitShift(o, k, i);
      var k' := k - LowBit(k);
      PathThroughClient(G, learned, m, i, k');
      assert AssociativeAt(G, learned(m, o), PathTo(G, learned, o, o + k'), learned(o + k', o + k));
    }
  }

  // ----- the code -----

  /** The array of rank m is complete up to 2^i: it holds the path models of the 2^i ranks from m on. */
  ghost predicate RowHolds<M(!new)>(G: Merging<M>, learned: Learned<M>, row: seq<M>, m: nat, i: nat)
  {
    forall b: nat {:trigger row[b]} :: m < b < m + Pow2(i) && b < |row| ==> row[b] == PathTo(G, learned, m, b)
  }

  /** One pair in one round, each rank with its own linear_models array: the client learns its model and
      sends its part of the models, the master receives them into tmp_linear_models and merges them. */
  method PairRound<M(!new)>(G: Merging<M>, learned: Learned<M>, master: array<M>, client: array<M>, m: nat, o: nat, nb: nat)
    requires nb > 0 && o == m + nb && o + nb <= master.Length == client.Length && master != client
    modifies master, client
    ensures client[..] == old(client[..])[o := learned(m, o)]
    ensures master[o] == learned(m, o)
    ensures forall b: nat {:trigger master[b]} :: o < b < o + nb ==> master[b] == G.merge(learned(m, o), old(client[b]))
    ensures forall b: nat {:trigger master[b]} :: b < o || o + nb <= b < master.Length ==> master[b] == old(master[b])
  {
    client[o] := learned(m, o);
    var tmp := client[o..o + nb];
    master[o] := tmp[0];
    for j := 1 to nb
      invariant client[..] == old(client[..])[o := learned(m, o)]
      invariant master[o] == learned(m, o)
      invariant forall b: nat {:trigger master[b]} :: o < b < o + j ==> master[b] == G.merge(learned(m, o), old(client[b]))
      invariant forall b: nat {:trigger master[b]} :: b < o || o + j <= b < master.Length ==> master[b] == old(master[b])
    {
      master[o + j] := G.merge(master[o], tmp[j]);
    }
  }

  /** After its pair round a master's array holds twice as many path models. */
  lemma PairDoubles<M(!new)>(G: Merging<M>, learned: Learned<M>, before: seq<M>, client: seq<M>, after: seq<M>, m: nat, i: nat)
    requires Monoid(G)
    requires IsMultiple(m, i + 1) && m + 2 * Pow2(i) <= |before| == |client| == |after|
    requires RowHolds(G, learned, before, m, i) && RowHolds(G, learned, client, m + Pow2(i), i)
    requires var o := m + Pow2(i);
      && after[o] == learned(m, o)
      && (forall b: nat {:trigger after[b]} :: o < b < o + Pow2(i) ==> after[b] == G.merge(learned(m, o), client[b]))
      && (forall b: nat {:trigger after[b]} :: b < o ==> after[b] == before[b])
    ensures RowHolds(G, learned, after, m, i + 1)
  {
    var o := m + Pow2(i);
    forall b: nat {:trigger after[b]} | m < b < m + Pow2(i + 1) && b < |after| ensures after[b] == PathTo(G, learned, m, b) {
      if b >= o {
        PathThroughClient(G, learned, m, i, b - o);
        assert UnitAt(G, learned(m, o));
      }
    }
  }

  /** Every rank has an array of its own. */
  ghost predicate OwnArrays<M>(rows: seq<array<M>>, nprocs: nat)
  {
    && |rows| == nprocs
    && (forall a :: 0 <= a < nprocs ==> rows[a].Length == nprocs)
    && (forall a, b :: 0 <= a < b < nprocs ==> rows[a] != rows[b])
  }

  /** The masters of round i that are below hi hold 2^(i+1) path models, the others still 2^i. */
  ghost predicate MastersHold<M(!new)>(G: Merging<M>, learned: Learned<M>, rows: seq<seq<M>>, n: nat, i: nat, hi: nat)
    requires Pow2(n) <= |rows|
  {
    && (forall m: nat {:trigger rows[m]} :: hi <= m < Pow2(n) && IsMultiple(m, i) ==> RowHolds(G, learned, rows[m], m, i))
    && (forall m: nat {:trigger rows[m]} :: m < hi && m < Pow2(n) && IsMultiple(m, i + 1) ==> RowHolds(G, learned, rows[m], m, i + 1))
  }

  /** The contents of all ranks' arrays. */
  ghost function Contents<M>(rows: seq<array<M>>): (c: seq<seq<M>>)
    reads rows
    ensures |c| == |rows| && forall a :: 0 <= a < |rows| ==> c[a] == rows[a][..]
  {
    seq(|rows|, a requires 0 <= a < |rows| reads rows => rows[a][..])
  }

  /** What a master turn of r does to the arrays keeps the round's progress. */
  lemma TurnProgress<M(!new)>(G: Merging<M>, learned: Learned<M>, before: seq<seq<M>>, after: seq<seq<M>>, n: nat, i: nat, r: nat)
    requires i < n && r < Pow2(n) <= |before| == |after| && IsMultiple(r, i + 1)
    requires MastersHold(G, learned, before, n, i, r)
    requires var o := r + Pow2(i);
      o < |before| && o < |before[o]| && after[o] == before[o][o := learned(r, o)] && RowHolds(G, learned, after[r], r, i + 1)
    requires forall m: nat {:trigger after[m]} :: m < |after| && m != r && m != r + Pow2(i) ==> after[m] == before[m]
    ensures MastersHold(G, learned, after, n, i, r + 1)
  {
    var o := r + Pow2(i);
    forall m: nat {:trigger after[m]} | r + 1 <= m < Pow2(n) && IsMultiple(m, i) ensures RowHolds(G, learned, after[m], m, i) {
      assert RowHolds(G, learned, before[m], m, i);
    }
  }

  /** What rank r does in round i as a master, together with its client. */
  method MasterTurn<M(!new)>(G: Merging<M>, learned: Learned<M>, rows: seq<array<M>>, n: nat, i: nat, r: nat)
    requires Monoid(G)
    requires i < n && r < Pow2(n) <= |rows| && OwnArrays(rows, |rows|) && IsMultiple(r, i + 1)
    requires MastersHold(G, learned, Contents(rows), n, i, r)
    modifies rows
    ensures MastersHold(G, learned, Contents(rows), n, i, r + 1)
  {
    MultipleSplit(r, i);
    MultipleRoom(r, i + 1, n);
    var o := r + Pow2(i);
    ghost var before := Contents(rows);
    assert RowHolds(G, learned, before[r], r, i) && RowHolds(G, learned, before[o], o, i);
    PairRound(G, learned, rows[r], rows[o], r, o, Pow2(i));
    ghost var after := Contents(rows);
    PairDoubles(G, learned, before[r], before[o], after[r], r, i);
    TurnProgress(G, learned, before, after, n, i, r);
  }

  /** A rank that is not a master of the round does nothing. */
  lemma SkippedTurn<M(!new)>(G: Merging<M>, learned: Learned<M>, rows: seq<seq<M>>, n: nat, i: nat, r: nat)
    requires Pow2(n) <= |rows| && MastersHold(G, learned, rows, n, i, r) && !IsMultiple(r, i + 1)
    ensures MastersHold(G, learned, rows, n, i, r + 1)
  {
  }

  /** Once every master of a round has had its turn, the next round can begin. */
  lemma RoundEnds<M(!new)>(G: Merging<M>, learned: Learned<M>, rows: seq<seq<M>>, n: nat, i: nat)
    requires Pow2(n) <= |rows| && MastersHold(G, learned, rows, n, i, Pow2(n))
    ensures MastersHold(G, learned, rows, n, i + 1, 0)
  {
  }

  /** Step 1: the binary tree over the ranks below the largest power of two.  The barrier after every
      round separates the rounds, so the pairs of one round may be taken one after the other. */
  method TreeRounds<M(!new)>(G: Merging<M>, nprocs: nat, learned: Learned<M>, rows: seq<array<M>>)
    requires Monoid(G)
    requires nprocs > 0 && OwnArrays(rows, nprocs)
    modifies rows
    ensures RowHolds(G, learned, rows[0][..], 0, Rounds(nprocs))
  {
    var nrounds_step1, max_power_two := Rounds(nprocs), MaxPowerTwo(nprocs);
    TopBitBounds(nprocs);
    for i := 0 to nrounds_step1
      invariant MastersHold(G, learned, Contents(rows), nrounds_step1, i, 0)
    {
      var running_power := Pow2(i + 1);
      for r := 0 to max_power_two
        invariant MastersHold(G, learned, Contents(rows), nrounds_step1, i, r)
      {
        MultipleIsMod(r, i + 1);
        if r % running_power == 0 {
          MasterTurn(G, learned, rows, nrounds_step1, i, r);
        } else {
          SkippedTurn(G, learned, Contents(rows), nrounds_step1, i, r);
        }
      }
      RoundEnds(G, learned, Contents(rows), nrounds_step1, i);
    }
    assert IsMultiple(0, nrounds_step1) by { MultipleIsMod(0, nrounds_step1); }
    assert RowHolds(G, learned, Contents(rows)[0], 0, nrounds_step1);
  }

  /** The array holds the path models to rank 0 of the ranks below hi. */
  ghost predicate HoldsPaths<M(!new)>(G: Merging<M>, nprocs: nat, learned: Learned<M>, row: seq<M>, hi: nat)
  {
    forall b: nat {:trigger row[b]} :: 0 < b < hi && b < |row| ==> row[b] == PathModel(G, nprocs, learned, b)
  }

  lemma TreePaths<M(!new)>(G: Merging<M>, nprocs: nat, learned: Learned<M>, row: seq<M>)
    requires RowHolds(G, learned, row, 0, Rounds(nprocs))
    ensures HoldsPaths(G, nprocs, learned, row, MaxPowerTwo(nprocs))
  {
    forall b: nat {:trigger row[b]} | 0 < b < MaxPowerTwo(nprocs) && b < |row| ensures row[b] == PathModel(G, nprocs, learned, b) {
      PathModelInTree(G, nprocs, learned, b);
    }
  }

  lemma HoldsOneMore<M(!new)>(G: Merging<M>, nprocs: nat, learned: Learned<M>, row: seq<M>, p: nat)
    requires HoldsPaths(G, nprocs, learned, row, p) && 0 < p < |row|
    ensures HoldsPaths(G, nprocs, learned, row[p := PathModel(G, nprocs, learned, p)], p + 1)
  {
  }

  /** What rank 0 merges for the b-th leftover rank. */
  lemma LeftoverMerged<M(!new)>(G: Merging<M>, nprocs: nat, learned: Learned<M>, row: seq<M>, b: nat)
    requires Monoid(G)
    requires b < MaxPowerTwo(nprocs) <= |row| && HoldsPaths(G, nprocs, learned, row, MaxPowerTwo(nprocs) + b)
    ensures var p := MaxPowerTwo(nprocs) + b;
            PathModel(G, nprocs, learned, p) == if b == 0 then learned(0, p) else G.merge(row[b], learned(b, p))
  {
    LeftoverPath(G, nprocs, learned, b);
    assert b > 0 ==> row[b] == PathModel(G, nprocs, learned, b);
  }

  /** What rank 0 gathers from itself and the leftover ranks. */
  function Gathered<M(!new)>(G: Merging<M>, nprocs: nat, learned: Learned<M>): (g: seq<M>)
    requires MaxPowerTwo(nprocs) <= nprocs
    ensures |g| == nprocs - MaxPowerTwo(nprocs) + 1
    ensures forall j {:trigger g[j]} :: 1 <= j < |g| ==> g[j] == learned(j - 1, MaxPowerTwo(nprocs) - 1 + j)
  {
    seq(nprocs - MaxPowerTwo(nprocs) + 1, j requires 0 <= j =>
      if j == 0 then G.unit else learned(j - 1, MaxPowerTwo(nprocs) - 1 + j))
  }

  /** Step 2: every leftover rank learns its model against the rank max_power_two below it; rank 0 gathers
      these models and merges each with the path model of that rank. */
  method StepTwo<M(!new)>(G: Merging<M>, nprocs: nat, learned: Learned<M>, models: array<M>)
    requires Monoid(G)
    requires nprocs > 0 && models.Length == nprocs
    requires RowHolds(G, learned, models[..], 0, Rounds(nprocs))
    modifies models
    ensures HoldsPaths(G, nprocs, learned, models[..], nprocs)
  {
    TopBitBounds(nprocs);
    TreePaths(G, nprocs, learned, models[..]);
    if nprocs > MaxPowerTwo(nprocs) {
      models[MaxPowerTwo(nprocs)] := G.unit;  // what the parent's side of learn_model returns
      MergeLeftovers(G, nprocs, learned, models, Gathered(G, nprocs, learned));
    }
  }

  /** The merging loop of step 2 on rank 0. */
  method MergeLeftovers<M(!new)>(G: Merging<M>, nprocs: nat, learned: Learned<M>, models: array<M>, gathered: seq<M>)
    requires Monoid(G)
    requires 0 < MaxPowerTwo(nprocs) <= nprocs == models.Length && gathered == Gathered(G, nprocs, learned)
    requires MaxPowerTwo(nprocs) >= |gathered| - 1
    requires HoldsPaths(G, nprocs, learned, models[..], MaxPowerTwo(nprocs))
    modifies models
    ensures HoldsPaths(G, nprocs, learned, models[..], nprocs)
  {
    var max_power_two, step_two_nb_ranks := MaxPowerTwo(nprocs), |gathered|;
    for j := 1 to step_two_nb_ranks
      invariant HoldsPaths(G, nprocs, learned, models[..], max_power_two + j - 1)
    {
      var p := max_power_two - 1 + j;
      ghost var before := models[..];
      LeftoverMerged(G, nprocs, learned, before, j - 1);
      var merged := if j == 1 then gathered[j] else G.merge(models[j - 1], gathered[j]);
      models[p] := merged;
      HoldsOneMore(G, nprocs, learned, before, p);
    }
  }

  lemma LeftoverPath<M(!new)>(G: Merging<M>, nprocs: nat, learned: Learned<M>, b: nat)
    requires Monoid(G)
    requires b < MaxPowerTwo(nprocs)
    ensures var p := MaxPowerTwo(nprocs) + b;
            PathModel(G, nprocs, learned, p) ==
            if b == 0 then learned(0, p) else G.merge(PathModel(G, nprocs, learned, b), learned(b, p))
  {
    assert UnitAt(G, learned(0, MaxPowerTwo(nprocs)));
  }

  /** The models rank 0 scatters. */
  method MergedModels<M(!new,0)>(G: Merging<M>, nprocs: nat, learned: Learned<M>) returns (models: seq<M>)
    requires Monoid(G)
    requires nprocs > 0
    ensures |models| == nprocs
    ensures forall r: nat {:trigger models[r]} :: 0 < r < nprocs ==> models[r] == PathModel(G, nprocs, learned, r)
  {
    var rows: seq<array<M>> := [];
    for a := 0 to nprocs
      invariant |rows| == a
      invariant forall b :: 0 <= b < a ==> fresh(rows[b]) && rows[b].Length == nprocs
      invariant forall b, c :: 0 <= b < c < a ==> rows[b] != rows[c]
    {
      var row := new M[nprocs];
      rows := rows + [row];
    }
    TreeRounds(G, nprocs, learned, rows);
    StepTwo(G, nprocs, learned, rows[0]);
    models := rows[0][..];
  }

  /** A (timestamp, offset) pair as a rank measures it against rank 0. */
  datatype Measurement = Measurement(timestamp: real, offset: real)

  /** The whole synchronization: every rank but 0 keeps the slope of its path model and takes its
      intercept from a fresh measurement against rank 0; rank 0's own model is the identity. */
  method SynchronizeAllClocks(nprocs: nat, learned: Learned<LinModel>, measured: seq<Measurement>) returns (clocks: seq<LinModel>)
    requires 0 < nprocs == |measured|
    ensures |clocks| == nprocs && clocks[0] == Identity
    ensures forall r: nat {:trigger clocks[r]} :: 0 < r < nprocs ==>
      clocks[r].slope == PathModel(LinearModels, nprocs, learned, r).slope &&
      Apply(clocks[r], measured[r].timestamp) == measured[r].timestamp - measured[r].offset
  {
    LinearModelsAreMonoid();
    var models := MergedModels(LinearModels, nprocs, learned);
    clocks := seq(nprocs, r requires 0 <= r < nprocs =>
      if r == 0 then LinModel(0.0, 0.0)
      else LinModel(models[r].slope, models[r].slope * -measured[r].timestamp + measured[r].offset));
  }

  // ----- what the path models mean -----

  /** A clock as an affine function of true time. */
  datatype AffineClock = AffineClock(rate: real, start: real)
  {
    function At(t: real): real { rate * t + start }
  }

  /** The learned model predicts the reference's reading from the client's at every instant. */
  ghost predicate Exact(ref: AffineClock, client: AffineClock, lm: LinModel)
  {
    forall t: real {:trigger client.At(t)} :: Apply(lm, client.At(t)) == ref.At(t)
  }

  /** If every pairwise model is exact, every merged model turns a rank's reading into rank 0's. */
  lemma {:induction false} PathModelReadsRankZero(nprocs: nat, learned: Learned<LinModel>, clocks: nat -> AffineClock, r: nat)
    requires forall c: nat {:trigger Parent(nprocs, c)} :: 0 < c <= r ==>
      Exact(clocks(Parent(nprocs, c)), clocks(c), learned(Parent(nprocs, c), c))
    ensures Exact(clocks(0), clocks(r), PathModel(LinearModels, nprocs, learned, r))
  {
    if r > 0 {
      var p := Parent(nprocs, r);
      PathModelReadsRankZero(nprocs, learned, clocks, p);
      forall t: real
        ensures Apply(PathModel(LinearModels, nprocs, learned, r), clocks(r).At(t)) == clocks(0).At(t)
      {
        MergeIsComposition(PathModel(LinearModels, nprocs, learned, p), learned(p, r), clocks(r).At(t));
        assert Apply(learned(p, r), clocks(r).At(t)) == clocks(p).At(t);
        assert Apply(PathModel(LinearModels, nprocs, learned, p), clocks(p).At(t)) == clocks(0).At(t);
      }
    }
  }

  /** The final clocks, whose intercepts were measured again: with exact pairwise models, rank r's final clock
      reads rank 0's time at every instant if and only if its last measurement, taken at time t, was exact. */
  lemma FinalClocksReadRankZero(nprocs: nat, learned: Learned<LinModel>, clocks: nat -> AffineClock, r: nat,
                                t: real, offset: real, final: LinModel)
    requires forall c: nat {:trigger Parent(nprocs, c)} :: 0 < c <= r ==>
      Exact(clocks(Parent(nprocs, c)), clocks(c), learned(Parent(nprocs, c), c))
    requires final.slope == PathModel(LinearModels, nprocs, learned, r).slope
    requires Apply(final, clocks(r).At(t)) == clocks(r).At(t) - offset
    ensures Exact(clocks(0), clocks(r), final) <==> offset == clocks(r).At(t) - clocks(0).At(t)
    ensures offset == clocks(r).At(t) - clocks(0).At(t) ==> final == PathModel(LinearModels, nprocs, learned, r)
  {
    var path := PathModel(LinearModels, nprocs, learned, r);
    PathModelReadsRankZero(nprocs, learned, clocks, r);
    assert Apply(path, clocks(r).At(t)) == clocks(0).At(t);
    if offset == clocks(r).At(t) - clocks(0).At(t) {
      assert final.intercept == path.intercept;
    }
  }
}
