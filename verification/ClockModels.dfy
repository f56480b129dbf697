/** Affine clock models and chains of nested global clocks (HCAAbstractClockSync.cpp, clocks/).
    Clock readings are real numbers. */
module ClockModels {

  /** A linear model predicts how far a clock is ahead: slope * t + intercept. */
  datatype LinModel = LinModel(slope: real, intercept: real)

  const Identity := LinModel(0.0, 0.0)

  /** The corrected reading. */
  function Correct(slope: real, intercept: real, t: real): real
  {
    t - (t * slope + intercept)
  }

  function Apply(lm: LinModel, t: real): real
  {
    Correct(lm.slope, lm.intercept, t)
  }

  function MergeSlopes(slope1: real, slope2: real): real
  {
    slope1 + slope2 - slope1 * slope2
  }

  function MergeIntercepts(slope1: real, intercept1: real, intercept2: real): real
  {
    intercept1 + intercept2 - intercept2 * slope1
  }

  function Merge(lm1: LinModel, lm2: LinModel): LinModel
  {
    LinModel(MergeSlopes(lm1.slope, lm2.slope), MergeIntercepts(lm1.slope, lm1.intercept, lm2.intercept))
  }

  /** Merging is composition: correct with lm2 first, then with lm1. */
  lemma MergeIsComposition(lm1: LinModel, lm2: LinModel, t: real)
    ensures Apply(Merge(lm1, lm2), t) == Apply(lm1, Apply(lm2, t))
  {
    CorrectTwice(lm1.slope, lm1.intercept, lm2.slope, lm2.intercept, t);
  }

  lemma CorrectTwice(a: real, i: real, b: real, j: real, t: real)
    ensures Correct(MergeSlopes(a, b), MergeIntercepts(a, i, j), t) == Correct(a, i, Correct(b, j, t))
  {
    var ab, tb := a * b, t * b;
    Distribute(t, a + b, -ab);
    Distribute(t, a, b);
    Distribute(a, t - tb, -j);
    Distribute(a, t, -tb);
    assert t * ab == a * tb;
  }

  lemma Distribute(x: real, y: real, z: real)
    ensures x * (y + z) == x * y + x * z
  {
  }

  lemma MergeAssociative(a: LinModel, b: LinModel, c: LinModel)
    ensures Merge(Merge(a, b), c) == Merge(a, Merge(b, c))
  {
    SlopeAssociative(a.slope, b.slope, c.slope);
    InterceptAssociative(a.slope, b.slope, a.intercept, b.intercept, c.intercept);
  }

  lemma SlopeAssociative(a: real, b: real, c: real)
    ensures MergeSlopes(MergeSlopes(a, b), c) == MergeSlopes(a, MergeSlopes(b, c))
  {
  }

  lemma InterceptAssociative(a: real, b: real, i: real, j: real, k: real)
    ensures MergeIntercepts(MergeSlopes(a, b), MergeIntercepts(a, i, j), k) ==
            MergeIntercepts(a, i, MergeIntercepts(b, j, k))
  {
  }

  lemma MergeIdentity(lm: LinModel)
    ensures Merge(Identity, lm) == lm && Merge(lm, Identity) == lm
  {
  }

  lemma IdentityApplies(t: real)
    ensures Apply(Identity, t) == t
  {
  }

  /** Two readings determine a model. */
  lemma ModelDetermined(a: LinModel, b: LinModel, t: real, u: real)
    requires t != u && Apply(a, t) == Apply(b, t) && Apply(a, u) == Apply(b, u)
    ensures a == b
  {
    var d := a.slope - b.slope;
    assert t * d == t * a.slope - t * b.slope;
    assert u * d == u * a.slope - u * b.slope;
    assert (t - u) * d == 0.0;
  }

  // ----- nested clocks -----

  /** A global clock corrects the readings of the clock it is built on. */
  datatype Clock =
    | Base
    | Offset(local: Clock, offset: real)
    | LM(local: Clock, slope: real, intercept: real)

  function ApplyClockModel(c: Clock, t: real): real
    requires !c.Base?
  {
    match c
    case Offset(_, o) => t - o
    case LM(_, s, i) => t - (t * s + i)
  }

  /** get_time: now is the reading of the base clock. */
  function GetTime(c: Clock, now: real): real
  {
    if c.Base? then now else ApplyClockModel(c, GetTime(c.local, now))
  }

  function ConvertToGlobalTime(c: Clock, timestamp: real): real
    requires !c.Base?
  {
    var t := if !c.local.Base? then ConvertToGlobalTime(c.local, timestamp) else timestamp;
    ApplyClockModel(c, t)
  }

  /** The whole chain as one model. */
  function Collapse(c: Clock): LinModel
  {
    match c
    case Base => Identity
    case Offset(l, o) => Merge(LinModel(0.0, o), Collapse(l))
    case LM(l, s, i) => Merge(LinModel(s, i), Collapse(l))
  }

  /** However deeply clocks are nested, converting a timestamp applies the one merged model, and reading
      the clock is converting the base reading. */
  lemma {:induction false} NestedClockIsOneModel(c: Clock, t: real)
    requires !c.Base?
    ensures ConvertToGlobalTime(c, t) == Apply(Collapse(c), t)
    ensures GetTime(c, t) == ConvertToGlobalTime(c, t)
  {
    var top := if c.Offset? then LinModel(0.0, c.offset) else LinModel(c.slope, c.intercept);
    MergeIsComposition(top, Collapse(c.local), t);
    if c.local.Base? {
      IdentityApplies(t);
    } else {
      NestedClockIsOneModel(c.local, t);
    }
  }
}
