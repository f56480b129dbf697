/** The rank-sum statistic of wilcoxon_rank_sum.cpp. */
module RankSum {

  ghost predicate Sorted(s: seq<real>)
  {
    forall i, j :: 0 <= i < j < |s| ==> s[i] <= s[j]
  }

  /** 1 + 2 + ... + n */
  function Triangle(n: nat): nat
  {
    if n == 0 then 0 else Triangle(n - 1) + n
  }

  lemma {:induction false} TriangleClosedForm(n: nat)
    ensures 2 * Triangle(n) == n * (n + 1)
  {
    if n > 0 { TriangleClosedForm(n - 1); }
  }

  /** How many elements of s are at most x. */
  function CountAtMost(s: seq<real>, x: real): nat
  {
    if s == [] then 0 else (if s[0] <= x then 1 else 0) + CountAtMost(s[1..], x)
  }

  /** The quadratic count: pairs (a, b) with s1[a] <= s2[b]. */
  function Pairs(s1: seq<real>, s2: seq<real>): nat
  {
    if s2 == [] then 0 else CountAtMost(s1, s2[0]) + Pairs(s1, s2[1..])
  }

  /** The rank sum of sample 2 as a number of pairs; the merge computes it. */
  function RankSum2(s1: seq<real>, s2: seq<real>): nat
  {
    Triangle(|s2|) + Pairs(s1, s2)
  }

  lemma {:induction false} CountConcat(s: seq<real>, t: seq<real>, x: real)
    ensures CountAtMost(s + t, x) == CountAtMost(s, x) + CountAtMost(t, x)
  {
    if s == [] {
      assert s + t == t;
    } else {
      assert (s + t)[1..] == s[1..] + t;
      CountConcat(s[1..], t, x);
    }
  }

  lemma {:induction false} PairsConcat(s1: seq<real>, s: seq<real>, t: seq<real>)
    ensures Pairs(s1, s + t) == Pairs(s1, s) + Pairs(s1, t)
  {
    if s == [] {
      assert s + t == t;
    } else {
      assert (s + t)[1..] == s[1..] + t;
      PairsConcat(s1, s[1..], t);
    }
  }

  /** If the first i elements are at most x and the others are not, the count is i. */
  lemma {:induction false} CountIsSplit(s: seq<real>, x: real, i: nat)
    requires i <= |s|
    requires forall a :: 0 <= a < i ==> s[a] <= x
    requires forall a :: i <= a < |s| ==> s[a] > x
    ensures CountAtMost(s, x) == i
  {
    if s != [] {
      CountIsSplit(s[1..], x, if i > 0 then i - 1 else 0);
    }
  }

  /** The merge loop of get_z_value on sorted samples. */
  method RankSums(sample_1: seq<real>, sample_2: seq<real>) returns (sample_1_rank_sum: nat, sample_2_rank_sum: nat)
    ensures sample_1_rank_sum + sample_2_rank_sum == Triangle(|sample_1| + |sample_2|)
    ensures Sorted(sample_1) && Sorted(sample_2) ==>
      sample_2_rank_sum == RankSum2(sample_1, sample_2)
  {
    var n, m := |sample_1|, |sample_2|;
    var i, j := 0, 0;
    sample_1_rank_sum, sample_2_rank_sum := 0, 0;
    while i < n || j < m
      invariant 0 <= i <= n && 0 <= j <= m
      invariant sample_1_rank_sum + sample_2_rank_sum == Triangle(i + j)
      invariant Sorted(sample_1) && Sorted(sample_2) ==> forall a, b :: 0 <= a < i && j <= b < m ==> sample_1[a] <= sample_2[b]
      invariant Sorted(sample_1) && Sorted(sample_2) ==> sample_2_rank_sum == Triangle(j) + Pairs(sample_1, sample_2[..j])
      decreases n - i + m - j
    {
      if i < n && (j >= m || sample_1[i] <= sample_2[j]) {
        sample_1_rank_sum := sample_1_rank_sum + (i + j + 1);
        i := i + 1;
      } else {
        sample_2_rank_sum := sample_2_rank_sum + (i + j + 1);
        if Sorted(sample_1) && Sorted(sample_2) {
          CountIsSplit(sample_1, sample_2[j], i);
          PairsConcat(sample_1, sample_2[..j], [sample_2[j]]);
          assert sample_2[..j] + [sample_2[j]] == sample_2[..j + 1];
        }
        j := j + 1;
      }
    }
    assert sample_2[..m] == sample_2;
  }

  // ----- independence of the order -----

  lemma {:induction false} CountPermutes(s: seq<real>, t: seq<real>, x: real)
    requires multiset(s) == multiset(t)
    ensures CountAtMost(s, x) == CountAtMost(t, x)
    decreases |s|
  {
    if s == [] {
      assert |multiset(t)| == 0;
    } else {
      var i := TakeOut(s, t);
      CountPermutes(s[1..], t[..i] + t[i + 1..], x);
      assert t == t[..i] + [t[i]] + t[i + 1..];
      CountConcat(t[..i] + [t[i]], t[i + 1..], x);
      CountConcat(t[..i], [t[i]], x);
      CountConcat(t[..i], t[i + 1..], x);
    }
  }

  lemma {:induction false} PairsPermute(s1: seq<real>, s: seq<real>, t: seq<real>)
    requires multiset(s) == multiset(t)
    ensures Pairs(s1, s) == Pairs(s1, t)
    decreases |s|
  {
    if s == [] {
      assert |multiset(t)| == 0;
    } else {
      var i := TakeOut(s, t);
      PairsPermute(s1, s[1..], t[..i] + t[i + 1..]);
      assert t == t[..i] + [t[i]] + t[i + 1..];
      PairsConcat(s1, t[..i] + [t[i]], t[i + 1..]);
      PairsConcat(s1, t[..i], [t[i]]);
      PairsConcat(s1, t[..i], t[i + 1..]);
    }
  }

  /** The head of s occurs in t; removing it from both leaves permutations. */
  lemma TakeOut(s: seq<real>, t: seq<real>) returns (i: nat)
    requires s != [] && multiset(s) == multiset(t)
    ensures i < |t| && t[i] == s[0] && multiset(s[1..]) == multiset(t[..i] + t[i + 1..])
  {
    assert s[0] in multiset(t);
    i :| i < |t| && t[i] == s[0];
    Without(s, 0);
    Without(t, i);
    assert s[..0] + s[1..] == s[1..];
  }

  lemma Without(s: seq<real>, i: nat)
    requires i < |s|
    ensures multiset(s[..i] + s[i + 1..]) == multiset(s) - multiset{s[i]}
  {
    assert s == s[..i] + ([s[i]] + s[i + 1..]);
  }

  lemma {:induction false} PairsOfPermuted(s1: seq<real>, t1: seq<real>, s2: seq<real>)
    requires multiset(s1) == multiset(t1)
    ensures Pairs(s1, s2) == Pairs(t1, s2)
  {
    if s2 != [] {
      CountPermutes(s1, t1, s2[0]);
      PairsOfPermuted(s1, t1, s2[1..]);
    }
  }

  /** The statistic on unsorted samples, given their sorted versions: the linear merge yields the quadratic
      count, and the code's check that all ranks were assigned holds. */
  method SampleRankSums(sample_1: seq<real>, sample_2: seq<real>, sorted_1: seq<real>, sorted_2: seq<real>)
    returns (sample_1_rank_sum: nat, sample_2_rank_sum: nat)
    requires Sorted(sorted_1) && multiset(sorted_1) == multiset(sample_1)
    requires Sorted(sorted_2) && multiset(sorted_2) == multiset(sample_2)
    ensures var size_sum := |sample_1| + |sample_2|;
      2 * (sample_1_rank_sum + sample_2_rank_sum) == size_sum * (size_sum + 1)
    ensures sample_2_rank_sum == RankSum2(sample_1, sample_2)
    ensures 2 * (sample_2_rank_sum - Pairs(sample_1, sample_2)) == |sample_2| * (|sample_2| + 1)
  {
    sample_1_rank_sum, sample_2_rank_sum := RankSums(sorted_1, sorted_2);
    assert |sorted_1| == |multiset(sorted_1)| == |sample_1|;
    assert |sorted_2| == |multiset(sorted_2)| == |sample_2|;
    TriangleClosedForm(|sample_1| + |sample_2|);
    TriangleClosedForm(|sample_2|);
    PairsOfPermuted(sorted_1, sample_1, sorted_2);
    PairsPermute(sample_1, sorted_2, sample_2);
  }

  // ----- the range and the mean of the rank sum -----

  lemma {:induction false} CountRange(s: seq<real>, x: real)
    ensures CountAtMost(s, x) <= |s|
    ensures CountAtMost(s, x) == 0 <==> forall a :: 0 <= a < |s| ==> s[a] > x
    ensures CountAtMost(s, x) == |s| <==> forall a :: 0 <= a < |s| ==> s[a] <= x
  {
    if s != [] {
      CountRange(s[1..], x);
      assert forall a :: 0 < a < |s| ==> s[a] == s[1..][a - 1];
    }
  }

  ghost predicate AllAbove(s1: seq<real>, s2: seq<real>)
  {
    forall a, b :: 0 <= a < |s1| && 0 <= b < |s2| ==> s1[a] > s2[b]
  }

  ghost predicate AllAtMost(s1: seq<real>, s2: seq<real>)
  {
    forall a, b :: 0 <= a < |s1| && 0 <= b < |s2| ==> s1[a] <= s2[b]
  }

  lemma {:induction false} PairsBounds(s1: seq<real>, s2: seq<real>)
    ensures Pairs(s1, s2) <= |s1| * |s2|
  {
    if s2 != [] {
      CountRange(s1, s2[0]);
      PairsBounds(s1, s2[1..]);
      assert |s1| * |s2| == |s1| + |s1| * (|s2| - 1);
    }
  }

  lemma {:induction false} NoPairs(s1: seq<real>, s2: seq<real>)
    ensures Pairs(s1, s2) == 0 <==> AllAbove(s1, s2)
  {
    if s2 != [] {
      CountRange(s1, s2[0]);
      NoPairs(s1, s2[1..]);
      assert forall b :: 0 < b < |s2| ==> s2[b] == s2[1..][b - 1];
    }
  }

  lemma {:induction false} AllPairs(s1: seq<real>, s2: seq<real>)
    ensures Pairs(s1, s2) == |s1| * |s2| <==> AllAtMost(s1, s2)
  {
    if s2 != [] {
      CountRange(s1, s2[0]);
      PairsBounds(s1, s2[1..]);
      AllPairs(s1, s2[1..]);
      assert |s1| * |s2| == |s1| + |s1| * (|s2| - 1);
      assert forall b :: 0 < b < |s2| ==> s2[b] == s2[1..][b - 1];
    }
  }

  function LeastSum(n: nat, m: nat): nat { Triangle(m) }

  function GreatestSum(n: nat, m: nat): nat { Triangle(m) + n * m }

  /** Sample 2's rank sum lies between these bounds.  It meets them exactly if the samples do not overlap, and
      both are attained for all sizes. */
  lemma RankSumRange(s1: seq<real>, s2: seq<real>) returns (low: seq<real>, high: seq<real>)
    ensures LeastSum(|s1|, |s2|) <= RankSum2(s1, s2) <= GreatestSum(|s1|, |s2|)
    ensures RankSum2(s1, s2) == LeastSum(|s1|, |s2|) <==> AllAbove(s1, s2)
    ensures RankSum2(s1, s2) == GreatestSum(|s1|, |s2|) <==> AllAtMost(s1, s2)
    ensures |low| == |high| == |s2|
    ensures RankSum2(s1, low) == LeastSum(|s1|, |s2|) && RankSum2(s1, high) == GreatestSum(|s1|, |s2|)
  {
    PairsBounds(s1, s2);
    NoPairs(s1, s2);
    AllPairs(s1, s2);
    var bound := Bound(s1);
    low, high := seq(|s2|, _ => -bound), seq(|s2|, _ => bound);
    NoPairs(s1, low);
    AllPairs(s1, high);
  }

  /** A number that all elements are below, and above the negative of. */
  function Bound(s: seq<real>): (x: real)
    ensures x > 0.0 && forall a :: 0 <= a < |s| ==> -x < s[a] < x
  {
    if s == [] then 1.0
    else
      var x, y := Bound(s[1..]), if s[0] < 0.0 then 1.0 - s[0] else 1.0 + s[0];
      if x < y then y else x
  }

  function Negated(s: seq<real>): (r: seq<real>)
    ensures |r| == |s|
  {
    if s == [] then [] else [-s[0]] + Negated(s[1..])
  }

  lemma {:induction false} MirrorCount(s: seq<real>, x: real)
    requires x !in s
    ensures CountAtMost(s, x) + CountAtMost(Negated(s), -x) == |s|
  {
    if s != [] {
      MirrorCount(s[1..], x);
      assert Negated(s)[1..] == Negated(s[1..]);
    }
  }

  /** Without ties the rank sums of the samples and of their mirror images have the mean of the two bounds: the
      distribution of the rank sum is symmetric around it. */
  lemma {:induction false} MirrorRankSums(s1: seq<real>, s2: seq<real>)
    requires forall b :: 0 <= b < |s2| ==> s2[b] !in s1
    ensures Pairs(s1, s2) + Pairs(Negated(s1), Negated(s2)) == |s1| * |s2|
    ensures RankSum2(s1, s2) + RankSum2(Negated(s1), Negated(s2)) == LeastSum(|s1|, |s2|) + GreatestSum(|s1|, |s2|)
  {
    if s2 != [] {
      MirrorCount(s1, s2[0]);
      MirrorRankSums(s1, s2[1..]);
      assert Negated(s2)[1..] == Negated(s2[1..]);
      assert |s1| * |s2| == |s1| + |s1| * (|s2| - 1);
    }
  }

  /** get_expected_value, in the integer arithmetic of the sizes. */
  function ExpectedValue(n: nat, m: nat): nat
  {
    n * (m + m + 1) / 2
  }

  /** The code's formula is the middle of sample 2's rank sum, which all its values lie around symmetrically,
      exactly for equal even sizes (and for sizes 1 and 0). */
  lemma ExpectedValueExact(n: nat, m: nat)
    ensures 2 * ExpectedValue(n, m) == LeastSum(n, m) + GreatestSum(n, m) <==> (n == m && n % 2 == 0) || (n == 1 && m == 0)
  {
    TriangleClosedForm(m);
    assert m * (n + m + 1) == n * m + m * (m + 1);
    ExpectedFormula(n, m);
  }

  lemma ExpectedFormula(n: nat, m: nat)
    ensures 2 * ExpectedValue(n, m) == m * (n + m + 1) <==> (n == m && n % 2 == 0) || (n == 1 && m == 0)
  {
    var code := n * (m + m + 1);
    assert code == 2 * (n * m) + n;
    assert m * (n + m + 1) == n * m + m * m + m;
    var d := n - m;
    assert d * (m + 1) == n * m + n - m * m - m;
    assert code % 2 == n % 2;
    if n % 2 == 0 {
      if d != 0 { NonzeroProduct(d, m + 1); }
    } else {
      assert 2 * ExpectedValue(n, m) - m * (n + m + 1) == d * (m + 1) - 1;
      if d > 1 { assert d * (m + 1) == (d - 2) * (m + 1) + 2 * (m + 1); NonnegativeProduct(d - 2, m + 1); }
      if d < 0 { NonnegativeProduct(-d, m + 1); assert d * (m + 1) == -((-d) * (m + 1)); }
    }
  }

  lemma NonzeroProduct(a: int, b: int)
    requires a != 0 && b > 0
    ensures a * b != 0
  {
  }

  lemma NonnegativeProduct(a: int, b: int)
    requires a >= 0 && b >= 0
    ensures a * b >= 0
  {
  }
}
