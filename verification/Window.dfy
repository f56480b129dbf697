/** The window-based process synchronization (window_sync.c), the run-times computed from it
    (runtimes_computation.c) and the selection of valid measurements (results_output.c). */
module Window {
  import opened Bits
  import opened Reals

  const FLAG_START_TIME_HAS_PASSED := 1
  const FLAG_SYNC_WIN_EXPIRED := 2

  /** Local clock readings of one rank in one repetition: while waiting for the window, around the measured
      call, and when it stops. */
  datatype Rep = Rep(polls: seq<real>, tstart: real, tend: real, stop: real)

  /** get_global_time of a rank. */
  type Normalize = real -> real

  ghost predicate Monotone(g: Normalize)
  {
    forall x, y {:trigger g(x), g(y)} :: x <= y ==> g(x) <= g(y)
  }

  /** The readings of a repetition are taken in this order. */
  predicate Ordered(rep: Rep)
  {
    rep.polls != [] && rep.polls[|rep.polls| - 1] <= rep.tstart <= rep.tend <= rep.stop
  }

  /** Start of the k-th window. */
  function WindowStart(first: real, w: real, k: nat): real
  {
    if k == 0 then first else WindowStart(first, w, k - 1) + w
  }

  lemma {:induction false} WindowStartClosedForm(first: real, w: real, k: nat)
    ensures WindowStart(first, w, k) == first + (k as real) * w
  {
    if k > 0 {
      WindowStartClosedForm(first, w, k - 1);
      assert (k as real) * w == ((k - 1) as real) * w + w;
    }
  }

  /** Waiting ends: some look at the clock finds the window open. */
  predicate WindowOpens(g: Normalize, rep: Rep, start: real)
  {
    rep.polls != [] && g(rep.polls[|rep.polls| - 1]) >= start
  }

  /** The error code of a repetition in a window from start to start + w. */
  function ErrorCode(g: Normalize, rep: Rep, start: real, w: real): int
    requires WindowOpens(g, rep, start)
  {
    (if g(rep.polls[0]) >= start then FLAG_START_TIME_HAS_PASSED else 0) +
    (if g(rep.stop) > start + w then FLAG_SYNC_WIN_EXPIRED else 0)
  }

  /** The static variables of the module on one rank. */
  class WindowSync {
    var start_sync: real
    var repetition_counter: nat
    var invalid: array<int>
    var window_size_sec: real

    constructor (window_size_sec: real)
      ensures this.window_size_sec == window_size_sec && fresh(invalid)
    {
      this.window_size_sec, start_sync, repetition_counter := window_size_sec, 0.0, 0;
      invalid := new int[0];
    }

    method InitSynchronization(nrep: nat)
      modifies this`repetition_counter, this`invalid
      ensures repetition_counter == 0 && fresh(invalid) && invalid.Length == nrep
      ensures forall i :: 0 <= i < nrep ==> invalid[i] == 0
    {
      invalid := new int[nrep](_ => 0);
      repetition_counter := 0;
    }

    /** The start of the first window, as broadcast by rank 0. */
    method InitSyncRound(start: real)
      modifies this`start_sync
      ensures start_sync == start
    {
      start_sync := start;
    }

    method StartSynchronization(g: Normalize, rep: Rep)
      requires repetition_counter < invalid.Length && WindowOpens(g, rep, start_sync)
      requires invalid[repetition_counter] == 0
      modifies invalid
      ensures invalid[..] == old(invalid[..])[repetition_counter :=
        if g(rep.polls[0]) >= start_sync then FLAG_START_TIME_HAS_PASSED else 0]
    {
      var is_first := 1;
      var k := 0;
      while true
        invariant 0 <= k < |rep.polls| && is_first == (if k == 0 then 1 else 0)
        invariant forall j :: 0 <= j < k ==> g(rep.polls[j]) < start_sync
        invariant invalid[..] == old(invalid[..])
        decreases |rep.polls| - k
      {
        var global_time := g(rep.polls[k]);
        if global_time >= start_sync {
          if is_first == 1 {
            invalid[repetition_counter] := BitOr(0, FLAG_START_TIME_HAS_PASSED);
          }
          break;
        }
        is_first := 0;
        k := k + 1;
      }
    }

    method StopSynchronization(g: Normalize, rep: Rep)
      requires repetition_counter < invalid.Length && 0 <= invalid[repetition_counter] <= 1
      modifies this`start_sync, this`repetition_counter, invalid
      ensures start_sync == old(start_sync) + window_size_sec && repetition_counter == old(repetition_counter) + 1
      ensures invalid[..] == old(invalid[..])[old(repetition_counter) := old(invalid[repetition_counter]) +
        if g(rep.stop) > old(start_sync) + window_size_sec then FLAG_SYNC_WIN_EXPIRED else 0]
    {
      var global_time := g(rep.stop);
      if global_time > start_sync + window_size_sec {
        assert BitOr(0, 2) == 2 && BitOr(1, 2) == 3;
        invalid[repetition_counter] := BitOr(invalid[repetition_counter], FLAG_SYNC_WIN_EXPIRED);
      }
      start_sync := start_sync + window_size_sec;
      repetition_counter := repetition_counter + 1;
    }
  }

  /** A whole run of one rank: the k-th repetition happens in the k-th window and gets its error code. */
  method RunWindows(sync: WindowSync, g: Normalize, first: real, reps: seq<Rep>)
    requires forall k: nat {:trigger reps[k]} :: k < |reps| ==> WindowOpens(g, reps[k], WindowStart(first, sync.window_size_sec, k))
    modifies sync
    ensures sync.start_sync == WindowStart(first, sync.window_size_sec, |reps|)
    ensures sync.invalid.Length == |reps| && sync.window_size_sec == old(sync.window_size_sec)
    ensures forall k: nat {:trigger sync.invalid[k]} :: k < |reps| ==>
      sync.invalid[k] == ErrorCode(g, reps[k], WindowStart(first, sync.window_size_sec, k), sync.window_size_sec)
  {
    sync.InitSynchronization(|reps|);
    sync.InitSyncRound(first);
    var i := 0;
    while i < |reps|
      invariant 0 <= i <= |reps| && sync.repetition_counter == i
      invariant fresh(sync.invalid) && sync.invalid.Length == |reps| && sync.window_size_sec == old(sync.window_size_sec)
      invariant sync.start_sync == WindowStart(first, sync.window_size_sec, i)
      invariant forall k: nat {:trigger sync.invalid[k]} :: k < i ==>
        sync.invalid[k] == ErrorCode(g, reps[k], WindowStart(first, sync.window_size_sec, k), sync.window_size_sec)
      invariant forall k: nat {:trigger sync.invalid[k]} :: i <= k < |reps| ==> sync.invalid[k] == 0
    {
      ghost var codes := sync.invalid[..];
      sync.StartSynchronization(g, reps[i]);
      assert sync.invalid[..][i] == sync.invalid[i];
      sync.StopSynchronization(g, reps[i]);
      assert forall k :: 0 <= k < |reps| && k != i ==> sync.invalid[..][k] == codes[k];
      assert sync.invalid[..][i] == ErrorCode(g, reps[i], WindowStart(first, sync.window_size_sec, i), sync.window_size_sec);
      i := i + 1;
    }
  }

  // ----- all ranks -----

  /** MPI_MAX over the ranks. */
  function Largest(s: seq<real>): (m: real)
    requires s != []
    ensures m in s && forall i :: 0 <= i < |s| ==> s[i] <= m
  {
    if |s| == 1 then s[0] else Max(s[0], Largest(s[1..]))
  }

  /** MPI_MIN over the ranks. */
  function Smallest(s: seq<real>): (m: real)
    requires s != []
    ensures m in s && forall i :: 0 <= i < |s| ==> m <= s[i]
  {
    if |s| == 1 then s[0] else Min(s[0], Smallest(s[1..]))
  }

  function LargestCode(s: seq<int>): (m: int)
    requires s != []
    ensures m in s && forall i :: 0 <= i < |s| ==> s[i] <= m
  {
    if |s| == 1 then s[0]
    else
      var m := LargestCode(s[1..]);
      if s[0] < m then m else s[0]
  }

  /** One run on all ranks: clocks[r] normalizes rank r's readings, reps[r] are its repetitions. */
  datatype World = World(clocks: seq<Normalize>, reps: seq<seq<Rep>>, first: real, w: real, n: nat)
  {
    ghost predicate Valid()
    {
      && clocks != [] && |clocks| == |reps|
      && (forall r :: 0 <= r < |reps| ==> |reps[r]| == n && Monotone(clocks[r]))
      && (forall r: nat, k: nat {:trigger reps[r][k]} :: r < |reps| && k < n ==>
            Ordered(reps[r][k]) && WindowOpens(clocks[r], reps[r][k], WindowStart(first, w, k)))
    }

    function Code(r: nat, k: nat): int
      requires Valid() && r < |reps| && k < n
    {
      ErrorCode(clocks[r], reps[r][k], WindowStart(first, w, k), w)
    }

    /** The error code after the reduction in collect_errorcodes. */
    function ReducedCode(k: nat): int
      requires Valid() && k < n
    {
      LargestCode(seq(|reps|, r requires 0 <= r < |reps| => Code(r, k)))
    }

  }

  /** A reduced error code of zero says that every rank waited for the window and stopped inside it. */
  lemma ZeroCodeMeansInTime(world: World, k: nat)
    requires world.Valid() && k < world.n
    ensures world.ReducedCode(k) == 0 <==> forall r: nat :: r < |world.reps| ==>
      world.clocks[r](world.reps[r][k].polls[0]) < WindowStart(world.first, world.w, k) &&
      world.clocks[r](world.reps[r][k].stop) <= WindowStart(world.first, world.w, k + 1)
  {
    var codes := seq(|world.reps|, r requires 0 <= r < |world.reps| => world.Code(r, k));
    var m := LargestCode(codes);
    var x :| 0 <= x < |codes| && codes[x] == m;
    if m == 0 {
      forall r: nat | r < |world.reps|
        ensures world.clocks[r](world.reps[r][k].polls[0]) < WindowStart(world.first, world.w, k)
        ensures world.clocks[r](world.reps[r][k].stop) <= WindowStart(world.first, world.w, k + 1)
      {
        assert codes[r] <= m;
      }
    }
  }

  // ----- main results -----

  /** A valid repetition lies inside its own window on every rank. */
  lemma ValidRepetitionInWindow(world: World, k: nat, r: nat)
    requires world.Valid() && k < world.n && r < |world.reps| && world.ReducedCode(k) == 0
    ensures var g, rep := world.clocks[r], world.reps[r][k];
      WindowStart(world.first, world.w, k) <= g(rep.tstart) <= g(rep.tend) <= g(rep.stop) <= WindowStart(world.first, world.w, k + 1)
  {
    ZeroCodeMeansInTime(world, k);
    var g, rep := world.clocks[r], world.reps[r][k];
    InOrder(g, rep);
    assert WindowOpens(g, rep, WindowStart(world.first, world.w, k));
  }

  lemma InOrder(g: Normalize, rep: Rep)
    requires Monotone(g) && Ordered(rep)
    ensures g(rep.polls[|rep.polls| - 1]) <= g(rep.tstart) <= g(rep.tend) <= g(rep.stop)
  {
  }

  /** A valid repetition is over on every rank when a later window starts. */
  lemma EndsBeforeLaterWindows(world: World, k: nat, later: nat, r: nat)
    requires world.Valid() && world.w >= 0.0 && k < later && k < world.n && r < |world.reps|
    requires world.ReducedCode(k) == 0
    ensures world.clocks[r](world.reps[r][k].tend) <= WindowStart(world.first, world.w, later)
  {
    ValidRepetitionInWindow(world, k, r);
    WindowsAscend(world.first, world.w, k + 1, later);
  }

  /** Two valid repetitions never overlap, on whatever ranks they are looked at. */
  lemma ValidRepetitionsDoNotOverlap(world: World, k1: nat, k2: nat, r1: nat, r2: nat)
    requires world.Valid() && world.w >= 0.0 && k1 < k2 < world.n && r1 < |world.reps| && r2 < |world.reps|
    requires world.ReducedCode(k1) == 0 && world.ReducedCode(k2) == 0
    ensures world.clocks[r1](world.reps[r1][k1].tend) <= world.clocks[r2](world.reps[r2][k2].tstart)
  {
    EndsBeforeLaterWindows(world, k1, k2, r1);
    ValidRepetitionInWindow(world, k2, r2);
  }

  lemma {:induction false} WindowsAscend(first: real, w: real, a: nat, b: nat)
    requires w >= 0.0 && a <= b
    ensures WindowStart(first, w, a) <= WindowStart(first, w, b)
  {
    if a < b { WindowsAscend(first, w, a, b - 1); }
  }

  /** x is the time from the earliest start to the latest end of repetition k, over all ranks. */
  ghost predicate IsRuntime(world: World, k: nat, x: real)
    requires world.Valid() && k < world.n
  {
    && (forall r1: nat, r2: nat {:trigger world.reps[r1][k].tstart, world.reps[r2][k].tend} ::
          r1 < |world.reps| && r2 < |world.reps| ==>
          world.clocks[r2](world.reps[r2][k].tend) - world.clocks[r1](world.reps[r1][k].tstart) <= x)
    && (exists r1: nat, r2: nat {:trigger world.reps[r1][k].tstart, world.reps[r2][k].tend} ::
          r1 < |world.reps| && r2 < |world.reps| &&
          world.clocks[r2](world.reps[r2][k].tend) - world.clocks[r1](world.reps[r1][k].tstart) == x)
  }

  /** A valid repetition's run-time is at most one window, and at least the duration on each rank. */
  lemma ValidRuntimeBounds(world: World, k: nat, x: real, r: nat)
    requires world.Valid() && k < world.n && r < |world.reps| && world.ReducedCode(k) == 0 && IsRuntime(world, k, x)
    ensures world.clocks[r](world.reps[r][k].tend) - world.clocks[r](world.reps[r][k].tstart) <= x <= world.w
  {
    var r1: nat, r2: nat :| r1 < |world.reps| && r2 < |world.reps| &&
      world.clocks[r2](world.reps[r2][k].tend) - world.clocks[r1](world.reps[r1][k].tstart) == x;
    ValidRepetitionInWindow(world, k, r1);
    ValidRepetitionInWindow(world, k, r2);
  }

  // ----- computing and selecting the run-times -----

  /** One rank's normalized times. */
  method NormalizeTimes(g: Normalize, reps: seq<Rep>) returns (norm_tstart_sec: array<real>, norm_tend_sec: array<real>)
    ensures fresh(norm_tstart_sec) && fresh(norm_tend_sec)
    ensures norm_tstart_sec.Length == norm_tend_sec.Length == |reps|
    ensures forall i :: 0 <= i < |reps| ==> norm_tstart_sec[i] == g(reps[i].tstart) && norm_tend_sec[i] == g(reps[i].tend)
  {
    norm_tstart_sec := new real[|reps|];
    norm_tend_sec := new real[|reps|];
    for i := 0 to |reps|
      invariant forall j :: 0 <= j < i ==> norm_tstart_sec[j] == g(reps[j].tstart) && norm_tend_sec[j] == g(reps[j].tend)
    {
      norm_tstart_sec[i] := g(reps[i].tstart);
      norm_tend_sec[i] := g(reps[i].tend);
    }
  }

  /** Entry k of every rank's array. */
  function Column<T>(rows: seq<seq<T>>, k: nat): (c: seq<T>)
    requires forall r :: 0 <= r < |rows| ==> k < |rows[r]|
    ensures |c| == |rows| && forall r :: 0 <= r < |c| ==> c[r] == rows[r][k]
  {
    seq(|rows|, r requires 0 <= r < |rows| => rows[r][k])
  }

  ghost predicate Table<T>(rows: seq<seq<T>>, ranks: nat, n: nat)
  {
    |rows| == ranks && forall r {:trigger rows[r]} :: 0 <= r < |rows| ==> |rows[r]| == n
  }

  /** PMPI_Reduce with MPI_MIN, with MPI_MAX, and with MPI_MAX on error codes. */
  function ReducedMin(rows: seq<seq<real>>, n: nat): (m: seq<real>)
    requires rows != [] && forall r :: 0 <= r < |rows| ==> |rows[r]| == n
    ensures |m| == n
  {
    seq(n, k requires 0 <= k < n => Smallest(Column(rows, k)))
  }

  function ReducedMax(rows: seq<seq<real>>, n: nat): (m: seq<real>)
    requires rows != [] && forall r :: 0 <= r < |rows| ==> |rows[r]| == n
    ensures |m| == n
  {
    seq(n, k requires 0 <= k < n => Largest(Column(rows, k)))
  }

  function ReducedCodes(rows: seq<seq<int>>, n: nat): (m: seq<int>)
    requires rows != [] && forall r :: 0 <= r < |rows| ==> |rows[r]| == n
    ensures |m| == n
  {
    seq(n, k requires 0 <= k < n => LargestCode(Column(rows, k)))
  }

  /** The normalized times of the first ranks. */
  ghost predicate Normalized(world: World, starts: seq<seq<real>>, ends: seq<seq<real>>, ranks: nat)
    requires world.Valid() && ranks <= |world.reps|
  {
    && Table(starts, ranks, world.n) && Table(ends, ranks, world.n)
    && forall r: nat, k: nat {:trigger starts[r][k]} {:trigger ends[r][k]} :: r < ranks && k < world.n ==>
         starts[r][k] == world.clocks[r](world.reps[r][k].tstart) && ends[r][k] == world.clocks[r](world.reps[r][k].tend)
  }

  /** All ranks normalize their times. */
  method NormalizeAll(world: World) returns (starts: seq<seq<real>>, ends: seq<seq<real>>)
    requires world.Valid()
    ensures Normalized(world, starts, ends, |world.reps|)
  {
    starts, ends := [], [];
    for r := 0 to |world.reps|
      invariant Normalized(world, starts, ends, r)
    {
      var norm_tstart_sec, norm_tend_sec := NormalizeTimes(world.clocks[r], world.reps[r]);
      starts, ends := starts + [norm_tstart_sec[..]], ends + [norm_tend_sec[..]];
    }
  }

  /** The latest end minus the earliest start is the run-time. */
  lemma ReducedIsRuntime(world: World, starts: seq<seq<real>>, ends: seq<seq<real>>, k: nat)
    requires world.Valid() && Normalized(world, starts, ends, |world.reps|) && k < world.n
    ensures IsRuntime(world, k, ReducedMax(ends, world.n)[k] - ReducedMin(starts, world.n)[k])
  {
    var first, last := Column(starts, k), Column(ends, k);
    var a :| 0 <= a < |first| && first[a] == Smallest(first);
    var b :| 0 <= b < |last| && last[b] == Largest(last);
    assert world.clocks[b](world.reps[b][k].tend) - world.clocks[a](world.reps[a][k].tstart) == Largest(last) - Smallest(first);
    forall r1: nat, r2: nat | r1 < |world.reps| && r2 < |world.reps|
      ensures world.clocks[r2](world.reps[r2][k].tend) - world.clocks[r1](world.reps[r1][k].tstart) <= Largest(last) - Smallest(first)
    {
      assert first[r1] == starts[r1][k] && last[r2] == ends[r2][k];
    }
  }

  /** The root's loop. */
  method Differences(start_sec: seq<real>, end_sec: seq<real>) returns (maxRuntimes_sec: array<real>)
    requires |start_sec| == |end_sec|
    ensures fresh(maxRuntimes_sec) && maxRuntimes_sec.Length == |start_sec|
    ensures forall k: nat {:trigger maxRuntimes_sec[k]} :: k < |start_sec| ==> maxRuntimes_sec[k] == end_sec[k] - start_sec[k]
  {
    maxRuntimes_sec := new real[|start_sec|];
    for i := 0 to |start_sec|
      invariant forall k: nat {:trigger maxRuntimes_sec[k]} :: k < i ==> maxRuntimes_sec[k] == end_sec[k] - start_sec[k]
    {
      maxRuntimes_sec[i] := end_sec[i] - start_sec[i];
    }
  }

  /** compute_runtimes_global_clocks: the root's run-times, from the reduced starts and ends of all ranks. */
  method ComputeRuntimes(world: World) returns (maxRuntimes_sec: array<real>)
    requires world.Valid()
    ensures fresh(maxRuntimes_sec) && maxRuntimes_sec.Length == world.n
    ensures forall k: nat {:trigger maxRuntimes_sec[k]} :: k < world.n ==> IsRuntime(world, k, maxRuntimes_sec[k])
  {
    var starts, ends := NormalizeAll(world);
    maxRuntimes_sec := Differences(ReducedMin(starts, world.n), ReducedMax(ends, world.n));
    forall k: nat {:trigger maxRuntimes_sec[k]} | k < world.n ensures IsRuntime(world, k, maxRuntimes_sec[k]) {
      ReducedIsRuntime(world, starts, ends, k);
    }
  }

  /** The error codes of the first ranks. */
  ghost predicate CodesOf(world: World, rows: seq<seq<int>>, ranks: nat)
    requires world.Valid() && ranks <= |world.reps|
  {
    && Table(rows, ranks, world.n)
    && forall r: nat, k: nat {:trigger rows[r][k]} :: r < ranks && k < world.n ==> rows[r][k] == world.Code(r, k)
  }

  /** collect_errorcodes, after every rank has gone through all windows. */
  method CollectErrorcodes(world: World) returns (sync_errorcodes: seq<int>)
    requires world.Valid()
    ensures |sync_errorcodes| == world.n
    ensures forall k: nat {:trigger sync_errorcodes[k]} :: k < world.n ==> sync_errorcodes[k] == world.ReducedCode(k)
  {
    var rows: seq<seq<int>> := [];
    for r := 0 to |world.reps|
      invariant CodesOf(world, rows, r)
    {
      var codes := RankCodes(world, r);
      rows := rows + [codes];
    }
    sync_errorcodes := ReducedCodes(rows, world.n);
    forall k: nat | k < world.n ensures sync_errorcodes[k] == world.ReducedCode(k) {
      assert Column(rows, k) == seq(|world.reps|, r requires 0 <= r < |world.reps| => world.Code(r, k));
    }
  }

  method RankCodes(world: World, r: nat) returns (codes: seq<int>)
    requires world.Valid() && r < |world.reps|
    ensures |codes| == world.n && forall k: nat {:trigger codes[k]} :: k < world.n ==> codes[k] == world.Code(r, k)
  {
    var sync := new WindowSync(world.w);
    RunWindows(sync, world.clocks[r], world.first, world.reps[r]);
    codes := sync.invalid[..];
    assert forall k: nat {:trigger codes[k]} :: k < world.n ==> codes[k] == sync.invalid[k];
  }

  /** The repetitions among the first k whose error code is zero, in order. */
  function ValidReps(codes: seq<int>, k: nat): (v: seq<nat>)
    requires k <= |codes|
    ensures |v| <= k
  {
    if k == 0 then [] else ValidReps(codes, k - 1) + if codes[k - 1] == 0 then [k - 1] else []
  }

  /** ValidReps lists exactly the repetitions with code zero, in ascending order. */
  lemma {:induction false} ValidRepsExact(codes: seq<int>, k: nat)
    requires k <= |codes|
    ensures forall i: nat :: i in ValidReps(codes, k) <==> i < k && codes[i] == 0
    ensures forall a, b :: 0 <= a < b < |ValidReps(codes, k)| ==> ValidReps(codes, k)[a] < ValidReps(codes, k)[b]
  {
    if k > 0 {
      ValidRepsExact(codes, k - 1);
      var v := ValidReps(codes, k - 1);
      assert forall a :: 0 <= a < |v| ==> v[a] in v;
    }
  }

  /** The values of x at the repetitions among the first k whose error code is zero, in order. */
  function Selected(x: seq<real>, codes: seq<int>, k: nat): seq<real>
    requires k <= |codes| == |x|
  {
    if k == 0 then [] else Selected(x, codes, k - 1) + if codes[k - 1] == 0 then [x[k - 1]] else []
  }

  lemma {:induction false} SelectedAreValidReps(x: seq<real>, codes: seq<int>, k: nat)
    requires k <= |codes| == |x|
    ensures |Selected(x, codes, k)| == |ValidReps(codes, k)|
    ensures forall j :: 0 <= j < |ValidReps(codes, k)| ==>
      ValidReps(codes, k)[j] < |x| && Selected(x, codes, k)[j] == x[ValidReps(codes, k)[j]]
  {
    if k > 0 {
      SelectedAreValidReps(x, codes, k - 1);
    }
  }

  /** The in-place selection of print_summary: the front of the array becomes the run-times of exactly the
      valid repetitions, in order. */
  method SelectValid(maxRuntimes_sec: array<real>, sync_errorcodes: seq<int>) returns (nreps: nat)
    requires |sync_errorcodes| == maxRuntimes_sec.Length
    modifies maxRuntimes_sec
    ensures nreps <= maxRuntimes_sec.Length
    ensures maxRuntimes_sec[..nreps] == Selected(old(maxRuntimes_sec[..]), sync_errorcodes, |sync_errorcodes|)
  {
    nreps := 0;
    for i := 0 to |sync_errorcodes|
      invariant nreps <= i
      invariant maxRuntimes_sec[..nreps] == Selected(old(maxRuntimes_sec[..]), sync_errorcodes, i)
      invariant maxRuntimes_sec[i..] == old(maxRuntimes_sec[i..])
    {
      assert maxRuntimes_sec[i] == maxRuntimes_sec[i..][0] == old(maxRuntimes_sec[..])[i];
      if sync_errorcodes[i] == 0 {
        if nreps < i {
          maxRuntimes_sec[nreps] := maxRuntimes_sec[i];
        }
        nreps := nreps + 1;
      }
    }
  }

  /** The summary of a run: exactly the repetitions in which every rank waited for the window and stopped inside it
      are reported, in order, each with its run-time, which is at most one window. */
  method Summary(world: World) returns (runtimes: seq<real>, codes: seq<int>)
    requires world.Valid()
    ensures |codes| == world.n && forall k: nat {:trigger codes[k]} :: k < world.n ==> codes[k] == world.ReducedCode(k)
    ensures |runtimes| == |ValidReps(codes, world.n)|
    ensures forall j :: 0 <= j < |runtimes| ==>
      ValidReps(codes, world.n)[j] < world.n && IsRuntime(world, ValidReps(codes, world.n)[j], runtimes[j]) && runtimes[j] <= world.w
  {
    codes := CollectErrorcodes(world);
    var maxRuntimes_sec := ComputeRuntimes(world);
    ghost var all := maxRuntimes_sec[..];
    var nreps := SelectValid(maxRuntimes_sec, codes);
    runtimes := maxRuntimes_sec[..nreps];
    SummaryIsRight(world, all, codes);
  }

  lemma SummaryIsRight(world: World, all: seq<real>, codes: seq<int>)
    requires world.Valid() && |all| == |codes| == world.n
    requires forall k: nat {:trigger all[k]} :: k < world.n ==> IsRuntime(world, k, all[k])
    requires forall k: nat {:trigger codes[k]} :: k < world.n ==> codes[k] == world.ReducedCode(k)
    ensures var v, runtimes := ValidReps(codes, world.n), Selected(all, codes, world.n);
      |runtimes| == |v| &&
      forall j :: 0 <= j < |runtimes| ==> v[j] < world.n && IsRuntime(world, v[j], runtimes[j]) && runtimes[j] <= world.w
  {
    SelectedAreValidReps(all, codes, world.n);
    ValidRepsExact(codes, world.n);
    var v, runtimes := ValidReps(codes, world.n), Selected(all, codes, world.n);
    forall j | 0 <= j < |runtimes| ensures v[j] < world.n && IsRuntime(world, v[j], runtimes[j]) && runtimes[j] <= world.w {
      assert v[j] in v;
      ValidRuntimeBounds(world, v[j], runtimes[j], 0);
    }
  }
}
