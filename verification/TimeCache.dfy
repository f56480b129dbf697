/** The lock-free localtime cache of zf_log.c: `tcache_get`, `tcache_set` and `time_callback`, run by any
    number of threads.

    One mode word carries the number of threads inside `tcache_get` in its low bits, a stale bit and a
    writer bit.  Every atomic access is one step.  The cached second and the fields of the cached `struct tm`
    are plain memory: they are read and written one field per step. */
module TimeCache {

  const STALE := 0x4000_0000
  const WRITER := 0x8000_0000
  const FLUID := STALE + WRITER
  const WORD := 0x1_0000_0000

  /** Fields of struct tm. */
  const FIELDS := 9

  type Tm = s: seq<int> | |s| == FIELDS witness [0, 0, 0, 0, 0, 0, 0, 0, 0]

  // ----- operations on the mode word -----

  /** mode & TCACHE_FLUID is zero */
  predicate IsSolid(mode: nat)
  {
    mode / STALE == 0
  }

  function FetchAdd(mode: nat): nat { (mode + 1) % WORD }

  function SubFetch(mode: nat): nat { (mode + WORD - 1) % WORD }

  /** mode | TCACHE_STALE */
  function OrStale(mode: nat): nat
  {
    if mode / STALE % 2 == 1 then mode else mode + STALE
  }

  /** mode & ~TCACHE_FLUID */
  function AndNotFluid(mode: nat): nat { mode % STALE }

  // ----- threads -----

  /** Where a thread is.  Each constructor names the next step it takes. */
  datatype Pc =
    | Idle
    | Load                    // first look at the mode word
    | Increment               // fetch_add 1
    | Compare                 // counted, saw no fluid bit: compare the cached second
    | Copy(n: nat)            // counted, second matches: copy field n
    | LeaveHit                // counted, all fields copied: decrement and return them
    | MarkStale               // counted, second differs: set the stale bit
    | LeaveMiss               // counted: decrement, then miss
    | Compute                 // localtime_r
    | TryLock                 // compare-and-swap STALE -> FLUID
    | WriteSecond             // writer
    | WriteField(n: nat)      // writer: write field n
    | Unlock                  // writer: clear both bits
    | Return                  // time_callback returns tm

  datatype Thread = Thread(pc: Pc, second: int, tm: Tm)

  datatype State = State(mode: nat, second: int, tm: Tm, threads: seq<Thread>)

  /** Threads between increment and decrement. */
  predicate Counted(t: Thread)
  {
    t.pc.Compare? || t.pc.Copy? || t.pc.LeaveHit? || t.pc.MarkStale? || t.pc.LeaveMiss?
  }

  /** Threads that may read the cached second or fields, or set the stale bit. */
  predicate Reading(t: Thread)
  {
    t.pc.Compare? || t.pc.Copy? || t.pc.LeaveHit? || t.pc.MarkStale?
  }

  /** Threads that hold the writer bit. */
  predicate Writing(t: Thread)
  {
    t.pc.WriteSecond? || t.pc.WriteField? || t.pc.Unlock?
  }

  /** One step of thread t in state s; now is the second a fresh call asks for. */
  function Step(localtime: int -> Tm, s: State, i: nat, now: int): State
    requires i < |s.threads|
  {
    var t := s.threads[i];
    match t.pc
    case Idle => Set(s, i, t.(pc := Load, second := now))
    case Load => Set(s, i, t.(pc := if IsSolid(s.mode) then Increment else Compute))
    case Increment =>
      Set(s.(mode := FetchAdd(s.mode)), i, t.(pc := if IsSolid(s.mode) then Compare else LeaveMiss))
    case Compare => Set(s, i, t.(pc := if s.second == t.second then Copy(0) else MarkStale))
    case Copy(n) =>
      if n < FIELDS then Set(s, i, t.(pc := Copy(n + 1), tm := t.tm[n := s.tm[n]]))
      else Set(s, i, t.(pc := LeaveHit))
    case LeaveHit => Set(s.(mode := SubFetch(s.mode)), i, t.(pc := Return))
    case MarkStale => Set(s.(mode := OrStale(s.mode)), i, t.(pc := LeaveMiss))
    case LeaveMiss => Set(s.(mode := SubFetch(s.mode)), i, t.(pc := Compute))
    case Compute => Set(s, i, t.(pc := TryLock, tm := localtime(t.second)))
    case TryLock =>
      if s.mode == STALE then Set(s.(mode := FLUID), i, t.(pc := WriteSecond)) else Set(s, i, t.(pc := Return))
    case WriteSecond => Set(s.(second := t.second), i, t.(pc := WriteField(0)))
    case WriteField(n) =>
      if n < FIELDS then Set(s.(tm := s.tm[n := t.tm[n]]), i, t.(pc := WriteField(n + 1)))
      else Set(s, i, t.(pc := Unlock))
    case Unlock => Set(s.(mode := AndNotFluid(s.mode)), i, t.(pc := Return))
    case Return => Set(s, i, t.(pc := Idle))
  }

  function Set(s: State, i: nat, t: Thread): State
    requires i < |s.threads|
  {
    s.(threads := s.threads[i := t])
  }

  predicate Init(s: State)
  {
    s.mode == STALE && forall i :: 0 <= i < |s.threads| ==> s.threads[i].pc.Idle?
  }

  ghost predicate Next(localtime: int -> Tm, s: State, s': State)
  {
    exists i: nat, now: int :: i < |s.threads| && s' == Step(localtime, s, i, now)
  }

  ghost predicate Run(localtime: int -> Tm, run: seq<State>)
  {
    && |run| > 0
    && Init(run[0])
    && forall i :: 0 < i < |run| ==> Next(localtime, run[i - 1], run[i])
  }

  // ----- the invariant -----

  ghost function CountedThreads(ts: seq<Thread>): nat
  {
    if ts == [] then 0 else (if Counted(ts[0]) then 1 else 0) + CountedThreads(ts[1..])
  }

  lemma {:induction false} CountBound(ts: seq<Thread>)
    ensures CountedThreads(ts) <= |ts|
  {
    if ts != [] { CountBound(ts[1..]); }
  }

  lemma {:induction false} CountSet(ts: seq<Thread>, i: nat, t: Thread)
    requires i < |ts|
    ensures CountedThreads(ts[i := t]) ==
            CountedThreads(ts) - (if Counted(ts[i]) then 1 else 0) + (if Counted(t) then 1 else 0)
    ensures Counted(ts[i]) ==> CountedThreads(ts) > 0
  {
    if i == 0 {
      assert ts[i := t][1..] == ts[1..];
    } else {
      assert ts[i := t][1..] == ts[1..][i - 1 := t];
      CountSet(ts[1..], i - 1, t);
    }
  }

  /** The two upper bits: 0 solid, 1 stale, 3 being written. */
  function Flags(mode: nat): nat { mode / STALE }

  ghost predicate SomeWriter(s: State)
  {
    exists i :: 0 <= i < |s.threads| && Writing(s.threads[i])
  }

  ghost predicate SomeReader(s: State)
  {
    exists i :: 0 <= i < |s.threads| && Reading(s.threads[i])
  }

  ghost predicate Coherent(localtime: int -> Tm, s: State)
  {
    s.tm == localtime(s.second)
  }

  ghost predicate ThreadInv(localtime: int -> Tm, s: State, t: Thread)
  {
    match t.pc
    case Copy(n) => n <= FIELDS && s.second == t.second && t.tm[..n] == s.tm[..n]
    case LeaveHit => t.tm == localtime(t.second)
    case TryLock => t.tm == localtime(t.second)
    case WriteSecond => t.tm == localtime(t.second)
    case WriteField(n) => n <= FIELDS && t.tm == localtime(t.second) && s.second == t.second && s.tm[..n] == t.tm[..n]
    case Unlock => t.tm == localtime(t.second) && s.second == t.second && s.tm == t.tm
    case Return => t.tm == localtime(t.second)
    case _ => true
  }

  /** The mode word is the count of threads inside tcache_get plus the flag bits. */
  ghost predicate ModeInv(s: State)
  {
    && |s.threads| < STALE
    && ModeWord(s.mode, CountedThreads(s.threads))
  }

  predicate ModeWord(mode: nat, count: nat)
  {
    mode % STALE == count && (Flags(mode) == 0 || Flags(mode) == 1 || Flags(mode) == 3)
  }

  lemma FetchAddWord(mode: nat, count: nat)
    requires ModeWord(mode, count) && count + 1 < STALE
    ensures ModeWord(FetchAdd(mode), count + 1) && Flags(FetchAdd(mode)) == Flags(mode)
  {
    assert mode == STALE * Flags(mode) + count;
  }

  lemma SubFetchWord(mode: nat, count: nat)
    requires ModeWord(mode, count) && count > 0
    ensures ModeWord(SubFetch(mode), count - 1) && Flags(SubFetch(mode)) == Flags(mode)
  {
    assert mode == STALE * Flags(mode) + count;
  }

  /** What the other atomic operations do to the count and to the flags. */
  lemma FlagWord(mode: nat, count: nat)
    requires ModeWord(mode, count)
    ensures mode < WORD
    ensures ModeWord(OrStale(mode), count) && Flags(OrStale(mode)) == if Flags(mode) == 0 then 1 else Flags(mode)
    ensures ModeWord(AndNotFluid(mode), count) && Flags(AndNotFluid(mode)) == 0
    ensures mode == STALE ==> count == 0 && ModeWord(FLUID, 0) && Flags(FLUID) == 3
  {
    assert mode == STALE * Flags(mode) + count;
  }

  ghost predicate Exclusion(s: State)
  {
    && (SomeWriter(s) <==> Flags(s.mode) == 3)
    && (SomeWriter(s) ==> !SomeReader(s))
    && (forall i, j :: 0 <= i < |s.threads| && 0 <= j < |s.threads| && Writing(s.threads[i]) && Writing(s.threads[j]) ==> i == j)
  }

  ghost predicate Inv(localtime: int -> Tm, s: State)
  {
    && ModeInv(s)
    && Exclusion(s)
    && (forall i :: 0 <= i < |s.threads| ==> ThreadInv(localtime, s, s.threads[i]))
    && (Flags(s.mode) == 0 || SomeReader(s) ==> Coherent(localtime, s))
  }

  /** A step of thread i changes no other thread, and the number of counted threads by at most one. */
  lemma CountStep(localtime: int -> Tm, s: State, i: nat, now: int)
    requires i < |s.threads|
    ensures var s' := Step(localtime, s, i, now); var pc := s.threads[i].pc;
      && s'.threads == s.threads[i := s'.threads[i]]
      && CountedThreads(s'.threads) == CountedThreads(s.threads) +
         (if pc.Increment? then 1 else if pc.LeaveHit? || pc.LeaveMiss? then -1 else 0)
      && (Counted(s.threads[i]) ==> CountedThreads(s.threads) > 0)
  {
    CountSet(s.threads, i, Step(localtime, s, i, now).threads[i]);
  }

  lemma ModeStep(localtime: int -> Tm, s: State, i: nat, now: int)
    requires ModeInv(s) && Exclusion(s) && i < |s.threads|
    ensures ModeInv(Step(localtime, s, i, now))
    ensures Flags(Step(localtime, s, i, now).mode) == NewFlags(s, s.threads[i].pc)
  {
    var count, pc := CountedThreads(s.threads), s.threads[i].pc;
    CountStep(localtime, s, i, now);
    CountBound(Step(localtime, s, i, now).threads);
    if pc.Increment? {
      FetchAddWord(s.mode, count);
    } else if pc.LeaveHit? || pc.LeaveMiss? {
      SubFetchWord(s.mode, count);
    } else {
      FlagWord(s.mode, count);
    }
  }

  /** The flag bits after a step of a thread at pc. */
  function NewFlags(s: State, pc: Pc): nat
  {
    match pc
    case MarkStale => if Flags(s.mode) == 0 then 1 else Flags(s.mode)
    case TryLock => if s.mode == STALE then 3 else Flags(s.mode)
    case Unlock => 0
    case _ => Flags(s.mode)
  }

  /** Nobody is counted when the compare-and-swap succeeds. */
  lemma LockedAlone(s: State, j: nat)
    requires ModeInv(s) && s.mode == STALE && j < |s.threads|
    ensures !Counted(s.threads[j])
  {
    CountBound(s.threads);
    CountSet(s.threads, j, s.threads[j]);
  }

  lemma ExclusionStep(localtime: int -> Tm, s: State, i: nat, now: int)
    requires ModeInv(s) && Exclusion(s) && i < |s.threads|
    ensures Exclusion(Step(localtime, s, i, now))
  {
    var t := s.threads[i];
    var s' := Step(localtime, s, i, now);
    ModeStep(localtime, s, i, now);
    if t.pc.TryLock? && s.mode == STALE {
      forall j: nat | j < |s.threads| ensures !Counted(s.threads[j]) { LockedAlone(s, j); }
      assert Writing(s'.threads[i]);
    } else {
      assert forall j :: 0 <= j < |s.threads| && j != i ==> s'.threads[j] == s.threads[j];
      assert Reading(t) ==> SomeReader(s);
      assert Writing(t) ==> SomeWriter(s);
      assert Writing(s'.threads[i]) ==> Writing(t);
      assert Reading(s'.threads[i]) ==> Reading(t) || Flags(s.mode) == 0;
    }
  }

  lemma CacheStep(localtime: int -> Tm, s: State, i: nat, now: int)
    requires Inv(localtime, s) && i < |s.threads|
    ensures var s' := Step(localtime, s, i, now); Flags(s'.mode) == 0 || SomeReader(s') ==> Coherent(localtime, s')
  {
    var t := s.threads[i];
    var s' := Step(localtime, s, i, now);
    ModeStep(localtime, s, i, now);
    ExclusionStep(localtime, s, i, now);
    assert ThreadInv(localtime, s, t);
    assert Writing(t) ==> SomeWriter(s);
    assert Reading(t) ==> SomeReader(s);
    if SomeReader(s') {
      var j :| 0 <= j < |s'.threads| && Reading(s'.threads[j]);
      assert j != i ==> Reading(s.threads[j]);
    }
  }

  lemma ThreadStep(localtime: int -> Tm, s: State, i: nat, now: int, j: nat)
    requires Inv(localtime, s) && i < |s.threads| && j < |s.threads|
    ensures ThreadInv(localtime, Step(localtime, s, i, now), Step(localtime, s, i, now).threads[j])
  {
    if i == j {
      OwnThreadStep(localtime, s, i, now);
    } else {
      OtherThreadStep(localtime, s, i, now, j);
    }
  }

  lemma OwnThreadStep(localtime: int -> Tm, s: State, i: nat, now: int)
    requires Inv(localtime, s) && i < |s.threads|
    ensures ThreadInv(localtime, Step(localtime, s, i, now), Step(localtime, s, i, now).threads[i])
  {
    assert ThreadInv(localtime, s, s.threads[i]);
    assert Reading(s.threads[i]) ==> SomeReader(s);
  }

  /** A step of another thread does not touch what a thread in its critical section relies on. */
  lemma OtherThreadStep(localtime: int -> Tm, s: State, i: nat, now: int, j: nat)
    requires Inv(localtime, s) && i < |s.threads| && j < |s.threads| && i != j
    ensures ThreadInv(localtime, Step(localtime, s, i, now), Step(localtime, s, i, now).threads[j])
  {
    var s' := Step(localtime, s, i, now);
    assert s'.threads[j] == s.threads[j];
    assert ThreadInv(localtime, s, s.threads[j]);
    if Writing(s.threads[i]) {
      assert SomeWriter(s);
      assert !Writing(s.threads[j]);
      assert Reading(s.threads[j]) ==> SomeReader(s);
    } else {
      assert s'.second == s.second && s'.tm == s.tm;
    }
  }

  lemma StepInv(localtime: int -> Tm, s: State, i: nat, now: int)
    requires Inv(localtime, s) && i < |s.threads|
    ensures Inv(localtime, Step(localtime, s, i, now))
  {
    var s' := Step(localtime, s, i, now);
    ModeStep(localtime, s, i, now);
    ExclusionStep(localtime, s, i, now);
    CacheStep(localtime, s, i, now);
    forall j | 0 <= j < |s'.threads| ensures ThreadInv(localtime, s', s'.threads[j]) {
      ThreadStep(localtime, s, i, now, j);
    }
  }

  lemma InitInv(localtime: int -> Tm, s: State)
    requires Init(s) && |s.threads| < STALE
    ensures Inv(localtime, s)
  {
    NoneCounted(s.threads);
  }

  lemma {:induction false} NoneCounted(ts: seq<Thread>)
    requires forall i :: 0 <= i < |ts| ==> !Counted(ts[i])
    ensures CountedThreads(ts) == 0
  {
    if ts != [] { NoneCounted(ts[1..]); }
  }

  lemma {:induction false} RunInv(localtime: int -> Tm, run: seq<State>)
    requires Run(localtime, run) && |run[0].threads| < STALE
    ensures Inv(localtime, run[|run| - 1])
    decreases |run|
  {
    if |run| == 1 {
      InitInv(localtime, run[0]);
    } else {
      RunInv(localtime, run[..|run| - 1]);
      var s, s' := run[|run| - 2], run[|run| - 1];
      assert Next(localtime, s, s');
      var i: nat, now: int :| i < |s.threads| && s' == Step(localtime, s, i, now);
      StepInv(localtime, s, i, now);
    }
  }

  // ----- main results -----

  /** Never two writers, and never a writer beside a reader, in any interleaving of fewer than 2^30
      threads. */
  lemma CriticalSectionsExclude(localtime: int -> Tm, run: seq<State>, i: nat, j: nat)
    requires Run(localtime, run) && |run[0].threads| < STALE
    requires i < |run[|run| - 1].threads| && j < |run[|run| - 1].threads| && i != j
    requires Writing(run[|run| - 1].threads[i])
    ensures !Writing(run[|run| - 1].threads[j]) && !Reading(run[|run| - 1].threads[j])
  {
    RunInv(localtime, run);
    var s := run[|run| - 1];
    assert SomeWriter(s);
    assert Reading(s.threads[j]) ==> SomeReader(s);
  }

  /** The low bits of the mode word count exactly the threads between increment and decrement. */
  lemma LowBitsCountReaders(localtime: int -> Tm, run: seq<State>)
    requires Run(localtime, run) && |run[0].threads| < STALE
    ensures run[|run| - 1].mode % STALE == CountedThreads(run[|run| - 1].threads)
    ensures run[|run| - 1].mode < WORD
  {
    RunInv(localtime, run);
    FlagWord(run[|run| - 1].mode, CountedThreads(run[|run| - 1].threads));
  }

  /** A returning thread carries the local time of the second it holds. */
  lemma ReturnedTime(localtime: int -> Tm, run: seq<State>, i: nat)
    requires Run(localtime, run) && |run[0].threads| < STALE
    requires i < |run[|run| - 1].threads| && run[|run| - 1].threads[i].pc.Return?
    ensures run[|run| - 1].threads[i].tm == localtime(run[|run| - 1].threads[i].second)
  {
    RunInv(localtime, run);
    assert ThreadInv(localtime, run[|run| - 1], run[|run| - 1].threads[i]);
  }

  /** In state j of the run thread i is in a call of time_callback. */
  predicate Busy(run: seq<State>, i: nat, j: nat)
  {
    j < |run| && i < |run[j].threads| && !run[j].threads[i].pc.Idle?
  }

  /** In step a of the run thread i calls time_callback in second now, and it has not come back to idle since. */
  ghost predicate InCall(localtime: int -> Tm, run: seq<State>, i: nat, now: int, a: nat)
  {
    && a + 1 < |run| && i < |run[a].threads|
    && run[a].threads[i].pc.Idle? && run[a + 1] == Step(localtime, run[a], i, now)
    && forall j: nat {:trigger Busy(run, i, j)} :: a < j < |run| ==> Busy(run, i, j)
  }

  /** Only a call that starts changes the second a thread asks for. */
  lemma StepKeepsSecond(localtime: int -> Tm, s: State, k: nat, m: int, i: nat)
    requires i < |s.threads| && k < |s.threads| && !s.threads[i].pc.Idle?
    ensures Step(localtime, s, k, m).threads[i].second == s.threads[i].second
  {
  }

  lemma {:induction false} CallKeepsSecond(localtime: int -> Tm, run: seq<State>, i: nat, now: int, a: nat)
    requires Run(localtime, run) && InCall(localtime, run, i, now, a)
    ensures i < |run[|run| - 1].threads| && run[|run| - 1].threads[i].second == now
    decreases |run|
  {
    assert Busy(run, i, |run| - 1);
    if a + 2 < |run| {
      var before, s, s' := run[..|run| - 1], run[|run| - 2], run[|run| - 1];
      forall j: nat | a < j < |before| ensures Busy(before, i, j) {
        assert Busy(run, i, j);
      }
      CallKeepsSecond(localtime, before, i, now, a);
      assert Busy(run, i, |run| - 2);
      assert Next(localtime, s, s');
      var k: nat, m: int :| k < |s.threads| && s' == Step(localtime, s, k, m);
      StepKeepsSecond(localtime, s, k, m, i);
    }
  }

  /** Whatever the interleaving, a call of time_callback that was made in second now returns the local time of that
      second, from the cache or not. */
  lemma CallbackReturnsLocaltime(localtime: int -> Tm, run: seq<State>, i: nat, now: int, a: nat)
    requires Run(localtime, run) && |run[0].threads| < STALE
    requires InCall(localtime, run, i, now, a)
    requires i < |run[|run| - 1].threads| && run[|run| - 1].threads[i].pc.Return?
    ensures run[|run| - 1].threads[i].tm == localtime(now)
  {
    CallKeepsSecond(localtime, run, i, now, a);
    ReturnedTime(localtime, run, i);
  }

  // ----- what the cache is for -----

  /** Thread i takes n steps, and nobody else moves. */
  function Alone(localtime: int -> Tm, s: State, i: nat, now: int, n: nat): State
    requires i < |s.threads|
    decreases n
  {
    if n == 0 then s else Alone(localtime, Step(localtime, s, i, now), i, now, n - 1)
  }

  lemma {:induction false} AloneConcat(localtime: int -> Tm, s: State, i: nat, now: int, m: nat, n: nat, s': State)
    requires i < |s.threads| && i < |s'.threads| && s' == Alone(localtime, s, i, now, m)
    ensures Alone(localtime, s, i, now, m + n) == Alone(localtime, s', i, now, n)
    decreases m
  {
    if m > 0 { AloneConcat(localtime, Step(localtime, s, i, now), i, now, m - 1, n, s'); }
  }

  /** The fields are copied from the cache one by one. */
  lemma {:induction false} CopyAlone(localtime: int -> Tm, s: State, i: nat, now: int, k: nat)
    requires i < |s.threads| && s.threads[i].pc == Copy(k) && k <= FIELDS && s.threads[i].tm[..k] == s.tm[..k]
    ensures var t := s.threads[i]; Alone(localtime, s, i, now, FIELDS - k + 1) == Set(s, i, Thread(LeaveHit, t.second, s.tm))
    decreases FIELDS - k
  {
    var s' := Step(localtime, s, i, now);
    if k < FIELDS {
      assert s'.threads[i].tm[..k + 1] == s.tm[..k + 1];
      CopyAlone(localtime, s', i, now, k + 1);
    } else {
      assert s.threads[i].tm == s.tm;
      assert Alone(localtime, s, i, now, 1) == Alone(localtime, s', i, now, 0) == s';
    }
  }

  /** The writer fills in the fields one by one. */
  lemma {:induction false} WriteAlone(localtime: int -> Tm, s: State, i: nat, now: int, k: nat)
    requires i < |s.threads| && s.threads[i].pc == WriteField(k) && k <= FIELDS && s.tm[..k] == s.threads[i].tm[..k]
    ensures var t := s.threads[i];
      Alone(localtime, s, i, now, FIELDS - k + 1) == Set(s.(tm := t.tm), i, t.(pc := Unlock))
    decreases FIELDS - k
  {
    var s' := Step(localtime, s, i, now);
    if k < FIELDS {
      assert s'.tm[..k + 1] == s.threads[i].tm[..k + 1];
      WriteAlone(localtime, s', i, now, k + 1);
    } else {
      assert s.threads[i].tm == s.tm;
      assert Alone(localtime, s, i, now, 1) == Alone(localtime, s', i, now, 0) == s';
    }
  }

  /** The first steps of a call, one by one. */
  lemma OneAlone(localtime: int -> Tm, s: State, i: nat, now: int, n: nat)
    requires i < |s.threads| && n > 0
    ensures Alone(localtime, s, i, now, n) == Alone(localtime, Step(localtime, s, i, now), i, now, n - 1)
  {
  }

  /** A call that nobody interferes with, while the cache is solid and holds the second: it is answered with what the
      cache holds, and the cache stays as it is. */
  lemma HitAlone(localtime: int -> Tm, s: State, i: nat, now: int)
    requires i < |s.threads| && s.threads[i].pc.Idle? && s.mode == 0 && s.second == now
    ensures Alone(localtime, s, i, now, FIELDS + 6) == Set(s, i, Thread(Return, now, s.tm))
  {
    var t := s.threads[i];
    var s1 := Set(s, i, t.(pc := Load, second := now));
    var s2 := Set(s, i, t.(pc := Increment, second := now));
    var s3 := Set(s.(mode := 1), i, t.(pc := Compare, second := now));
    var s4 := Set(s.(mode := 1), i, t.(pc := Copy(0), second := now));
    assert Alone(localtime, s, i, now, 4) == s4 by {
      OneAlone(localtime, s, i, now, 4);
      OneAlone(localtime, s1, i, now, 3);
      OneAlone(localtime, s2, i, now, 2);
      OneAlone(localtime, s3, i, now, 1);
    }
    var s5 := Set(s.(mode := 1), i, Thread(LeaveHit, now, s.tm));
    assert Alone(localtime, s4, i, now, FIELDS + 1) == s5 by { CopyAlone(localtime, s4, i, now, 0); }
    assert Alone(localtime, s5, i, now, 1) == Set(s, i, Thread(Return, now, s.tm)) by { OneAlone(localtime, s5, i, now, 1); }
    AloneConcat(localtime, s, i, now, 4, FIELDS + 1, s4);
    AloneConcat(localtime, s, i, now, FIELDS + 5, 1, s5);
  }

  /** The cache is free and stale: the local time is computed and the cache locked. */
  lemma LockAlone(localtime: int -> Tm, s: State, i: nat, now: int)
    requires i < |s.threads| && s.threads[i].pc.Compute? && s.mode == STALE
    ensures var second := s.threads[i].second;
      Alone(localtime, s, i, now, 3) ==
      Set(s.(mode := FLUID, second := second), i, Thread(WriteField(0), second, localtime(second)))
  {
    var second := s.threads[i].second;
    var s1 := Set(s, i, Thread(TryLock, second, localtime(second)));
    var s2 := Set(s.(mode := FLUID), i, Thread(WriteSecond, second, localtime(second)));
    OneAlone(localtime, s, i, now, 3);
    OneAlone(localtime, s1, i, now, 2);
    OneAlone(localtime, s2, i, now, 1);
  }

  lemma UnlockAlone(localtime: int -> Tm, s: State, i: nat, now: int)
    requires i < |s.threads| && s.threads[i].pc.Unlock? && s.mode == FLUID
    ensures Alone(localtime, s, i, now, 1) == Set(s.(mode := 0), i, s.threads[i].(pc := Return))
  {
    OneAlone(localtime, s, i, now, 1);
  }

  /** After that it is written and unlocked. */
  lemma FillAlone(localtime: int -> Tm, s: State, i: nat, now: int)
    requires i < |s.threads| && s.threads[i].pc == WriteField(0) && s.mode == FLUID
    ensures var t := s.threads[i];
      Alone(localtime, s, i, now, FIELDS + 2) == Set(s.(mode := 0, tm := t.tm), i, t.(pc := Return))
  {
    var t := s.threads[i];
    var s' := Set(s.(tm := t.tm), i, t.(pc := Unlock));
    WriteAlone(localtime, s, i, now, 0);
    UnlockAlone(localtime, s', i, now);
    AloneConcat(localtime, s, i, now, FIELDS + 1, 1, s');
  }

  /** Together: the cache is solid and holds the local time of the second. */
  lemma UpdateAlone(localtime: int -> Tm, s: State, i: nat, now: int)
    requires i < |s.threads| && s.threads[i].pc.Compute? && s.mode == STALE
    ensures var second := s.threads[i].second;
      Alone(localtime, s, i, now, FIELDS + 5) ==
      Set(s.(mode := 0, second := second, tm := localtime(second)), i, Thread(Return, second, localtime(second)))
  {
    var second := s.threads[i].second;
    var locked := Set(s.(mode := FLUID, second := second), i, Thread(WriteField(0), second, localtime(second)));
    LockAlone(localtime, s, i, now);
    FillAlone(localtime, locked, i, now);
    AloneConcat(localtime, s, i, now, 3, FIELDS + 2, locked);
  }

  /** How many steps a call takes that finds nothing in the cache. */
  function MissSteps(mode: nat): nat { if mode == STALE then FIELDS + 7 else FIELDS + 11 }

  /** A call that nobody interferes with, while the cache is stale or holds another second: it computes the local time,
      and afterwards the cache is solid and holds it, so that the next call in that second is a hit. */
  lemma MissAlone(localtime: int -> Tm, s: State, i: nat, now: int)
    requires i < |s.threads| && s.threads[i].pc.Idle?
    requires s.mode == STALE || (s.mode == 0 && s.second != now)
    ensures Alone(localtime, s, i, now, MissSteps(s.mode)) ==
      Set(s.(mode := 0, second := now, tm := localtime(now)), i, Thread(Return, now, localtime(now)))
  {
    var t := s.threads[i].(second := now);
    var s1 := Set(s, i, t.(pc := Load));
    OneAlone(localtime, s, i, now, 2);
    OneAlone(localtime, s1, i, now, 1);
    var compute := Set(s.(mode := STALE), i, t.(pc := Compute));
    UpdateAlone(localtime, compute, i, now);
    if s.mode == STALE {
      AloneConcat(localtime, s, i, now, 2, FIELDS + 5, compute);
    } else {
      var s2 := Set(s, i, t.(pc := Increment));
      GiveUpAlone(localtime, s2, i, now);
      AloneConcat(localtime, s, i, now, 2, 4, s2);
      AloneConcat(localtime, s, i, now, 6, FIELDS + 5, compute);
    }
  }

  /** A solid cache holds another second: it is marked stale. */
  lemma GiveUpAlone(localtime: int -> Tm, s: State, i: nat, now: int)
    requires i < |s.threads| && s.threads[i].pc.Increment? && s.mode == 0 && s.second != s.threads[i].second
    ensures Alone(localtime, s, i, now, 4) == Set(s.(mode := STALE), i, s.threads[i].(pc := Compute))
  {
    var t := s.threads[i];
    var s1 := Set(s.(mode := 1), i, t.(pc := Compare));
    var s2 := Set(s.(mode := 1), i, t.(pc := MarkStale));
    var s3 := Set(s.(mode := STALE + 1), i, t.(pc := LeaveMiss));
    OneAlone(localtime, s, i, now, 4);
    OneAlone(localtime, s1, i, now, 3);
    OneAlone(localtime, s2, i, now, 2);
    OneAlone(localtime, s3, i, now, 1);
  }
}
