/** The SKaMPI offset measurement of SKaMPIClockOffsetAlg.cpp: a reference and a client exchange clock
    readings until one of them sends the sentinel -1. */
module Skampi {
  import opened Reals

  /** ppRef and ppClient are the minimum ping-pong times the two sides start from; a negative value means
      that the side never stops early.  diff is the true difference, client clock minus reference clock. */
  datatype Params = Params(minimum: int, number: int, ppRef: real, ppClient: real, diff: real)

  const INVALID_TIME := -1.0

  /** The test for stopping after fewer ping-pongs. */
  predicate EnoughPingPongs(P: Params, pp: real, i: int, roundTrip: real)
  {
    pp >= 0.0 && i >= P.minimum && roundTrip < pp * 1.10
  }

  // ----- the reference -----

  datatype RefPc = RefStart | RefFirst | RefLoop | RefDone

  /** Local variables of the reference. */
  datatype Ref = Ref(pc: RefPc, sLast: real, sNow: real, tdMin: real, tdMax: real, i: int)

  /** The variables are assigned before they are read; what they hold at the start is arbitrary. */
  const RefAtStart := Ref(RefStart, 0.0, 0.0, 0.0, 0.0, 0)

  /** One turn of the reference: from one receive to the next.  msg is the received value (unused in the
      first turn), reading what its clock shows in this turn. */
  function RefTurn(P: Params, r: Ref, msg: real, reading: real): (Ref, seq<real>)
  {
    match r.pc
    case RefStart => (r.(pc := RefFirst, sLast := reading), [reading])
    case RefFirst =>
      (r.(pc := RefLoop, sNow := reading, tdMin := msg - reading, tdMax := msg - r.sLast, i := 1), [reading])
    case RefLoop =>
      if msg < 0.0 then (r.(pc := RefDone), [])
      else
        var r' := r.(sLast := r.sNow, sNow := reading, tdMin := Max(r.tdMin, msg - reading),
                     tdMax := Min(r.tdMax, msg - r.sNow));
        if EnoughPingPongs(P, P.ppRef, r.i, reading - r.sNow) then (r'.(pc := RefDone), [INVALID_TIME])
        else if r.i + 1 >= P.number then (r'.(pc := RefDone, i := r.i + 1), [INVALID_TIME])
        else (r'.(i := r.i + 1), [reading])
    case RefDone => (r, [])
  }

  // ----- the client -----

  datatype ClientPc = ClientStart | ClientFirst | ClientLoop | ClientDone

  datatype Client = Client(pc: ClientPc, sLast: real, tLast: real, tNow: real, tdMin: real, tdMax: real, i: int)

  const ClientAtStart := Client(ClientStart, 0.0, 0.0, 0.0, 0.0, 0.0, 0)

  function ClientTurn(P: Params, c: Client, msg: real, reading: real): (Client, seq<real>)
  {
    match c.pc
    case ClientStart => (c.(pc := ClientFirst, sLast := msg, tLast := reading), [reading])
    case ClientFirst =>
      (c.(pc := ClientLoop, tNow := reading, tdMin := Max(c.sLast - c.tLast, msg - reading),
          tdMax := msg - c.tLast, i := 1), [reading])
    case ClientLoop =>
      var c' := c.(sLast := msg, tLast := c.tNow, tNow := reading);
      if msg < 0.0 then (c'.(pc := ClientDone), [])
      else
        var d := c'.(tdMin := Max(c.tdMin, msg - reading), tdMax := Min(c.tdMax, msg - c.tNow));
        if EnoughPingPongs(P, P.ppClient, c.i, reading - c.tNow) then (d.(pc := ClientDone), [INVALID_TIME])
        else (d.(i := c.i + 1), [reading])
    case ClientDone => (c, [])
  }

  // ----- both parties and the network -----

  /** now is the true time, on the scale of the reference's clock. */
  datatype State = State(now: real, ref: Ref, client: Client, toClient: seq<real>, toRef: seq<real>)

  ghost predicate Init(s: State, start: real)
  {
    s == State(start, RefAtStart, ClientAtStart, [], [])
  }

  ghost predicate RefEnabled(s: State)
  {
    s.ref.pc == RefStart || ((s.ref.pc == RefFirst || s.ref.pc == RefLoop) && s.toRef != [])
  }

  /** The reference takes its turn at time t; its clock shows t. */
  ghost function RefStep(P: Params, s: State, t: real): State
    requires RefEnabled(s)
  {
    var msg := if s.ref.pc == RefStart then 0.0 else s.toRef[0];
    var (r, out) := RefTurn(P, s.ref, msg, t);
    s.(now := t, ref := r, toClient := s.toClient + out, toRef := if s.ref.pc == RefStart then s.toRef else s.toRef[1..])
  }

  ghost predicate ClientEnabled(s: State)
  {
    s.client.pc != ClientDone && s.toClient != []
  }

  /** The client takes its turn at time t; its clock shows t + diff. */
  ghost function ClientStep(P: Params, s: State, t: real): State
    requires ClientEnabled(s)
  {
    var (c, out) := ClientTurn(P, s.client, s.toClient[0], t + P.diff);
    s.(now := t, client := c, toRef := s.toRef + out, toClient := s.toClient[1..])
  }

  /** Any delay may pass before a turn; this covers every message delay. */
  ghost predicate Next(P: Params, s: State, s': State)
  {
    exists t: real :: t >= s.now &&
      ((RefEnabled(s) && s' == RefStep(P, s, t)) || (ClientEnabled(s) && s' == ClientStep(P, s, t)))
  }

  ghost predicate Run(P: Params, start: real, run: seq<State>)
  {
    && |run| > 0
    && Init(run[0], start)
    && forall i :: 0 < i < |run| ==> Next(P, run[i - 1], run[i])
  }

  ghost predicate Stuck(s: State)
  {
    !RefEnabled(s) && !ClientEnabled(s)
  }

  ghost predicate BothFinished(s: State)
  {
    s.ref.pc == RefDone && s.client.pc == ClientDone && s.toClient == [] && s.toRef == []
  }

  // ----- the invariant -----

  /** Sends and receives alternate: at most one message is in flight, and its direction is fixed by the two
      program counters.  A party is misled if it takes a negative reading for the sentinel. */
  datatype Phase = Begin | FirstPing | FirstPong | SecondPing | Pong | Ping | RefStops | ClientStops | End | RefMisled | ClientMisled | Broken

  ghost function PhaseOf(s: State): Phase
  {
    match (s.ref.pc, s.client.pc)
    case (RefStart, ClientStart) => if s.toClient == [] && s.toRef == [] then Begin else Broken
    case (RefFirst, ClientStart) => if s.toClient == [s.ref.sLast] && s.toRef == [] then FirstPing else Broken
    case (RefFirst, ClientFirst) => if s.toClient == [] && s.toRef == [s.client.tLast] then FirstPong else Broken
    case (RefLoop, ClientFirst) => if s.toClient == [s.ref.sNow] && s.toRef == [] then SecondPing else Broken
    case (RefLoop, ClientLoop) =>
      if s.toClient == [] && s.toRef == [s.client.tNow] then Pong
      else if s.toClient == [s.ref.sNow] && s.toRef == [] then Ping else Broken
    case (RefDone, ClientLoop) =>
      if s.toClient == [INVALID_TIME] && s.toRef == [] then RefStops
      else if s.toClient == [] && s.toRef == [] then RefMisled else Broken
    case (RefLoop, ClientDone) =>
      if s.toClient == [] && s.toRef == [INVALID_TIME] then ClientStops
      else if s.toClient == [] && s.toRef == [] then ClientMisled else Broken
    case (RefDone, ClientDone) => if s.toClient == [] && s.toRef == [] then End else Broken
    case _ => Broken
  }

  ghost predicate RefBracket(P: Params, r: Ref)
  {
    r.tdMin <= P.diff <= r.tdMax
  }

  ghost predicate ClientBracket(P: Params, c: Client)
  {
    c.tdMin <= -P.diff <= c.tdMax
  }

  /** How the readings lie in true time, phase by phase. */
  ghost predicate Order(P: Params, s: State)
  {
    match PhaseOf(s)
    case Begin => true
    case FirstPing => s.ref.sLast <= s.now
    case FirstPong => s.client.sLast == s.ref.sLast <= s.client.tLast - P.diff <= s.now
    case SecondPing => s.client.sLast <= s.client.tLast - P.diff <= s.ref.sNow <= s.now && RefBracket(P, s.ref) && s.ref.i == 1
    case Pong => s.ref.sNow <= s.client.tNow - P.diff <= s.now && RefBracket(P, s.ref) && ClientBracket(P, s.client)
    case Ping => s.client.tNow - P.diff <= s.ref.sNow <= s.now && RefBracket(P, s.ref) && ClientBracket(P, s.client)
    case RefStops => RefBracket(P, s.ref) && ClientBracket(P, s.client)
    case ClientStops => RefBracket(P, s.ref) && ClientBracket(P, s.client)
    case End => RefBracket(P, s.ref) && ClientBracket(P, s.client)
    case RefMisled => RefBracket(P, s.ref) && ClientBracket(P, s.client)
    case ClientMisled => RefBracket(P, s.ref) && ClientBracket(P, s.client)
    case Broken => false
  }

  /** No reading that the other side tests against the sentinel can be negative: the client's readings are
      not, and neither are the reference's, unless it stops in its first loop turn anyway, or stops there
      whenever its clock still shows a negative time. */
  ghost predicate ReadingsSafe(P: Params, start: real)
  {
    && start + P.diff >= 0.0
    && (start >= 0.0 || P.number <= 2 || (P.ppRef >= 0.0 && P.minimum <= 1 && start + P.ppRef * 1.10 >= 0.0))
  }

  ghost predicate Inv(P: Params, start: real, s: State)
  {
    && s.now >= start
    && Order(P, s)
    && (PhaseOf(s) == Pong ==> s.client.tNow - P.diff >= start)
    && (PhaseOf(s) == Ping ==> s.ref.sNow >= start && s.ref.i < P.number && s.ref.i >= 2)
    && (PhaseOf(s) == SecondPing || PhaseOf(s) == Pong ==> s.ref.sNow >= start)
    && (ReadingsSafe(P, start) && s.ref.pc == RefLoop && s.ref.i >= 2 ==> s.ref.sNow >= 0.0)
    && (ReadingsSafe(P, start) ==> PhaseOf(s) != RefMisled && PhaseOf(s) != ClientMisled)
    && (s.ref.pc == RefLoop ==> 1 <= s.ref.i && (s.ref.i == 1 || s.ref.i < P.number))
  }

  lemma RefStepInv(P: Params, start: real, s: State, t: real)
    requires Inv(P, start, s) && RefEnabled(s) && t >= s.now
    ensures Inv(P, start, RefStep(P, s, t))
    ensures Remaining(P, RefStep(P, s, t)) < Remaining(P, s)
  {
    if s.ref.pc == RefLoop {
      RefLoopInv(P, start, s, t);
    } else {
      RefUnrolledInv(P, start, s, t);
    }
  }

  lemma RefUnrolledInv(P: Params, start: real, s: State, t: real)
    requires Inv(P, start, s) && RefEnabled(s) && t >= s.now && s.ref.pc != RefLoop
    ensures Inv(P, start, RefStep(P, s, t))
    ensures Remaining(P, RefStep(P, s, t)) < Remaining(P, s)
  {
  }

  lemma RefLoopInv(P: Params, start: real, s: State, t: real)
    requires Inv(P, start, s) && RefEnabled(s) && t >= s.now && s.ref.pc == RefLoop
    ensures Inv(P, start, RefStep(P, s, t))
    ensures Remaining(P, RefStep(P, s, t)) < Remaining(P, s)
  {
    assert PhaseOf(s) == Pong || PhaseOf(s) == ClientStops;
  }

  lemma ClientStepInv(P: Params, start: real, s: State, t: real)
    requires Inv(P, start, s) && ClientEnabled(s) && t >= s.now
    ensures Inv(P, start, ClientStep(P, s, t))
    ensures Remaining(P, ClientStep(P, s, t)) < Remaining(P, s)
  {
    if s.client.pc == ClientLoop {
      ClientLoopInv(P, start, s, t);
    } else {
      ClientUnrolledInv(P, start, s, t);
    }
  }

  lemma ClientUnrolledInv(P: Params, start: real, s: State, t: real)
    requires Inv(P, start, s) && ClientEnabled(s) && t >= s.now && s.client.pc != ClientLoop
    ensures Inv(P, start, ClientStep(P, s, t))
    ensures Remaining(P, ClientStep(P, s, t)) < Remaining(P, s)
  {
  }

  lemma ClientLoopInv(P: Params, start: real, s: State, t: real)
    requires Inv(P, start, s) && ClientEnabled(s) && t >= s.now && s.client.pc == ClientLoop
    ensures Inv(P, start, ClientStep(P, s, t))
    ensures Remaining(P, ClientStep(P, s, t)) < Remaining(P, s)
  {
    assert PhaseOf(s) == Ping || PhaseOf(s) == RefStops;
  }

  /** Loop turns the reference may still take. */
  function RefTurnsLeft(P: Params, i: int): nat
  {
    if P.number - i > 1 then P.number - i else 1
  }

  /** Upper bound on the number of turns still to come. */
  ghost function Remaining(P: Params, s: State): nat
  {
    match PhaseOf(s)
    case Begin => 2 * RefTurnsLeft(P, 1) + 4
    case FirstPing => 2 * RefTurnsLeft(P, 1) + 3
    case FirstPong => 2 * RefTurnsLeft(P, 1) + 2
    case SecondPing => 2 * RefTurnsLeft(P, 1) + 1
    case Pong => 2 * RefTurnsLeft(P, s.ref.i)
    case Ping => 2 * RefTurnsLeft(P, s.ref.i) + 1
    case RefStops => 1
    case ClientStops => 1
    case _ => 0
  }

  lemma {:induction false} RunInv(P: Params, start: real, run: seq<State>)
    requires Run(P, start, run)
    ensures Inv(P, start, run[|run| - 1])
    ensures |run| - 1 + Remaining(P, run[|run| - 1]) <= 2 * RefTurnsLeft(P, 1) + 4
    decreases |run|
  {
    if |run| > 1 {
      RunInv(P, start, run[..|run| - 1]);
      var s, s' := run[|run| - 2], run[|run| - 1];
      assert Next(P, s, s');
      var t: real :| t >= s.now &&
        ((RefEnabled(s) && s' == RefStep(P, s, t)) || (ClientEnabled(s) && s' == ClientStep(P, s, t)));
      if RefEnabled(s) && s' == RefStep(P, s, t) {
        RefStepInv(P, start, s, t);
      } else {
        ClientStepInv(P, start, s, t);
      }
    }
  }

  // ----- main results -----

  lemma BracketsContain(P: Params, start: real, run: seq<State>)
    requires Run(P, start, run)
    ensures var s := run[|run| - 1];
      && (s.ref.pc == RefLoop || s.ref.pc == RefDone ==> RefBracket(P, s.ref))
      && (s.client.pc == ClientLoop || s.client.pc == ClientDone ==> ClientBracket(P, s.client))
  {
    RunInv(P, start, run);
  }

  /** The exchange always ends within a number of turns fixed by Number_ping_pongs, in every run and for
      every early-stop behaviour. */
  lemma TurnsAreBounded(P: Params, start: real, run: seq<State>)
    requires Run(P, start, run)
    ensures |run| - 1 <= 2 * (if P.number > 2 then P.number - 1 else 1) + 4
  {
    RunInv(P, start, run);
  }

  /** With safe readings the parties never wait for each other in vain: when no turn is possible, both have
      finished and no message is left. */
  lemma NoPartyIsLeftWaiting(P: Params, start: real, run: seq<State>)
    requires Run(P, start, run) && ReadingsSafe(P, start)
    ensures Stuck(run[|run| - 1]) <==> BothFinished(run[|run| - 1])
  {
    RunInv(P, start, run);
  }

  ghost predicate AlwaysFinishes(P: Params, start: real)
  {
    forall run :: Run(P, start, run) && Stuck(run[|run| - 1]) ==> BothFinished(run[|run| - 1])
  }

  /** The condition on the readings is exact, for any early-stop behaviour: otherwise a negative reading can
      be taken for the sentinel, and the other side waits for ever. */
  lemma FinishesExactlyWithSafeReadings(P: Params, start: real)
    ensures AlwaysFinishes(P, start) <==> ReadingsSafe(P, start)
  {
    if ReadingsSafe(P, start) {
      forall run | Run(P, start, run) && Stuck(run[|run| - 1]) ensures BothFinished(run[|run| - 1]) {
        NoPartyIsLeftWaiting(P, start, run);
      }
    } else {
      var run := HangingRun(P, start);
      assert Run(P, start, run);
    }
  }

  /** The run without any delay up to the reference's first loop turn. */
  lemma FirstExchange(P: Params, start: real) returns (run: seq<State>)
    ensures Run(P, start, run)
    ensures var s := run[|run| - 1];
      && s.now == start && s.toClient == [] && s.toRef == [start + P.diff]
      && s.ref.pc == RefLoop && s.ref.i == 1 && s.ref.sNow == start && s.client.pc == ClientLoop
  {
    var s0 := State(start, RefAtStart, ClientAtStart, [], []);
    var s1 := RefStep(P, s0, start);
    var s2 := ClientStep(P, s1, start);
    var s3 := RefStep(P, s2, start);
    var s4 := ClientStep(P, s3, start);
    assert Next(P, s0, s1) && Next(P, s1, s2) && Next(P, s2, s3) && Next(P, s3, s4);
    run := [s0, s1, s2, s3, s4];
  }

  /** A run that hangs when a reading is negative where it must not be.  Nothing is delayed but the first
      loop turn of the reference, by just enough to keep it from stopping early. */
  lemma HangingRun(P: Params, start: real) returns (run: seq<State>)
    requires !ReadingsSafe(P, start)
    ensures Run(P, start, run) && Stuck(run[|run| - 1]) && !BothFinished(run[|run| - 1])
  {
    var later := if P.ppRef >= 0.0 && P.minimum <= 1 then start + P.ppRef * 1.10 else start;
    run := FirstExchange(P, start);
    var s := run[|run| - 1];
    var s' := RefStep(P, s, later);
    assert Next(P, s, s');
    run := run + [s'];
    if start + P.diff >= 0.0 {
      assert s'.toClient == [later];
      var s'' := ClientStep(P, s', later);
      assert Next(P, s', s'');
      run := run + [s''];
    }
  }

  // ----- the code of one party -----

  /** The reference after its first k turns, and what it has sent: inbox holds the messages it receives,
      clock the readings of its clock. */
  function RefPlay(P: Params, inbox: seq<real>, clock: seq<real>, k: nat): (Ref, seq<real>)
    requires k <= |inbox| + 1 && k <= |clock|
  {
    if k == 0 then (RefAtStart, [])
    else
      var (r, sent) := RefPlay(P, inbox, clock, k - 1);
      var (r', out) := RefTurn(P, r, if k == 1 then 0.0 else inbox[k - 2], clock[k - 1]);
      (r', sent + out)
  }

  function ClientPlay(P: Params, inbox: seq<real>, clock: seq<real>, k: nat): (Client, seq<real>)
    requires k <= |inbox| && k <= |clock|
  {
    if k == 0 then (ClientAtStart, [])
    else
      var (c, sent) := ClientPlay(P, inbox, clock, k - 1);
      var (c', out) := ClientTurn(P, c, inbox[k - 1], clock[k - 1]);
      (c', sent + out)
  }

  /** What reaches a party later does not change what it did before. */
  lemma {:induction false} RefPlayPrefix(P: Params, inbox: seq<real>, clock: seq<real>, more: seq<real>, t: real, k: nat)
    requires k <= |inbox| + 1 && k <= |clock|
    ensures RefPlay(P, inbox + more, clock + [t], k) == RefPlay(P, inbox, clock, k)
  {
    if k > 0 { RefPlayPrefix(P, inbox, clock, more, t, k - 1); }
  }

  lemma {:induction false} ClientPlayPrefix(P: Params, inbox: seq<real>, clock: seq<real>, m: real, t: real, k: nat)
    requires k <= |inbox| && k <= |clock|
    ensures ClientPlay(P, inbox + [m], clock + [t], k) == ClientPlay(P, inbox, clock, k)
  {
    if k > 0 { ClientPlayPrefix(P, inbox, clock, m, t, k - 1); }
  }

  /** The reference's own program, fed with inbox and clock, is at r and has sent `sent`. */
  ghost predicate RefExplained(P: Params, inbox: seq<real>, clock: seq<real>, r: Ref, sent: seq<real>)
  {
    && |inbox| == (if clock == [] then 0 else |clock| - 1)
    && RefPlay(P, inbox, clock, |clock|) == (r, sent)
    && (r.pc == RefStart <==> clock == [])
  }

  ghost predicate ClientExplained(P: Params, inbox: seq<real>, clock: seq<real>, c: Client, sent: seq<real>)
  {
    |inbox| == |clock| && ClientPlay(P, inbox, clock, |inbox|) == (c, sent)
  }

  lemma RefPlayNext(P: Params, inbox: seq<real>, clock: seq<real>, r: Ref, sent: seq<real>, msg: real, t: real)
    requires RefExplained(P, inbox, clock, r, sent)
    ensures var (r', out) := RefTurn(P, r, if r.pc == RefStart then 0.0 else msg, t);
            RefExplained(P, if r.pc == RefStart then inbox else inbox + [msg], clock + [t], r', sent + out)
  {
    var more := if r.pc == RefStart then [] else [msg];
    RefPlayPrefix(P, inbox, clock, more, t, |clock|);
    assert (clock + [t])[|clock|] == t;
    assert RefPlay(P, inbox + more, clock + [t], |clock| + 1).0 == RefTurn(P, r, if r.pc == RefStart then 0.0 else msg, t).0;
    assert inbox + [] == inbox;
  }

  lemma ClientPlayNext(P: Params, inbox: seq<real>, clock: seq<real>, c: Client, sent: seq<real>, m: real, t: real)
    requires ClientExplained(P, inbox, clock, c, sent)
    ensures var (c', out) := ClientTurn(P, c, m, t);
            ClientExplained(P, inbox + [m], clock + [t], c', sent + out)
  {
    ClientPlayPrefix(P, inbox, clock, m, t, |inbox|);
  }

  /** What the two parties have received and read of their clocks so far. */
  datatype History = History(refInbox: seq<real>, refClock: seq<real>, clientInbox: seq<real>, clientClock: seq<real>)

  /** The state is what the two parties' own programs make of that history: what one side has sent is what
      the other has received, in order, and then what is in flight. */
  ghost predicate Explains(P: Params, h: History, s: State)
  {
    && RefExplained(P, h.refInbox, h.refClock, s.ref, h.clientInbox + s.toClient)
    && ClientExplained(P, h.clientInbox, h.clientClock, s.client, h.refInbox + s.toRef)
  }

  /** Sending appends to what is in flight, receiving takes its head. */
  lemma InFlight(received: seq<real>, queue: seq<real>, out: seq<real>)
    ensures received + queue + out == received + (queue + out)
    ensures queue != [] ==> received + queue == received + [queue[0]] + queue[1..]
  {
  }

  ghost function AfterRefStep(h: History, s: State, t: real): History
    requires RefEnabled(s)
  {
    h.(refInbox := if s.ref.pc == RefStart then h.refInbox else h.refInbox + [s.toRef[0]], refClock := h.refClock + [t])
  }

  ghost function AfterClientStep(P: Params, h: History, s: State, t: real): History
    requires ClientEnabled(s)
  {
    h.(clientInbox := h.clientInbox + [s.toClient[0]], clientClock := h.clientClock + [t + P.diff])
  }

  /** What happens in a run, step by step: the party whose turn it is takes the message in flight and reads its
      clock at the time of the step. */
  ghost function HistoryOf(P: Params, run: seq<State>): History
    requires |run| > 0
    decreases |run|
  {
    if |run| == 1 then History([], [], [], [])
    else
      var h, s, s' := HistoryOf(P, run[..|run| - 1]), run[|run| - 2], run[|run| - 1];
      if RefEnabled(s) && s' == RefStep(P, s, s'.now) then AfterRefStep(h, s, s'.now)
      else if ClientEnabled(s) then AfterClientStep(P, h, s, s'.now)
      else h
  }

  lemma RefStepExplained(P: Params, h: History, s: State, t: real)
    requires Explains(P, h, s) && RefEnabled(s)
    ensures Explains(P, AfterRefStep(h, s, t), RefStep(P, s, t))
  {
    var msg := if s.ref.pc == RefStart then 0.0 else s.toRef[0];
    RefPlayNext(P, h.refInbox, h.refClock, s.ref, h.clientInbox + s.toClient, msg, t);
    InFlight(h.clientInbox, s.toClient, RefTurn(P, s.ref, msg, t).1);
    InFlight(h.refInbox, s.toRef, []);
  }

  lemma ClientStepExplained(P: Params, h: History, s: State, t: real)
    requires Explains(P, h, s) && ClientEnabled(s)
    ensures Explains(P, AfterClientStep(P, h, s, t), ClientStep(P, s, t))
  {
    var msg, reading := s.toClient[0], t + P.diff;
    ClientPlayNext(P, h.clientInbox, h.clientClock, s.client, h.refInbox + s.toRef, msg, reading);
    InFlight(h.refInbox, s.toRef, ClientTurn(P, s.client, msg, reading).1);
    InFlight(h.clientInbox, s.toClient, []);
  }

  /** Every run is the two parties' own programs connected by two FIFO channels. */
  lemma {:induction false} RunIsTwoPrograms(P: Params, start: real, run: seq<State>)
    requires Run(P, start, run)
    ensures Explains(P, HistoryOf(P, run), run[|run| - 1])
    decreases |run|
  {
    if |run| == 1 {
      var h := HistoryOf(P, run);
      assert h.clientInbox + run[0].toClient == [] && h.refInbox + run[0].toRef == [];
    } else {
      RunIsTwoPrograms(P, start, run[..|run| - 1]);
      var h, s, s' := HistoryOf(P, run[..|run| - 1]), run[|run| - 2], run[|run| - 1];
      assert Next(P, s, s');
      if RefEnabled(s) && s' == RefStep(P, s, s'.now) {
        RefStepExplained(P, h, s, s'.now);
      } else {
        ClientStepExplained(P, h, s, s'.now);
      }
    }
  }

  // ----- what a side makes of its readings -----

  /** The reference stops in turn j of its loop: a negative message, an early stop, or the last ping-pong.  In
      that turn it receives inbox[j - 1] and reads clock[j], the last ping-pong having started at clock[j - 1]. */
  predicate RefStopsAt(P: Params, inbox: seq<real>, clock: seq<real>, j: nat)
    requires 2 <= j <= |inbox| && j < |clock|
  {
    inbox[j - 1] < 0.0 || j >= P.number ||
    (0.0 <= P.ppRef && P.minimum <= j - 1 && clock[j] - clock[j - 1] < 1.10 * P.ppRef)
  }

  ghost predicate RefRunning(P: Params, inbox: seq<real>, clock: seq<real>, k: nat)
    requires k <= |inbox| + 1 && k <= |clock|
  {
    forall j: nat {:trigger RefStopsAt(P, inbox, clock, j)} :: 2 <= j < k ==> !RefStopsAt(P, inbox, clock, j)
  }

  /** Turn j completes a ping-pong: sent at clock[j - 1], answered by inbox[j - 1], back at clock[j]. */
  ghost predicate RefPingPong(P: Params, inbox: seq<real>, clock: seq<real>, j: nat)
  {
    0 < j <= |inbox| && j < |clock| && RefRunning(P, inbox, clock, j) && (j == 1 || inbox[j - 1] >= 0.0)
  }

  /** The extremes of answer minus sending time and answer minus arrival time over the first k turns. */
  ghost predicate RefExtremes(P: Params, inbox: seq<real>, clock: seq<real>, k: nat, tdMin: real, tdMax: real)
  {
    && (forall j: nat {:trigger RefPingPong(P, inbox, clock, j)} :: j < k && RefPingPong(P, inbox, clock, j) ==>
          tdMax <= inbox[j - 1] - clock[j - 1] && inbox[j - 1] - clock[j] <= tdMin)
    && (exists j: nat :: j < k && RefPingPong(P, inbox, clock, j) && tdMax == inbox[j - 1] - clock[j - 1])
    && (exists j: nat :: j < k && RefPingPong(P, inbox, clock, j) && tdMin == inbox[j - 1] - clock[j])
  }

  /** What is sent up to and including the stopping turn: the readings, and the sentinel if the side stops by itself. */
  ghost predicate RefSends(P: Params, inbox: seq<real>, clock: seq<real>, k: nat, sent: seq<real>)
    requires k <= |inbox| + 1 && k <= |clock|
  {
    && (RefRunning(P, inbox, clock, k) ==> sent == clock[..k])
    && (forall j: nat {:trigger RefStopsAt(P, inbox, clock, j)} ::
          2 <= j < k && RefRunning(P, inbox, clock, j) && RefStopsAt(P, inbox, clock, j) ==>
          sent == clock[..j] + (if inbox[j - 1] < 0.0 then [] else [INVALID_TIME]))
  }

  lemma RefExtremesStay(P: Params, inbox: seq<real>, clock: seq<real>, k: nat, a: real, b: real)
    requires k <= |inbox| && k < |clock| && RefExtremes(P, inbox, clock, k, a, b) && !RefPingPong(P, inbox, clock, k)
    ensures RefExtremes(P, inbox, clock, k + 1, a, b)
  {
  }

  lemma RefExtremesTighten(P: Params, inbox: seq<real>, clock: seq<real>, k: nat, a: real, b: real)
    requires 0 < k <= |inbox| && k < |clock| && RefExtremes(P, inbox, clock, k, a, b) && RefPingPong(P, inbox, clock, k)
    ensures RefExtremes(P, inbox, clock, k + 1, Max(a, inbox[k - 1] - clock[k]), Min(b, inbox[k - 1] - clock[k - 1]))
  {
    var a', b' := Max(a, inbox[k - 1] - clock[k]), Min(b, inbox[k - 1] - clock[k - 1]);
    var x: nat :| x < k && RefPingPong(P, inbox, clock, x) && b == inbox[x - 1] - clock[x - 1];
    var y: nat :| y < k && RefPingPong(P, inbox, clock, y) && a == inbox[y - 1] - clock[y];
    assert b' == inbox[k - 1] - clock[k - 1] || b' == inbox[x - 1] - clock[x - 1];
    assert a' == inbox[k - 1] - clock[k] || a' == inbox[y - 1] - clock[y];
  }

  lemma RefRunsOn(P: Params, inbox: seq<real>, clock: seq<real>, k: nat)
    requires 2 <= k <= |inbox| && k < |clock|
    ensures RefRunning(P, inbox, clock, k + 1) <==> RefRunning(P, inbox, clock, k) && !RefStopsAt(P, inbox, clock, k)
  {
  }

  lemma RefSendsNext(P: Params, inbox: seq<real>, clock: seq<real>, k: nat, sent: seq<real>, out: seq<real>)
    requires 2 <= k <= |inbox| && k < |clock| && RefSends(P, inbox, clock, k, sent)
    requires out == if !RefRunning(P, inbox, clock, k) || inbox[k - 1] < 0.0 then []
                    else if RefStopsAt(P, inbox, clock, k) then [INVALID_TIME] else [clock[k]]
    ensures RefSends(P, inbox, clock, k + 1, sent + out)
  {
    RefRunsOn(P, inbox, clock, k);
    assert clock[..k + 1] == clock[..k] + [clock[k]];
    if !RefRunning(P, inbox, clock, k) {
      assert sent + out == sent;
    }
  }

  /** The reference on its readings: it runs until the first stopping turn, its bracket is the tightest of all
      completed ping-pongs, and it sends its readings and, if it stops by itself, the sentinel. */
  ghost predicate RefExplicit(P: Params, inbox: seq<real>, clock: seq<real>, k: nat, r: Ref, sent: seq<real>)
    requires k <= |inbox| + 1 && 0 < k <= |clock|
  {
    && r.pc == (if RefRunning(P, inbox, clock, k) then RefLoop else RefDone)
    && (r.pc == RefLoop ==> r.sNow == clock[k - 1] && r.i == k - 1)
    && RefExtremes(P, inbox, clock, k, r.tdMin, r.tdMax)
    && RefSends(P, inbox, clock, k, sent)
  }

  lemma RefFirstTurns(P: Params, inbox: seq<real>, clock: seq<real>)
    requires 1 <= |inbox| && 2 <= |clock|
    ensures RefExplicit(P, inbox, clock, 2, RefPlay(P, inbox, clock, 2).0, RefPlay(P, inbox, clock, 2).1)
  {
    assert RefPlay(P, inbox, clock, 1) == (Ref(RefFirst, clock[0], 0.0, 0.0, 0.0, 0), [] + [clock[0]]);
    assert RefPingPong(P, inbox, clock, 1);
  }

  lemma {:induction false} RefOnReadings(P: Params, inbox: seq<real>, clock: seq<real>, k: nat)
    requires 2 <= k <= |inbox| + 1 && k <= |clock|
    ensures RefExplicit(P, inbox, clock, k, RefPlay(P, inbox, clock, k).0, RefPlay(P, inbox, clock, k).1)
  {
    if k == 2 {
      RefFirstTurns(P, inbox, clock);
    } else {
      RefOnReadings(P, inbox, clock, k - 1);
      var (r, sent) := RefPlay(P, inbox, clock, k - 1);
      RefLoopTurn(P, inbox, clock, k - 1, r, sent);
    }
  }

  /** One loop turn, given what the turns before amount to. */
  lemma RefLoopTurn(P: Params, inbox: seq<real>, clock: seq<real>, k: nat, r: Ref, sent: seq<real>)
    requires 2 <= k <= |inbox| && k < |clock| && RefExplicit(P, inbox, clock, k, r, sent)
    ensures var (r', out) := RefTurn(P, r, inbox[k - 1], clock[k]);
            RefExplicit(P, inbox, clock, k + 1, r', sent + out)
  {
    RefRunsOn(P, inbox, clock, k);
    if RefRunning(P, inbox, clock, k) && inbox[k - 1] >= 0.0 {
      RefAnsweredTurn(P, inbox, clock, k, r, sent);
    } else {
      assert !RefPingPong(P, inbox, clock, k);
      RefExtremesStay(P, inbox, clock, k, r.tdMin, r.tdMax);
      RefSendsNext(P, inbox, clock, k, sent, []);
    }
  }

  lemma RefAnsweredTurn(P: Params, inbox: seq<real>, clock: seq<real>, k: nat, r: Ref, sent: seq<real>)
    requires 2 <= k <= |inbox| && k < |clock| && RefExplicit(P, inbox, clock, k, r, sent)
    requires RefRunning(P, inbox, clock, k) && inbox[k - 1] >= 0.0
    ensures var (r', out) := RefTurn(P, r, inbox[k - 1], clock[k]);
            RefExplicit(P, inbox, clock, k + 1, r', sent + out)
  {
    RefRunsOn(P, inbox, clock, k);
    RefExtremesTighten(P, inbox, clock, k, r.tdMin, r.tdMax);
    RefSendsNext(P, inbox, clock, k, sent, RefTurn(P, r, inbox[k - 1], clock[k]).1);
  }

  // the same for the client: in turn j it receives inbox[j] and reads clock[j]

  predicate ClientStopsAt(P: Params, inbox: seq<real>, clock: seq<real>, j: nat)
    requires 2 <= j < |inbox| && j < |clock|
  {
    inbox[j] < 0.0 || (0.0 <= P.ppClient && P.minimum <= j - 1 && clock[j] - clock[j - 1] < 1.10 * P.ppClient)
  }

  ghost predicate ClientRunning(P: Params, inbox: seq<real>, clock: seq<real>, k: nat)
    requires k <= |inbox| && k <= |clock|
  {
    forall j: nat {:trigger ClientStopsAt(P, inbox, clock, j)} :: 2 <= j < k ==> !ClientStopsAt(P, inbox, clock, j)
  }

  /** Turn j completes a ping-pong of the client: sent at clock[j - 1], answered by inbox[j], back at clock[j]. */
  ghost predicate ClientPingPong(P: Params, inbox: seq<real>, clock: seq<real>, j: nat)
  {
    0 < j < |inbox| && j < |clock| && ClientRunning(P, inbox, clock, j) && (j == 1 || inbox[j] >= 0.0)
  }

  /** The client's first message arrives without a question: it bounds the difference on one side only. */
  ghost predicate ClientExtremes(P: Params, inbox: seq<real>, clock: seq<real>, k: nat, tdMin: real, tdMax: real)
  {
    && 0 < k <= |inbox| && k <= |clock|
    && inbox[0] - clock[0] <= tdMin
    && (forall j: nat {:trigger ClientPingPong(P, inbox, clock, j)} :: j < k && ClientPingPong(P, inbox, clock, j) ==>
          tdMax <= inbox[j] - clock[j - 1] && inbox[j] - clock[j] <= tdMin)
    && (exists j: nat :: j < k && ClientPingPong(P, inbox, clock, j) && tdMax == inbox[j] - clock[j - 1])
    && (tdMin == inbox[0] - clock[0] ||
        exists j: nat :: j < k && ClientPingPong(P, inbox, clock, j) && tdMin == inbox[j] - clock[j])
  }

  ghost predicate ClientSends(P: Params, inbox: seq<real>, clock: seq<real>, k: nat, sent: seq<real>)
    requires k <= |inbox| && k <= |clock|
  {
    && (ClientRunning(P, inbox, clock, k) ==> sent == clock[..k])
    && (forall j: nat {:trigger ClientStopsAt(P, inbox, clock, j)} ::
          2 <= j < k && ClientRunning(P, inbox, clock, j) && ClientStopsAt(P, inbox, clock, j) ==>
          sent == clock[..j] + (if inbox[j] < 0.0 then [] else [INVALID_TIME]))
  }

  lemma ClientExtremesStay(P: Params, inbox: seq<real>, clock: seq<real>, k: nat, a: real, b: real)
    requires 0 < k < |inbox| && k < |clock| && ClientExtremes(P, inbox, clock, k, a, b) && !ClientPingPong(P, inbox, clock, k)
    ensures ClientExtremes(P, inbox, clock, k + 1, a, b)
  {
  }

  lemma ClientExtremesTighten(P: Params, inbox: seq<real>, clock: seq<real>, k: nat, a: real, b: real)
    requires 0 < k < |inbox| && k < |clock| && ClientExtremes(P, inbox, clock, k, a, b) && ClientPingPong(P, inbox, clock, k)
    ensures ClientExtremes(P, inbox, clock, k + 1, Max(a, inbox[k] - clock[k]), Min(b, inbox[k] - clock[k - 1]))
  {
    var a', b' := Max(a, inbox[k] - clock[k]), Min(b, inbox[k] - clock[k - 1]);
    var x: nat :| x < k && ClientPingPong(P, inbox, clock, x) && b == inbox[x] - clock[x - 1];
    assert b' == inbox[k] - clock[k - 1] || b' == inbox[x] - clock[x - 1];
    if a' != inbox[k] - clock[k] && a != inbox[0] - clock[0] {
      var y: nat :| y < k && ClientPingPong(P, inbox, clock, y) && a == inbox[y] - clock[y];
      assert a' == inbox[y] - clock[y];
    }
  }

  lemma ClientRunsOn(P: Params, inbox: seq<real>, clock: seq<real>, k: nat)
    requires 2 <= k < |inbox| && k < |clock|
    ensures ClientRunning(P, inbox, clock, k + 1) <==> ClientRunning(P, inbox, clock, k) && !ClientStopsAt(P, inbox, clock, k)
  {
  }

  lemma ClientSendsNext(P: Params, inbox: seq<real>, clock: seq<real>, k: nat, sent: seq<real>, out: seq<real>)
    requires 2 <= k < |inbox| && k < |clock| && ClientSends(P, inbox, clock, k, sent)
    requires out == if !ClientRunning(P, inbox, clock, k) || inbox[k] < 0.0 then []
                    else if ClientStopsAt(P, inbox, clock, k) then [INVALID_TIME] else [clock[k]]
    ensures ClientSends(P, inbox, clock, k + 1, sent + out)
  {
    ClientRunsOn(P, inbox, clock, k);
    assert clock[..k + 1] == clock[..k] + [clock[k]];
    if !ClientRunning(P, inbox, clock, k) {
      assert sent + out == sent;
    }
  }

  /** The client on its readings. */
  ghost predicate ClientExplicit(P: Params, inbox: seq<real>, clock: seq<real>, k: nat, c: Client, sent: seq<real>)
    requires 0 < k <= |inbox| && k <= |clock|
  {
    && c.pc == (if ClientRunning(P, inbox, clock, k) then ClientLoop else ClientDone)
    && (c.pc == ClientLoop ==> c.tNow == clock[k - 1] && c.i == k - 1)
    && ClientExtremes(P, inbox, clock, k, c.tdMin, c.tdMax)
    && ClientSends(P, inbox, clock, k, sent)
  }

  lemma ClientFirstTurns(P: Params, inbox: seq<real>, clock: seq<real>)
    requires 2 <= |inbox| && 2 <= |clock|
    ensures ClientExplicit(P, inbox, clock, 2, ClientPlay(P, inbox, clock, 2).0, ClientPlay(P, inbox, clock, 2).1)
  {
    assert ClientPlay(P, inbox, clock, 1) == (Client(ClientFirst, inbox[0], clock[0], 0.0, 0.0, 0.0, 0), [] + [clock[0]]);
    assert ClientPingPong(P, inbox, clock, 1);
  }

  lemma {:induction false} ClientOnReadings(P: Params, inbox: seq<real>, clock: seq<real>, k: nat)
    requires 2 <= k <= |inbox| && k <= |clock|
    ensures ClientExplicit(P, inbox, clock, k, ClientPlay(P, inbox, clock, k).0, ClientPlay(P, inbox, clock, k).1)
  {
    if k == 2 {
      ClientFirstTurns(P, inbox, clock);
    } else {
      ClientOnReadings(P, inbox, clock, k - 1);
      var (c, sent) := ClientPlay(P, inbox, clock, k - 1);
      ClientLoopTurn(P, inbox, clock, k - 1, c, sent);
    }
  }

  lemma ClientLoopTurn(P: Params, inbox: seq<real>, clock: seq<real>, k: nat, c: Client, sent: seq<real>)
    requires 2 <= k < |inbox| && k < |clock| && ClientExplicit(P, inbox, clock, k, c, sent)
    ensures var (c', out) := ClientTurn(P, c, inbox[k], clock[k]);
            ClientExplicit(P, inbox, clock, k + 1, c', sent + out)
  {
    ClientRunsOn(P, inbox, clock, k);
    if ClientRunning(P, inbox, clock, k) && inbox[k] >= 0.0 {
      ClientAnsweredTurn(P, inbox, clock, k, c, sent);
    } else {
      assert !ClientPingPong(P, inbox, clock, k);
      ClientExtremesStay(P, inbox, clock, k, c.tdMin, c.tdMax);
      ClientSendsNext(P, inbox, clock, k, sent, []);
    }
  }

  lemma ClientAnsweredTurn(P: Params, inbox: seq<real>, clock: seq<real>, k: nat, c: Client, sent: seq<real>)
    requires 2 <= k < |inbox| && k < |clock| && ClientExplicit(P, inbox, clock, k, c, sent)
    requires ClientRunning(P, inbox, clock, k) && inbox[k] >= 0.0
    ensures var (c', out) := ClientTurn(P, c, inbox[k], clock[k]);
            ClientExplicit(P, inbox, clock, k + 1, c', sent + out)
  {
    ClientRunsOn(P, inbox, clock, k);
    ClientExtremesTighten(P, inbox, clock, k, c.tdMin, c.tdMax);
    ClientSendsNext(P, inbox, clock, k, sent, ClientTurn(P, c, inbox[k], clock[k]).1);
  }

  // ----- the error bound -----

  /** Whatever the delays, from the first ping-pong on both brackets contain the true difference, and they are the
      tightest of all ping-pongs that the side has completed so far. */
  lemma BracketsHold(P: Params, start: real, run: seq<State>)
    requires Run(P, start, run)
    ensures var h, r := HistoryOf(P, run), run[|run| - 1].ref;
      r.pc == RefLoop || r.pc == RefDone ==>
      r.tdMin <= P.diff <= r.tdMax && RefExtremes(P, h.refInbox, h.refClock, |h.refClock|, r.tdMin, r.tdMax)
    ensures var h, c := HistoryOf(P, run), run[|run| - 1].client;
      c.pc == ClientLoop || c.pc == ClientDone ==>
      c.tdMin <= -P.diff <= c.tdMax && ClientExtremes(P, h.clientInbox, h.clientClock, |h.clientClock|, c.tdMin, c.tdMax)
  {
    BracketsContain(P, start, run);
    RunIsTwoPrograms(P, start, run);
    var h, s := HistoryOf(P, run), run[|run| - 1];
    if s.ref.pc == RefLoop || s.ref.pc == RefDone {
      if |h.refClock| < 2 { RefPlayStart(P, h.refInbox, h.refClock); }
      RefOnReadings(P, h.refInbox, h.refClock, |h.refClock|);
    }
    if s.client.pc == ClientLoop || s.client.pc == ClientDone {
      if |h.clientClock| < 2 { ClientPlayStart(P, h.clientInbox, h.clientClock); }
      ClientOnReadings(P, h.clientInbox, h.clientClock, |h.clientClock|);
    }
  }

  /** Before its second turn a side is not in its loop. */
  lemma RefPlayStart(P: Params, inbox: seq<real>, clock: seq<real>)
    requires |clock| <= |inbox| + 1 && |clock| < 2
    ensures var r := RefPlay(P, inbox, clock, |clock|).0; r.pc != RefLoop && r.pc != RefDone
  {
  }

  lemma ClientPlayStart(P: Params, inbox: seq<real>, clock: seq<real>)
    requires |inbox| == |clock| < 2
    ensures var c := ClientPlay(P, inbox, clock, |inbox|).0; c.pc != ClientLoop && c.pc != ClientDone
  {
  }

  /** The offsets the two sides report, client minus reference in both cases. */
  function RefOffset(r: Ref): real { (r.tdMin + r.tdMax) / 2.0 }

  function ClientOffset(c: Client): real { -(c.tdMin + c.tdMax) / 2.0 }

  function Abs(x: real): real { if x < 0.0 then -x else x }

  /** In every run each side's estimate is off by at most half its bracket, which is no wider than any of the round
      trips between its own readings. */
  lemma OffsetErrorBound(P: Params, start: real, run: seq<State>, j: nat)
    requires Run(P, start, run)
    ensures var h, r := HistoryOf(P, run), run[|run| - 1].ref;
      r.pc == RefDone && RefPingPong(P, h.refInbox, h.refClock, j) ==>
      Abs(RefOffset(r) - P.diff) <= (r.tdMax - r.tdMin) / 2.0 <= (h.refClock[j] - h.refClock[j - 1]) / 2.0
    ensures var h, c := HistoryOf(P, run), run[|run| - 1].client;
      c.pc == ClientDone && ClientPingPong(P, h.clientInbox, h.clientClock, j) ==>
      Abs(ClientOffset(c) - P.diff) <= (c.tdMax - c.tdMin) / 2.0 <= (h.clientClock[j] - h.clientClock[j - 1]) / 2.0
  {
    BracketsHold(P, start, run);
  }

  /** measure_offset on the reference, for the messages that reach it: its variables when it returns (or
      waits for a message that does not come) and everything it sent. */
  method MeasureOffsetReference(P: Params, inbox: seq<real>, clock: seq<real>) returns (r: Ref, outbox: seq<real>)
    requires |inbox| + 1 <= |clock|
    ensures (r, outbox) == RefPlay(P, inbox, clock, |inbox| + 1)
  {
    var s_last, s_now, td_min, td_max, i := clock[0], 0.0, 0.0, 0.0, 0;
    outbox := [s_last];
    assert [] + outbox == outbox;
    assert RefPlay(P, inbox, clock, 1) == (Ref(RefFirst, s_last, 0.0, 0.0, 0.0, 0), outbox);
    if inbox == [] {
      return Ref(RefFirst, s_last, s_now, td_min, td_max, i), outbox;
    }
    var t_last := inbox[0];
    s_now := clock[1];
    outbox := outbox + [s_now];
    td_min := t_last - s_now;
    td_max := t_last - s_last;
    i := 1;
    var pc := RefLoop;
    var k := 1;
    while k < |inbox| && pc == RefLoop
      invariant 1 <= k <= |inbox| && (pc == RefLoop || pc == RefDone)
      invariant (Ref(pc, s_last, s_now, td_min, td_max, i), outbox) == RefPlay(P, inbox, clock, k + 1)
    {
      t_last := inbox[k];
      k := k + 1;
      if t_last < 0.0 {
        pc := RefDone;
        assert outbox + [] == outbox;
      } else {
        s_last := s_now;
        s_now := clock[k];
        td_min := Max(td_min, t_last - s_now);
        td_max := Min(td_max, t_last - s_last);
        if EnoughPingPongs(P, P.ppRef, i, s_now - s_last) {
          outbox := outbox + [INVALID_TIME];
          pc := RefDone;
        } else {
          i := i + 1;
          if i >= P.number {
            outbox := outbox + [INVALID_TIME];
            pc := RefDone;
          } else {
            outbox := outbox + [s_now];
          }
        }
      }
    }
    r := Ref(pc, s_last, s_now, td_min, td_max, i);
    if pc == RefDone { RefPlayDone(P, inbox, clock, k + 1, |inbox| + 1); }
  }

  lemma {:induction false} RefPlayDone(P: Params, inbox: seq<real>, clock: seq<real>, k: nat, n: nat)
    requires k <= n <= |inbox| + 1 && n <= |clock| && RefPlay(P, inbox, clock, k).0.pc == RefDone
    ensures RefPlay(P, inbox, clock, n) == RefPlay(P, inbox, clock, k)
    decreases n - k
  {
    if k < n {
      RefPlayDone(P, inbox, clock, k, n - 1);
      assert RefPlay(P, inbox, clock, n - 1).1 + [] == RefPlay(P, inbox, clock, n - 1).1;
    }
  }

  /** measure_offset on the client. */
  method MeasureOffsetClient(P: Params, inbox: seq<real>, clock: seq<real>) returns (c: Client, outbox: seq<real>)
    requires |inbox| <= |clock|
    ensures (c, outbox) == ClientPlay(P, inbox, clock, |inbox|)
  {
    if inbox == [] {
      return ClientAtStart, [];
    }
    var s_last := inbox[0];
    var t_last := clock[0];
    outbox := [t_last];
    assert [] + outbox == outbox;
    assert ClientPlay(P, inbox, clock, 1) == (Client(ClientFirst, s_last, t_last, 0.0, 0.0, 0.0, 0), outbox);
    if |inbox| == 1 {
      return Client(ClientFirst, s_last, t_last, 0.0, 0.0, 0.0, 0), outbox;
    }
    var s_now := inbox[1];
    var t_now := clock[1];
    var td_min := s_last - t_last;
    td_min := Max(td_min, s_now - t_now);
    var td_max := s_now - t_last;
    var i, pc := 1, ClientLoop;
    outbox := outbox + [t_now];
    var k := 2;
    while k < |inbox| && pc == ClientLoop
      invariant 2 <= k <= |inbox| && (pc == ClientLoop || pc == ClientDone)
      invariant (Client(pc, s_last, t_last, t_now, td_min, td_max, i), outbox) == ClientPlay(P, inbox, clock, k)
    {
      s_last := inbox[k];
      t_last := t_now;
      t_now := clock[k];
      k := k + 1;
      if s_last < 0.0 {
        pc := ClientDone;
        assert outbox + [] == outbox;
      } else {
        td_min := Max(td_min, s_last - t_now);
        td_max := Min(td_max, s_last - t_last);
        if EnoughPingPongs(P, P.ppClient, i, t_now - t_last) {
          outbox := outbox + [INVALID_TIME];
          pc := ClientDone;
        } else {
          i := i + 1;
          outbox := outbox + [t_now];
        }
      }
    }
    c := Client(pc, s_last, t_last, t_now, td_min, td_max, i);
    if pc == ClientDone { ClientPlayDone(P, inbox, clock, k, |inbox|); }
  }

  lemma {:induction false} ClientPlayDone(P: Params, inbox: seq<real>, clock: seq<real>, k: nat, n: nat)
    requires k <= n <= |inbox| <= |clock| && ClientPlay(P, inbox, clock, k).0.pc == ClientDone
    ensures ClientPlay(P, inbox, clock, n) == ClientPlay(P, inbox, clock, k)
    decreases n - k
  {
    if k < n {
      ClientPlayDone(P, inbox, clock, k, n - 1);
      assert ClientPlay(P, inbox, clock, n - 1).1 + [] == ClientPlay(P, inbox, clock, n - 1).1;
    }
  }
}
