/** Clock propagation (ClockPropagationSync.cpp): rank 0 flattens its nested global clock into a byte
    buffer, the other ranks rebuild it over their own base clock. */
module ClockPropagation {
  import opened Options
  import opened ClockModels

  /** One byte of memory: untouched, or byte k of a stored int or double. */
  datatype Cell = Junk | IntByte(v: int, k: nat) | DoubleByte(x: real, k: nat)

  const INT_SIZE := 4
  const DOUBLE_SIZE := 8

  function IntCells(v: int): (c: seq<Cell>)
    ensures |c| == INT_SIZE
  {
    [IntByte(v, 0), IntByte(v, 1), IntByte(v, 2), IntByte(v, 3)]
  }

  function DoubleCells(x: real): (c: seq<Cell>)
    ensures |c| == DOUBLE_SIZE
  {
    [DoubleByte(x, 0), DoubleByte(x, 1), DoubleByte(x, 2), DoubleByte(x, 3),
     DoubleByte(x, 4), DoubleByte(x, 5), DoubleByte(x, 6), DoubleByte(x, 7)]
  }

  /** The int stored at an offset; None if the bytes there are not those of one int. */
  function ReadInt(cells: seq<Cell>, at: nat): Option<int>
  {
    if at + INT_SIZE <= |cells| && cells[at].IntByte? &&
       forall k :: 0 <= k < INT_SIZE ==> cells[at + k] == IntByte(cells[at].v, k)
    then Some(cells[at].v) else None
  }

  function ReadDouble(cells: seq<Cell>, at: nat): Option<real>
  {
    if at + DOUBLE_SIZE <= |cells| && cells[at].DoubleByte? &&
       forall k :: 0 <= k < DOUBLE_SIZE ==> cells[at + k] == DoubleByte(cells[at].x, k)
    then Some(cells[at].x) else None
  }

  // ----- sizes -----

  function NestedLevel(c: Clock): nat
  {
    if c.Base? then 0 else 1 + NestedLevel(c.local)
  }

  /** get_flattened_this_clock_size_in_bytes */
  function ThisSize(c: Clock): nat
    requires !c.Base?
  {
    if c.LM? then INT_SIZE + 2 * DOUBLE_SIZE else INT_SIZE + DOUBLE_SIZE
  }

  /** get_flattened_clock_size_in_bytes, as coded: this clock and the one it is built on, no further. */
  function FlattenedSize(c: Clock): nat
    requires !c.Base?
  {
    ThisSize(c) + if c.local.Base? then 0 else ThisSize(c.local)
  }

  /** The records of the whole chain. */
  function SummedSize(c: Clock): nat
  {
    if c.Base? then 0 else ThisSize(c) + SummedSize(c.local)
  }

  /** How far flatten_clock moves below its end pointer: an offset clock steps over the size of the clock
      it is built on as well. */
  function Reach(c: Clock): nat
  {
    match c
    case Base => 0
    case LM(l, _, _) => ThisSize(c) + Reach(l)
    case Offset(l, _) => FlattenedSize(c) + Reach(l)
  }

  /** Offset clocks occur directly over the base clock only. */
  predicate OffsetsAtBase(c: Clock)
  {
    match c
    case Base => true
    case LM(l, _, _) => OffsetsAtBase(l)
    case Offset(l, _) => l.Base?
  }

  lemma {:induction false} ReachIsSummedSize(c: Clock)
    ensures OffsetsAtBase(c) ==> Reach(c) == SummedSize(c)
    ensures !OffsetsAtBase(c) ==> Reach(c) >= SummedSize(c) + INT_SIZE + DOUBLE_SIZE
  {
    if !c.Base? { ReachIsSummedSize(c.local); }
  }

  /** The code's size function is exact up to two levels, and too small by a record or more beyond. */
  lemma FlattenedSizeUpToTwoLevels(c: Clock)
    requires !c.Base?
    ensures NestedLevel(c) <= 2 ==> FlattenedSize(c) == SummedSize(c)
    ensures NestedLevel(c) > 2 ==> FlattenedSize(c) + INT_SIZE + DOUBLE_SIZE <= SummedSize(c)
  {
    if !c.local.Base? {
      var inner := c.local.local;
      assert NestedLevel(c) == 2 + NestedLevel(inner) && SummedSize(c) == FlattenedSize(c) + SummedSize(inner);
      assert inner.Base? <==> NestedLevel(inner) == 0;
    }
  }

  // ----- encoding -----

  function Record(c: Clock): (r: seq<Cell>)
    requires !c.Base?
    ensures |r| == ThisSize(c)
  {
    match c
    case Offset(_, o) => IntCells(0) + DoubleCells(o)
    case LM(_, s, i) => IntCells(1) + DoubleCells(s) + DoubleCells(i)
  }

  /** The cells with r stored at an offset. */
  function Put(cells: seq<Cell>, at: nat, r: seq<Cell>): (s: seq<Cell>)
    requires at + |r| <= |cells|
    ensures |s| == |cells|
  {
    cells[..at] + r + cells[at + |r|..]
  }

  /** The records of a chain, innermost clock first. */
  function Records(c: Clock): (r: seq<Cell>)
    ensures |r| == SummedSize(c)
  {
    if c.Base? then [] else Records(c.local) + Record(c)
  }

  /** Stores cells at an offset; a store outside the buffer is reported and not made. */
  method Store(buf: array<Cell>, at: int, cells: seq<Cell>) returns (ok: bool)
    modifies buf
    ensures ok <==> 0 <= at && at + |cells| <= buf.Length
    ensures buf[..] == if ok then Put(old(buf[..]), at, cells) else old(buf[..])
  {
    ok := 0 <= at && at + |cells| <= buf.Length;
    if ok {
      forall k | at <= k < at + |cells| { buf[k] := cells[k - at]; }
    }
  }

  /** The records of the chain lie right below an offset, and nothing else has changed. */
  ghost predicate Flattened(before: seq<Cell>, after: seq<Cell>, c: Clock, end: int)
  {
    0 <= end - SummedSize(c) && end <= |before| && after == Put(before, end - SummedSize(c), Records(c))
  }

  /** The record of the outer clock, and the inner clocks below it. */
  lemma FlattenedNested(before: seq<Cell>, mid: seq<Cell>, after: seq<Cell>, c: Clock, end: int)
    requires !c.Base? && 0 <= end - ThisSize(c) && end <= |before| && mid == Put(before, end - ThisSize(c), Record(c))
    requires Flattened(mid, after, c.local, end - ThisSize(c))
    ensures Flattened(before, after, c, end)
  {
    Splice(before, end - ThisSize(c), Record(c), end - SummedSize(c), Records(c.local));
  }

  /** flatten_clock of both clock kinds: the record goes below the end pointer, the inner clocks below it.
      ok is false once a store falls outside the buffer. */
  method FlattenClock(c: Clock, buf: array<Cell>, end_pointer: int) returns (ok: bool)
    requires !c.Base? && end_pointer <= buf.Length
    modifies buf
    ensures ok <==> Reach(c) <= end_pointer
    ensures ok && OffsetsAtBase(c) ==> Flattened(old(buf[..]), buf[..], c, end_pointer)
    decreases c
  {
    ReachIsSummedSize(c);
    ghost var before := buf[..];
    var end := end_pointer - (if c.LM? then ThisSize(c) else FlattenedSize(c));
    ok := Store(buf, end, Record(c));
    if !ok {
      return;
    }
    ghost var mid := buf[..];
    if c.local.Base? {
      FlattenedNested(before, mid, mid, c, end_pointer);
      return;
    }
    ok := FlattenClock(c.local, buf, end);
    if ok && OffsetsAtBase(c) {
      FlattenedNested(before, mid, buf[..], c, end_pointer);
    }
  }

  /** Writing b below a that was written before. */
  lemma Splice(cells: seq<Cell>, at: nat, a: seq<Cell>, below: nat, b: seq<Cell>)
    requires below + |b| == at && at + |a| <= |cells|
    ensures Put(Put(cells, at, a), below, b) == Put(cells, below, b + a)
  {
  }

  /** What rank 0 puts into a buffer of the given size: the number of clocks, then the records. */
  method Encode(c: Clock, bytes_needed: nat) returns (buf: array<Cell>, ok: bool)
    requires !c.Base? && INT_SIZE <= bytes_needed
    ensures fresh(buf) && buf.Length == bytes_needed
    ensures ok <==> Reach(c) <= bytes_needed
    ensures ok && OffsetsAtBase(c) && bytes_needed == INT_SIZE + SummedSize(c) ==>
      buf[..] == IntCells(NestedLevel(c)) + Records(c)
  {
    buf := new Cell[bytes_needed](_ => Junk);
    assert buf[..] == seq(bytes_needed, _ => Junk);
    ok := FlattenClock(c, buf, bytes_needed);
    if !ok { return; }
    ghost var flat := buf[..];
    var stored := Store(buf, 0, IntCells(NestedLevel(c)));
    if OffsetsAtBase(c) && bytes_needed == INT_SIZE + SummedSize(c) {
      PutHeader(seq(bytes_needed, _ => Junk), IntCells(NestedLevel(c)), Records(c));
    }
  }

  lemma PutHeader(cells: seq<Cell>, head: seq<Cell>, r: seq<Cell>)
    requires |cells| == |head| + |r|
    ensures Put(Put(cells, |head|, r), 0, head) == head + r
  {
  }

  // ----- decoding -----

  /** Where the decoding loop stands: the next offset, and the clock built so far. */
  datatype Progress = Progress(at: nat, clock: Clock)

  /** One turn of the decoding loop; None if the bytes are not readable as such. */
  function DecodeOne(cells: seq<Cell>, p: Progress): Option<Progress>
  {
    match ReadInt(cells, p.at)
    case None => None
    case Some(0) =>
      var o := ReadDouble(cells, p.at + INT_SIZE);
      if o.None? then None else Some(Progress(p.at + INT_SIZE + DOUBLE_SIZE, Offset(p.clock, o.value)))
    case Some(1) =>
      var s := ReadDouble(cells, p.at + INT_SIZE);
      var i := ReadDouble(cells, p.at + INT_SIZE + DOUBLE_SIZE);
      if s.None? || i.None? then None
      else Some(Progress(p.at + INT_SIZE + 2 * DOUBLE_SIZE, LM(p.clock, s.value, i.value)))
    case Some(_) => Some(Progress(p.at + INT_SIZE, p.clock))
  }

  /** The loop after n turns. */
  function DecodeMany(cells: seq<Cell>, n: nat): Option<Progress>
  {
    if n == 0 then Some(Progress(INT_SIZE, Base))
    else
      var p := DecodeMany(cells, n - 1);
      if p.None? then None else DecodeOne(cells, p.value)
  }

  lemma {:induction false} UnreadableStays(cells: seq<Cell>, i: nat, n: nat)
    requires i <= n && DecodeMany(cells, i).None?
    ensures DecodeMany(cells, n).None?
  {
    if i < n { UnreadableStays(cells, i, n - 1); }
  }

  /** What a receiver makes of a buffer. */
  function Decoded(buf: seq<Cell>): Option<Clock>
  {
    var count := ReadInt(buf, 0);
    if count.None? || count.value <= 0 then None
    else
      var p := DecodeMany(buf, count.value);
      if p.None? then None else Some(p.value.clock)
  }

  /** The decoding loop of the other ranks. */
  method Decode(buf: seq<Cell>) returns (r: Option<Clock>)
    ensures r == Decoded(buf)
  {
    var count := ReadInt(buf, 0);
    if count.None? || count.value <= 0 { return None; }
    var nb_types: nat := count.value;
    var current_offset: nat := INT_SIZE;
    var last_clock := Base;
    for i := 0 to nb_types
      invariant DecodeMany(buf, i) == Some(Progress(current_offset, last_clock))
    {
      var p := Progress(current_offset, last_clock);
      assert DecodeMany(buf, i + 1) == DecodeOne(buf, p);
      if DecodeOne(buf, p).None? { UnreadableStays(buf, i + 1, nb_types); }
      var type_id := ReadInt(buf, current_offset);
      if type_id.None? { return None; }
      current_offset := current_offset + INT_SIZE;
      if type_id.value == 0 {
        var clock_offset := ReadDouble(buf, current_offset);
        if clock_offset.None? { return None; }
        last_clock := Offset(last_clock, clock_offset.value);
        current_offset := current_offset + DOUBLE_SIZE;
      } else if type_id.value == 1 {
        var clock_slope := ReadDouble(buf, current_offset);
        var clock_offset := ReadDouble(buf, current_offset + DOUBLE_SIZE);
        if clock_slope.None? || clock_offset.None? { return None; }
        last_clock := LM(last_clock, clock_slope.value, clock_offset.value);
        current_offset := current_offset + 2 * DOUBLE_SIZE;
      }
    }
    r := Some(last_clock);
  }

  /** The cells r are stored at an offset. */
  ghost predicate StoredAt(cells: seq<Cell>, at: nat, r: seq<Cell>)
  {
    at + |r| <= |cells| && cells[at..at + |r|] == r
  }

  lemma StoredParts(cells: seq<Cell>, at: nat, a: seq<Cell>, b: seq<Cell>)
    requires StoredAt(cells, at, a + b)
    ensures StoredAt(cells, at, a) && StoredAt(cells, at + |a|, b)
  {
    assert cells[at..at + |a|] == cells[at..at + |a + b|][..|a|];
    assert cells[at + |a|..at + |a| + |b|] == cells[at..at + |a + b|][|a|..];
  }

  lemma ReadBackInt(cells: seq<Cell>, at: nat, v: int)
    requires StoredAt(cells, at, IntCells(v))
    ensures ReadInt(cells, at) == Some(v)
  {
    var r := cells[at..at + INT_SIZE];
    assert forall k :: 0 <= k < INT_SIZE ==> cells[at + k] == r[k];
  }

  lemma ReadBackDouble(cells: seq<Cell>, at: nat, x: real)
    requires StoredAt(cells, at, DoubleCells(x))
    ensures ReadDouble(cells, at) == Some(x)
  {
    var r := cells[at..at + DOUBLE_SIZE];
    assert forall k :: 0 <= k < DOUBLE_SIZE ==> cells[at + k] == r[k];
  }

  /** One record is read back as the clock it was written for. */
  lemma DecodeRecord(cells: seq<Cell>, at: nat, c: Clock)
    requires !c.Base? && StoredAt(cells, at, Record(c))
    ensures DecodeOne(cells, Progress(at, c.local)) == Some(Progress(at + ThisSize(c), c))
  {
    match c
    case Offset(_, o) =>
      StoredParts(cells, at, IntCells(0), DoubleCells(o));
      ReadBackInt(cells, at, 0);
      ReadBackDouble(cells, at + INT_SIZE, o);
    case LM(_, s, i) =>
      StoredParts(cells, at, IntCells(1) + DoubleCells(s), DoubleCells(i));
      StoredParts(cells, at, IntCells(1), DoubleCells(s));
      ReadBackInt(cells, at, 1);
      ReadBackDouble(cells, at + INT_SIZE, s);
      ReadBackDouble(cells, at + INT_SIZE + DOUBLE_SIZE, i);
  }

  lemma StoredOneByOne(cells: seq<Cell>, c: Clock)
    requires !c.Base? && StoredAt(cells, INT_SIZE, Records(c))
    ensures StoredAt(cells, INT_SIZE, Records(c.local))
    ensures StoredAt(cells, INT_SIZE + SummedSize(c.local), Record(c))
  {
    StoredParts(cells, INT_SIZE, Records(c.local), Record(c));
  }

  /** Decoding inverts flattening, for chains of any depth. */
  lemma {:induction false} DecodeRecords(cells: seq<Cell>, c: Clock)
    requires StoredAt(cells, INT_SIZE, Records(c))
    ensures DecodeMany(cells, NestedLevel(c)) == Some(Progress(INT_SIZE + SummedSize(c), c))
    decreases c
  {
    if !c.Base? {
      StoredOneByOne(cells, c);
      DecodeRecords(cells, c.local);
      DecodeNext(cells, NestedLevel(c.local), INT_SIZE + SummedSize(c.local), c);
    }
  }

  lemma DecodeNext(cells: seq<Cell>, n: nat, at: nat, c: Clock)
    requires !c.Base? && StoredAt(cells, at, Record(c))
    requires DecodeMany(cells, n) == Some(Progress(at, c.local))
    ensures DecodeMany(cells, n + 1) == Some(Progress(at + ThisSize(c), c))
  {
    DecodeRecord(cells, at, c);
  }

  lemma RoundTrip(c: Clock)
    requires !c.Base?
    ensures Decoded(IntCells(NestedLevel(c)) + Records(c)) == Some(c)
  {
    var cells := IntCells(NestedLevel(c)) + Records(c);
    assert StoredAt(cells, 0, cells);
    StoredParts(cells, 0, IntCells(NestedLevel(c)), Records(c));
    ReadBackInt(cells, 0, NestedLevel(c));
    DecodeRecords(cells, c);
  }

  // ----- main results -----

  /** What comes of a propagation: every other rank has the clock, or rank 0 wrote outside its buffer, or the
      receivers found bytes they cannot read. */
  datatype Outcome = Rebuilt(clock: Clock) | OutsideBuffer | Unreadable

  /** Encoding into a buffer of the given size and decoding it. */
  method Propagate(c: Clock, bytes_needed: nat) returns (r: Outcome)
    requires !c.Base? && INT_SIZE <= bytes_needed
    ensures r == OutsideBuffer <==> Reach(c) > bytes_needed
    ensures OffsetsAtBase(c) && bytes_needed == INT_SIZE + SummedSize(c) ==> r == Rebuilt(c)
  {
    ReachIsSummedSize(c);
    RoundTrip(c);
    var buf, ok := Encode(c, bytes_needed);
    if ok {
      var decoded := Decode(buf[..]);
      r := if decoded.Some? then Rebuilt(decoded.value) else Unreadable;
    } else {
      r := OutsideBuffer;
    }
  }

  /** With a buffer of the summed record sizes a chain of any depth is rebuilt exactly, provided offset
      clocks sit directly on the base clock; otherwise rank 0 writes outside its buffer. */
  method PropagateWithSummedSize(c: Clock) returns (r: Outcome)
    requires !c.Base?
    ensures r == if OffsetsAtBase(c) then Rebuilt(c) else OutsideBuffer
  {
    ReachIsSummedSize(c);
    r := Propagate(c, INT_SIZE + SummedSize(c));
  }

  /** The code as it is, with the size it computes: the clock is rebuilt exactly for at most two levels with
      any offset clock directly on the base clock; in all other cases rank 0 writes outside its buffer. */
  method SynchronizeAllClocks(c: Clock) returns (r: Outcome)
    requires !c.Base?
    ensures r == if NestedLevel(c) <= 2 && OffsetsAtBase(c) then Rebuilt(c) else OutsideBuffer
  {
    ReachIsSummedSize(c);
    FlattenedSizeUpToTwoLevels(c);
    var bytes_needed := FlattenedSize(c);
    bytes_needed := bytes_needed + INT_SIZE;
    r := Propagate(c, bytes_needed);
  }
}
