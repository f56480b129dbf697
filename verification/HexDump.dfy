/** The memory dump of zf_log.c: rows of hexadecimal and printable columns, put together behind the context,
    tag and source parts of the line buffer. */
module HexDump {
  import opened Options
  import opened LogLine

  newtype Byte = x: int | 0 <= x < 256

  /** isprint, which depends on the locale. */
  type Printable = Byte -> bool

  // ----- what a dump looks like -----

  function HexChar(d: nat): char
    requires d < 16
  {
    "0123456789abcdef"[d]
  }

  function Hex(d: seq<Byte>): (s: string)
    ensures |s| == 2 * |d|
  {
    if d == [] then ""
    else
      var last := d[|d| - 1] as nat;
      Hex(d[..|d| - 1]) + [HexChar(last / 16), HexChar(last % 16)]
  }

  function AsciiChar(pr: Printable, b: Byte): char
  {
    if pr(b) then b as char else '?'
  }

  function Ascii(pr: Printable, d: seq<Byte>): (s: string)
    ensures |s| == |d|
  {
    seq(|d|, i requires 0 <= i < |d| => AsciiChar(pr, d[i]))
  }

  /** The columns of up to w bytes: hexadecimal, blanks up to the fixed column 2 * w + 2, printable. */
  function Row(pr: Printable, d: seq<Byte>, w: nat): (s: string)
    requires |d| <= w
    ensures |s| == 2 * w + 2 + |d|
  {
    Hex(d) + Repeat(' ', 2 * w + 2 - 2 * |d|) + Ascii(pr, d)
  }

  /** A line of the dump. */
  function Line(pr: Printable, prefix: string, d: seq<Byte>, w: nat): (s: string)
    requires |d| <= w
  {
    prefix + Row(pr, d, w)
  }

  /** Where a turn of the loop leads: it takes up to w bytes. */
  function Cut(len: nat, w: nat, p: nat): (q: nat)
    requires p <= len
    ensures p <= q <= len && q - p <= w
  {
    if w < len - p then p + w else len
  }

  /** Where the loop is after so many turns. */
  function Position(len: nat, w: nat, turns: nat): (p: nat)
    ensures p <= len
  {
    if turns == 0 then 0 else Cut(len, w, Position(len, w, turns - 1))
  }

  /** How a turn that takes the bytes from a to b looks. */
  type Drawing = (nat, nat) -> string

  function LineOf(pr: Printable, prefix: string, d: seq<Byte>, w: nat): Drawing
  {
    (a: nat, b: nat) => if a <= b <= |d| && b - a <= w then Line(pr, prefix, d[a..b], w) else ""
  }

  /** The lines of the first turns. */
  function Lines(draw: Drawing, len: nat, w: nat, turns: nat): seq<string>
  {
    if turns == 0 then []
    else
      var p := Position(len, w, turns - 1);
      if p == len then Lines(draw, len, w, turns - 1) else Lines(draw, len, w, turns - 1) + [draw(p, Cut(len, w, p))]
  }

  function DumpLines(pr: Printable, prefix: string, d: seq<Byte>, w: nat, turns: nat): seq<string>
  {
    Lines(LineOf(pr, prefix, d, w), |d|, w, turns)
  }

  /** The dump is over after so many turns: there was no room for a full row, or no byte is left. */
  predicate DumpEnded(len: nat, w: nat, msg_b: nat, e: nat, turns: nat)
  {
    e < msg_b + 3 * w + 2 || Position(len, w, turns) == len
  }

  // ----- reading a dump -----

  function HexValue(c: char): int
  {
    if '0' <= c <= '9' then c as int - '0' as int else c as int - 'a' as int + 10
  }

  /** Reads n bytes from 2 * n hexadecimal digits. */
  function ReadHex(s: string): seq<int>
  {
    if |s| < 2 then [] else [16 * HexValue(s[0]) + HexValue(s[1])] + ReadHex(s[2..])
  }

  /** The bytes of one line: its length tells how many there are. */
  function ReadRow(line: string, prefix: nat, w: nat): seq<int>
  {
    var n := |line| - prefix - (2 * w + 2);
    if n < 0 || prefix + 2 * n > |line| then [] else ReadHex(line[prefix..prefix + 2 * n])
  }

  function ReadDump(lines: seq<string>, prefix: nat, w: nat): seq<int>
  {
    if lines == [] then []
    else ReadDump(lines[..|lines| - 1], prefix, w) + ReadRow(lines[|lines| - 1], prefix, w)
  }

  function Ints(d: seq<Byte>): (r: seq<int>)
    ensures |r| == |d|
  {
    seq(|d|, i requires 0 <= i < |d| => d[i] as int)
  }

  // ----- main results -----

  lemma {:induction false} ReadHexSnoc(s: string, a: char, b: char)
    requires |s| % 2 == 0
    ensures ReadHex(s + [a, b]) == ReadHex(s) + [16 * HexValue(a) + HexValue(b)]
    decreases |s|
  {
    if |s| >= 2 {
      assert (s + [a, b])[2..] == s[2..] + [a, b];
      ReadHexSnoc(s[2..], a, b);
    } else {
      assert s + [a, b] == [a, b];
      assert ReadHex([a, b][2..]) == [];
    }
  }

  lemma HexCharTells(v: nat)
    requires v < 256
    ensures 16 * HexValue(HexChar(v / 16)) + HexValue(HexChar(v % 16)) == v
  {
    HexDigit(v / 16);
    HexDigit(v % 16);
  }

  lemma HexDigit(d: nat)
    requires d < 16
    ensures HexValue(HexChar(d)) == d
  {
    assert "0123456789abcdef" == ['0', '1', '2', '3', '4', '5', '6', '7', '8', '9', 'a', 'b', 'c', 'd', 'e', 'f'];
  }

  /** The hexadecimal column tells the bytes. */
  lemma {:induction false} HexTellsBytes(d: seq<Byte>)
    ensures ReadHex(Hex(d)) == Ints(d)
  {
    if d != [] {
      var init, last := d[..|d| - 1], d[|d| - 1] as nat;
      HexTellsBytes(init);
      HexCharTells(last);
      assert Ints(d) == Ints(init) + [last];
      ReadHexSnoc(Hex(init), HexChar(last / 16), HexChar(last % 16));
    }
  }

  lemma RowTellsBytes(pr: Printable, prefix: string, d: seq<Byte>, w: nat)
    requires |d| <= w
    ensures ReadRow(Line(pr, prefix, d, w), |prefix|, w) == Ints(d)
  {
    var line, n := prefix + Row(pr, d, w), |d|;
    assert line[|prefix|..|prefix| + 2 * n] == Hex(d);
    HexTellsBytes(d);
  }

  lemma ReadOneMore(lines: seq<string>, line: string, prefix: nat, w: nat)
    ensures ReadDump(lines + [line], prefix, w) == ReadDump(lines, prefix, w) + ReadRow(line, prefix, w)
  {
    assert (lines + [line])[..|lines|] == lines;
  }

  lemma IntsSplit(d: seq<Byte>, a: nat, b: nat)
    requires a <= b <= |d|
    ensures Ints(d[..b]) == Ints(d[..a]) + Ints(d[a..b])
  {
  }

  lemma OneMoreLineTells(lines: seq<string>, line: string, d: seq<Byte>, p: nat, q: nat, prefix: nat, w: nat)
    requires p <= q <= |d| && ReadDump(lines, prefix, w) == Ints(d[..p]) && ReadRow(line, prefix, w) == Ints(d[p..q])
    ensures ReadDump(lines + [line], prefix, w) == Ints(d[..q])
  {
    ReadOneMore(lines, line, prefix, w);
    IntsSplit(d, p, q);
  }

  /** The line of a turn can be read back. */
  ghost predicate Tells(draw: Drawing, d: seq<Byte>, prefix: nat, w: nat, a: nat, b: nat)
  {
    a <= b <= |d| && b - a <= w ==> ReadRow(draw(a, b), prefix, w) == Ints(d[a..b])
  }

  /** If every line can be read back, so can all of them. */
  lemma {:induction false} LinesTell(draw: Drawing, d: seq<Byte>, prefix: nat, w: nat, turns: nat)
    requires forall a: nat, b: nat {:trigger Tells(draw, d, prefix, w, a, b)} :: Tells(draw, d, prefix, w, a, b)
    ensures ReadDump(Lines(draw, |d|, w, turns), prefix, w) == Ints(d[..Position(|d|, w, turns)])
  {
    if turns > 0 {
      LinesTell(draw, d, prefix, w, turns - 1);
      var p := Position(|d|, w, turns - 1);
      var q := Cut(|d|, w, p);
      if p < |d| {
        assert Tells(draw, d, prefix, w, p, q);
        OneMoreLineTells(Lines(draw, |d|, w, turns - 1), draw(p, q), d, p, q, prefix, w);
      }
    }
  }

  lemma LineOfTells(pr: Printable, prefix: string, d: seq<Byte>, w: nat, a: nat, b: nat)
    ensures Tells(LineOf(pr, prefix, d, w), d, |prefix|, w, a, b)
  {
    if a <= b <= |d| && b - a <= w {
      RowTellsBytes(pr, prefix, d[a..b], w);
    }
  }

  /** A dump can be read back: every byte of the memory is there once, in order, whatever the prefix, the
      width and the locale; a dump that is not over yet shows the bytes up to where it is. */
  lemma DumpTellsMemory(pr: Printable, prefix: string, d: seq<Byte>, w: nat, turns: nat)
    ensures ReadDump(DumpLines(pr, prefix, d, w, turns), |prefix|, w) == Ints(d[..Position(|d|, w, turns)])
  {
    var draw := LineOf(pr, prefix, d, w);
    forall a: nat, b: nat ensures Tells(draw, d, |prefix|, w, a, b) {
      LineOfTells(pr, prefix, d, w, a, b);
    }
    LinesTell(draw, d, |prefix|, w, turns);
  }

  /** A dump that is over shows all of the memory. */
  lemma EndedDumpTellsAll(pr: Printable, prefix: string, d: seq<Byte>, w: nat, turns: nat)
    requires Position(|d|, w, turns) == |d|
    ensures ReadDump(DumpLines(pr, prefix, d, w, turns), |prefix|, w) == Ints(d)
  {
    DumpTellsMemory(pr, prefix, d, w, turns);
    assert d[..|d|] == d;
  }

  /** Every turn puts out one line as long as bytes are left. */
  lemma {:induction false} LinesSoFar(draw: Drawing, len: nat, w: nat, turns: nat)
    ensures |Lines(draw, len, w, turns)| <= turns
    ensures Position(len, w, turns) < len ==> |Lines(draw, len, w, turns)| == turns
  {
    if turns > 0 { LinesSoFar(draw, len, w, turns - 1); }
  }

  lemma {:induction false} StaysAtEnd(draw: Drawing, len: nat, w: nat, turns: nat, more: nat)
    requires turns <= more && Position(len, w, turns) == len
    ensures Position(len, w, more) == len && Lines(draw, len, w, more) == Lines(draw, len, w, turns)
  {
    if turns < more { StaysAtEnd(draw, len, w, turns, more - 1); }
  }

  /** A turn puts its line behind the others. */
  lemma OneTurn(draw: Drawing, len: nat, w: nat, turns: nat)
    ensures var p, before, after := Position(len, w, turns), Lines(draw, len, w, turns), Lines(draw, len, w, turns + 1);
      && (p == len ==> after == before)
      && (p < len ==> |before| == turns && after == before + [draw(p, Cut(len, w, p))])
  {
    LinesSoFar(draw, len, w, turns);
  }

  /** There is a line i exactly if bytes are left after i turns, and it is the line of the next ones. */
  lemma {:induction false} LineAtTurn(draw: Drawing, len: nat, w: nat, turns: nat, i: nat)
    requires i < turns
    ensures var lines, p := Lines(draw, len, w, turns), Position(len, w, i);
      (i < |lines| <==> p < len) && (i < |lines| ==> lines[i] == draw(p, Cut(len, w, p)))
  {
    var p := Position(len, w, i);
    if p == len {
      StaysAtEnd(draw, len, w, i, turns);
      LinesSoFar(draw, len, w, i);
    } else if i + 1 < turns {
      LineAtTurn(draw, len, w, turns - 1, i);
      LinesGrow(draw, len, w, turns - 1);
    } else {
      OneTurn(draw, len, w, i);
    }
  }

  lemma LinesGrow(draw: Drawing, len: nat, w: nat, turns: nat)
    ensures Lines(draw, len, w, turns) <= Lines(draw, len, w, turns + 1)
  {
  }

  /** Every turn before takes w bytes off, as long as there are so many. */
  lemma {:induction false} PositionClosedForm(len: nat, w: nat, turns: nat)
    ensures Position(len, w, turns) == if turns == 0 then 0 else if turns * w < len then turns * w else len
  {
    if turns > 0 {
      PositionClosedForm(len, w, turns - 1);
      assert (turns - 1) * w == turns * w - w;
      assert (turns - 1) * w >= 0;
    }
  }

  /** Line i shows the bytes from i * w on behind the prefix, and there is a line i exactly if there are such bytes. */
  lemma DumpLine(pr: Printable, prefix: string, d: seq<Byte>, w: nat, turns: nat, i: nat)
    requires i < turns
    ensures var lines, p := DumpLines(pr, prefix, d, w, turns), Position(|d|, w, i);
      && p == (if i == 0 then 0 else if i * w < |d| then i * w else |d|)
      && (i < |lines| <==> p < |d|)
      && (i < |lines| ==> lines[i] == Line(pr, prefix, d[p..Cut(|d|, w, p)], w))
  {
    LineAtTurn(LineOf(pr, prefix, d, w), |d|, w, turns, i);
    PositionClosedForm(|d|, w, i);
  }

  /** A line column by column: the prefix, the hexadecimal column with blanks behind it, and in the printable column
      every byte itself if it is printable, and a question mark otherwise. */
  ghost predicate Shows(line: string, pr: Printable, prefix: string, d: seq<Byte>, w: nat)
  {
    && |line| == |prefix| + 2 * w + 2 + |d| && line[..|prefix|] == prefix
    && (forall k: nat {:trigger line[k]} :: |prefix| + 2 * |d| <= k < |prefix| + 2 * w + 2 ==> line[k] == ' ')
    && (forall j: nat {:trigger d[j]} :: j < |d| ==> line[|prefix| + 2 * w + 2 + j] == if pr(d[j]) then d[j] as char else '?')
  }

  lemma LineShows(pr: Printable, prefix: string, d: seq<Byte>, w: nat)
    requires |d| <= w
    ensures Shows(Line(pr, prefix, d, w), pr, prefix, d, w)
  {
    var n := 2 * w + 2 - 2 * |d|;
    var blanks := Repeat(' ', n);
    forall i: nat | i < n ensures blanks[i] == ' ' { RepeatAt(' ', n, i); }
    assert Line(pr, prefix, d, w) == prefix + (Hex(d) + blanks + Ascii(pr, d));
    JoinedAt(prefix, Hex(d), blanks, Ascii(pr, d));
  }

  lemma JoinedAt(a: string, b: string, c: string, d: string)
    ensures var t := a + (b + c + d);
      && |t| == |a| + |b| + |c| + |d| && t[..|a|] == a
      && (forall k: nat {:trigger t[k]} :: |a| + |b| <= k < |a| + |b| + |c| ==> t[k] == c[k - |a| - |b|])
      && (forall j: nat {:trigger d[j]} :: j < |d| ==> t[|a| + |b| + |c| + j] == d[j])
  {
  }

  /** Every line of a dump shows the bytes of its turn. */
  lemma DumpLineShows(pr: Printable, prefix: string, d: seq<Byte>, w: nat, turns: nat, i: nat)
    requires i < turns && Position(|d|, w, i) < |d|
    ensures var lines, p := DumpLines(pr, prefix, d, w, turns), Position(|d|, w, i);
      i < |lines| && Shows(lines[i], pr, prefix, d[p..Cut(|d|, w, p)], w)
  {
    var p := Position(|d|, w, i);
    LineShows(pr, prefix, d[p..Cut(|d|, w, p)], w);
    DumpLine(pr, prefix, d, w, turns, i);
  }

  lemma {:induction false} NoWidthNoProgress(len: nat, turns: nat)
    requires len > 0
    ensures Position(len, 0, turns) == 0
  {
    if turns > 0 { NoWidthNoProgress(len, turns - 1); }
  }

  lemma {:induction false} PositionGrows(len: nat, w: nat, turns: nat)
    requires w > 0
    ensures Position(len, w, turns) >= if turns < len then turns else len
  {
    if turns > 0 { PositionGrows(len, w, turns - 1); }
  }

  /** A dump ends exactly if the width is not zero, there is nothing to put out, or no room for a row: with
      width 0 and room for two more characters it puts out the same line for ever. */
  lemma DumpEndsExactly(len: nat, w: nat, msg_b: nat, e: nat)
    ensures (exists turns: nat :: DumpEnded(len, w, msg_b, e, turns)) <==> w > 0 || len == 0 || e < msg_b + 3 * w + 2
  {
    if w > 0 {
      PositionGrows(len, w, len);
      assert DumpEnded(len, w, msg_b, e, len);
    } else if len == 0 || e < msg_b + 3 * w + 2 {
      assert DumpEnded(len, w, msg_b, e, 0);
    } else {
      forall turns: nat ensures !DumpEnded(len, w, msg_b, e, turns) {
        NoWidthNoProgress(len, turns);
      }
    }
  }

  // ----- the loops -----

  /** One byte in both columns. */
  method PutByte(pr: Printable, b: Byte, buf: array<char>, hex: nat, ascii_b: nat, ascii: nat)
    requires hex + 2 <= ascii_b <= ascii < buf.Length
    modifies buf
    ensures buf[..hex + 2] == old(buf[..hex]) + [HexChar(b as nat / 16), HexChar(b as nat % 16)]
    ensures buf[ascii_b..ascii + 1] == old(buf[ascii_b..ascii]) + [AsciiChar(pr, b)]
  {
    buf[hex] := HexChar(b as nat / 16);
    buf[hex + 1] := HexChar(b as nat % 16);
    buf[ascii] := AsciiChar(pr, b);
  }

  lemma ColumnsSnoc(pr: Printable, d: seq<Byte>, k: nat)
    requires k < |d|
    ensures Hex(d[..k + 1]) == Hex(d[..k]) + [HexChar(d[k] as nat / 16), HexChar(d[k] as nat % 16)]
    ensures Ascii(pr, d[..k + 1]) == Ascii(pr, d[..k]) + [AsciiChar(pr, d[k])]
  {
    assert d[..k + 1][..k] == d[..k];
  }

  /** The inner loop: both columns of one row are filled at the same time. */
  method FillColumns(pr: Printable, d: seq<Byte>, w: nat, buf: array<char>, hex_b: nat) returns (hex: nat, ascii: nat)
    requires |d| <= w && hex_b + 3 * w + 2 <= buf.Length
    modifies buf
    ensures hex == hex_b + 2 * |d| && ascii == hex_b + 2 * w + 2 + |d|
    ensures buf[..hex] == old(buf[..hex_b]) + Hex(d)
    ensures buf[hex_b + 2 * w + 2..ascii] == Ascii(pr, d)
  {
    var ascii_b := hex_b + 2 * w + 2;
    hex, ascii := hex_b, ascii_b;
    ghost var prefix := buf[..hex_b];
    assert prefix + Hex([]) == prefix;
    for k := 0 to |d|
      invariant hex == hex_b + 2 * k && ascii == ascii_b + k
      invariant buf[..hex] == prefix + Hex(d[..k])
      invariant buf[ascii_b..ascii] == Ascii(pr, d[..k])
    {
      PutByte(pr, d[k], buf, hex, ascii_b, ascii);
      ColumnsSnoc(pr, d, k);
      Glue(prefix, Hex(d[..k]), [HexChar(d[k] as nat / 16), HexChar(d[k] as nat % 16)]);
      hex, ascii := hex + 2, ascii + 1;
    }
    assert d[..|d|] == d;
  }

  lemma {:induction false} RepeatSnoc(c: char, n: nat)
    ensures Repeat(c, n + 1) == Repeat(c, n) + [c]
  {
    if n > 0 {
      RepeatSnoc(c, n - 1);
    }
  }

  /** The padding loop between the columns; the printable column ends at `ascii`. */
  method PadColumns(buf: array<char>, from: nat, ascii_b: nat, ghost ascii: nat)
    requires from <= ascii_b <= ascii <= buf.Length
    modifies buf
    ensures buf[..ascii_b] == old(buf[..from]) + Repeat(' ', ascii_b - from)
    ensures buf[ascii_b..ascii] == old(buf[ascii_b..ascii])
  {
    var hex := from;
    ghost var left := buf[..from];
    while hex != ascii_b
      invariant from <= hex <= ascii_b
      invariant buf[..hex] == left + Repeat(' ', hex - from)
      invariant buf[ascii_b..ascii] == old(buf[ascii_b..ascii])
    {
      PutBlank(buf, hex, ascii_b, ascii);
      RepeatSnoc(' ', hex - from);
      Glue(left, Repeat(' ', hex - from), " ");
      hex := hex + 1;
    }
  }

  method PutBlank(buf: array<char>, hex: nat, ghost ascii_b: nat, ghost ascii: nat)
    requires hex < ascii_b <= ascii <= buf.Length
    modifies buf
    ensures buf[..hex + 1] == old(buf[..hex]) + " "
    ensures buf[ascii_b..ascii] == old(buf[ascii_b..ascii])
  {
    buf[hex] := ' ';
  }

  /** One row behind what the buffer holds up to hex_b. */
  method FillRow(pr: Printable, d: seq<Byte>, w: nat, buf: array<char>, hex_b: nat) returns (ascii: nat)
    requires |d| <= w && hex_b + 3 * w + 2 <= buf.Length
    modifies buf
    ensures ascii == hex_b + 2 * w + 2 + |d|
    ensures buf[..ascii] == old(buf[..hex_b]) + Row(pr, d, w)
  {
    ghost var prefix := buf[..hex_b];
    var hex, ascii_b;
    ascii_b := hex_b + 2 * w + 2;
    hex, ascii := FillColumns(pr, d, w, buf, hex_b);
    PadColumns(buf, hex, ascii_b, ascii);
    JoinColumns(prefix, Hex(d), Repeat(' ', ascii_b - hex), Ascii(pr, d), buf[..ascii], ascii_b);
  }

  lemma JoinColumns(prefix: string, hex: string, blanks: string, ascii: string, all: string, at: nat)
    requires at <= |all| && all[..at] == prefix + hex + blanks && all[at..] == ascii
    ensures all == prefix + (hex + blanks + ascii)
  {
  }

  /** The lines of a dump in a buffer of capacity e: none if a full row does not fit. */
  function Dump(pr: Printable, prefix: string, d: seq<Byte>, w: nat, e: nat, turns: nat): seq<string>
  {
    if |prefix| + 3 * w + 2 <= e then DumpLines(pr, prefix, d, w, turns) else []
  }

  /** One line of the dump. */
  method PutRow(pr: Printable, m: Message, d: seq<Byte>, w: nat) returns (line: string)
    requires m.Valid() && |d| <= w && m.msg_b + 3 * w + 2 <= m.e
    modifies m`p, m.buf
    ensures m.Valid() && m.buf[..m.msg_b] == old(m.buf[..m.msg_b])
    ensures line == Line(pr, old(m.buf[..m.msg_b]), d, w)
  {
    ghost var prefix := m.buf[..m.msg_b];
    m.p := FillRow(pr, d, w, m.buf, m.msg_b);
    line := m.buf[..m.p];
    assert m.buf[..m.msg_b] == line[..m.msg_b] == prefix;
  }

  /** The drawing is the one of this buffer and memory. */
  ghost predicate Draws(draw: Drawing, pr: Printable, prefix: string, mem: seq<Byte>, w: nat)
  {
    forall a: nat, b: nat {:trigger mem[a..b]} :: a <= b <= |mem| && b - a <= w ==> draw(a, b) == Line(pr, prefix, mem[a..b], w)
  }

  method PutRowAt(pr: Printable, m: Message, mem: seq<Byte>, w: nat, a: nat, b: nat, ghost draw: Drawing) returns (line: string)
    requires m.Valid() && a <= b <= |mem| && b - a <= w && m.msg_b + 3 * w + 2 <= m.e
    requires Draws(draw, pr, m.buf[..m.msg_b], mem, w)
    modifies m`p, m.buf
    ensures m.Valid() && m.buf[..m.msg_b] == old(m.buf[..m.msg_b]) && line == draw(a, b)
  {
    line := PutRow(pr, m, mem[a..b], w);
  }

  /** The loop of output_mem, for as many turns of it as `turns`. */
  method PutRows(pr: Printable, m: Message, mem: seq<Byte>, w: nat, turns: nat, ghost draw: Drawing)
    returns (lines: seq<string>, ended: bool)
    requires m.Valid() && m.msg_b + 3 * w + 2 <= m.e && Draws(draw, pr, m.buf[..m.msg_b], mem, w)
    modifies m`p, m.buf
    ensures m.Valid() && lines == Lines(draw, |mem|, w, turns)
    ensures ended <==> Position(|mem|, w, turns) == |mem|
  {
    var mem_p, turn := 0, 0;
    lines := [];
    while mem_p != |mem| && turn < turns
      invariant turn <= turns && m.Valid() && m.buf[..m.msg_b] == old(m.buf[..m.msg_b])
      invariant mem_p == Position(|mem|, w, turn) && lines == Lines(draw, |mem|, w, turn)
      decreases turns - turn
    {
      var mem_cut := if w < |mem| - mem_p then mem_p + w else |mem|;
      var line := PutRowAt(pr, m, mem, w, mem_p, mem_cut, draw);
      lines := lines + [line];
      mem_p, turn := mem_cut, turn + 1;
    }
    if mem_p == |mem| {
      StaysAtEnd(draw, |mem|, w, turn, turns);
    }
    ended := mem_p == |mem|;
  }

  /** output_mem: the lines handed to the output callback, and whether it is over. */
  method OutputMem(pr: Printable, m: Message, mem: seq<Byte>, w: nat, turns: nat) returns (lines: seq<string>, ended: bool)
    requires m.Valid() && m.msg_b <= m.p
    modifies m`p, m.buf
    ensures m.Valid() && lines == Dump(pr, old(m.buf[..m.msg_b]), mem, w, m.e, turns)
    ensures ended <==> DumpEnded(|mem|, w, m.msg_b, m.e, turns)
  {
    ghost var draw := LineOf(pr, m.buf[..m.msg_b], mem, w);
    StaysAtEnd(draw, 0, w, 0, turns);
    if mem == [] || m.e < m.msg_b + 2 * w + 2 + w {
      return [], true;
    }
    lines, ended := PutRows(pr, m, mem, w, turns, draw);
  }

  /** _zf_log_write_imp with a memory block: the line, and then the dump behind the line's own context, tag
      and source. */
  method WriteWithMemory(mask: Mask, ctx: seq<Field>, prefix: Option<string>, tag: Option<string>, src: Option<Source>,
                         text: Option<string>, size: nat, eol: nat, pr: Printable, mem: Option<seq<Byte>>, w: nat, turns: nat)
    returns (line: string, dump: seq<string>, ended: bool)
    requires 0 < eol < size && FieldsRoom(ctx) <= 64
    requires NUL !in TextOf(prefix) && NUL !in TextOf(tag) && (src.Some? ==> SourceOk(src.value))
    ensures line == Take(IdealLine(mask, FieldsText(ctx), TagPart(prefix, tag), SourceText(src), TextOf(text)), size - eol)
    ensures mem.None? || !mask.msg ==> dump == [] && ended
    ensures mem.Some? && mask.msg ==>
      var head := Take(IdealHead(mask, FieldsText(ctx), TagPart(prefix, tag), SourceText(src)), size - eol);
      dump == Dump(pr, head, mem.value, w, size - eol, turns) &&
      (ended <==> DumpEnded(|mem.value|, w, |head|, size - eol, turns))
  {
    var m := WriteLine(mask, ctx, prefix, tag, src, text, size, eol);
    line := m.buf[..m.p];
    dump, ended := [], true;
    if mem.Some? && mask.msg {
      dump, ended := OutputMem(pr, m, mem.value, w, turns);
    }
  }
}
