/** The log line writer of zf_log.c in its default format: a line is assembled in a fixed buffer and
    truncated where the buffer ends.  A C string is a string without the terminating zero. */
module LogLine {
  import opened Options

  const NUL := '\0'

  function Take(s: string, n: nat): (t: string)
    ensures |t| <= n
  {
    if |s| <= n then s else s[..n]
  }

  /** Truncating early does not matter. */
  lemma TakeTwice(s: string, t: string, n: nat)
    ensures Take(Take(s, n) + t, n) == Take(s + t, n)
  {
  }

  // ----- numbers -----

  function DigitChar(d: nat): char
    requires d < 10
  {
    '0' + d as char
  }

  /** The decimal numeral of v. */
  function Digits(v: nat): (s: string)
    ensures |s| >= 1
  {
    if v < 10 then [DigitChar(v)] else Digits(v / 10) + [DigitChar(v % 10)]
  }

  function Value(s: string): int
  {
    if s == [] then 0 else 10 * Value(s[..|s| - 1]) + (s[|s| - 1] as int - '0' as int)
  }

  /** A numeral denotes its number, and has no leading zero. */
  lemma {:induction false} DigitsDenote(v: nat)
    ensures Value(Digits(v)) == v
    ensures v > 0 ==> Digits(v)[0] != '0'
    ensures forall c :: c in Digits(v) ==> '0' <= c <= '9'
  {
    if v < 10 {
      assert Digits(v)[..0] == [];
    } else {
      DigitsDenote(v / 10);
      assert Digits(v)[..|Digits(v)| - 1] == Digits(v / 10);
    }
  }

  lemma {:induction false} DigitsLength(v: nat, n: nat, bound: nat)
    requires v < bound && bound == Pow10(n) && n > 0
    ensures |Digits(v)| <= n
    decreases n
  {
    if v >= 10 {
      DigitsLength(v / 10, n - 1, Pow10(n - 1));
    }
  }

  function Pow10(n: nat): nat
  {
    if n == 0 then 1 else 10 * Pow10(n - 1)
  }

  function Repeat(c: char, n: int): (s: string)
    ensures |s| == if n > 0 then n else 0
  {
    if n <= 0 then "" else [c] + Repeat(c, n - 1)
  }

  function Pad(s: string, w: int, wc: char): string
  {
    Repeat(wc, w - |s|) + s
  }

  /** A field of an unsigned number. */
  function UintField(v: nat, w: nat, wc: char): string
  {
    Pad(Digits(v), w, wc)
  }

  /** A field of a signed number: the sign comes before zeros and after blanks. */
  function IntField(v: int, w: nat, wc: char): string
  {
    if v >= 0 then UintField(v, w, wc)
    else if wc != '0' then Pad("-" + Digits(-v), w, wc)
    else "-" + Pad(Digits(-v), w - 1, wc)
  }

  // ----- how fields read -----

  lemma {:induction false} RepeatAt(c: char, n: int, i: nat)
    requires i < n
    ensures Repeat(c, n)[i] == c
  {
    if i > 0 { RepeatAt(c, n - 1, i - 1); }
  }

  lemma {:induction false} LeadingZeros(n: nat, s: string)
    ensures Value(Repeat('0', n) + s) == Value(s)
    decreases n + |s|
  {
    var z := Repeat('0', n);
    if s != [] {
      assert (z + s)[..|z + s| - 1] == z + s[..|s| - 1];
      LeadingZeros(n, s[..|s| - 1]);
    } else if n > 0 {
      RepeatAt('0', n, n - 1);
      RepeatAllButLast('0', n);
      LeadingZeros(n - 1, s);
      assert z + s == z && Repeat('0', n - 1) + s == Repeat('0', n - 1);
    }
  }

  lemma {:induction false} RepeatAllButLast(c: char, n: nat)
    requires n > 0
    ensures Repeat(c, n)[..n - 1] == Repeat(c, n - 1)
  {
    if n > 1 {
      RepeatAllButLast(c, n - 1);
    }
  }

  function MaxNat(a: nat, b: nat): nat { if a < b then b else a }

  /** An unsigned field is as wide as asked for, or as its number needs: it ends with the numeral, and in front of that
      is only padding.  Padded with zeros, all of it is a numeral of the number. */
  lemma UintFieldReads(v: nat, w: nat, wc: char)
    ensures var f, d := UintField(v, w, wc), Digits(v); var pad := |f| - |d|;
      && |f| == MaxNat(w, |d|)
      && f[pad..] == d
      && (forall i :: 0 <= i < pad ==> f[i] == wc)
      && (wc == '0' ==> Value(f) == v)
  {
    var n := w - |Digits(v)|;
    forall i | 0 <= i < n ensures Repeat(wc, n)[i] == wc { RepeatAt(wc, n, i); }
    if wc == '0' {
      DigitsDenote(v);
      LeadingZeros(if n > 0 then n else 0, Digits(v));
    }
  }

  /** A negative field has room for the sign too, which stands behind blanks but before zeros. */
  lemma NegativeFieldReads(v: nat, w: nat, wc: char)
    requires v > 0
    ensures var f, d := IntField(0 - v, w, wc), Digits(v); var pad := |f| - |d| - 1;
      && |f| == MaxNat(w, |d| + 1)
      && f[pad + 1..] == d
      && (wc == '0' ==> f[0] == '-' && forall i :: 0 < i <= pad ==> f[i] == '0')
      && (wc != '0' ==> f[pad] == '-' && forall i :: 0 <= i < pad ==> f[i] == wc)
  {
    var d, n := Digits(v), w - |Digits(v)| - 1;
    var z := Repeat(wc, n);
    forall i | 0 <= i < n ensures z[i] == wc { RepeatAt(wc, n, i); }
    if wc == '0' {
      assert IntField(0 - v, w, wc) == "-" + (z + d);
      SignBeforeZeros(z, d);
    } else {
      assert IntField(0 - v, w, wc) == z + ("-" + d);
      SignBehindPadding(z, d, wc);
    }
  }

  lemma SignBeforeZeros(z: string, d: string)
    requires forall i :: 0 <= i < |z| ==> z[i] == '0'
    ensures var t := "-" + (z + d);
      t[0] == '-' && t[|z| + 1..] == d && forall i :: 0 < i <= |z| ==> t[i] == '0'
  {
    assert ("-" + (z + d))[1..] == z + d;
  }

  lemma SignBehindPadding(z: string, d: string, wc: char)
    requires forall i :: 0 <= i < |z| ==> z[i] == wc
    ensures var t := z + ("-" + d);
      t[|z|] == '-' && t[|z| + 1..] == d && forall i :: 0 <= i < |z| ==> t[i] == wc
  {
  }

  lemma RepeatMore(c: char, n: nat)
    ensures Repeat(c, n + 1) == [c] + Repeat(c, n)
  {
  }

  /** put_padding_r: extends the text that starts at p to the left, until it is w characters up to e. */
  method PutPaddingR(w: int, wc: char, buf: array<char>, p: nat, e: nat) returns (q: nat)
    requires p <= e <= buf.Length && w <= e
    modifies buf
    ensures q <= p && p - q == |Repeat(wc, w - (e - p))| && buf[q..] == Repeat(wc, w - (e - p)) + old(buf[p..])
  {
    q := p;
    ghost var text := buf[p..];
    while e - w < q
      invariant 0 <= q <= p && (q < p ==> e - w <= q)
      invariant buf[q..] == Repeat(wc, p - q) + text
    {
      q := PutCharR(wc, buf, q);
      RepeatMore(wc, p - q - 1);
      Glue([wc], Repeat(wc, p - q - 1), text);
    }
  }

  /** Moving the last digit of the rest to the digits already written. */
  lemma MoveDigit(v: nat, rest: nat, written: string)
    requires Digits(rest) + written == Digits(v)
    ensures |written| < |Digits(v)|
    ensures var w := [DigitChar(rest % 10)] + written;
            if rest < 10 then w == Digits(v) else Digits(rest / 10) + w == Digits(v)
  {
    if rest >= 10 {
      assert Digits(rest) == Digits(rest / 10) + [DigitChar(rest % 10)];
    }
  }

  /** The digit loop of put_integer_r: the last digit first, in front of the text that starts at e. */
  method PutDigitsR(v: nat, buf: array<char>, e: nat) returns (p: nat)
    requires |Digits(v)| <= e <= buf.Length
    modifies buf
    ensures p == e - |Digits(v)| && buf[p..] == Digits(v) + old(buf[e..])
  {
    p := e;
    var rest := v;
    ghost var text, written := buf[e..], "";
    assert Digits(v) + "" == Digits(v);
    while true
      invariant p == e - |written| && buf[p..] == written + text
      invariant Digits(rest) + written == Digits(v)
      decreases rest
    {
      MoveDigit(v, rest, written);
      p := PutCharR(DigitChar(rest % 10), buf, p);
      Glue([DigitChar(rest % 10)], written, text);
      written := [DigitChar(rest % 10)] + written;
      if rest / 10 == 0 {
        break;
      }
      rest := rest / 10;
    }
  }

  method PutCharR(c: char, buf: array<char>, e: nat) returns (p: nat)
    requires 0 < e <= buf.Length
    modifies buf
    ensures p == e - 1 && buf[p..] == [c] + old(buf[e..])
  {
    p := e - 1;
    buf[p] := c;
  }

  /** put_integer_r for an unsigned number. */
  method PutUintR(v: nat, w: nat, wc: char, buf: array<char>, e: nat) returns (p: nat)
    requires |Digits(v)| <= e <= buf.Length && w <= e
    modifies buf
    ensures p == e - |UintField(v, w, wc)| && buf[p..] == UintField(v, w, wc) + old(buf[e..])
  {
    ghost var text, d := buf[e..], Digits(v);
    p := PutDigitsR(v, buf, e);
    p := PutPaddingR(w, wc, buf, p, e);
    Glue(Repeat(wc, w - |d|), d, text);
  }

  lemma Glue(a: string, b: string, c: string)
    ensures a + (b + c) == a + b + c
  {
  }

  /** put_integer_r for a negative number, given its magnitude. */
  method PutNegativeR(v: nat, w: nat, wc: char, buf: array<char>, e: nat) returns (p: nat)
    requires v > 0 && |Digits(v)| + 1 <= e <= buf.Length && w <= e
    modifies buf
    ensures p == e - |IntField(0 - v, w, wc)| && buf[p..] == IntField(0 - v, w, wc) + old(buf[e..])
  {
    ghost var text, d := buf[e..], Digits(v);
    p := PutDigitsR(v, buf, e);
    if wc != '0' {
      p := PutCharR('-', buf, p);
      Glue("-", d, text);
      p := PutPaddingR(w, wc, buf, p, e);
      Glue(Repeat(wc, w - |"-" + d|), "-" + d, text);
    } else {
      p := PutPaddingR(w - 1, wc, buf, p, e);
      Glue(Repeat(wc, w - 1 - |d|), d, text);
      p := PutCharR('-', buf, p);
      Glue("-", Pad(d, w - 1, wc), text);
    }
  }

  /** PUT_CSTR_R */
  method PutCstrR(s: string, buf: array<char>, e: nat) returns (p: nat)
    requires |s| <= e <= buf.Length
    modifies buf
    ensures p == e - |s| && buf[p..] == s + old(buf[e..])
  {
    p := e;
    var i := |s|;
    while 0 < i
      invariant 0 <= i <= |s| && p == e - (|s| - i)
      invariant buf[p..] == s[i..] + old(buf[e..])
    {
      i := i - 1;
      p := PutCharR(s[i], buf, p);
      assert s[i..] == [s[i]] + s[i + 1..];
    }
  }

  // ----- format tuples -----

  /** A field of a message format. */
  datatype Field = Str(s: string) | UInt(v: nat, w: nat, wc: char) | Int(i: int, w: nat, wc: char)

  function FieldText(f: Field): string
  {
    match f
    case Str(s) => s
    case UInt(v, w, wc) => UintField(v, w, wc)
    case Int(i, w, wc) => IntField(i, w, wc)
  }

  function FieldsText(fs: seq<Field>): string
  {
    if fs == [] then "" else FieldText(fs[0]) + FieldsText(fs[1..])
  }

  /** Room that writing a field needs in the buffer. */
  function FieldRoom(f: Field): (n: nat)
    ensures n >= |FieldText(f)|
  {
    match f
    case Str(s) => |s|
    case UInt(v, w, wc) => MaxNat(w, |Digits(v)|)
    case Int(i, w, wc) => MaxNat(w, |Digits(if i < 0 then -i else i)| + 1)
  }

  function FieldsRoom(fs: seq<Field>): nat
  {
    if fs == [] then 0 else FieldsRoom(fs[..|fs| - 1]) + FieldRoom(fs[|fs| - 1])
  }

  /** One field in front of the text that starts at e. */
  method PutFieldR(f: Field, buf: array<char>, e: nat) returns (p: nat)
    requires FieldRoom(f) <= e <= buf.Length
    modifies buf
    ensures p == e - |FieldText(f)| && buf[p..] == FieldText(f) + old(buf[e..])
  {
    match f
    case Str(s) => p := PutCstrR(s, buf, e);
    case UInt(v, w, wc) => p := PutUintR(v, w, wc, buf, e);
    case Int(i, w, wc) =>
      if 0 <= i {
        p := PutUintR(i, w, wc, buf, e);
      } else {
        p := PutNegativeR(-i, w, wc, buf, e);
      }
  }

  /** A format tuple written from its last field to its first, ending at the end of the buffer. */
  method PutFieldsR(fs: seq<Field>, buf: array<char>) returns (p: nat)
    requires FieldsRoom(fs) <= buf.Length
    modifies buf
    ensures p <= buf.Length && buf[p..] == FieldsText(fs)
  {
    p := buf.Length;
    var i := |fs|;
    assert fs[..i] == fs;
    while 0 < i
      invariant 0 <= i <= |fs| && FieldsRoom(fs[..i]) <= p <= buf.Length
      invariant buf[p..] == FieldsText(fs[i..])
    {
      assert fs[..i][..i - 1] == fs[..i - 1];
      i := i - 1;
      p := PutFieldR(fs[i], buf, p);
      assert fs[i..][1..] == fs[i + 1..];
    }
    assert fs[0..] == fs;
  }

  // ----- the message buffer -----

  /** buf[..p] is the line so far, e its capacity; the buffer is larger, so that a terminating zero always
      has room behind the line. */
  class Message {
    const buf: array<char>
    const e: nat
    var p: nat
    var tag_b: nat
    var tag_e: nat
    var msg_b: nat

    ghost predicate Valid()
      reads this
    {
      p <= e < buf.Length
    }

    ghost function Line(): (s: string)
      reads this, buf
      requires Valid()
      ensures |s| <= e
    {
      buf[..p]
    }

    constructor (size: nat, eol: nat)
      requires 0 < eol < size
      ensures Valid() && Line() == "" && e == size - eol && fresh(buf)
    {
      buf := new char[size];
      e := size - eol;
      p, tag_b, tag_e, msg_b := 0, 0, 0, 0;
    }

    /** put_stringn */
    method PutStringN(s: string)
      requires Valid()
      modifies this`p, buf
      ensures Valid() && Line() == Take(old(Line()) + s, e)
    {
      var n := if |s| > e - p then e - p else |s|;
      forall k | p <= k < p + n { buf[k] := s[k - p]; }
      p := p + n;
      assert buf[..p] == old(buf[..p]) + s[..n];
    }

    /** put_string: memccpy up to and including the terminating zero. */
    method PutString(s: string)
      requires Valid() && NUL !in s
      modifies this`p, buf
      ensures Valid() && Line() == Take(old(Line()) + s, e)
    {
      var n := e - p;
      var z := s + [NUL];
      var copied := if |z| <= n then |z| else n;
      forall k | p <= k < p + copied { buf[k] := z[k - p]; }
      var q := if |z| <= n then p + |z| - 1 else e;
      assert buf[..q] == old(buf[..p]) + s[..q - p];
      p := q;
    }

    /** PUT_CSTR_CHECKED */
    method PutCstr(s: string)
      requires Valid()
      modifies this`p, buf
      ensures Valid() && Line() == Take(old(Line()) + s, e)
    {
      var i := 0;
      while e > p && |s| > i
        invariant 0 <= i <= |s| && p <= e && p == old(p) + i
        invariant buf[..p] == old(buf[..p]) + s[..i]
      {
        buf[p] := s[i];
        assert buf[..p + 1] == buf[..p] + [s[i]];
        assert s[..i + 1] == s[..i] + [s[i]];
        p := p + 1;
        i := i + 1;
      }
    }

    /** The character loops of PUT_TAG: they store the terminating zero too, but do not step over it. */
    method PutChars(s: string)
      requires Valid() && NUL !in s
      modifies this`p, buf
      ensures Valid() && Line() == Take(old(Line()) + s, e)
    {
      var ch := 0;
      while e != p
        invariant 0 <= ch <= |s| && p <= e && p == old(p) + ch
        invariant buf[..p] == old(buf[..p]) + s[..ch]
        decreases e - p
      {
        buf[p] := if ch < |s| then s[ch] else NUL;
        if buf[p] == NUL {
          assert buf[..p] == old(buf[..p]) + s[..ch];
          break;
        }
        assert buf[..p + 1] == buf[..p] + [s[ch]];
        assert s[..ch + 1] == s[..ch] + [s[ch]];
        p := p + 1;
        ch := ch + 1;
      }
    }

    /** vsnprintf into the rest of the buffer, and put_nprintf: out is what the format expands to, None if
        the formatting fails. */
    method PutNprintf(out: Option<string>)
      requires Valid()
      modifies this`p, buf
      ensures Valid() && Line() == if out.Some? then Take(old(Line()) + out.value, e) else old(Line())
    {
      var n := -1;
      if out.Some? {
        n := |out.value|;
        var m := if n < e - p + 1 then n else e - p;
        forall k | p <= k < p + m { buf[k] := out.value[k - p]; }
        assert buf[..p + m] == old(buf[..p]) + out.value[..m];
        buf[p + m] := NUL;
        assert buf[..p + m] == old(buf[..p]) + out.value[..m];
      }
      if 0 < n {
        p := if n < e - p then p + n else e;
      }
    }

    // ----- the parts of a line -----

    /** PUT_TAG up to the end of the tag: prefix, delimiter and tag. */
    method PutPrefixedTag(prefix: Option<string>, tag: Option<string>)
      requires Valid() && NUL !in TextOf(prefix) && NUL !in TextOf(tag)
      modifies this`p, this`tag_b, buf
      ensures Valid() && Line() == Take(old(Line()) + PrefixedTag(prefix, tag), e) && tag_b == old(p)
    {
      ghost var before := Line();
      tag_b := p;
      if prefix.Some? {
        PutChars(prefix.value);
      }
      assert Line() == Take(before + TextOf(prefix), e) by { assert before + "" == before; }
      if tag.Some? && tag.value != "" {
        ghost var acc := TextOf(prefix);
        if tag_b != p {
          PutCstr(".");
          Appended(before, acc, ".", e);
          acc := acc + ".";
        } else {
          NothingWritten(before, acc, e);
          if acc != "" {
            NothingFits(before, acc + tag.value, e);
            NothingFits(before, PrefixedTag(prefix, tag), e);
          }
        }
        assert Line() == Take(before + acc, e);
        PutChars(tag.value);
        Appended(before, acc, tag.value, e);
        assert "" + tag.value == tag.value;
      }
    }

    /** PUT_TAG(".", " ") */
    method PutTag(prefix: Option<string>, tag: Option<string>)
      requires Valid() && NUL !in TextOf(prefix) && NUL !in TextOf(tag)
      modifies this`p, this`tag_b, this`tag_e, buf
      ensures Valid() && Line() == Take(old(Line()) + TagPart(prefix, tag), e)
    {
      ghost var before, text := Line(), PrefixedTag(prefix, tag);
      PutPrefixedTag(prefix, tag);
      tag_e := p;
      if tag_b != p {
        PutCstr(" ");
        Appended(before, text, " ", e);
      } else {
        NothingWritten(before, text, e);
        if text != "" {
          NothingFits(before, text, e);
          NothingFits(before, text + " ", e);
        }
      }
    }
  }

  lemma Appended(before: string, acc: string, s: string, e: nat)
    ensures Take(Take(before + acc, e) + s, e) == Take(before + (acc + s), e)
  {
    TakeTwice(before + acc, s, e);
    assert before + acc + s == before + (acc + s);
  }

  /** A line only fails to grow if nothing was to be written or the buffer was full. */
  lemma NothingWritten(before: string, acc: string, e: nat)
    requires |before| <= e && |Take(before + acc, e)| == |before|
    ensures acc == "" || |before| == e
  {
  }

  lemma NothingFits(before: string, x: string, e: nat)
    requires |before| == e
    ensures Take(before + x, e) == before
  {
  }

  function TextOf(s: Option<string>): string
  {
    if s.Some? then s.value else ""
  }

  /** Prefix and tag, with a dot between them if both are there. */
  function PrefixedTag(prefix: Option<string>, tag: Option<string>): string
  {
    if TextOf(tag) == "" then TextOf(prefix)
    else (if TextOf(prefix) == "" then "" else TextOf(prefix) + ".") + TextOf(tag)
  }

  function TagPart(prefix: Option<string>, tag: Option<string>): string
  {
    if PrefixedTag(prefix, tag) == "" then "" else PrefixedTag(prefix, tag) + " "
  }

  /** The tag part: prefix and tag, joined by a dot if both are there, and a blank behind them if either is. */
  lemma TagReads(prefix: string, tag: string)
    ensures TagPart(None, None) == "" && TagPart(Some(""), Some("")) == ""
    ensures prefix != "" ==> TagPart(Some(prefix), None) == TagPart(Some(prefix), Some("")) == prefix + " "
    ensures tag != "" ==> TagPart(None, Some(tag)) == TagPart(Some(""), Some(tag)) == tag + " "
    ensures prefix != "" && tag != "" ==> TagPart(Some(prefix), Some(tag)) == prefix + "." + tag + " "
  {
    assert "" + tag == tag;
  }

  // ----- a whole line -----

  /** What put_ctx formats: the broken-down local time, ids and the level. */
  datatype Context = Context(month: nat, day: nat, hour: nat, minute: nat, second: nat, msec: nat, pid: int, tid: int, level: char)

  /** Ranges of localtime and of the id types. */
  predicate InRange(c: Context)
  {
    c.month < 12 && 1 <= c.day <= 31 && c.hour < 24 && c.minute < 60 && c.second <= 60 && c.msec < 1000 &&
    -0x8000_0000 <= c.pid < 0x8000_0000 && -0x8000_0000 <= c.tid < 0x8000_0000
  }

  datatype Source = Source(func: Option<string>, file: string, line: nat)

  predicate IsSeparator(c: char) { c == '/' || c == '\\' }

  /** The part of a path behind the last separator. */
  function BaseName(file: string): string
  {
    if file == "" || IsSeparator(file[|file| - 1]) then "" else BaseName(file[..|file| - 1]) + [file[|file| - 1]]
  }

  /** BaseName is the longest suffix without a separator. */
  lemma {:induction false} BaseNameIsSuffix(file: string)
    ensures |BaseName(file)| <= |file| && BaseName(file) == file[|file| - |BaseName(file)|..]
    ensures forall c :: c in BaseName(file) ==> !IsSeparator(c)
    ensures |BaseName(file)| < |file| ==> IsSeparator(file[|file| - |BaseName(file)| - 1])
  {
    if file != "" && !IsSeparator(file[|file| - 1]) {
      var init, last := file[..|file| - 1], file[|file| - 1];
      var b := BaseName(init);
      BaseNameIsSuffix(init);
      assert file[|init| - |b|..] == init[|init| - |b|..] + [last];
      if |b| < |init| {
        assert file[|init| - |b| - 1] == init[|init| - |b| - 1];
      }
    }
  }

  lemma BaseNameNext(file: string, p: nat)
    requires p < |file|
    ensures BaseName(file[..p + 1]) == if IsSeparator(file[p]) then "" else BaseName(file[..p]) + [file[p]]
  {
    assert file[..p + 1][..p] == file[..p];
  }

  /** filename: one pass that remembers the position behind the last separator. */
  method FileName(file: string) returns (f: string)
    ensures f == BaseName(file)
  {
    var start := 0;
    for p := 0 to |file|
      invariant start <= p && file[start..p] == BaseName(file[..p])
    {
      BaseNameNext(file, p);
      if IsSeparator(file[p]) {
        start := p + 1;
      }
    }
    assert file[..|file|] == file;
    f := file[start..];
  }

  function DateFields(c: Context): seq<Field>
  {
    [UInt(c.month + 1, 2, '0'), Str("-"), UInt(c.day, 2, '0'), Str(" ")]
  }

  function TimeFields(c: Context): seq<Field>
  {
    [UInt(c.hour, 2, '0'), Str(":"), UInt(c.minute, 2, '0'), Str(":"), UInt(c.second, 2, '0'), Str("."),
     UInt(c.msec, 3, '0'), Str(" ")]
  }

  function IdFields(c: Context): seq<Field>
  {
    [Int(c.pid, 5, ' '), Str(" "), Int(c.tid, 5, ' '), Str(" ")]
  }

  /** The default context format. */
  function ContextFields(c: Context): seq<Field>
  {
    DateFields(c) + TimeFields(c) + IdFields(c) + [Str([c.level]), Str(" ")]
  }

  function SourcePart(s: Source): string
  {
    TextOf(s.func) + "@" + BaseName(s.file) + ":" + UintField(s.line, 0, NUL) + " "
  }

  /** Numbers below 10^n fit a field of n digits exactly. */
  lemma FieldWidth(v: nat, n: nat, wc: char)
    requires 0 < n && v < Pow10(n)
    ensures FieldRoom(UInt(v, n, wc)) == n
  {
    DigitsLength(v, n, Pow10(n));
  }

  /** Process and thread ids take at most eleven characters. */
  lemma IdWidth(v: int)
    requires -0x8000_0000 <= v < 0x8000_0000
    ensures FieldRoom(Int(v, 5, ' ')) <= 11
  {
    assert Pow10(10) == 10_000_000_000 by { assert Pow10(5) == 100_000; }
    DigitsLength(if v < 0 then -v else v, 10, Pow10(10));
  }

  /** The context of every line fits the buffer it is put together in. */
  lemma ContextRoom(c: Context)
    requires InRange(c)
    ensures FieldsRoom(ContextFields(c)) <= 64
  {
    DateRoom(c);
    TimeRoom(c);
    IdsRoom(c);
    var level := [Str([c.level]), Str(" ")];
    RoomAtMost(level, 1);
    RoomConcat(DateFields(c) + TimeFields(c) + IdFields(c), level);
    RoomConcat(DateFields(c) + TimeFields(c), IdFields(c));
    RoomConcat(DateFields(c), TimeFields(c));
  }

  lemma DateRoom(c: Context)
    requires InRange(c)
    ensures FieldsRoom(DateFields(c)) <= 8
  {
    FieldWidth(c.month + 1, 2, '0');
    FieldWidth(c.day, 2, '0');
    RoomAtMost(DateFields(c), 2);
  }

  lemma TimeRoom(c: Context)
    requires InRange(c)
    ensures FieldsRoom(TimeFields(c)) <= 24
  {
    FieldWidth(c.hour, 2, '0');
    FieldWidth(c.minute, 2, '0');
    FieldWidth(c.second, 2, '0');
    FieldWidth(c.msec, 3, '0');
    RoomAtMost(TimeFields(c), 3);
  }

  lemma IdsRoom(c: Context)
    requires InRange(c)
    ensures FieldsRoom(IdFields(c)) <= 24
  {
    var pid, tid := [Int(c.pid, 5, ' '), Str(" ")], [Int(c.tid, 5, ' '), Str(" ")];
    IdRoom(c.pid);
    IdRoom(c.tid);
    assert IdFields(c) == pid + tid;
    RoomConcat(pid, tid);
  }

  lemma IdRoom(v: int)
    requires -0x8000_0000 <= v < 0x8000_0000
    ensures FieldsRoom([Int(v, 5, ' '), Str(" ")]) <= 12
  {
    IdWidth(v);
    assert [Int(v, 5, ' '), Str(" ")] == [Int(v, 5, ' ')] + [Str(" ")];
    RoomConcat([Int(v, 5, ' ')], [Str(" ")]);
    RoomAtMost([Int(v, 5, ' ')], 11);
    RoomAtMost([Str(" ")], 1);
  }

  lemma {:induction false} RoomConcat(a: seq<Field>, b: seq<Field>)
    ensures FieldsRoom(a + b) == FieldsRoom(a) + FieldsRoom(b)
    decreases |b|
  {
    if b == [] {
      assert a + b == a;
    } else {
      assert (a + b)[..|a + b| - 1] == a + b[..|b| - 1];
      RoomConcat(a, b[..|b| - 1]);
    }
  }

  lemma {:induction false} RoomAtMost(fs: seq<Field>, n: nat)
    requires forall i :: 0 <= i < |fs| ==> FieldRoom(fs[i]) <= n
    ensures FieldsRoom(fs) <= n * |fs|
  {
    if fs != [] {
      RoomAtMost(fs[..|fs| - 1], n);
      assert n * |fs| == n * (|fs| - 1) + n;
    }
  }

  // ----- how the default context and source read -----

  lemma FieldsCons(f: Field, fs: seq<Field>)
    ensures FieldsText([f] + fs) == FieldText(f) + FieldsText(fs)
  {
    assert ([f] + fs)[1..] == fs;
  }

  lemma {:induction false} FieldsConcat(a: seq<Field>, b: seq<Field>)
    ensures FieldsText(a + b) == FieldsText(a) + FieldsText(b)
  {
    if a == [] {
      assert a + b == b;
    } else {
      assert (a + b)[1..] == a[1..] + b;
      FieldsConcat(a[1..], b);
      Glue(FieldText(a[0]), FieldsText(a[1..]), FieldsText(b));
    }
  }

  /** In columns at .. at + n the text shows a number, and behind that a mark. */
  predicate ReadsAt(t: string, at: nat, n: nat, v: nat, mark: char)
  {
    at + n < |t| && Value(t[at..at + n]) == v && t[at + n] == mark
  }

  lemma ReadsLater(t: string, k: nat, at: nat, n: nat, v: nat, mark: char)
    requires k <= |t| && ReadsAt(t[k..], at, n, v, mark)
    ensures ReadsAt(t, k + at, n, v, mark)
  {
    assert t[k..][at..at + n] == t[k + at..k + at + n];
  }

  lemma ReadsBefore(t: string, more: string, at: nat, n: nat, v: nat, mark: char)
    requires ReadsAt(t, at, n, v, mark)
    ensures ReadsAt(t + more, at, n, v, mark)
  {
    assert (t + more)[at..at + n] == t[at..at + n];
  }

  /** A number and the separator behind it. */
  lemma NumberAndMark(v: nat, n: nat, mark: char, rest: seq<Field>)
    requires 0 < n && v < Pow10(n)
    ensures var t := FieldsText([UInt(v, n, '0'), Str([mark])] + rest);
      |t| == n + 1 + |FieldsText(rest)| && ReadsAt(t, 0, n, v, mark) && t[n + 1..] == FieldsText(rest)
  {
    DigitsLength(v, n, Pow10(n));
    UintFieldReads(v, n, '0');
    var f, tail := UintField(v, n, '0'), [Str([mark])] + rest;
    assert [UInt(v, n, '0'), Str([mark])] + rest == [UInt(v, n, '0')] + tail;
    FieldsCons(UInt(v, n, '0'), tail);
    FieldsCons(Str([mark]), rest);
    NumberThenMark(f, mark, FieldsText(rest));
  }

  lemma NumberThenMark(f: string, mark: char, more: string)
    ensures var t := f + ([mark] + more); t[0..|f|] == f && t[|f|] == mark && t[|f| + 1..] == more
  {
  }

  /** The first columns: month and day. */
  lemma DateReads(c: Context)
    requires InRange(c)
    ensures var t := FieldsText(DateFields(c)); |t| == 6 && ReadsAt(t, 0, 2, c.month + 1, '-') && ReadsAt(t, 3, 2, c.day, ' ')
  {
    var day := [UInt(c.day, 2, '0'), Str([' '])];
    assert DateFields(c) == [UInt(c.month + 1, 2, '0'), Str(['-'])] + day;
    NumberAndMark(c.month + 1, 2, '-', day);
    assert day == day + [];
    NumberAndMark(c.day, 2, ' ', []);
    ReadsLater(FieldsText(DateFields(c)), 3, 0, 2, c.day, ' ');
  }

  function SecondFields(c: Context): seq<Field>
  {
    [UInt(c.second, 2, '0'), Str(['.'])] + [UInt(c.msec, 3, '0'), Str([' '])]
  }

  function MinuteFields(c: Context): seq<Field>
  {
    [UInt(c.minute, 2, '0'), Str([':'])] + SecondFields(c)
  }

  lemma SecondReads(c: Context)
    requires InRange(c)
    ensures var t := FieldsText(SecondFields(c)); |t| == 7 && ReadsAt(t, 0, 2, c.second, '.') && ReadsAt(t, 3, 3, c.msec, ' ')
  {
    var msec := [UInt(c.msec, 3, '0'), Str([' '])];
    NumberAndMark(c.second, 2, '.', msec);
    assert msec == msec + [];
    NumberAndMark(c.msec, 3, ' ', []);
    ReadsLater(FieldsText(SecondFields(c)), 3, 0, 3, c.msec, ' ');
  }

  lemma MinuteReads(c: Context)
    requires InRange(c)
    ensures var t := FieldsText(MinuteFields(c));
      |t| == 10 && ReadsAt(t, 0, 2, c.minute, ':') && ReadsAt(t, 3, 2, c.second, '.') && ReadsAt(t, 6, 3, c.msec, ' ')
  {
    var t := FieldsText(MinuteFields(c));
    NumberAndMark(c.minute, 2, ':', SecondFields(c));
    SecondReads(c);
    ReadsLater(t, 3, 0, 2, c.second, '.');
    ReadsLater(t, 3, 3, 3, c.msec, ' ');
  }

  lemma TimeReads(c: Context)
    requires InRange(c)
    ensures var t := FieldsText(TimeFields(c));
      |t| == 13 && ReadsAt(t, 0, 2, c.hour, ':') && ReadsAt(t, 3, 2, c.minute, ':') &&
      ReadsAt(t, 6, 2, c.second, '.') && ReadsAt(t, 9, 3, c.msec, ' ')
  {
    assert TimeFields(c) == [UInt(c.hour, 2, '0'), Str([':'])] + MinuteFields(c);
    var t := FieldsText(TimeFields(c));
    NumberAndMark(c.hour, 2, ':', MinuteFields(c));
    MinuteReads(c);
    ReadsLater(t, 3, 0, 2, c.minute, ':');
    ReadsLater(t, 3, 3, 2, c.second, '.');
    ReadsLater(t, 3, 6, 3, c.msec, ' ');
  }

  /** A field and a blank behind it. */
  lemma FieldAndBlank(f: Field, rest: seq<Field>)
    ensures FieldsText([f, Str(" ")] + rest) == FieldText(f) + " " + FieldsText(rest)
  {
    assert [f, Str(" ")] + rest == [f] + ([Str(" ")] + rest);
    FieldsCons(f, [Str(" ")] + rest);
    FieldsCons(Str(" "), rest);
    Glue(FieldText(f), " ", FieldsText(rest));
  }

  lemma IdsRead(c: Context)
    ensures FieldsText(IdFields(c) + [Str([c.level]), Str(" ")]) ==
            IntField(c.pid, 5, ' ') + " " + (IntField(c.tid, 5, ' ') + " " + ([c.level] + " "))
  {
    var level := [Str([c.level]), Str(" ")];
    var tid := [Int(c.tid, 5, ' '), Str(" ")] + level;
    assert IdFields(c) + level == [Int(c.pid, 5, ' '), Str(" ")] + tid;
    FieldAndBlank(Int(c.pid, 5, ' '), tid);
    FieldAndBlank(Int(c.tid, 5, ' '), level);
    assert level == level + [];
    FieldAndBlank(Str([c.level]), []);
  }

  lemma ContextText(c: Context)
    ensures FieldsText(ContextFields(c)) == FieldsText(DateFields(c)) + (FieldsText(TimeFields(c)) +
      FieldsText(IdFields(c) + [Str([c.level]), Str(" ")]))
  {
    var ids := IdFields(c) + [Str([c.level]), Str(" ")];
    assert ContextFields(c) == DateFields(c) + (TimeFields(c) + ids);
    FieldsConcat(DateFields(c), TimeFields(c) + ids);
    FieldsConcat(TimeFields(c), ids);
  }

  /** The default context column by column: date and time in fixed columns, then the ids and the level. */
  lemma ContextReads(c: Context)
    requires InRange(c)
    ensures var t := FieldsText(ContextFields(c));
      && ReadsAt(t, 0, 2, c.month + 1, '-') && ReadsAt(t, 3, 2, c.day, ' ')
      && ReadsAt(t, 6, 2, c.hour, ':') && ReadsAt(t, 9, 2, c.minute, ':')
      && ReadsAt(t, 12, 2, c.second, '.') && ReadsAt(t, 15, 3, c.msec, ' ')
      && t[19..] == IntField(c.pid, 5, ' ') + " " + (IntField(c.tid, 5, ' ') + " " + ([c.level] + " "))
  {
    var d, h, i := FieldsText(DateFields(c)), FieldsText(TimeFields(c)), FieldsText(IdFields(c) + [Str([c.level]), Str(" ")]);
    ContextText(c);
    IdsRead(c);
    DateReadsBefore(c, h + i);
    TimeReadsBehind(c, d, i);
    BehindBoth(d, h, i);
  }

  lemma BehindBoth(d: string, h: string, i: string)
    ensures (d + (h + i))[|d| + |h|..] == i
  {
  }

  lemma DateReadsBefore(c: Context, more: string)
    requires InRange(c)
    ensures var d := FieldsText(DateFields(c));
      |d| == 6 && ReadsAt(d + more, 0, 2, c.month + 1, '-') && ReadsAt(d + more, 3, 2, c.day, ' ')
  {
    DateReads(c);
    ReadsBefore(FieldsText(DateFields(c)), more, 0, 2, c.month + 1, '-');
    ReadsBefore(FieldsText(DateFields(c)), more, 3, 2, c.day, ' ');
  }

  lemma TimeReadsBehind(c: Context, d: string, i: string)
    requires InRange(c) && |d| == 6
    ensures var t := d + (FieldsText(TimeFields(c)) + i);
      ReadsAt(t, 6, 2, c.hour, ':') && ReadsAt(t, 9, 2, c.minute, ':') && ReadsAt(t, 12, 2, c.second, '.') && ReadsAt(t, 15, 3, c.msec, ' ')
    ensures |FieldsText(TimeFields(c))| == 13
  {
    TimeReads(c);
    var h := FieldsText(TimeFields(c));
    var t := d + (h + i);
    assert t[6..] == h + i;
    ReadsBefore(h, i, 0, 2, c.hour, ':');
    ReadsBefore(h, i, 3, 2, c.minute, ':');
    ReadsBefore(h, i, 6, 2, c.second, '.');
    ReadsBefore(h, i, 9, 3, c.msec, ' ');
    ReadsLater(t, 6, 0, 2, c.hour, ':');
    ReadsLater(t, 6, 3, 2, c.minute, ':');
    ReadsLater(t, 6, 6, 2, c.second, '.');
    ReadsLater(t, 6, 9, 3, c.msec, ' ');
  }

  /** The source part: function, base name and line number. */
  lemma SourceReads(s: Source)
    ensures SourcePart(s) == TextOf(s.func) + "@" + BaseName(s.file) + ":" + Digits(s.line) + " "
  {
    UintFieldReads(s.line, 0, NUL);
  }

  // ----- the main result -----

  /** Which parts a line has. */
  datatype Mask = Mask(ctx: bool, tag: bool, src: bool, msg: bool)

  /** What comes before the message, and the line, if the buffer were large enough; a message whose
      formatting fails is empty. */
  function IdealHead(mask: Mask, ctx: string, tag: string, src: string): string
  {
    (if mask.ctx then ctx else "") + (if mask.tag then tag else "") + (if mask.src then src else "")
  }

  function IdealLine(mask: Mask, ctx: string, tag: string, src: string, text: string): string
  {
    IdealHead(mask, ctx, tag, src) + (if mask.msg then text else "")
  }

  /** put_ctx: the context is put together in a buffer of 64 characters and copied. */
  method PutCtx(m: Message, fields: seq<Field>)
    requires m.Valid() && FieldsRoom(fields) <= 64
    modifies m`p, m.buf
    ensures m.Valid() && m.Line() == Take(old(m.Line()) + FieldsText(fields), m.e)
  {
    var buf := new char[64];
    var p := PutFieldsR(fields, buf);
    m.PutStringN(buf[p..]);
  }

  predicate SourceOk(s: Source)
  {
    NUL !in TextOf(s.func) && NUL !in s.file && s.line < 0x1_0000_0000
  }

  /** put_uint: the number is put together in a buffer of 16 characters and copied. */
  method PutUint(m: Message, v: nat, w: nat, wc: char)
    requires m.Valid() && v < 0x1_0000_0000 && w <= 16
    modifies m`p, m.buf
    ensures m.Valid() && m.Line() == Take(old(m.Line()) + UintField(v, w, wc), m.e)
  {
    var buf := new char[16];
    assert Pow10(10) == 10_000_000_000 by { assert Pow10(5) == 100_000; }
    DigitsLength(v, 10, Pow10(10));
    var sp := PutUintR(v, w, wc, buf, 16);
    assert buf[sp..] == UintField(v, w, wc);
    m.PutStringN(buf[sp..]);
  }

  /** put_src */
  method PutSrc(m: Message, s: Source)
    requires m.Valid() && SourceOk(s)
    modifies m`p, m.buf
    ensures m.Valid() && m.Line() == Take(old(m.Line()) + SourcePart(s), m.e)
  {
    ghost var before := m.Line();
    var func := if s.func.Some? then s.func.value else "";
    m.PutString(func);
    ghost var acc := func;
    m.PutCstr("@");
    Appended(before, acc, "@", m.e);
    acc := acc + "@";
    var file := FileName(s.file);
    BaseNameIsSuffix(s.file);
    m.PutString(file);
    Appended(before, acc, file, m.e);
    acc := acc + file;
    m.PutCstr(":");
    Appended(before, acc, ":", m.e);
    acc := acc + ":";
    PutUint(m, s.line, 0, NUL);
    Appended(before, acc, UintField(s.line, 0, NUL), m.e);
    acc := acc + UintField(s.line, 0, NUL);
    m.PutCstr(" ");
    Appended(before, acc, " ", m.e);
  }

  /** The parts of a line before the message. */
  method WriteHead(mask: Mask, ctx: seq<Field>, prefix: Option<string>, tag: Option<string>, src: Option<Source>,
                   size: nat, eol: nat) returns (m: Message)
    requires 0 < eol < size && FieldsRoom(ctx) <= 64
    requires NUL !in TextOf(prefix) && NUL !in TextOf(tag) && (src.Some? ==> SourceOk(src.value))
    ensures fresh(m) && fresh(m.buf) && m.Valid() && m.e == size - eol
    ensures m.Line() == Take(IdealHead(mask, FieldsText(ctx), TagPart(prefix, tag), SourceText(src)), m.e)
  {
    m := new Message(size, eol);
    ghost var e := m.e;
    if mask.ctx {
      PutCtx(m, ctx);
    }
    ghost var a := if mask.ctx then FieldsText(ctx) else "";
    assert m.Line() == Take(a, e) by { assert "" + a == a; }
    if mask.tag {
      m.PutTag(prefix, tag);
    }
    ghost var b := if mask.tag then TagPart(prefix, tag) else "";
    assert m.Line() == Take(a + b, e) by { Extend(a, b, e); }
    if src.Some? && mask.src {
      PutSrc(m, src.value);
    }
    ghost var c := if mask.src then SourceText(src) else "";
    assert m.Line() == Take(a + b + c, e) by { Extend(a + b, c, e); }
  }

  /** _zf_log_write_imp up to the output, for any context format that fits its buffer: the line is the
      ideal one, cut off at the capacity, and msg_b is where its message starts. */
  method WriteLine(mask: Mask, ctx: seq<Field>, prefix: Option<string>, tag: Option<string>, src: Option<Source>,
                   text: Option<string>, size: nat, eol: nat) returns (m: Message)
    requires 0 < eol < size && FieldsRoom(ctx) <= 64
    requires NUL !in TextOf(prefix) && NUL !in TextOf(tag) && (src.Some? ==> SourceOk(src.value))
    ensures fresh(m) && fresh(m.buf) && m.Valid() && m.e == size - eol
    ensures m.Line() == Take(IdealLine(mask, FieldsText(ctx), TagPart(prefix, tag), SourceText(src), TextOf(text)), m.e)
    ensures mask.msg ==> m.msg_b <= m.p
    ensures mask.msg ==>
      m.buf[..m.msg_b] == Take(IdealHead(mask, FieldsText(ctx), TagPart(prefix, tag), SourceText(src)), m.e)
  {
    m := WriteHead(mask, ctx, prefix, tag, src, size, eol);
    ghost var head, before := IdealHead(mask, FieldsText(ctx), TagPart(prefix, tag), SourceText(src)), m.Line();
    Extend(head, if mask.msg then TextOf(text) else "", m.e);
    if mask.msg {
      m.msg_b := m.p;
      m.PutNprintf(text);
      TakeExtends(before, TextOf(text), m.e);
      assert m.buf[..m.msg_b] == m.Line()[..m.msg_b];
    }
  }

  lemma TakeExtends(a: string, s: string, e: nat)
    requires |a| <= e
    ensures |a| <= |Take(a + s, e)| && Take(a + s, e)[..|a|] == a
  {
  }

  lemma Extend(a: string, s: string, e: nat)
    ensures Take(Take(a, e) + s, e) == Take(a + s, e)
    ensures s == "" ==> a + s == a
  {
    TakeTwice(a, s, e);
  }

  function SourceText(src: Option<Source>): string
  {
    if src.Some? then SourcePart(src.value) else ""
  }

  /** A line in the default format. */
  method WriteDefaultLine(mask: Mask, c: Context, prefix: Option<string>, tag: Option<string>, src: Option<Source>,
                          text: Option<string>) returns (line: string)
    requires InRange(c)
    requires NUL !in TextOf(prefix) && NUL !in TextOf(tag) && (src.Some? ==> SourceOk(src.value))
    ensures line == Take((if mask.ctx then FieldsText(ContextFields(c)) else "") + (if mask.tag then TagPart(prefix, tag) else "") +
      (if mask.src && src.Some? then SourcePart(src.value) else "") + (if mask.msg && text.Some? then text.value else ""), 510)
  {
    ContextRoom(c);
    var m := WriteLine(mask, ContextFields(c), prefix, tag, src, text, 512, 2);
    line := m.buf[..m.p];
  }
}
