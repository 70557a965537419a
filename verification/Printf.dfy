/** Integer conversions of `pintos/src/lib/stdio.c`: `format_integer` with all its
    flags, and the bounded string it writes to for `snprintf`. */
module Printf {
  import opened Basics

  const COMMA: Byte := 44
  const MINUS: Byte := 45
  const PLUS: Byte := 43
  const SPACE: Byte := 32
  const ZERO: Byte := 48

  datatype Flags = Flags(minus: bool, plus: bool, space: bool, pound: bool, zero: bool, group: bool)

  /** A conversion as `parse_conversion` leaves it: a precision of -1 is none. */
  datatype Conversion = Conversion(flags: Flags, width: nat, precision: int)

  /** `x` is 0 for a base without a prefix character. */
  datatype Base = Base(base: nat, digits: seq<Byte>, x: Byte, group: nat)

  predicate BaseOk(b: Base) {
    && 8 <= b.base == |b.digits| && b.group > 0
    && (forall i :: 0 <= i < |b.digits| ==> b.digits[i] != COMMA)
    && (forall i, j :: 0 <= i < j < |b.digits| ==> b.digits[i] != b.digits[j])
    && b.digits[0] == ZERO
  }

  function BaseO(): (b: Base)
    ensures BaseOk(b)
  {
    Base(8, seq(8, i requires 0 <= i < 8 => (ZERO + i) as Byte), 0, 3)
  }

  /** The largest `uintmax_t` plus one. */
  const UINTMAX := 0x1_0000_0000_0000_0000
  const BUF_SIZE := 64

  // ---- What a conversion says ----

  /** The low digit of `v`, after a comma where one is due. */
  function LowStep(v: nat, b: Base, grouped: bool, cnt: nat): (s: seq<Byte>)
    requires BaseOk(b)
    ensures 1 <= |s| <= 2
  {
    (if grouped && cnt > 0 && cnt % b.group == 0 then [COMMA] else []) + [b.digits[v % b.base]]
  }

  /** The digits of a value, low digit first, with grouping commas. */
  function LowFirst(value: nat, b: Base, grouped: bool, cnt: nat): seq<Byte>
    requires BaseOk(b)
    decreases value
  {
    if value == 0 then [] else LowStep(value, b, grouped, cnt) + LowFirst(value / b.base, b, grouped, cnt + 1)
  }

  function Repeat(ch: Byte, n: int): (s: seq<Byte>)
    ensures |s| == if n > 0 then n else 0
  {
    if n <= 0 then [] else seq(n, _ => ch)
  }

  lemma RepeatMore(ch: Byte, n: nat)
    ensures Repeat(ch, n + 1) == Repeat(ch, n) + [ch]
  {}

  /** The digits with the zeros that the precision and the # flag ask for. */
  function LowDigits(value: nat, b: Base, c: Conversion): seq<Byte>
    requires BaseOk(b)
  {
    var d := LowFirst(value, b, c.flags.group, 0);
    var precision := if c.precision < 0 then 1 else c.precision;
    var e := d + Repeat(ZERO, Min(precision, BUF_SIZE - 1) - |d|);
    if c.flags.pound && b.base == 8 && (e == [] || e[|e| - 1] != ZERO) then e + [ZERO] else e
  }

  function Reverse(s: seq<Byte>): (r: seq<Byte>)
    ensures |r| == |s| && forall i :: 0 <= i < |s| ==> r[i] == s[|s| - 1 - i]
  {
    if s == [] then [] else Reverse(s[1..]) + [s[0]]
  }

  /** The sign character, if any. */
  function Sign(isSigned: bool, negative: bool, f: Flags): seq<Byte> {
    if !isSigned then []
    else if f.plus then [if negative then MINUS else PLUS]
    else if f.space then [if negative then MINUS else SPACE]
    else if negative then [MINUS]
    else []
  }

  function Prefix(value: nat, b: Base, f: Flags): seq<Byte> {
    if f.pound && value > 0 && b.x != 0 then [ZERO, b.x] else []
  }

  /** Everything one conversion puts out. */
  function Rendering(value: nat, isSigned: bool, negative: bool, b: Base, c: Conversion): seq<Byte>
    requires BaseOk(b)
  {
    var d, s, x, f := LowDigits(value, b, c), Sign(isSigned, negative, c.flags), Prefix(value, b, c.flags), c.flags;
    var pad := c.width - |d| - |x| - |s|;
    (if !f.minus && !f.zero then Repeat(SPACE, pad) else [])
    + s + x
    + (if f.zero then Repeat(ZERO, pad) else [])
    + Reverse(d)
    + (if f.minus then Repeat(SPACE, pad) else [])
  }

  /** Reading digits back, low digit first, past any commas. */
  function DigitIndex(b: Base, ch: Byte): (i: nat)
    requires BaseOk(b)
    ensures i <= |b.digits| && (i < |b.digits| ==> b.digits[i] == ch) && (ch in b.digits ==> i < |b.digits|)
  {
    if ch in b.digits then var i :| 0 <= i < |b.digits| && b.digits[i] == ch; i else |b.digits|
  }

  function ValueOf(s: seq<Byte>, b: Base): nat
    requires BaseOk(b)
  {
    if s == [] then 0
    else if s[0] == COMMA then ValueOf(s[1..], b)
    else DigitIndex(b, s[0]) + b.base * ValueOf(s[1..], b)
  }

  lemma ValueOfDigit(b: Base, k: nat, rest: seq<Byte>)
    requires BaseOk(b) && k < |b.digits|
    ensures ValueOf([b.digits[k]] + rest, b) == k + b.base * ValueOf(rest, b)
    ensures ValueOf([COMMA] + rest, b) == ValueOf(rest, b)
  {
    assert ([b.digits[k]] + rest)[1..] == rest && ([COMMA] + rest)[1..] == rest;
    assert b.digits[k] in b.digits;
  }

  lemma {:induction false} ZerosAddNothing(s: seq<Byte>, b: Base, n: int)
    requires BaseOk(b)
    ensures ValueOf(s + Repeat(ZERO, n), b) == ValueOf(s, b)
  {
    var z := Repeat(ZERO, n);
    if s != [] {
      assert (s + z)[1..] == s[1..] + z;
      ZerosAddNothing(s[1..], b, n);
    } else if n > 0 {
      assert s + z == [b.digits[0]] + Repeat(ZERO, n - 1);
      ValueOfDigit(b, 0, Repeat(ZERO, n - 1));
      assert Repeat(ZERO, n - 1) == [] + Repeat(ZERO, n - 1);
      ZerosAddNothing([], b, n - 1);
    } else {
      assert s + z == s;
    }
  }

  lemma {:induction false} LowFirstReads(value: nat, b: Base, grouped: bool, cnt: nat)
    requires BaseOk(b)
    ensures ValueOf(LowFirst(value, b, grouped, cnt), b) == value
    decreases value
  {
    if value > 0 {
      hide ValueOf, LowStep, BaseOk;
      BaseParts(b, value);
      LowFirstReads(value / b.base, b, grouped, cnt + 1);
      StepReads(value, b, grouped, cnt, LowFirst(value / b.base, b, grouped, cnt + 1));
      DivMod(value, b.base);
    }
  }

  lemma StepReads(value: nat, b: Base, grouped: bool, cnt: nat, rest: seq<Byte>)
    requires BaseOk(b)
    ensures ValueOf(LowStep(value, b, grouped, cnt) + rest, b) == value % b.base + b.base * ValueOf(rest, b)
  {
    hide ValueOf;
    BaseParts(b, value);
    var k := value % b.base;
    ValueOfDigit(b, k, rest);
    ValueOfDigit(b, k, [b.digits[k]] + rest);
    assert [COMMA] + [b.digits[k]] + rest == [COMMA] + ([b.digits[k]] + rest);
    assert [] + [b.digits[k]] + rest == [b.digits[k]] + rest;
  }

  /** Whatever the flags and the precision, the digits put out read back as the
      value converted. */
  lemma DigitsReadBack(value: nat, b: Base, c: Conversion)
    requires BaseOk(b)
    ensures ValueOf(LowDigits(value, b, c), b) == value
  {
    var d := LowFirst(value, b, c.flags.group, 0);
    var precision := if c.precision < 0 then 1 else c.precision;
    var n := Min(precision, BUF_SIZE - 1) - |d|;
    LowFirstReads(value, b, c.flags.group, 0);
    ZerosAddNothing(d, b, n);
    ZerosAddNothing(d + Repeat(ZERO, n), b, 1);
    assert Repeat(ZERO, 1) == [ZERO];
  }

  /** The output is as wide as asked for, or as wide as its parts. */
  lemma RenderingWidth(value: nat, isSigned: bool, negative: bool, b: Base, c: Conversion)
    requires BaseOk(b) && !(c.flags.minus && c.flags.zero)
    ensures var parts := |LowDigits(value, b, c)| + |Sign(isSigned, negative, c.flags)| + |Prefix(value, b, c.flags)|;
            |Rendering(value, isSigned, negative, b, c)| == if parts < c.width then c.width else parts
  {}

  function Pow8(k: nat): (p: nat)
    ensures p > 0
  {
    if k == 0 then 1 else 8 * Pow8(k - 1)
  }

  // ---- The string that is written to ----

  /** `struct vsnprintf_aux`, with the buffer it points into. */
  class Sink {
    const buffer: array<Byte>
    var p: nat
    var length: nat
    const maxLength: nat
    /** Where the string begins, all that was put out, and the buffer before. */
    ghost const start: nat
    ghost var out: seq<Byte>
    ghost const was: seq<Byte>

    ghost predicate Valid()
      reads this, buffer
    {
      && start + maxLength < buffer.Length == |was| && length == |out|
      && p == start + Min(length, maxLength)
      && (forall i :: 0 <= i < buffer.Length ==> buffer[i] == if start <= i < p then out[i - start] else was[i])
    }

    /** The set-up in `vsnprintf` for a buffer of `size` > 0 bytes at `start`. */
    constructor (buffer: array<Byte>, start: nat, size: nat)
      requires 0 < size && start + size <= buffer.Length
      ensures Valid() && out == [] && this.buffer == buffer && this.start == start && maxLength == size - 1
      ensures was == buffer[..]
    {
      this.buffer, p, length, maxLength := buffer, start, 0, size - 1;
      this.start, out, was := start, [], buffer[..];
    }

    /** `vsnprintf_helper`: what does not fit is counted and dropped. */
    method Put(ch: Byte)
      requires Valid()
      modifies this, buffer
      ensures Valid() && out == old(out) + [ch]
    {
      if length < maxLength {
        buffer[p] := ch;
        p := p + 1;
      }
      length := length + 1;
      out := out + [ch];
    }

    /** `output_dup`. */
    method PutAll(ch: Byte, cnt: int)
      requires Valid()
      modifies this, buffer
      ensures Valid() && out == old(out) + Repeat(ch, cnt)
    {
      var k := 0;
      while k < cnt
        invariant Valid() && 0 <= k && (k <= cnt || k == 0) && out == old(out) + Repeat(ch, k)
      {
        Put(ch);
        k := k + 1;
        assert Repeat(ch, k) == Repeat(ch, k - 1) + [ch];
      }
    }
  }

  // ---- The conversion itself ----

  lemma DivShrinks(value: nat, base: nat, k: nat)
    requires base >= 8 && 0 < value < Pow8(k)
    ensures k > 0 && 0 <= value / base < Pow8(k - 1)
  {
    DivMod(value, base);
    Scale(base, value / base);
  }

  lemma Scale(base: nat, q: int)
    requires base >= 8
    ensures q >= 0 ==> base * q >= 8 * q
    ensures q < 0 ==> base * q + base <= 0
  {
    SignOf(base, q);
    SignOf(base - 8, q);
  }

  lemma Pow8Of22()
    ensures Pow8(22) >= UINTMAX
  {
    assert Pow8(8) == 0x100_0000;
    assert Pow8(16) == 0x1_0000_0000_0000;
  }

  method PutDigit(v: nat, b: Base, grouped: bool, cnt: nat, buf: array<Byte>, cp: nat) returns (cp': nat)
    requires BaseOk(b) && cp + 2 <= buf.Length
    modifies buf
    ensures cp < cp' <= cp + 2 && buf[..cp'] == old(buf[..cp]) + LowStep(v, b, grouped, cnt)
  {
    cp' := cp;
    if grouped && cnt > 0 && cnt % b.group == 0 {
      buf[cp'] := COMMA;
      cp' := cp' + 1;
    }
    buf[cp'] := b.digits[v % b.base];
    cp' := cp' + 1;
  }

  lemma StepOn(done: seq<Byte>, v: nat, b: Base, grouped: bool, cnt: nat)
    requires BaseOk(b) && v > 0
    ensures 0 <= v / b.base
    ensures done + LowStep(v, b, grouped, cnt) + LowFirst(v / b.base, b, grouped, cnt + 1) == done + LowFirst(v, b, grouped, cnt)
  {
    BaseParts(b, v);
    assert LowFirst(v, b, grouped, cnt) == LowStep(v, b, grouped, cnt) + LowFirst(v / b.base, b, grouped, cnt + 1);
  }

  /** The digit loop: at most two bytes a digit and 22 digits, so `buf` is large
      enough for every 64-bit value in every base from 8 on. */
  method Digits(value: nat, b: Base, grouped: bool, buf: array<Byte>) returns (cp: nat)
    requires BaseOk(b) && value < UINTMAX && buf.Length == BUF_SIZE
    modifies buf
    ensures cp <= 44 && buf[..cp] == LowFirst(value, b, grouped, 0)
  {
    hide Pow8, BaseOk, LowFirst, LowStep;
    cp := 0;
    var digitCnt: nat, v: nat := 0, value;
    Pow8Of22();
    while v > 0
      invariant digitCnt <= 22 && cp <= 2 * digitCnt && v < Pow8(22 - digitCnt)
      invariant buf[..cp] + LowFirst(v, b, grouped, digitCnt) == LowFirst(value, b, grouped, 0)
      decreases v
    {
      BaseParts(b, v);
      DivShrinks(v, b.base, 22 - digitCnt);
      StepOn(buf[..cp], v, b, grouped, digitCnt);
      cp := PutDigit(v, b, grouped, digitCnt, buf, cp);
      v := v / b.base;
      digitCnt := digitCnt + 1;
    }
    NoDigits(b, grouped, digitCnt);
    assert buf[..cp] + [] == buf[..cp];
  }

  lemma NoDigits(b: Base, grouped: bool, cnt: nat)
    requires BaseOk(b)
    ensures LowFirst(0, b, grouped, cnt) == []
  {}

  lemma BaseParts(b: Base, v: nat)
    requires BaseOk(b)
    ensures b.base >= 8 && b.base == |b.digits| && b.group > 0 && v % b.base < |b.digits| && (v > 0 ==> v / b.base < v)
  {
    DivMod(v, b.base);
    Scale(b.base, v / b.base);
  }

  /** All digits, with the zeros that the precision and the # flag ask for. */
  method AllDigits(value: nat, b: Base, c: Conversion, buf: array<Byte>) returns (cp: nat)
    requires BaseOk(b) && value < UINTMAX && buf.Length == BUF_SIZE
    modifies buf
    ensures cp <= BUF_SIZE && buf[..cp] == LowDigits(value, b, c)
  {
    hide BaseOk, LowFirst, Repeat;
    cp := Digits(value, b, c.flags.group, buf);
    var precision := if c.precision < 0 then 1 else c.precision;
    ghost var d := buf[..cp];
    while cp < precision && cp < BUF_SIZE - 1
      invariant |d| <= cp && (cp == |d| || cp <= Min(precision, BUF_SIZE - 1))
      invariant buf[..cp] == d + Repeat(ZERO, cp - |d|)
    {
      buf[cp] := ZERO;
      cp := cp + 1;
      assert buf[..cp] == buf[..cp - 1] + [ZERO];
      RepeatMore(ZERO, cp - 1 - |d|);
    }
    if c.flags.pound && b.base == 8 && (cp == 0 || buf[cp - 1] != ZERO) {
      buf[cp] := ZERO;
      cp := cp + 1;
      assert buf[..cp] == buf[..cp - 1] + [ZERO];
    }
  }

  /** `format_integer`. */
  method FormatInteger(value: nat, isSigned: bool, negative: bool, b: Base, c: Conversion, sink: Sink)
    requires BaseOk(b) && value < UINTMAX && sink.Valid()
    modifies sink, sink.buffer
    ensures sink.Valid() && sink.out == old(sink.out) + Rendering(value, isSigned, negative, b, c)
  {
    hide BaseOk, LowDigits, LowFirst, Sink.Valid, Reverse, Repeat;
    var buf := new Byte[BUF_SIZE];
    var sign: Byte := 0;
    if isSigned {
      if c.flags.plus {
        sign := if negative then MINUS else PLUS;
      } else if c.flags.space {
        sign := if negative then MINUS else SPACE;
      } else if negative {
        sign := MINUS;
      }
    }
    var x: Byte := if c.flags.pound && value != 0 then b.x else 0;
    var cp := AllDigits(value, b, c, buf);
    var padCnt := c.width - cp - (if x != 0 then 2 else 0) - (if sign != 0 then 1 else 0);
    Emit(sign, x, padCnt, buf, cp, c.flags, sink);
  }

  /** The output part of `format_integer`. */
  method Emit(sign: Byte, x: Byte, padCnt: int, buf: array<Byte>, cp: nat, f: Flags, sink: Sink)
    requires sink.Valid() && cp <= buf.Length && buf != sink.buffer
    modifies sink, sink.buffer
    ensures sink.Valid()
    ensures sink.out == old(sink.out)
              + ((if !f.minus && !f.zero then Repeat(SPACE, padCnt) else [])
                 + (if sign != 0 then [sign] else []) + (if x != 0 then [ZERO, x] else [])
                 + (if f.zero then Repeat(ZERO, padCnt) else [])
                 + Reverse(old(buf[..cp]))
                 + (if f.minus then Repeat(SPACE, padCnt) else []))
  {
    hide Sink.Valid, Reverse, Repeat;
    ghost var out0 := sink.out;
    ghost var s, px := if sign != 0 then [sign] else [], if x != 0 then [ZERO, x] else [];
    ghost var front := if !f.minus && !f.zero then Repeat(SPACE, padCnt) else [];
    ghost var mid := if f.zero then Repeat(ZERO, padCnt) else [];
    ghost var back := if f.minus then Repeat(SPACE, padCnt) else [];
    if !f.minus && !f.zero {
      sink.PutAll(SPACE, padCnt);
    }
    assert sink.out == out0 + front;
    PutPrefix(sign, x, sink);
    if f.zero {
      sink.PutAll(ZERO, padCnt);
    }
    assert sink.out == out0 + front + s + px + mid;
    PutReversed(buf, cp, sink);
    if f.minus {
      sink.PutAll(SPACE, padCnt);
    }
    assert sink.out == out0 + front + s + px + mid + Reverse(old(buf[..cp])) + back;
    Regroup(out0, front, s, px, mid, Reverse(old(buf[..cp])), back);
  }

  /** The sign and the base prefix, where there are any. */
  method PutPrefix(sign: Byte, x: Byte, sink: Sink)
    requires sink.Valid()
    modifies sink, sink.buffer
    ensures sink.Valid()
    ensures sink.out == old(sink.out) + (if sign != 0 then [sign] else []) + (if x != 0 then [ZERO, x] else [])
  {
    hide Sink.Valid;
    if sign != 0 {
      sink.Put(sign);
    }
    ghost var mid := sink.out;
    if x != 0 {
      sink.Put(ZERO);
      sink.Put(x);
      assert sink.out == mid + [ZERO, x];
    }
  }

  lemma Regroup(o: seq<Byte>, a: seq<Byte>, b: seq<Byte>, c: seq<Byte>, d: seq<Byte>, e: seq<Byte>, f: seq<Byte>)
    ensures o + a + b + c + d + e + f == o + (a + b + c + d + e + f)
  {}

  /** The output loop: the buffer's content backwards. */
  method PutReversed(buf: array<Byte>, n: nat, sink: Sink)
    requires n <= buf.Length && sink.Valid() && buf != sink.buffer
    modifies sink, sink.buffer
    ensures sink.Valid() && sink.out == old(sink.out) + Reverse(buf[..n])
  {
    var cp: nat := n;
    while cp > 0
      invariant cp <= n && sink.Valid() && sink.out == old(sink.out) + Reverse(buf[cp..n])
      invariant buf[..] == old(buf[..])
    {
      cp := cp - 1;
      assert buf[cp..n][1..] == buf[cp + 1..n];
      sink.Put(buf[cp]);
    }
    assert buf[0..n] == buf[..n];
  }

  /** `snprintf` of one conversion into the `size` bytes at `start`: as much of the
      output as fits, and a null byte. */
  method Snprintf(buffer: array<Byte>, start: nat, size: nat, value: nat, b: Base, c: Conversion) returns (length: nat)
    requires BaseOk(b) && value < UINTMAX && 0 < size && start + size <= buffer.Length
    modifies buffer
    ensures var out := Rendering(value, false, false, b, c);
            && length == |out|
            && var n := Min(|out|, size - 1);
               forall i :: 0 <= i < buffer.Length ==>
                 buffer[i] == if start <= i < start + n then out[i - start] else if i == start + n then 0 else old(buffer[i])
  {
    hide BaseOk, Rendering;
    var sink := new Sink(buffer, start, size);
    FormatInteger(value, false, false, b, c, sink);
    assert [] + Rendering(value, false, false, b, c) == Rendering(value, false, false, b, c);
    buffer[sink.p] := 0;
    length := sink.length;
  }
}
