/** What the output of `format_integer` (`pintos/src/lib/stdio.c`, lines 455 to 547) says
    to a reader: its sign, its value, its commas and its padding, in plain bytes. */
module Renderings {
  import opened Basics
  import opened Printf

  // ---- The four bases ----

  predicate Letter(ch: Byte) { 65 <= ch < 91 || 97 <= ch < 123 }

  predicate Figure(ch: Byte) { 48 <= ch < 58 || Letter(ch) }

  /** Digits are figures and letters, and the prefix letter is none of them. */
  predicate Readable(b: Base) {
    && BaseOk(b) && (forall i :: 0 <= i < |b.digits| ==> Figure(b.digits[i]) && b.digits[i] != b.x)
    && (b.x == 0 || Letter(b.x))
  }

  function FigureOf(i: nat, upper: bool): Byte
    requires i < 16
  {
    if i < 10 then 48 + i else (if upper then 65 else 97) + (i - 10)
  }

  function BaseD(): (b: Base)
    ensures Readable(b)
  {
    Base(10, seq(10, i requires 0 <= i < 10 => FigureOf(i, false)), 0, 3)
  }

  function BaseX(upper: bool): (b: Base)
    ensures Readable(b)
  {
    Base(16, seq(16, i requires 0 <= i < 16 => FigureOf(i, upper)), if upper then 88 else 120, 4)
  }

  lemma OctalReadable()
    ensures Readable(BaseO())
  {}

  // ---- Reading a number back ----

  function SkipSpaces(s: seq<Byte>): seq<Byte> {
    if s != [] && s[0] == 32 then SkipSpaces(s[1..]) else s
  }

  function SkipBack(s: seq<Byte>): seq<Byte> {
    if s != [] && s[|s| - 1] == 32 then SkipBack(s[..|s| - 1]) else s
  }

  /** Digits, high one first, past a prefix such as 0x. */
  function ReadUnsigned(s: seq<Byte>, b: Base): nat
    requires BaseOk(b)
  {
    ValueOf(Reverse(if b.x != 0 && |s| >= 2 && s[0] == 48 && s[1] == b.x then s[2..] else s), b)
  }

  /** A number with a sign or without. */
  function ReadSigned(s: seq<Byte>, b: Base): int
    requires BaseOk(b)
  {
    if s != [] && s[0] == 45 then 0 - ReadUnsigned(s[1..], b)
    else if s != [] && s[0] == 43 then ReadUnsigned(s[1..], b)
    else ReadUnsigned(s, b)
  }

  /** A number as a reader takes it, past spaces. */
  function ReadNumber(out: seq<Byte>, b: Base): int
    requires BaseOk(b)
  {
    ReadSigned(SkipBack(SkipSpaces(out)), b)
  }

  lemma {:induction false} SkipFront(n: int, s: seq<Byte>)
    ensures SkipSpaces(Repeat(32, n) + s) == SkipSpaces(s)
  {
    if n > 0 {
      assert (Repeat(32, n) + s)[1..] == Repeat(32, n - 1) + s;
      SkipFront(n - 1, s);
    } else {
      assert Repeat(32, n) + s == s;
    }
  }

  lemma {:induction false} SkipAfter(s: seq<Byte>, n: int)
    requires 32 !in s
    ensures SkipBack(s + Repeat(32, n)) == s
  {
    if n > 0 {
      var all := s + Repeat(32, n);
      assert all[..|all| - 1] == s + Repeat(32, n - 1);
      SkipAfter(s, n - 1);
    } else {
      assert s + Repeat(32, n) == s;
    }
  }

  /** Spaces on both sides are skipped, and nothing else. */
  lemma SkipAround(m: int, core: seq<Byte>, n: int)
    requires 32 !in core
    ensures SkipBack(SkipSpaces(Repeat(32, m) + core + Repeat(32, n))) == core
  {
    var rest := core + Repeat(32, n);
    assert Repeat(32, m) + core + Repeat(32, n) == Repeat(32, m) + rest;
    SkipFront(m, rest);
    SkipAfter(core, n);
    if core == [] {
      assert rest == Repeat(32, n) + [];
      SkipFront(n, []);
    } else {
      assert rest[0] == core[0] && core[0] in core;
    }
  }

  // ---- What the digits are ----

  lemma {:induction false} LowFirstFigures(value: nat, b: Base, grouped: bool, cnt: nat)
    requires BaseOk(b)
    ensures forall i :: 0 <= i < |LowFirst(value, b, grouped, cnt)| ==>
              var ch := LowFirst(value, b, grouped, cnt)[i]; ch == 44 || ch in b.digits
    decreases value
  {
    hide BaseOk;
    if value > 0 {
      BaseParts(b, value);
      LowFirstFigures(value / b.base, b, grouped, cnt + 1);
    }
  }

  lemma DigitsAre(value: nat, b: Base, c: Conversion)
    requires Readable(b)
    ensures forall i :: 0 <= i < |LowDigits(value, b, c)| ==>
              var ch := LowDigits(value, b, c)[i]; (ch == 44 || Figure(ch)) && ch != b.x
  {
    LowFirstFigures(value, b, c.flags.group, 0);
    assert b.digits[0] == 48;
  }

  /** What is left of the output without its spaces. */
  function Core(value: nat, isSigned: bool, negative: bool, b: Base, c: Conversion): seq<Byte>
    requires BaseOk(b)
  {
    var d, s, x, f := LowDigits(value, b, c), Sign(isSigned, negative, c.flags), Prefix(value, b, c.flags), c.flags;
    (if s == [32] then [] else s) + x + (if f.zero then Repeat(48, c.width - |d| - |x| - |s|) else []) + Reverse(d)
  }

  lemma CoreInside(value: nat, isSigned: bool, negative: bool, b: Base, c: Conversion) returns (m: int, n: int)
    requires BaseOk(b)
    ensures Rendering(value, isSigned, negative, b, c) == Repeat(32, m) + Core(value, isSigned, negative, b, c) + Repeat(32, n)
  {
    PartsOf(value, isSigned, negative, b, c);
    hide LowDigits, Sign, Prefix, Reverse, BaseOk, Readable, Repeat, Rendering;
    var d, s, x, f := LowDigits(value, b, c), Sign(isSigned, negative, c.flags), Prefix(value, b, c.flags), c.flags;
    var pad := c.width - |d| - |x| - |s|;
    var front, zeros := if !f.minus && !f.zero then Repeat(32, pad) else [], if f.zero then Repeat(48, pad) else [];
    m := if s == [32] then |front| + 1 else |front|;
    FrontSpaces(pad, s, !f.minus && !f.zero);
    n := if f.minus then pad else 0;
    NoneOf(32);
    Gather(front, s, Repeat(32, m), if s == [32] then [] else s, x, zeros, Reverse(d), Repeat(32, n));
  }

  lemma NoneOf(ch: Byte)
    ensures Repeat(ch, 0) == []
  {}

  lemma FrontSpaces(pad: int, s: seq<Byte>, some: bool)
    ensures var front := if some then Repeat(32, pad) else [];
            front + s == Repeat(32, if s == [32] then |front| + 1 else |front|) + (if s == [32] then [] else s)
  {}

  lemma Gather(front: seq<Byte>, s: seq<Byte>, spaces: seq<Byte>, t: seq<Byte>, x: seq<Byte>, z: seq<Byte>, r: seq<Byte>, back: seq<Byte>)
    requires front + s == spaces + t
    ensures front + s + x + z + r + back == spaces + (t + x + z + r) + back
  {}

  lemma NoSpaces(value: nat, isSigned: bool, negative: bool, b: Base, c: Conversion)
    requires Readable(b)
    ensures 32 !in Core(value, isSigned, negative, b, c)
  {
    DigitsAre(value, b, c);
    hide LowDigits;
    var d, s, x, f := LowDigits(value, b, c), Sign(isSigned, negative, c.flags), Prefix(value, b, c.flags), c.flags;
    assert 32 !in Reverse(d);
    assert 32 !in x;
    assert 32 !in Repeat(48, c.width - |d| - |x| - |s|);
  }

  // ---- The value read back ----

  /** Digits with padding zeros in front of them, high digit first, read as the value. */
  lemma ZeroPadded(value: nat, b: Base, c: Conversion, n: int)
    requires Readable(b)
    ensures ValueOf(Reverse(Repeat(48, n) + Reverse(LowDigits(value, b, c))), b) == value
  {
    hide LowDigits, Reverse;
    var d := LowDigits(value, b, c);
    assert Reverse(Repeat(48, n) + Reverse(d)) == d + Repeat(48, n);
    DigitsReadBack(value, b, c);
    ZerosAddNothing(d, b, n);
  }

  /** A text that begins with the prefix, or has no prefix letter in it. */
  lemma PastPrefix(x: seq<Byte>, t: seq<Byte>, b: Base)
    requires BaseOk(b) && b.x !in t && (x == [] || (b.x != 0 && x == [48, b.x]))
    ensures ReadUnsigned(x + t, b) == ValueOf(Reverse(t), b)
  {
    if x == [] {
      assert x + t == t;
      assert |t| >= 2 ==> t[1] in t;
    } else {
      assert (x + t)[2..] == t;
    }
  }

  lemma UnsignedReads(value: nat, b: Base, c: Conversion, n: int)
    requires Readable(b)
    ensures ReadUnsigned(Prefix(value, b, c.flags) + (Repeat(48, n) + Reverse(LowDigits(value, b, c))), b) == value
  {
    var d, x := LowDigits(value, b, c), Prefix(value, b, c.flags);
    DigitsAre(value, b, c);
    ZeroPadded(value, b, c, n);
    hide LowDigits;
    var t := Repeat(48, n) + Reverse(d);
    assert b.x !in Reverse(d);
    ZeroIsNoLetter(b, n);
    PastPrefix(x, t, b);
  }

  lemma ZeroIsNoLetter(b: Base, n: int)
    requires Readable(b)
    ensures b.x !in Repeat(48, n)
  {}

  /** The whole output, sign, prefix, commas, padding and all, reads back as the number
      that was converted. */
  lemma ReadsBack(value: nat, isSigned: bool, negative: bool, b: Base, c: Conversion)
    requires Readable(b)
    ensures ReadNumber(Rendering(value, isSigned, negative, b, c), b) == if isSigned && negative then 0 - value else value
  {
    hide Rendering, Core, Readable, BaseOk, ReadSigned;
    ReadableBase(b);
    var m, n := CoreInside(value, isSigned, negative, b, c);
    NoSpaces(value, isSigned, negative, b, c);
    SkipAround(m, Core(value, isSigned, negative, b, c), n);
    CoreReads(value, isSigned, negative, b, c);
  }

  lemma SignedText(sign: seq<Byte>, t: seq<Byte>, b: Base)
    requires BaseOk(b) && (sign == [] || sign == [45] || sign == [43]) && 45 !in t && 43 !in t
    ensures ReadSigned(sign + t, b) == if sign == [45] then 0 - ReadUnsigned(t, b) else ReadUnsigned(t, b)
  {
    hide ReadUnsigned, BaseOk;
    if sign == [] {
      assert sign + t == t;
      assert t != [] ==> t[0] in t;
    } else {
      assert (sign + t)[1..] == t;
    }
  }

  lemma ReadableBase(b: Base)
    requires Readable(b)
    ensures BaseOk(b)
  {}

  lemma CoreReads(value: nat, isSigned: bool, negative: bool, b: Base, c: Conversion)
    requires Readable(b)
    ensures ReadSigned(Core(value, isSigned, negative, b, c), b) == if isSigned && negative then 0 - value else value
  {
    var d, s, x, f := LowDigits(value, b, c), Sign(isSigned, negative, c.flags), Prefix(value, b, c.flags), c.flags;
    var k := if f.zero then c.width - |d| - |x| - |s| else 0;
    UnsignedReads(value, b, c, k);
    NotSigned(value, b, c, k);
    NoneOf(48);
    hide LowDigits, Reverse, ReadUnsigned, BaseOk, Readable, ReadSigned, Prefix, Repeat;
    var t := x + (Repeat(48, k) + Reverse(d));
    var sign := if s == [32] then [] else s;
    Rejoin(sign, x, if f.zero then Repeat(48, c.width - |d| - |x| - |s|) else [], Reverse(d));
    assert Core(value, isSigned, negative, b, c) == sign + t;
    SignIs(isSigned, negative, f);
    SignedText(sign, t, b);
  }

  lemma Rejoin(s: seq<Byte>, x: seq<Byte>, z: seq<Byte>, r: seq<Byte>)
    ensures s + x + z + r == s + (x + (z + r))
  {}

  /** The sign of a conversion. */
  lemma SignIs(isSigned: bool, negative: bool, f: Flags)
    ensures Sign(isSigned, negative, f) == [45] <==> isSigned && negative
    ensures Sign(isSigned, negative, f) == [43] <==> isSigned && !negative && f.plus
    ensures Sign(isSigned, negative, f) == [32] <==> isSigned && !negative && f.space && !f.plus
    ensures Sign(isSigned, negative, f) == [] <==> !isSigned || (!negative && !f.plus && !f.space)
  {}

  /** No digits begin with a sign. */
  lemma NotSigned(value: nat, b: Base, c: Conversion, n: int)
    requires Readable(b)
    ensures var t := Prefix(value, b, c.flags) + (Repeat(48, n) + Reverse(LowDigits(value, b, c))); 45 !in t && 43 !in t
  {
    DigitsAre(value, b, c);
    hide LowDigits;
  }

  // ---- Sign, prefix and padding ----

  /** A minus sign is in the output if and only if the number is negative, a plus sign if
      and only if it is not and one was asked for, and without padding a space if and
      only if that was asked for instead; the prefix letter if and only if it was asked
      for and the value is not zero. */
  lemma SignShown(value: nat, isSigned: bool, negative: bool, b: Base, c: Conversion)
    requires Readable(b)
    ensures var out := Rendering(value, isSigned, negative, b, c);
            && (45 in out <==> isSigned && negative)
            && (43 in out <==> isSigned && !negative && c.flags.plus)
            && (c.width == 0 ==> (32 in out <==> isSigned && !negative && c.flags.space && !c.flags.plus))
            && (b.x != 0 ==> (b.x in out <==> c.flags.pound && value > 0))
  {
    var d, s, x, f := LowDigits(value, b, c), Sign(isSigned, negative, c.flags), Prefix(value, b, c.flags), c.flags;
    DigitsAre(value, b, c);
    SignIs(isSigned, negative, f);
    Shown(value, isSigned, negative, b, c, 45);
    Shown(value, isSigned, negative, b, c, 43);
    Shown(value, isSigned, negative, b, c, 32);
    Shown(value, isSigned, negative, b, c, b.x);
    hide LowDigits, Sign, Rendering, Repeat, BaseOk;
    assert s == [] || s == [45] || s == [43] || s == [32] by { SignIsOne(isSigned, negative, f); }
  }

  lemma SignIsOne(isSigned: bool, negative: bool, f: Flags)
    ensures var s := Sign(isSigned, negative, f); s == [] || s == [45] || s == [43] || s == [32]
  {}

  /** Where a byte of the output can come from. */
  lemma Shown(value: nat, isSigned: bool, negative: bool, b: Base, c: Conversion, ch: Byte)
    requires BaseOk(b)
    ensures var d, s, x, f := LowDigits(value, b, c), Sign(isSigned, negative, c.flags), Prefix(value, b, c.flags), c.flags;
            var pad := c.width - |d| - |x| - |s|;
            ch in Rendering(value, isSigned, negative, b, c) <==>
              ch in s || ch in x || ch in d || (pad > 0 && ((ch == 32 && (f.minus || !f.zero)) || (ch == 48 && f.zero)))
  {
    var d, s, x, f := LowDigits(value, b, c), Sign(isSigned, negative, c.flags), Prefix(value, b, c.flags), c.flags;
    var pad := c.width - |d| - |x| - |s|;
    PartsOf(value, isSigned, negative, b, c);
    hide LowDigits, Sign, Prefix, Rendering, BaseOk;
    Backwards(d, ch);
    Copies(32, pad, ch);
    Copies(48, pad, ch);
    hide Reverse, Repeat;
  }

  lemma {:induction false} Backwards(s: seq<Byte>, ch: Byte)
    ensures ch in Reverse(s) <==> ch in s
  {
    if ch in s {
      var i :| 0 <= i < |s| && s[i] == ch;
      assert Reverse(s)[|s| - 1 - i] == ch;
    }
  }

  lemma Copies(a: Byte, n: int, ch: Byte)
    ensures ch in Repeat(a, n) <==> n > 0 && ch == a
  {
    if n > 0 {
      assert Repeat(a, n)[0] == a;
    }
  }

  lemma PartsOf(value: nat, isSigned: bool, negative: bool, b: Base, c: Conversion)
    requires BaseOk(b)
    ensures var d, s, x, f := LowDigits(value, b, c), Sign(isSigned, negative, c.flags), Prefix(value, b, c.flags), c.flags;
            var pad := c.width - |d| - |x| - |s|;
            Rendering(value, isSigned, negative, b, c)
              == (if !f.minus && !f.zero then Repeat(32, pad) else []) + s + x + (if f.zero then Repeat(48, pad) else [])
                 + Reverse(d) + (if f.minus then Repeat(32, pad) else [])
  {}

  /** What is put out is the same at every width, but for padding in one place: spaces in
      front, or behind with the minus flag, or zeros between sign and prefix and the
      digits with the zero flag. */
  lemma Padded(value: nat, isSigned: bool, negative: bool, b: Base, c: Conversion)
    requires BaseOk(b) && !(c.flags.minus && c.flags.zero)
    ensures var body, out := Rendering(value, isSigned, negative, b, c.(width := 0)), Rendering(value, isSigned, negative, b, c);
            var k := (if isSigned && (negative || c.flags.plus || c.flags.space) then 1 else 0)
                     + (if b.x != 0 && c.flags.pound && value > 0 then 2 else 0);
            && k <= |body|
            && (c.flags.minus ==> out == body + Repeat(32, c.width - |body|))
            && (c.flags.zero ==> out == body[..k] + Repeat(48, c.width - |body|) + body[k..])
            && (!c.flags.minus && !c.flags.zero ==> out == Repeat(32, c.width - |body|) + body)
  {
    var d, s, x, f := LowDigits(value, b, c), Sign(isSigned, negative, c.flags), Prefix(value, b, c.flags), c.flags;
    PartsOf(value, isSigned, negative, b, c);
    PartsOf(value, isSigned, negative, b, c.(width := 0));
    SameDigits(value, b, c);
    LengthsOf(value, isSigned, negative, b, c.flags);
    NothingRepeated(0 - |d| - |x| - |s|);
    hide LowDigits, Rendering, Sign, Prefix, Reverse, Repeat, BaseOk;
    var pad := c.width - |d| - |x| - |s|;
    Arranged(s, x, Reverse(d), Repeat(32, pad), Repeat(48, pad));
  }

  lemma SameDigits(value: nat, b: Base, c: Conversion)
    requires BaseOk(b)
    ensures LowDigits(value, b, c.(width := 0)) == LowDigits(value, b, c)
  {
    hide LowFirst;
  }

  lemma LengthsOf(value: nat, isSigned: bool, negative: bool, b: Base, f: Flags)
    ensures |Sign(isSigned, negative, f)| == if isSigned && (negative || f.plus || f.space) then 1 else 0
    ensures |Prefix(value, b, f)| == if b.x != 0 && f.pound && value > 0 then 2 else 0
  {}

  lemma Arranged(s: seq<Byte>, x: seq<Byte>, r: seq<Byte>, spaces: seq<Byte>, zeros: seq<Byte>)
    ensures var body := s + x + r;
            && [] + s + x + [] + r + [] == body && [] + s + x + [] + r + spaces == body + spaces
            && [] + s + x + zeros + r + [] == body[..|s| + |x|] + zeros + body[|s| + |x|..]
            && spaces + s + x + [] + r + [] == spaces + body
  {}

  lemma NothingRepeated(n: int)
    ensures n <= 0 ==> Repeat(32, n) == [] && Repeat(48, n) == []
  {}

  // ---- Digits and commas ----

  /** Low digit first: commas stand after every `g` digits, with a digit after each; `k`
      digits have come since the last one. */
  predicate Grouped(s: seq<Byte>, g: nat, k: nat) {
    s == [] ||
    (if s[0] == 44 then k == g && |s| >= 2 && s[1] != 44 && Grouped(s[1..], g, 0)
     else k < g && Grouped(s[1..], g, k + 1))
  }

  lemma QuotientOf(q: nat, g: nat, r: nat)
    requires r < g
    ensures (q * g + r) % g == r
  {
    DivMod(q * g + r, g);
    var p := (q * g + r) / g;
    assert (q - p) * g == (q * g + r) % g - r;
    if q > p { Times(1, q - p, g); } else if q < p { Times(q - p, -1, g); }
  }

  /** The digits before count `cnt` = q groups and r digits, with r from 1 to g. */
  lemma {:induction false} CommasInPlace(value: nat, b: Base, cnt: nat, q: nat, r: nat)
    requires BaseOk(b) && cnt == q * b.group + r && r <= b.group && (cnt > 0 ==> r > 0)
    ensures Grouped(LowFirst(value, b, true, cnt), b.group, r)
    decreases value
  {
    if value > 0 {
      hide BaseOk;
      BaseParts(b, value);
      NoComma(b, value % b.base);
      var g, rest, digit := b.group, LowFirst(value / b.base, b, true, cnt + 1), b.digits[value % b.base];
      if r == g {
        QuotientOf(q + 1, g, 0);
        assert cnt == (q + 1) * g + 0;
        CommasInPlace(value / b.base, b, cnt + 1, q + 1, 1);
        assert LowFirst(value, b, true, cnt) == [44, digit] + rest;
      } else {
        QuotientOf(q, g, r);
        CommasInPlace(value / b.base, b, cnt + 1, q, r + 1);
        assert LowFirst(value, b, true, cnt) == [digit] + rest;
      }
      hide LowFirst, LowStep;
      GroupedOn(digit, rest, g, r);
    }
  }

  lemma GroupedOn(digit: Byte, rest: seq<Byte>, g: nat, r: nat)
    requires digit != 44 && 0 < g && r <= g && Grouped(rest, g, if r == g then 1 else r + 1)
    ensures if r == g then Grouped([44, digit] + rest, g, r) else Grouped([digit] + rest, g, r)
  {
    assert ([digit] + rest)[1..] == rest && ([44, digit] + rest)[1..] == [digit] + rest;
  }

  lemma NoComma(b: Base, i: nat)
    requires BaseOk(b) && i < |b.digits|
    ensures b.digits[i] != 44
  {}

  lemma {:induction false} NoCommas(value: nat, b: Base, cnt: nat)
    requires BaseOk(b)
    ensures 44 !in LowFirst(value, b, false, cnt)
    decreases value
  {
    if value > 0 {
      BaseParts(b, value);
      NoComma(b, value % b.base);
      NoCommas(value / b.base, b, cnt + 1);
    }
  }

  /** The high digit of a value is no zero. */
  lemma {:induction false} HighDigit(value: nat, b: Base, grouped: bool, cnt: nat)
    requires BaseOk(b) && value > 0
    ensures var s := LowFirst(value, b, grouped, cnt); s != [] && s[|s| - 1] != 48 && s[|s| - 1] != 44
    decreases value
  {
    BaseParts(b, value);
    NoComma(b, value % b.base);
    var step, rest := LowStep(value, b, grouped, cnt), LowFirst(value / b.base, b, grouped, cnt + 1);
    if value / b.base > 0 {
      HighDigit(value / b.base, b, grouped, cnt + 1);
      assert (step + rest)[|step + rest| - 1] == rest[|rest| - 1];
    } else {
      DivMod(value, b.base);
      assert value % b.base != 0;
      assert b.digits[value % b.base] != b.digits[0];
    }
  }

  /** The digits of a conversion, low digit first: those of the value, none for zero,
      with commas after every group if asked for; and then zeros, as many as the
      precision (one if none is given) and the # flag of base 8 need. */
  lemma DigitsShown(value: nat, b: Base, c: Conversion) returns (d: seq<Byte>, n: nat)
    requires BaseOk(b)
    ensures LowDigits(value, b, c) == d + Repeat(48, n) && ValueOf(d, b) == value
    ensures (value == 0 ==> d == []) && (value > 0 ==> d != [] && d[|d| - 1] != 48 && d[|d| - 1] != 44)
    ensures if c.flags.group then Grouped(d, b.group, 0) else 44 !in d
    ensures var wanted := Min(if c.precision < 0 then 1 else c.precision, 63);
            var short := if |d| < wanted then wanted - |d| else 0;
            n == if c.flags.pound && b.base == 8 && short == 0 then 1 else short
  {
    d := LowFirst(value, b, c.flags.group, 0);
    LowFirstReads(value, b, c.flags.group, 0);
    if value > 0 {
      HighDigit(value, b, c.flags.group, 0);
    }
    if c.flags.group {
      CommasInPlace(value, b, 0, 0, 0);
    } else {
      NoCommas(value, b, 0);
    }
    var wanted := Min(if c.precision < 0 then 1 else c.precision, 63);
    ZeroDigits(value, b, c, d);
    n := EndZeros(d, wanted, c.flags.pound && b.base == 8);
  }

  lemma ZeroDigits(value: nat, b: Base, c: Conversion, d: seq<Byte>)
    requires BaseOk(b) && d == LowFirst(value, b, c.flags.group, 0)
    ensures value == 0 ==> d == []
  {}

  lemma EndZeros(d: seq<Byte>, wanted: int, octal: bool) returns (n: nat)
    requires d == [] || d[|d| - 1] != 48
    ensures var short := if |d| < wanted then wanted - |d| else 0; n == if octal && short == 0 then 1 else short
    ensures var e := d + Repeat(48, wanted - |d|);
            (if octal && (e == [] || e[|e| - 1] != 48) then e + [48] else e) == d + Repeat(48, n)
  {
    var short := if |d| < wanted then wanted - |d| else 0;
    n := if octal && short == 0 then 1 else short;
    var e := d + Repeat(48, wanted - |d|);
    if short > 0 {
      assert e[|e| - 1] == 48;
    } else {
      assert e == d;
      assert Repeat(48, 1) == [48];
    }
  }
}
