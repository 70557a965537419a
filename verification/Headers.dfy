/** What headers of the ustar Interchange Format are taken for what, and what the made
    ones say, in plain bytes (`pintos/src/lib/ustar.c`). */
module Headers {
  import opened Basics
  import opened Printf
  import opened Ustar

  // ---- Fields ----

  /** The number that octal digits in ASCII write. */
  function Number(s: seq<Byte>): int {
    if s == [] then 0 else 8 * Number(s[..|s| - 1]) + s[|s| - 1] as int - 48
  }

  /** The field has digits, then a space or a null byte, and they write `v`, which fits
      32 bits. */
  ghost predicate ReadsAs(field: seq<Byte>, v: int) {
    v <= 0xFFFF_FFFF && exists n :: EndsAt(field, n) && v == Number(field[..n])
  }

  predicate EndsAt(field: seq<Byte>, n: int) {
    0 < n < |field| && (field[n] == 32 || field[n] == 0) && forall i :: 0 <= i < n ==> 48 <= field[i] <= 55
  }

  lemma {:induction false} NumberIs(s: seq<Byte>)
    requires AllOctal(s)
    ensures OctalValue(s) == Number(s)
  {
    if s != [] {
      NumberIs(s[..|s| - 1]);
    }
  }

  lemma EndIsOne(field: seq<Byte>, m: int, n: int)
    requires EndsAt(field, m) && EndsAt(field, n)
    ensures m == n
  {}

  lemma EndsIff(field: seq<Byte>, n: int)
    ensures EndsAt(field, n) <==> n == DigitCount(field, 0) && 0 < n < |field| && (field[n] == 32 || field[n] == 0)
  {}

  /** `parse_octal_field` has an answer if and only if the field reads as a number, and
      it is that number. */
  lemma ParseReads(field: seq<Byte>, v: int)
    ensures ReadsAs(field, v) <==> v >= 0 && ParseOctal(field, 0, 0) == Some(v)
  {
    ParseOctalIff(field);
    var n := DigitCount(field, 0);
    NumberIs(field[..n]);
    EndsIff(field, n);
    if ReadsAs(field, v) {
      var m :| EndsAt(field, m) && v == Number(field[..m]);
      EndsIff(field, m);
    }
  }

  lemma ParseFails(field: seq<Byte>)
    ensures ParseOctal(field, 0, 0).None? <==> !exists v :: ReadsAs(field, v)
  {
    if ParseOctal(field, 0, 0).Some? {
      ParseReads(field, ParseOctal(field, 0, 0).value);
    }
    forall v | ReadsAs(field, v)
      ensures ParseOctal(field, 0, 0).Some?
    {
      ParseReads(field, v);
    }
  }

  // ---- The checksum ----

  function ByteSum(s: seq<Byte>): nat {
    if s == [] then 0 else s[0] + ByteSum(s[1..])
  }

  /** All bytes, with eight spaces in place of the checksum field. */
  function Sum(h: seq<Byte>): nat
    requires |h| == 512
  {
    ByteSum(h[..148]) + 8 * 32 + ByteSum(h[156..])
  }

  lemma {:induction false} SumUpTo(h: seq<Byte>, i: nat, n: nat)
    requires i <= n <= |h| && (n <= 148 || 156 <= i)
    ensures SumFrom(h, i) == ByteSum(h[i..n]) + SumFrom(h, n)
    decreases n - i
  {
    if i < n {
      SumUpTo(h, i + 1, n);
      assert h[i..n][1..] == h[i + 1..n];
    }
  }

  lemma SumIs(h: seq<Byte>)
    requires |h| == 512
    ensures SumFrom(h, 0) == Sum(h)
  {
    SumUpTo(h, 0, 148);
    SumUpTo(h, 156, 512);
    assert h[0..148] == h[..148] && h[156..512] == h[156..];
    FieldSum(h, 148);
  }

  lemma {:induction false} FieldSum(h: seq<Byte>, i: nat)
    requires |h| == 512 && 148 <= i <= 156
    ensures SumFrom(h, i) == 32 * (156 - i) + SumFrom(h, 156)
    decreases 156 - i
  {
    if i < 156 {
      FieldSum(h, i + 1);
    }
  }

  // ---- Names ----

  /** `p` is made of steps to the root, to the same place and up, one after another. */
  predicate Steps(p: seq<Byte>) {
    || p == []
    || (p[0] == 47 && Steps(p[1..]))
    || (|p| >= 2 && p[0] == 46 && p[1] == 47 && Steps(p[2..]))
    || (|p| >= 3 && p[0] == 46 && p[1] == 46 && p[2] == 47 && Steps(p[3..]))
  }

  predicate BeginsWithStep(s: seq<Byte>) {
    || (|s| >= 1 && s[0] == 47) || (|s| >= 2 && s[0] == 46 && s[1] == 47)
    || (|s| >= 3 && s[0] == 46 && s[1] == 46 && s[2] == 47)
  }

  lemma {:induction false} StripSteps(s: seq<Byte>) returns (k: nat)
    ensures k <= |s| && Steps(s[..k]) && !BeginsWithStep(s[k..]) && StripAll(s) == s[k..]
    decreases |s|
  {
    hide Steps, BeginsWithStep, Antisocial, AfterSlash, StripAll;
    FirstStep(s);
    if Antisocial(s) {
      var rest := AfterSlash(s);
      var m := StripSteps(rest);
      var j := |s| - |rest|;
      k := m + j;
      Sliced(s, j, m);
      OneStepMore(s[..j], rest[..m]);
    } else {
      k := 0;
      assert s[0..] == s && s[..0] == [];
    }
  }

  lemma FirstStep(s: seq<Byte>)
    ensures Steps([]) && StripAll(s) == if Antisocial(s) then StripAll(AfterSlash(s)) else s
    ensures if Antisocial(s) then
              var j := |s| - |AfterSlash(s)|;
              && 0 <= j <= |s| && AfterSlash(s) == s[j..] && (s[..j] == [47] || s[..j] == [46, 47] || s[..j] == [46, 46, 47])
            else !BeginsWithStep(s)
  {
    StripOne(s);
    StepIs(s);
    hide StripAll, Steps, BeginsWithStep;
    if Antisocial(s) {
      var j := if s[0] == SLASH then 1 else if s[1] == SLASH then 2 else 3;
      assert AfterSlash(s) == s[j..];
      assert s[..j] == if j == 1 then [47] else if j == 2 then [46, 47] else [46, 46, 47];
    }
  }

  lemma StepIs(s: seq<Byte>)
    ensures Antisocial(s) <==> BeginsWithStep(s)
  {}

  lemma StripOne(s: seq<Byte>)
    ensures StripAll(s) == if Antisocial(s) then StripAll(AfterSlash(s)) else s
    ensures Steps([])
  {
    hide AfterSlash;
  }

  lemma Sliced(s: seq<Byte>, j: nat, m: nat)
    requires j + m <= |s|
    ensures s[j..][m..] == s[m + j..] && s[..m + j] == s[..j] + s[j..][..m]
  {}

  lemma OneStepMore(step: seq<Byte>, p: seq<Byte>)
    requires Steps(p) && (step == [47] || step == [46, 47] || step == [46, 46, 47])
    ensures Steps(step + p)
  {
    assert (step + p)[|step|..] == p;
  }

  /** Stripping a name takes all such steps off its front and nothing else; what is then
      empty or two dots becomes one dot. */
  lemma StrippedIs(s: seq<Byte>) returns (k: nat)
    ensures k <= |s| && Steps(s[..k]) && !BeginsWithStep(s[k..])
    ensures Stripped(s) == if s[k..] == [] || s[k..] == [46, 46] then [46] else s[k..]
  {
    k := StripSteps(s);
  }

  lemma {:induction false} CStringEnds(s: seq<Byte>)
    ensures |CString(s)| <= |s| && CString(s) == s[..|CString(s)|] && 0 !in CString(s)
    ensures |CString(s)| < |s| ==> s[|CString(s)|] == 0
  {
    if s != [] && s[0] != 0 {
      CStringEnds(s[1..]);
      assert s == [s[0]] + s[1..];
    }
  }

  // ---- What is taken for an entry ----

  predicate Empty(h: seq<Byte>) { forall i :: 0 <= i < |h| ==> h[i] == 0 }

  predicate IsUstar(h: seq<Byte>)
    requires |h| == 512
  {
    h[257] == 117 && h[258] == 115 && h[259] == 116 && h[260] == 97 && h[261] == 114 && h[262] == 0
  }

  predicate IsVersion00(h: seq<Byte>)
    requires |h| == 512
  {
    h[263] == 48 && h[264] == 48
  }

  ghost predicate HasNumber(field: seq<Byte>) { exists v :: ReadsAs(field, v) }

  predicate NameFits(h: seq<Byte>)
    requires |h| == 512
  {
    h[99] == 0 && h[345] == 0
  }

  predicate KnownKind(h: seq<Byte>)
    requires |h| == 512
  {
    h[156] == 48 || h[156] == 53
  }

  ghost predicate SizeFits(h: seq<Byte>)
    requires |h| == 512
  {
    exists v :: v <= 0x7FFF_FFFF && ReadsAs(h[124..136], v)
  }

  lemma MagicIs(h: seq<Byte>)
    requires |h| == 512
    ensures h[257..263] == UstarText() + [0] <==> IsUstar(h)
    ensures IsUstar(h) ==> !Empty(h)
  {
    if IsUstar(h) {
      assert h[257..263] == UstarText() + [0];
      assert h[257] != 0;
    } else {
      var m := h[257..263];
      assert m[0] == h[257] && m[1] == h[258] && m[2] == h[259] && m[3] == h[260] && m[4] == h[261] && m[5] == h[262];
    }
  }

  /** A header is taken for an entry if and only if it has the magic text and version 00,
      its checksum field reads as the sum of its bytes, its name ends in its field and
      has no prefix, it is a regular file or a directory, and a regular file's size field
      reads as a size that fits; then the entry is what those fields say. */
  lemma EntryIff(h: seq<Byte>)
    requires |h| == 512
    ensures Parse(h).Entry? <==>
              && IsUstar(h) && IsVersion00(h) && ReadsAs(h[148..156], Sum(h)) && NameFits(h) && KnownKind(h)
              && (h[156] == 48 ==> SizeFits(h))
    ensures Parse(h).Entry? ==>
              && Parse(h).kind == h[156]
              && (if h[156] == 48 then Parse(h).size <= 0x7FFF_FFFF && ReadsAs(h[124..136], Parse(h).size) else Parse(h).size == 0)
              && exists n :: 0 <= n < 100 && h[n] == 0 && 0 !in h[..n] && Parse(h).name == Stripped(h[..n])
  {
    hide Stripped, CString, ParseOctal, SumFrom, Empty, ReadsAs;
    FieldsParsed(h);
    if Parse(h).Entry? {
      NameEnds(h);
    }
  }

  /** What the parts of the parse come to. */
  lemma FieldsParsed(h: seq<Byte>)
    requires |h| == 512
    ensures h[257..263] == UstarText() + [0] <==> IsUstar(h)
    ensures (forall i :: 0 <= i < 512 ==> h[i] == 0) <==> Empty(h)
    ensures IsUstar(h) ==> !Empty(h)
    ensures ParseOctal(h[148..156], 0, 0).None? <==> !HasNumber(h[148..156])
    ensures ParseOctal(h[148..156], 0, 0) == Some(SumFrom(h, 0)) <==> ReadsAs(h[148..156], Sum(h))
    ensures ParseOctal(h[124..136], 0, 0).None? <==> !HasNumber(h[124..136])
    ensures var size := ParseOctal(h[124..136], 0, 0);
            && (size.Some? ==> ReadsAs(h[124..136], size.value))
            && (size.Some? && size.value <= 0x7FFF_FFFF <==> SizeFits(h))
  {
    hide ParseOctal, SumFrom, ReadsAs, Sum;
    MagicIs(h);
    SumIs(h);
    ParseFails(h[148..156]);
    ParseFails(h[124..136]);
    ParseReads(h[148..156], SumFrom(h, 0));
    var size := ParseOctal(h[124..136], 0, 0);
    if size.Some? {
      ParseReads(h[124..136], size.value);
    }
    forall v | ReadsAs(h[124..136], v)
      ensures size == Some(v)
    {
      ParseReads(h[124..136], v);
    }
  }

  lemma NameEnds(h: seq<Byte>)
    requires |h| == 512 && h[99] == 0
    ensures exists n :: 0 <= n < 100 && h[n] == 0 && 0 !in h[..n] && CString(h[..100]) == h[..n]
  {
    CStringEnds(h[..100]);
    var n := |CString(h[..100])|;
    assert h[..100][99] in h[..100];
    assert h[..100][..n] == h[..n];
  }

  /** Everything else is the end of the archive or refused, with the first thing that is
      wrong with it. */
  lemma RefusedFor(h: seq<Byte>)
    requires |h| == 512
    ensures Parse(h) == EndOfArchive <==> Empty(h)
    ensures Parse(h) == Error(NotUstar) <==> !Empty(h) && !IsUstar(h)
    ensures Parse(h) == Error(BadVersion) <==> IsUstar(h) && !IsVersion00(h)
    ensures Parse(h) == Error(CorruptChecksum) <==> IsUstar(h) && IsVersion00(h) && !HasNumber(h[148..156])
    ensures var ok := IsUstar(h) && IsVersion00(h);
            Parse(h) == Error(ChecksumMismatch) <==> ok && HasNumber(h[148..156]) && !ReadsAs(h[148..156], Sum(h))
    ensures var ok := IsUstar(h) && IsVersion00(h) && ReadsAs(h[148..156], Sum(h));
            && (Parse(h) == Error(NameTooLong) <==> ok && !NameFits(h))
            && (Parse(h) == Error(BadType) <==> ok && NameFits(h) && !KnownKind(h))
            && (Parse(h) == Error(CorruptSize) <==> ok && NameFits(h) && h[156] == 48 && !HasNumber(h[124..136]))
            && (Parse(h) == Error(TooLarge) <==> ok && NameFits(h) && h[156] == 48 && HasNumber(h[124..136]) && !SizeFits(h))
  {
    hide Stripped, CString, ParseOctal, SumFrom, Empty, ReadsAs, HasNumber, SizeFits;
    FieldsParsed(h);
    HasNumberIs(h[148..156], Sum(h));
  }

  lemma HasNumberIs(field: seq<Byte>, v: int)
    ensures ReadsAs(field, v) ==> HasNumber(field)
  {}

  // ---- What a made header says ----

  /** The field holds the text `s` and then null bytes. */
  predicate Holds(field: seq<Byte>, s: seq<Byte>) {
    |s| < |field| && field[..|s|] == s && forall i :: |s| <= i < |field| ==> field[i] == 0
  }

  lemma OctalField(h: seq<Byte>, from: nat, width: nat, value: nat)
    requires 0 < width && from + width < |h| && value < Pow8(width) && value <= 0xFFFF_FFFF
    requires forall i :: from <= i <= from + width ==> h[i] == At(OctalText(value, width), i - from)
    ensures ReadsAs(h[from..from + width + 1], value)
  {
    OctalTextReads(value, width);
    hide OctalText;
    var field := h[from..from + width + 1];
    var text := OctalText(value, width);
    forall i | 0 <= i <= width
      ensures field[i] == At(text, i)
    {
      assert field[i] == h[from + i];
    }
    assert field[..width] == text;
    NumberIs(field[..width]);
    assert forall i :: 0 <= i < width ==> field[i] == field[..width][i];
    assert EndsAt(field, width);
  }

  lemma TextField(h: seq<Byte>, from: nat, size: nat, s: seq<Byte>)
    requires from + size <= |h| && |s| < size && forall i :: from <= i < from + size ==> h[i] == At(s, i - from)
    ensures Holds(h[from..from + size], s)
  {
    var field := h[from..from + size];
    forall i | 0 <= i < size
      ensures field[i] == At(s, i)
    {
      assert field[i] == h[from + i];
    }
    assert field[..|s|] == s;
  }

  /** A made header for a name says, field by field: the name, the permissions 644 or 755
      (in octal), user and group 0, the size, the time that stands for all files, its own
      checksum, the kind, no link, the magic text and version, and that root owns it. */
  lemma MadeSays(name: seq<Byte>, kind: Byte, size: nat)
    requires |name| <= 99 && (kind == 48 || kind == 53) && size <= 0x7FFF_FFFF
    ensures var h := Made(name, kind, size);
            && |h| == 512 && Holds(h[0..100], name)
            && ReadsAs(h[100..108], if kind == 48 then 420 else 493) && ReadsAs(h[108..116], 0) && ReadsAs(h[116..124], 0)
            && ReadsAs(h[124..136], size) && ReadsAs(h[136..148], 1136102400) && ReadsAs(h[148..156], Sum(h))
            && h[156] == kind && Holds(h[157..257], []) && IsUstar(h) && IsVersion00(h)
            && Holds(h[265..297], [114, 111, 111, 116]) && Holds(h[297..329], [114, 111, 111, 116])
            && Holds(h[329..512], [])
  {
    hide OctalText, SumFrom, ReadsAs, Holds, EndsAt;
    var g, h := Header(name, kind, size, []), Made(name, kind, size);
    Fields(name, kind, size);
    ChecksumFits(g);
    SumIgnoresField(g, h, 0);
    SumIs(h);
    Pow8s();
    OctalField(h, 148, 7, Sum(h));
  }

  /** All but the checksum. */
  lemma Fields(name: seq<Byte>, kind: Byte, size: nat)
    requires |name| <= 99 && (kind == 48 || kind == 53) && size <= 0x7FFF_FFFF
    ensures var h := Made(name, kind, size);
            && |h| == 512 && Holds(h[0..100], name)
            && ReadsAs(h[100..108], if kind == 48 then 420 else 493) && ReadsAs(h[108..116], 0) && ReadsAs(h[116..124], 0)
            && ReadsAs(h[124..136], size) && ReadsAs(h[136..148], 1136102400)
            && h[156] == kind && Holds(h[157..257], []) && IsUstar(h) && IsVersion00(h)
            && Holds(h[265..297], [114, 111, 111, 116]) && Holds(h[297..329], [114, 111, 111, 116])
            && Holds(h[329..512], [])
  {
    var text := OctalText(SumFrom(Header(name, kind, size, []), 0), 7);
    hide OctalText, SumFrom, ReadsAs, Holds, EndsAt;
    var h := Made(name, kind, size);
    assert forall i :: 0 <= i < 512 ==> h[i] == HeaderByte(name, kind, size, text, i);
    hide HeaderByte, Made, IsUstar, IsVersion00;
    NumberFields(name, kind, size, text, h);
    TextFields(name, kind, size, text, h);
  }

  lemma NumberFields(name: seq<Byte>, kind: Byte, size: nat, text: seq<Byte>, h: seq<Byte>)
    requires (kind == 48 || kind == 53) && size <= 0x7FFF_FFFF
    requires |h| == 512 && forall i :: 0 <= i < 512 ==> h[i] == HeaderByte(name, kind, size, text, i)
    ensures ReadsAs(h[100..108], if kind == 48 then 420 else 493) && ReadsAs(h[108..116], 0) && ReadsAs(h[116..124], 0)
    ensures ReadsAs(h[124..136], size) && ReadsAs(h[136..148], 1136102400)
  {
    hide OctalText, ReadsAs;
    assert AsUnsigned(size) == size;
    Pow8s();
    OctalField(h, 100, 7, if kind == 48 then 420 else 493);
    OctalField(h, 124, 11, size);
    OctalField(h, 136, 11, 1136102400);
    SevenZeros(h, 108);
    SevenZeros(h, 116);
  }

  lemma TextFields(name: seq<Byte>, kind: Byte, size: nat, text: seq<Byte>, h: seq<Byte>)
    requires |h| == 512 && |name| <= 99 && forall i :: 0 <= i < 512 ==> h[i] == HeaderByte(name, kind, size, text, i)
    ensures Holds(h[0..100], name) && h[156] == kind && Holds(h[157..257], []) && IsUstar(h) && IsVersion00(h)
    ensures Holds(h[265..297], [114, 111, 111, 116]) && Holds(h[297..329], [114, 111, 111, 116]) && Holds(h[329..512], [])
  {
    hide OctalText, Holds;
    TextField(h, 0, 100, name);
    TextField(h, 157, 100, []);
    TextField(h, 265, 32, [114, 111, 111, 116]);
    TextField(h, 297, 32, [114, 111, 111, 116]);
    TextField(h, 329, 183, []);
  }

  lemma SevenZeros(h: seq<Byte>, from: nat)
    requires from + 8 <= |h| && forall i :: from <= i < from + 8 ==> h[i] == At(ZerosText(), i - from)
    ensures ReadsAs(h[from..from + 8], 0)
  {
    var field := h[from..from + 8];
    forall i | 0 <= i < 8
      ensures field[i] == if i < 7 then 48 else 0
    {
      assert field[i] == h[from + i];
    }
    ZerosNumber(field[..7]);
    assert EndsAt(field, 7);
  }

  lemma {:induction false} ZerosNumber(s: seq<Byte>)
    requires forall i :: 0 <= i < |s| ==> s[i] == 48
    ensures Number(s) == 0
  {
    if s != [] {
      ZerosNumber(s[..|s| - 1]);
    }
  }
}
