/** Headers of the ustar Interchange Format (`pintos/src/lib/ustar.c`): made with
    `snprintf`, parsed back digit by digit. */
module Ustar {
  import opened Basics
  import opened Printf

  const HEADER_SIZE := 512
  const DOT: Byte := 46
  const SLASH: Byte := 47
  const REGULAR: Byte := 48
  const DIRECTORY: Byte := 53
  const INT_MAX := 0x7FFF_FFFF
  const ULONG_MAX := 0xFFFF_FFFF
  const MTIME := 1136102400

  function UstarText(): seq<Byte> { [117, 115, 116, 97, 114] }
  function RootText(): seq<Byte> { [114, 111, 111, 116] }

  // ---- File names ----

  predicate Antisocial(s: seq<Byte>) {
    || (|s| >= 1 && s[0] == SLASH)
    || (|s| >= 2 && s[0] == DOT && s[1] == SLASH)
    || (|s| >= 3 && s[0] == DOT && s[1] == DOT && s[2] == SLASH)
  }

  /** What follows the first slash. */
  function AfterSlash(s: seq<Byte>): (r: seq<Byte>)
    requires Antisocial(s)
    ensures |r| < |s|
  {
    if s[0] == SLASH then s[1..] else if s[1] == SLASH then s[2..] else s[3..]
  }

  function StripAll(s: seq<Byte>): (r: seq<Byte>)
    ensures !Antisocial(r) && |r| <= |s| && r == s[|s| - |r|..]
    decreases |s|
  {
    if Antisocial(s) then StripAll(AfterSlash(s)) else s
  }

  function Stripped(s: seq<Byte>): seq<Byte> {
    var r := StripAll(s);
    if r == [] || r == [DOT, DOT] then [DOT] else r
  }

  /** `strip_antisocial_prefixes`. */
  method StripAntisocialPrefixes(fileName: seq<Byte>) returns (r: seq<Byte>)
    ensures r == Stripped(fileName)
  {
    r := fileName;
    while Antisocial(r)
      invariant StripAll(r) == StripAll(fileName)
      decreases |r|
    {
      r := AfterSlash(r);
    }
    if r == [] || r == [DOT, DOT] {
      r := [DOT];
    }
  }

  /** A stripped name leads nowhere outside: it is not empty, not absolute and
      does not begin with a step up; stripping it again changes nothing. */
  lemma StrippedIsSafe(s: seq<Byte>)
    ensures var r := Stripped(s);
            r != [] && !Antisocial(r) && r != [DOT, DOT] && Stripped(r) == r
  {}

  // ---- Octal fields ----

  predicate IsOctal(ch: Byte) { ZERO <= ch < ZERO + 8 }

  predicate AllOctal(s: seq<Byte>) { forall i :: 0 <= i < |s| ==> IsOctal(s[i]) }

  /** The value of octal digits, high digit first. */
  function OctalValue(s: seq<Byte>): nat
    requires AllOctal(s)
  {
    if s == [] then 0 else 8 * OctalValue(s[..|s| - 1]) + (s[|s| - 1] - ZERO)
  }

  function Octal(width: nat): Conversion {
    Conversion(Flags(false, false, false, false, true, false), width, -1)
  }

  /** What `%0<width>o` puts out. */
  function OctalText(value: nat, width: nat): seq<Byte> {
    Rendering(value, false, false, BaseO(), Octal(width))
  }

  lemma {:induction false} LowFirstOctal(value: nat, cnt: nat, k: nat)
    requires value < Pow8(k)
    ensures AllOctal(LowFirst(value, BaseO(), false, cnt)) && |LowFirst(value, BaseO(), false, cnt)| <= k
    decreases value
  {
    if value > 0 {
      LowFirstOctal(value / 8, cnt + 1, k - 1);
    }
  }

  lemma OctalIndex(ch: Byte)
    requires IsOctal(ch)
    ensures DigitIndex(BaseO(), ch) == ch - ZERO
  {
    assert BaseO().digits[ch - ZERO] == ch;
  }

  /** Reading from the high digit and reading from the low digit agree. */
  lemma {:induction false} ReadBothWays(s: seq<Byte>)
    requires AllOctal(s)
    ensures AllOctal(Reverse(s)) && OctalValue(Reverse(s)) == ValueOf(s, BaseO())
  {
    if s != [] {
      ReadBothWays(s[1..]);
      OctalIndex(s[0]);
      assert Reverse(s)[..|s| - 1] == Reverse(s[1..]);
    }
  }

  lemma {:induction false} LeadingZeros(n: int, s: seq<Byte>)
    requires AllOctal(s)
    ensures AllOctal(Repeat(ZERO, n) + s) && OctalValue(Repeat(ZERO, n) + s) == OctalValue(s)
  {
    var z := Repeat(ZERO, n);
    if s != [] {
      LeadingZeros(n, s[..|s| - 1]);
      assert (z + s)[..|z + s| - 1] == z + s[..|s| - 1];
    } else if n > 0 {
      LeadingZeros(n - 1, s);
      assert (z + s)[..|z + s| - 1] == Repeat(ZERO, n - 1) + s;
    } else {
      assert z + s == s;
    }
  }

  /** A field printed in octal has as many digits as asked for, if the value fits,
      and they read back as the value. */
  lemma OctalTextReads(value: nat, width: nat)
    requires value < Pow8(width) && width > 0
    ensures |OctalText(value, width)| == width && AllOctal(OctalText(value, width))
    ensures OctalValue(OctalText(value, width)) == value
  {
    hide LowDigits, Rendering, BaseO, OctalText, Reverse;
    var d := LowDigits(value, BaseO(), Octal(width));
    LowDigitsOctal(value, width);
    DigitsReadBack(value, BaseO(), Octal(width));
    ReadBothWays(d);
    LeadingZeros(width - |d|, Reverse(d));
    OctalTextIs(value, width);
  }

  lemma LowDigitsOctal(value: nat, width: nat)
    requires value < Pow8(width) && width > 0
    ensures var d := LowDigits(value, BaseO(), Octal(width)); AllOctal(d) && |d| <= width
  {
    LowFirstOctal(value, 0, width);
  }

  lemma OctalTextIs(value: nat, width: nat)
    ensures var d := LowDigits(value, BaseO(), Octal(width));
            OctalText(value, width) == Repeat(ZERO, width - |d|) + Reverse(d)
  {
    hide LowDigits, Reverse, Repeat;
  }

  datatype Option<T> = None | Some(value: T)

  /** `parse_octal_field` of a field from byte `ofs` on, with `value` so far; it
      has no answer for a field without digits or without an end, with another
      character, or with a value that does not fit. */
  function ParseOctal(s: seq<Byte>, ofs: nat, value: nat): Option<nat>
    requires ofs <= |s|
    decreases |s| - ofs
  {
    if ofs == |s| then None
    else if IsOctal(s[ofs]) then
      (if value > ULONG_MAX / 8 then None else ParseOctal(s, ofs + 1, s[ofs] - ZERO + value * 8))
    else if (s[ofs] == SPACE || s[ofs] == 0) && ofs > 0 then Some(value)
    else None
  }

  method ParseOctalField(header: array<Byte>, start: nat, size: nat) returns (value: Option<nat>)
    requires start + size <= header.Length
    ensures value == ParseOctal(header[start..start + size], 0, 0)
  {
    ghost var s := header[start..start + size];
    var v: nat := 0;
    for ofs := 0 to size
      invariant ParseOctal(s, ofs, v) == ParseOctal(s, 0, 0)
    {
      var c := header[start + ofs];
      if IsOctal(c) {
        if v > ULONG_MAX / 8 {
          return None;
        }
        v := c - ZERO + v * 8;
      } else if c == SPACE || c == 0 {
        return if ofs > 0 then Some(v) else None;
      } else {
        return None;
      }
    }
    return None;
  }

  /** Where the digits of a field end. */
  function DigitCount(s: seq<Byte>, from: nat): (n: nat)
    requires from <= |s|
    ensures from <= n <= |s| && (forall i :: from <= i < n ==> IsOctal(s[i])) && (n < |s| ==> !IsOctal(s[n]))
    decreases |s| - from
  {
    if from < |s| && IsOctal(s[from]) then DigitCount(s, from + 1) else from
  }

  /** A field parses exactly if it has digits, they are followed by a space or a
      null byte, and their value fits; then the answer is their value. */
  lemma ParseOctalIff(s: seq<Byte>)
    ensures var n := DigitCount(s, 0);
            && AllOctal(s[..n])
            && ParseOctal(s, 0, 0)
               == if 0 < n < |s| && (s[n] == SPACE || s[n] == 0) && OctalValue(s[..n]) <= ULONG_MAX then Some(OctalValue(s[..n]))
                  else None
  {
    ParseOctalFrom(s, 0);
    assert s[..0] == [];
  }

  lemma {:induction false} ParseOctalFrom(s: seq<Byte>, ofs: nat)
    requires ofs <= |s| && AllOctal(s[..ofs]) && OctalValue(s[..ofs]) <= ULONG_MAX
    ensures var n := DigitCount(s, ofs);
            && AllOctal(s[..n])
            && ParseOctal(s, ofs, OctalValue(s[..ofs]))
               == if 0 < n < |s| && (s[n] == SPACE || s[n] == 0) && OctalValue(s[..n]) <= ULONG_MAX then Some(OctalValue(s[..n]))
                  else None
    decreases |s| - ofs
  {
    if ofs < |s| && IsOctal(s[ofs]) {
      assert s[..ofs + 1][..ofs] == s[..ofs];
      if OctalValue(s[..ofs]) > ULONG_MAX / 8 {
        ValueGrows(s, ofs + 1, DigitCount(s, ofs));
      } else {
        ParseOctalFrom(s, ofs + 1);
      }
    }
  }

  lemma {:induction false} ValueGrows(s: seq<Byte>, m: nat, n: nat)
    requires m <= n <= |s| && AllOctal(s[..n])
    ensures AllOctal(s[..m]) && OctalValue(s[..m]) <= OctalValue(s[..n])
  {
    assert forall i :: 0 <= i < m ==> s[..m][i] == s[..n][i];
    if m < n {
      assert s[..n][..n - 1] == s[..n - 1];
      ValueGrows(s, m, n - 1);
    }
  }

  /** Digits, a null byte, and anything after it. */
  lemma ParseDigits(s: seq<Byte>, n: nat)
    requires 0 < n < |s| && AllOctal(s[..n]) && s[n] == 0 && OctalValue(s[..n]) <= ULONG_MAX
    ensures ParseOctal(s, 0, 0) == Some(OctalValue(s[..n]))
  {
    ParseOctalIff(s);
    assert forall i :: 0 <= i < n ==> s[i] == s[..n][i];
    assert DigitCount(s, 0) == n;
  }

  // ---- The checksum ----

  function Counted(h: seq<Byte>, i: nat): Byte
    requires i < |h|
  {
    if 148 <= i < 156 then SPACE else h[i]
  }

  /** The sum of the bytes from `i` on, the checksum field read as spaces. */
  function SumFrom(h: seq<Byte>, i: nat): nat
    requires i <= |h|
    decreases |h| - i
  {
    if i == |h| then 0 else Counted(h, i) + SumFrom(h, i + 1)
  }

  method CalculateChksum(header: array<Byte>) returns (chksum: nat)
    ensures chksum == SumFrom(header[..], 0)
  {
    chksum := 0;
    for i := 0 to header.Length
      invariant chksum + SumFrom(header[..], i) == SumFrom(header[..], 0)
    {
      chksum := chksum + (if 148 <= i < 156 then SPACE else header[i]);
    }
  }

  /** The checksum does not depend on its own field. */
  lemma {:induction false} SumIgnoresField(g: seq<Byte>, h: seq<Byte>, i: nat)
    requires |g| == |h| && i <= |h| && forall k :: i <= k < |h| && !(148 <= k < 156) ==> g[k] == h[k]
    ensures SumFrom(g, i) == SumFrom(h, i)
    decreases |h| - i
  {
    if i < |h| {
      SumIgnoresField(g, h, i + 1);
    }
  }

  lemma {:induction false} SumFits(h: seq<Byte>, i: nat)
    requires i <= |h|
    ensures SumFrom(h, i) <= 255 * (|h| - i)
    decreases |h| - i
  {
    if i < |h| {
      SumFits(h, i + 1);
    }
  }

  /** Another byte outside the checksum field makes another checksum. */
  lemma {:induction false} SumSeesByte(g: seq<Byte>, h: seq<Byte>, i: nat, p: nat)
    requires |g| == |h| && i <= p < |h| && !(148 <= p < 156) && g[p] != h[p]
    requires forall k :: 0 <= k < |h| && k != p ==> g[k] == h[k]
    ensures SumFrom(g, i) + h[p] as int == SumFrom(h, i) + g[p] as int
    decreases |h| - i
  {
    if i < p {
      SumSeesByte(g, h, i + 1, p);
    } else {
      SumIgnoresField(g, h, i + 1);
    }
  }

  // ---- Making a header ----

  /** Byte `k` of a field that holds `s` and null bytes. */
  function At(s: seq<Byte>, k: int): Byte
    requires k >= 0
  {
    if k < |s| then s[k] else 0
  }

  function ZerosText(): seq<Byte> { Repeat(ZERO, 7) }

  /** What the code passes for a `size` argument to a `%o` conversion. */
  function AsUnsigned(size: int): nat { size % 0x1_0000_0000 }

  /** Byte `i` of the header for a file of this name, kind and size. */
  function HeaderByte(name: seq<Byte>, kind: Byte, size: int, chksum: seq<Byte>, i: nat): Byte {
    if i < 100 then At(name, i)
    else if i < 108 then At(OctalText(if kind == REGULAR then 420 else 493, 7), i - 100)
    else if i < 116 then At(ZerosText(), i - 108)
    else if i < 124 then At(ZerosText(), i - 116)
    else if i < 136 then At(OctalText(AsUnsigned(size), 11), i - 124)
    else if i < 148 then At(OctalText(MTIME, 11), i - 136)
    else if i < 156 then At(chksum, i - 148)
    else if i == 156 then kind
    else if i < 257 then 0
    else if i < 263 then At(UstarText(), i - 257)
    else if i < 265 then ZERO
    else if i < 297 then At(RootText(), i - 265)
    else if i < 329 then At(RootText(), i - 297)
    else 0
  }

  function Header(name: seq<Byte>, kind: Byte, size: int, chksum: seq<Byte>): (h: seq<Byte>)
    ensures |h| == HEADER_SIZE
  {
    seq(HEADER_SIZE, i requires 0 <= i < HEADER_SIZE => HeaderByte(name, kind, size, chksum, i))
  }

  function Made(name: seq<Byte>, kind: Byte, size: int): (h: seq<Byte>)
    ensures |h| == HEADER_SIZE
  {
    Header(name, kind, size, OctalText(SumFrom(Header(name, kind, size, []), 0), 7))
  }

  /** `strlcpy` into a field of `size` bytes. */
  method Strlcpy(header: array<Byte>, start: nat, src: seq<Byte>, size: nat)
    requires 0 < size && start + size <= header.Length
    modifies header
    ensures var n := Min(|src|, size - 1);
            forall i :: 0 <= i < header.Length ==>
              header[i] == if start <= i < start + n then src[i - start] else if i == start + n then 0 else old(header[i])
  {
    var n: nat := Min(|src|, size - 1);
    forall i | 0 <= i < n {
      header[start + i] := src[i];
    }
    header[start + n] := 0;
  }

  /** `snprintf` with `%0<width>o`. */
  method PutOctal(header: array<Byte>, start: nat, value: nat, width: nat)
    requires value < UINTMAX && start + width < header.Length && |OctalText(value, width)| == width
    modifies header
    ensures forall i :: 0 <= i < header.Length ==>
              header[i] == if start <= i < start + width then OctalText(value, width)[i - start]
                           else if i == start + width then 0 else old(header[i])
  {
    hide Rendering;
    var length := Snprintf(header, start, width + 1, value, BaseO(), Octal(width));
  }

  lemma FieldWidths(kind: Byte, size: int)
    ensures |OctalText(if kind == REGULAR then 420 else 493, 7)| == 7
    ensures |OctalText(AsUnsigned(size), 11)| == 11 && |OctalText(MTIME, 11)| == 11
    ensures AsUnsigned(size) < UINTMAX
  {
    Pow8s();
    OctalTextReads(if kind == REGULAR then 420 else 493, 7);
    OctalTextReads(AsUnsigned(size), 11);
    OctalTextReads(MTIME, 11);
  }

  lemma Pow8s()
    ensures Pow8(7) == 0x20_0000 && Pow8(11) == 0x2_0000_0000
  {}

  /** Everything but the checksum. */
  method FillHeader(name: seq<Byte>, kind: Byte, size: int, header: array<Byte>)
    requires |name| <= 99 && header.Length == HEADER_SIZE
    modifies header
    ensures header[..] == Header(name, kind, size, [])
  {
    hide OctalText, Rendering;
    forall i | 0 <= i < HEADER_SIZE {
      header[i] := 0;
    }
    FieldWidths(kind, size);
    Strlcpy(header, 0, name, 100);
    PutOctal(header, 100, if kind == REGULAR then 420 else 493, 7);
    Strlcpy(header, 108, ZerosText(), 8);
    Strlcpy(header, 116, ZerosText(), 8);
    PutOctal(header, 124, AsUnsigned(size), 11);
    PutOctal(header, 136, MTIME, 11);
    header[156] := kind;
    Strlcpy(header, 257, UstarText(), 6);
    header[263], header[264] := ZERO, ZERO;
    Strlcpy(header, 297, RootText(), 32);
    Strlcpy(header, 265, RootText(), 32);
  }

  lemma ChecksumFits(h: seq<Byte>)
    requires |h| == HEADER_SIZE
    ensures SumFrom(h, 0) < Pow8(7) && SumFrom(h, 0) < UINTMAX && |OctalText(SumFrom(h, 0), 7)| == 7
    ensures AllOctal(OctalText(SumFrom(h, 0), 7)) && OctalValue(OctalText(SumFrom(h, 0), 7)) == SumFrom(h, 0)
  {
    Pow8s();
    SumFits(h, 0);
    OctalTextReads(SumFrom(h, 0), 7);
  }

  /** `ustar_make_header`: a header, unless the stripped name is too long. */
  method MakeHeader(fileName: seq<Byte>, kind: Byte, size: int, header: array<Byte>) returns (ok: bool)
    requires (kind == REGULAR || kind == DIRECTORY) && header.Length == HEADER_SIZE
    modifies header
    ensures ok == (|Stripped(fileName)| <= 99)
    ensures header[..] == if ok then Made(Stripped(fileName), kind, size) else old(header[..])
  {
    hide OctalText, Rendering, HeaderByte, Header, Made, Stripped, SumFrom, Pow8, OctalValue;
    var name := StripAntisocialPrefixes(fileName);
    if |name| > 99 {
      return false;
    }
    FillHeader(name, kind, size, header);
    var chksum := CalculateChksum(header);
    ChecksumFits(header[..]);
    PutOctal(header, 148, chksum, 7);
    ChecksumPlaced(name, kind, size, header[..]);
    return true;
  }

  lemma ChecksumPlaced(name: seq<Byte>, kind: Byte, size: int, h: seq<Byte>)
    requires |h| == HEADER_SIZE
    requires var g := Header(name, kind, size, []); var text := OctalText(SumFrom(g, 0), 7);
             |text| == 7 && forall i :: 0 <= i < HEADER_SIZE ==>
               h[i] == if 148 <= i < 155 then text[i - 148] else if i == 155 then 0 else g[i]
    ensures h == Made(name, kind, size)
  {
    hide OctalText, SumFrom;
    ChecksumFits(Header(name, kind, size, []));
  }

  // ---- Parsing a header ----

  datatype Message =
    | NotUstar | BadVersion | CorruptChecksum | ChecksumMismatch | NameTooLong | BadType | CorruptSize | TooLarge

  datatype Parsed = EndOfArchive | Entry(name: seq<Byte>, kind: Byte, size: nat) | Error(message: Message)

  /** The string that ends at the first null byte. */
  function CString(s: seq<Byte>): seq<Byte> {
    if s == [] || s[0] == 0 then [] else [s[0]] + CString(s[1..])
  }

  function Parse(h: seq<Byte>): Parsed
    requires |h| == HEADER_SIZE
  {
    if forall i :: 0 <= i < HEADER_SIZE ==> h[i] == 0 then EndOfArchive
    else if h[257..263] != UstarText() + [0] then Error(NotUstar)
    else if h[263] != ZERO || h[264] != ZERO then Error(BadVersion)
    else
      var chksum := ParseOctal(h[148..156], 0, 0);
      if chksum.None? then Error(CorruptChecksum)
      else if chksum.value != SumFrom(h, 0) then Error(ChecksumMismatch)
      else if h[99] != 0 || h[345] != 0 then Error(NameTooLong)
      else if h[156] != REGULAR && h[156] != DIRECTORY then Error(BadType)
      else if h[156] == DIRECTORY then Entry(Stripped(CString(h[..100])), DIRECTORY, 0)
      else
        var size := ParseOctal(h[124..136], 0, 0);
        if size.None? then Error(CorruptSize)
        else if size.value > INT_MAX then Error(TooLarge)
        else Entry(Stripped(CString(h[..100])), REGULAR, size.value)
  }

  method IsAllZeros(header: array<Byte>) returns (zeros: bool)
    ensures zeros == forall i :: 0 <= i < header.Length ==> header[i] == 0
  {
    for i := 0 to header.Length
      invariant forall k :: 0 <= k < i ==> header[k] == 0
    {
      if header[i] != 0 {
        return false;
      }
    }
    return true;
  }

  /** `ustar_parse_header`. */
  method ParseHeader(header: array<Byte>) returns (r: Parsed)
    requires header.Length == HEADER_SIZE
    ensures r == Parse(header[..])
  {
    hide ParseOctal, SumFrom, Stripped, CString;
    var zeros := IsAllZeros(header);
    if zeros {
      return EndOfArchive;
    }
    assert exists i :: 0 <= i < HEADER_SIZE && header[..][i] != 0;
    if header[257..263] != UstarText() + [0] {
      return Error(NotUstar);
    } else if header[263] != ZERO || header[264] != ZERO {
      return Error(BadVersion);
    }
    var chksum := ParseOctalField(header, 148, 8);
    if chksum.None? {
      return Error(CorruptChecksum);
    }
    var sum := CalculateChksum(header);
    if chksum.value != sum {
      return Error(ChecksumMismatch);
    } else if header[99] != 0 || header[345] != 0 {
      return Error(NameTooLong);
    } else if header[156] != REGULAR && header[156] != DIRECTORY {
      return Error(BadType);
    }
    var size: nat := 0;
    if header[156] == REGULAR {
      var field := ParseOctalField(header, 124, 12);
      if field.None? {
        return Error(CorruptSize);
      } else if field.value > INT_MAX {
        return Error(TooLarge);
      }
      size := field.value;
    }
    var name := StripAntisocialPrefixes(CString(header[..100]));
    return Entry(name, header[156], size);
  }

  // ---- Round trip ----

  lemma {:induction false} CStringOf(name: seq<Byte>, n: nat)
    requires n > 0 && forall i :: 0 <= i < |name| ==> name[i] != 0
    ensures CString(name + Repeat(0, n)) == name
  {
    var s := name + Repeat(0, n);
    if name != [] {
      assert s[1..] == name[1..] + Repeat(0, n);
      CStringOf(name[1..], n);
    }
  }

  lemma StrippedHasNoNull(s: seq<Byte>)
    requires forall i :: 0 <= i < |s| ==> s[i] != 0
    ensures forall i :: 0 <= i < |Stripped(s)| ==> Stripped(s)[i] != 0
  {}

  /** The fields of a made header that parsing looks at. */
  lemma MadeFields(name: seq<Byte>, kind: Byte, size: int)
    requires |name| <= 99
    ensures var h := Made(name, kind, size);
            && h[..100] == name + Repeat(0, 100 - |name|) && h[99] == 0 && h[345] == 0
            && h[124..136] == OctalText(AsUnsigned(size), 11) + [0]
            && h[148..156] == OctalText(SumFrom(h, 0), 7) + [0]
            && h[156] == kind && h[257..263] == UstarText() + [0] && h[263] == h[264] == ZERO
  {
    hide OctalText, SumFrom;
    var g, h := Header(name, kind, size, []), Made(name, kind, size);
    FieldWidths(kind, size);
    ChecksumFits(g);
    SumIgnoresField(g, h, 0);
  }

  lemma ParsesTo(text: seq<Byte>, value: nat)
    requires text != [] && AllOctal(text) && OctalValue(text) == value <= ULONG_MAX
    ensures ParseOctal(text + [0], 0, 0) == Some(value)
  {
    assert (text + [0])[..|text|] == text;
    ParseDigits(text + [0], |text|);
  }

  /** Parsing a made header gives back the stripped name, the kind and the size
      (nothing for a directory); a size that is negative, which is printed as an
      unsigned number, is the one thing refused. */
  lemma RoundTrip(fileName: seq<Byte>, kind: Byte, size: int)
    requires (forall i :: 0 <= i < |fileName| ==> fileName[i] != 0) && |Stripped(fileName)| <= 99
    requires (kind == REGULAR || kind == DIRECTORY) && -INT_MAX - 1 <= size <= INT_MAX
    ensures Parse(Made(Stripped(fileName), kind, size))
         == if kind == DIRECTORY then Entry(Stripped(fileName), kind, 0)
            else if size >= 0 then Entry(Stripped(fileName), kind, size)
            else Error(TooLarge)
  {
    hide OctalText, SumFrom, Made, ParseOctal, CString, Stripped;
    var name := Stripped(fileName);
    var h := Made(name, kind, size);
    MadeFields(name, kind, size);
    assert h[256 + 1] == 117 by { assert h[257..263][0] == 117; }
    ChecksumFits(h);
    ParsesTo(OctalText(SumFrom(h, 0), 7), SumFrom(h, 0));
    Pow8s();
    OctalTextReads(AsUnsigned(size), 11);
    ParsesTo(OctalText(AsUnsigned(size), 11), AsUnsigned(size));
    StrippedHasNoNull(fileName);
    CStringOf(name, 100 - |name|);
    StrippedIsSafe(fileName);
  }

  /** No header in which one byte outside the checksum field has changed is taken
      for an entry. */
  lemma OneByteIsNoticed(g: seq<Byte>, h: seq<Byte>, p: nat)
    requires |g| == |h| == HEADER_SIZE && p < HEADER_SIZE && !(148 <= p < 156) && g[p] != h[p]
    requires forall k :: 0 <= k < HEADER_SIZE && k != p ==> g[k] == h[k]
    requires Parse(h).Entry?
    ensures Parse(g).Error?
  {
    SumSeesByte(g, h, 0, p);
    assert g[148..156] == h[148..156];
    assert h[257..263][0] == 117 && h[257..263][1] == 115;
    assert g[257] != 0 || g[258] != 0;
  }
}
