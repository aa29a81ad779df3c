/** ustar archive headers: the writer, the parser, and the octal numbers they share. */
module Ustar {
  import opened Collections
  import opened InodeIo
  import opened DiskFormat

  const HEADER_SIZE := 512
  const ULONG_MAX := 0xffff_ffff
  const INT_MAX := 0x7fff_ffff

  const SLASH: Byte := 47
  const DOT: Byte := 46
  const BLANK: Byte := 32
  const ZERO: Byte := 48
  const REGULAR: Byte := 48      // '0'
  const DIRECTORY: Byte := 53    // '5'

  // ---------------------------------------------------------------- octal numbers

  /** The digits of `v`, most significant first; one digit for 0. */
  function Octal(v: nat): (s: seq<Byte>)
    ensures |s| > 0
  {
    if v < 8 then [48 + v] else Octal(v / 8) + [48 + v % 8]
  }

  function Repeat(b: Byte, n: nat): (s: seq<Byte>)
    ensures |s| == n
  {
    seq(n, _ => b)
  }

  /** printf's %0*o: at least `width` digits. */
  function Padded(v: nat, width: nat): (s: seq<Byte>) {
    Repeat(ZERO, if |Octal(v)| < width then width - |Octal(v)| else 0) + Octal(v)
  }

  function Power8(n: nat): (p: nat)
    ensures p > 0
  {
    if n == 0 then 1 else 8 * Power8(n - 1)
  }

  lemma {:induction false} OctalFits(v: nat, n: nat)
    requires n > 0 && v < Power8(n)
    ensures |Octal(v)| <= n
    decreases n
  {
    if v >= 8 {
      OctalFits(v / 8, n - 1);
    }
  }

  predicate IsDigit(b: Byte) {
    48 <= b <= 55
  }

  predicate Digits(s: seq<Byte>) {
    forall i | 0 <= i < |s| :: IsDigit(s[i])
  }

  /** The number a string of digits stands for. */
  function Value(s: seq<Byte>): (v: nat)
    requires Digits(s)
  {
    if s == [] then 0 else 8 * Value(s[..|s| - 1]) + (s[|s| - 1] - 48)
  }

  lemma {:induction false} OctalValue(v: nat)
    ensures Digits(Octal(v)) && Value(Octal(v)) == v
  {
    if v >= 8 {
      OctalValue(v / 8);
      assert Octal(v)[..|Octal(v)| - 1] == Octal(v / 8);
    } else {
      assert Octal(v)[..0] == [];
    }
  }

  lemma {:induction false} LeadingZeros(n: nat, s: seq<Byte>)
    requires Digits(s)
    ensures Digits(Repeat(ZERO, n) + s) && Value(Repeat(ZERO, n) + s) == Value(s)
    decreases |s|, n
  {
    var z := Repeat(ZERO, n) + s;
    if s == [] {
      if n > 0 {
        LeadingZeros(n - 1, []);
        assert z[..n - 1] == Repeat(ZERO, n - 1) + [];
      }
    } else {
      LeadingZeros(n, s[..|s| - 1]);
      assert z[..|z| - 1] == Repeat(ZERO, n) + s[..|s| - 1];
    }
  }

  lemma PaddedValue(v: nat, width: nat)
    requires width > 0 && v < Power8(width)
    ensures |Padded(v, width)| == width && Digits(Padded(v, width)) && Value(Padded(v, width)) == v
  {
    OctalFits(v, width);
    OctalValue(v);
    LeadingZeros(width - |Octal(v)|, Octal(v));
  }

  lemma {:induction false} ValueGrows(s: seq<Byte>, n: nat)
    requires Digits(s) && n <= |s|
    ensures Digits(s[..n]) && Value(s[..n]) <= Value(s)
    decreases |s| - n
  {
    if n < |s| {
      ValueGrows(s[..|s| - 1], n);
      assert s[..|s| - 1][..n] == s[..n];
    } else {
      assert s[..n] == s;
    }
  }

  /** parse_octal_field on what a field should hold: the digits in front of a blank or NUL, if
      there are any and they fit an unsigned long. */
  function FieldValue(s: seq<Byte>): (v: Option<nat>) {
    var n := DigitRun(s);
    if n == |s| || n == 0 || (s[n] != BLANK && s[n] != 0) || Value(s[..n]) > ULONG_MAX then None else Some(Value(s[..n]))
  }

  function DigitRun(s: seq<Byte>): (n: nat)
    ensures n <= |s| && Digits(s[..n]) && (n < |s| ==> !IsDigit(s[n]))
  {
    if s == [] || !IsDigit(s[0]) then 0 else
      var n := 1 + DigitRun(s[1..]);
      assert forall i | 0 < i < n :: s[..n][i] == s[1..][..n - 1][i - 1];
      n
  }

  /** parse_octal_field, digit by digit with its overflow test. */
  method ParseOctalField(s: seq<Byte>) returns (r: Option<nat>)
    ensures r == FieldValue(s)
  {
    var value := 0;
    for ofs := 0 to |s|
      invariant ofs <= DigitRun(s) && Digits(s[..ofs]) && value == Value(s[..ofs]) <= ULONG_MAX
    {
      assert ofs < DigitRun(s) <==> IsDigit(s[ofs]) by {
        if ofs < DigitRun(s) { assert s[..DigitRun(s)][ofs] == s[ofs]; }
      }
      var c := s[ofs];
      if 48 <= c <= 55 {
        assert s[..ofs + 1][..ofs] == s[..ofs];
        if value > ULONG_MAX / 8 {
          assert Value(s[..ofs + 1]) > ULONG_MAX;
          ValueGrows(s[..DigitRun(s)], ofs + 1);
          assert s[..DigitRun(s)][..ofs + 1] == s[..ofs + 1];
          return None;
        }
        value := c - 48 + value * 8;
      } else if c == BLANK || c == 0 {
        return if ofs > 0 then Some(value) else None;
      } else {
        return None;
      }
    }
    return None;
  }

  /** A padded number in a field ended by a NUL is read back. */
  lemma OctalRoundTrip(v: nat, width: nat)
    requires width > 0 && v < Power8(width) && v <= ULONG_MAX
    ensures FieldValue(Padded(v, width) + [0]) == Some(v)
  {
    PaddedValue(v, width);
    var s := Padded(v, width) + [0];
    RunIs(Padded(v, width));
    assert s[..width] == Padded(v, width);
  }

  lemma {:induction false} RunIs(d: seq<Byte>)
    requires Digits(d)
    ensures DigitRun(d + [0]) == |d|
  {
    if d != [] {
      assert (d + [0])[1..] == d[1..] + [0];
      RunIs(d[1..]);
    }
  }

  /** format_integer for an unsigned octal with the 0 flag: digits are made in reverse, then put
      out backwards behind the padding. */
  method FormatOctal(v: nat, width: nat) returns (out: seq<Byte>)
    ensures out == Padded(v, width)
  {
    var buf := ReverseDigits(v);
    hide Octal;
    var pad := if width < |buf| then 0 else width - |buf|;
    out := Repeat(ZERO, pad);
    var i := |buf|;
    assert buf[..i] == buf;
    while i > 0
      invariant 0 <= i <= |buf| && out + Reversed<Byte>(buf[..i]) == Repeat(ZERO, pad) + Octal(v)
    {
      i := i - 1;
      ReversedAdd(buf[..i], buf[i]);
      assert buf[..i + 1] == buf[..i] + [buf[i]];
      assert out + ([buf[i]] + Reversed<Byte>(buf[..i])) == out + [buf[i]] + Reversed<Byte>(buf[..i]);
      out := out + [buf[i]];
    }
    assert Reversed<Byte>(buf[..0]) == [];
  }

  /** The digit buffer: least significant first, and "0" for zero. */
  method ReverseDigits(v: nat) returns (buf: seq<Byte>)
    ensures Reversed<Byte>(buf) == Octal(v)
  {
    buf := [];
    var value: nat := v;
    while value > 0
      invariant v > 0 ==> Octal(v) == if value > 0 then Octal(value) + Reversed<Byte>(buf) else Reversed<Byte>(buf)
      invariant v == 0 ==> value == 0 && buf == []
    {
      DigitStep(value, buf);
      buf := buf + [48 + value % 8];
      value := value / 8;
    }
    while |buf| < 1
      invariant v > 0 ==> Reversed<Byte>(buf) == Octal(v)
      invariant v == 0 ==> buf == [] || buf == [ZERO]
      decreases 1 - |buf|
    {
      buf := buf + [ZERO];
    }
    ReversedAdd([], buf[0]);
  }

  lemma DigitStep(value: nat, buf: seq<Byte>)
    requires value > 0
    ensures Octal(value) + Reversed<Byte>(buf)
            == if value / 8 > 0 then Octal(value / 8) + Reversed<Byte>(buf + [48 + value % 8]) else Reversed<Byte>(buf + [48 + value % 8])
  {
    hide Reversed;
    var d: Byte := 48 + value % 8;
    ReversedAdd(buf, d);
    assert Octal(value) == if value / 8 > 0 then Octal(value / 8) + [d] else [d];
    hide Octal;
    AppendAssociates(Octal(value / 8), [d], Reversed<Byte>(buf));
  }

  lemma AppendAssociates(a: seq<Byte>, b: seq<Byte>, c: seq<Byte>)
    ensures a + b + c == a + (b + c)
  {
  }

  lemma ReversedAdd(s: seq<Byte>, b: Byte)
    ensures Reversed<Byte>(s + [b]) == [b] + Reversed<Byte>(s)
  {
  }

  // ---------------------------------------------------------------- names

  predicate Antisocial(s: seq<Byte>) {
    || (|s| >= 1 && s[0] == SLASH)
    || (|s| >= 2 && s[0] == DOT && s[1] == SLASH)
    || (|s| >= 3 && s[0] == DOT && s[1] == DOT && s[2] == SLASH)
  }

  /** What is behind the first slash. */
  function BehindSlash(s: seq<Byte>): (r: seq<Byte>)
    requires SLASH in s
    ensures |r| < |s| && r == s[|s| - |r|..]
  {
    if s[0] == SLASH then s[1..] else BehindSlash(s[1..])
  }

  lemma AntisocialHasSlash(s: seq<Byte>)
    requires Antisocial(s)
    ensures SLASH in s
  {
  }

  /** A name without the prefixes that lead out of the destination directory. */
  function Strip(s: seq<Byte>): (r: seq<Byte>)
    decreases |s|
  {
    if Antisocial(s) then (AntisocialHasSlash(s); Strip(BehindSlash(s)))
    else if s == [] || s == [DOT, DOT] then [DOT] else s
  }

  /** A stripped name is harmless, and stripping it again does nothing. */
  lemma {:induction false} StripTwice(s: seq<Byte>)
    ensures !Antisocial(Strip(s)) && Strip(s) != [] && Strip(s) != [DOT, DOT] && Strip(Strip(s)) == Strip(s)
    ensures (forall b | b in s :: b != 0) ==> forall b | b in Strip(s) :: b != 0
    decreases |s|
  {
    assert !Antisocial([DOT]);
    if Antisocial(s) {
      AntisocialHasSlash(s);
      var r := BehindSlash(s);
      StripTwice(r);
      assert forall b | b in r :: b in s;
    }
  }

  /** strip_antisocial_prefixes, on a position in the name. */
  method StripPrefixes(name: seq<Byte>) returns (r: seq<Byte>)
    ensures r == Strip(name)
  {
    hide Strip;
    hide Antisocial;
    hide BehindSlash;
    var p := 0;
    assert name[0..] == name;
    while Antisocial(name[p..])
      invariant 0 <= p <= |name| && Strip(name[p..]) == Strip(name)
      decreases |name| - p
    {
      AntisocialHasSlash(name[p..]);
      var q := FindSlash(name, p);
      StripStep(name[p..]);
      p := q + 1;
    }
    StripEnds(name[p..]);
    r := if name[p..] == [] || name[p..] == [DOT, DOT] then [DOT] else name[p..];
  }

  lemma StripStep(s: seq<Byte>)
    requires Antisocial(s) && SLASH in s
    ensures Strip(s) == Strip(BehindSlash(s))
  {
  }

  lemma StripEnds(s: seq<Byte>)
    requires !Antisocial(s)
    ensures Strip(s) == if s == [] || s == [DOT, DOT] then [DOT] else s
  {
  }

  /** strchr for a slash that is there. */
  method FindSlash(name: seq<Byte>, p: nat) returns (q: nat)
    requires p <= |name| && SLASH in name[p..]
    ensures p <= q < |name| && name[q + 1..] == BehindSlash(name[p..])
  {
    hide BehindSlash;
    q := p;
    while name[q] != SLASH
      invariant p <= q < |name| && SLASH in name[q..] && BehindSlash(name[q..]) == BehindSlash(name[p..])
      decreases |name| - q
    {
      SlashStep(name, q);
      q := q + 1;
    }
    SlashStep(name, q);
  }

  lemma SlashStep(name: seq<Byte>, q: nat)
    requires q < |name| && SLASH in name[q..]
    ensures name[q] == SLASH ==> BehindSlash(name[q..]) == name[q + 1..]
    ensures name[q] != SLASH ==> SLASH in name[q + 1..] && BehindSlash(name[q..]) == BehindSlash(name[q + 1..])
  {
    assert name[q..] == [name[q]] + name[q + 1..];
  }

  // ---------------------------------------------------------------- the checksum

  const CHKSUM := 148

  /** The sum of the first `n` bytes, the checksum field counted as blanks. */
  function Sum(h: seq<Byte>, n: nat): (s: nat)
    requires n <= |h|
    ensures s <= 255 * n
  {
    if n == 0 then 0 else Sum(h, n - 1) + if CHKSUM <= n - 1 < CHKSUM + 8 then 32 else h[n - 1]
  }

  method CalculateChecksum(h: seq<Byte>) returns (s: nat)
    requires |h| == HEADER_SIZE
    ensures s == Sum(h, HEADER_SIZE)
  {
    s := 0;
    for i := 0 to HEADER_SIZE
      invariant s == Sum(h, i)
    {
      s := s + if CHKSUM <= i < CHKSUM + 8 then BLANK else h[i];
    }
  }

  /** The field that holds the checksum does not enter it. */
  lemma {:induction false} SumIgnoresField(a: seq<Byte>, b: seq<Byte>, n: nat)
    requires |a| == |b| && n <= |a| && forall i | 0 <= i < |a| && !(CHKSUM <= i < CHKSUM + 8) :: a[i] == b[i]
    ensures Sum(a, n) == Sum(b, n)
  {
    if n > 0 {
      SumIgnoresField(a, b, n - 1);
    }
  }

  // ---------------------------------------------------------------- headers

  /** `h` with `b` stored at offset `o`. */
  function Store(h: seq<Byte>, o: nat, b: seq<Byte>): (r: seq<Byte>)
    requires o + |b| <= |h|
    ensures |r| == |h|
  {
    h[..o] + b + h[o + |b|..]
  }

  function Field(h: seq<Byte>, o: nat, n: nat): (b: seq<Byte>)
    requires o + n <= |h|
  {
    h[o..o + n]
  }

  lemma StoredField(h: seq<Byte>, o: nat, b: seq<Byte>, p: nat, n: nat)
    requires o + |b| <= |h| && p + n <= |h|
    ensures p == o && n == |b| ==> Field(Store(h, o, b), p, n) == b
    ensures p + n <= o || o + |b| <= p ==> Field(Store(h, o, b), p, n) == Field(h, p, n)
  {
  }

  const USTAR_MAGIC: seq<Byte> := [117, 115, 116, 97, 114, 0]
  const ROOT_NAME: seq<Byte> := [114, 111, 111, 116, 0]

  function Mode(kind: Byte): (m: nat) {
    if kind == REGULAR then 0x1a4 else 0x1ed   // 0644 and 0755
  }

  /** The fields in front of the checksum, in the order they are filled in. */
  function FirstFields(name: seq<Byte>, kind: Byte, size: nat): (h: seq<Byte>)
    requires |name| <= 99 && size <= INT_MAX
    ensures |h| == HEADER_SIZE
  {
    NumbersFit(kind, size);
    var h0 := Store(Repeat(0, HEADER_SIZE), 0, name + [0]);
    var h1 := Store(h0, 100, Padded(Mode(kind), 7) + [0]);
    var h2 := Store(Store(h1, 108, Repeat(ZERO, 7) + [0]), 116, Repeat(ZERO, 7) + [0]);
    var h3 := Store(h2, 124, Padded(size, 11) + [0]);
    Store(h3, 136, Padded(1136102400, 11) + [0])
  }

  /** Everything but the checksum. */
  function Unsummed(name: seq<Byte>, kind: Byte, size: nat): (h: seq<Byte>)
    requires |name| <= 99 && size <= INT_MAX
    ensures |h| == HEADER_SIZE
  {
    var h5 := Store(FirstFields(name, kind, size), 156, [kind]);
    var h6 := Store(Store(h5, 257, USTAR_MAGIC), 263, [ZERO, ZERO]);
    Store(Store(h6, 297, ROOT_NAME), 265, ROOT_NAME)
  }

  lemma Powers()
    ensures Power8(7) == 0x20_0000 && Power8(11) == 0x2_0000_0000
  {
    assert Power8(3) == 512 && Power8(5) == 64 * Power8(3) && Power8(7) == 64 * Power8(5);
    assert Power8(9) == 64 * Power8(7) && Power8(11) == 64 * Power8(9);
  }

  lemma NumbersFit(kind: Byte, size: nat)
    requires size <= INT_MAX
    ensures |Padded(Mode(kind), 7)| == 7 && |Padded(size, 11)| == 11 && |Padded(1136102400, 11)| == 11
  {
    Powers();
    PaddedValue(Mode(kind), 7);
    PaddedValue(size, 11);
    PaddedValue(1136102400, 11);
  }

  lemma SumFits(h: seq<Byte>)
    requires |h| == HEADER_SIZE
    ensures Sum(h, HEADER_SIZE) < Power8(7) && |Padded(Sum(h, HEADER_SIZE), 7)| == 7
  {
    Powers();
    PaddedValue(Sum(h, HEADER_SIZE), 7);
  }

  /** The header with its checksum. */
  function Summed(h: seq<Byte>): (r: seq<Byte>)
    requires |h| == HEADER_SIZE
    ensures |r| == HEADER_SIZE
  {
    SumFits(h);
    Store(h, CHKSUM, Padded(Sum(h, HEADER_SIZE), 7) + [0])
  }

  /** ustar_make_header; nothing for a name that is too long. */
  function MakeHeader(name: seq<Byte>, kind: Byte, size: nat): (h: Option<seq<Byte>>)
    requires size <= INT_MAX
    ensures h.Some? ==> |h.value| == HEADER_SIZE
  {
    if |Strip(name)| > 99 then None else Some(Summed(Unsummed(Strip(name), kind, size)))
  }

  /** What the parser returns. */
  datatype Parsed = EndOfArchive | Member(name: seq<Byte>, kind: Byte, size: nat) | Error(message: string)

  predicate AllZeros(h: seq<Byte>) {
    forall i | 0 <= i < |h| :: h[i] == 0
  }

  function ParseHeader(h: seq<Byte>): (r: Parsed)
    requires |h| == HEADER_SIZE
  {
    var chksum := FieldValue(Field(h, CHKSUM, 8));
    var size := FieldValue(Field(h, 124, 12));
    var kind := h[156];
    if AllZeros(h) then EndOfArchive
    else if Field(h, 257, 6) != USTAR_MAGIC then Error("not a ustar archive")
    else if Field(h, 263, 2) != [ZERO, ZERO] then Error("invalid ustar version")
    else if chksum.None? then Error("corrupt chksum field")
    else if chksum.value != Sum(h, HEADER_SIZE) then Error("checksum mismatch")
    else if h[99] != 0 || h[345] != 0 then Error("file name too long")
    else if kind != REGULAR && kind != DIRECTORY then Error("unimplemented file type")
    else if kind == DIRECTORY then Member(Strip(CString(Field(h, 0, 100))), kind, 0)
    else if size.None? then Error("corrupt file size field")
    else if size.value > INT_MAX then Error("file too large")
    else Member(Strip(CString(Field(h, 0, 100))), kind, size.value)
  }

  // ---------------------------------------------------------------- the round trip

  /** "0000644" or "0000755", and the time stamp "10355706000". */
  function ModeDigits(kind: Byte): (d: seq<Byte>) {
    if kind == REGULAR then [48, 48, 48, 48, 54, 52, 52] else [48, 48, 48, 48, 55, 53, 53]
  }

  const MTIME_DIGITS: seq<Byte> := [49, 48, 51, 53, 53, 55, 48, 54, 48, 48, 48]
  const NO_ID: seq<Byte> := [48, 48, 48, 48, 48, 48, 48]
  const ROOT_LETTERS: seq<Byte> := [114, 111, 111, 116]

  /** Byte `i - at` of a field that starts at `at`; NUL behind its end. */
  function InField(b: seq<Byte>, at: nat, i: nat): (r: Byte)
    requires at <= i
  {
    if i - at < |b| then b[i - at] else 0
  }

  /** Byte `i` of a header, field by field. */
  function HeaderByte(name: seq<Byte>, kind: Byte, size: nat, sum: nat, i: nat): (b: Byte) {
    if i < 100 then InField(name, 0, i)
    else if i < 108 then InField(ModeDigits(kind), 100, i)
    else if i < 116 then InField(NO_ID, 108, i)
    else if i < 124 then InField(NO_ID, 116, i)
    else if i < 136 then InField(Padded(size, 11), 124, i)
    else if i < 148 then InField(MTIME_DIGITS, 136, i)
    else if i < 156 then InField(Padded(sum, 7), 148, i)
    else if i == 156 then kind
    else if i < 257 then 0
    else if i < 263 then InField([117, 115, 116, 97, 114], 257, i)
    else if i < 265 then ZERO
    else if i < 297 then InField(ROOT_LETTERS, 265, i)
    else if i < 329 then InField(ROOT_LETTERS, 297, i)
    else 0
  }

  lemma ModeIs(kind: Byte)
    ensures Padded(Mode(kind), 7) == ModeDigits(kind)
  {
    assert Octal(6) == [54] && Octal(52) == Octal(6) + [52] && Octal(420) == Octal(52) + [52];
    assert Octal(7) == [55] && Octal(61) == Octal(7) + [53] && Octal(493) == Octal(61) + [53];
    assert Repeat(ZERO, 4) == [48, 48, 48, 48];
  }

  lemma MtimeIs()
    ensures Padded(1136102400, 11) == MTIME_DIGITS
  {
    assert Octal(8) == [49, 48];
    assert Octal(67) == [49, 48, 51];
    assert Octal(541) == [49, 48, 51, 53];
    assert Octal(4333) == [49, 48, 51, 53, 53];
    assert Octal(34671) == [49, 48, 51, 53, 53, 55] by { assert 34671 / 8 == 4333 && 34671 % 8 == 7; }
  }

  lemma StoredByte(h: seq<Byte>, o: nat, b: seq<Byte>, i: nat)
    requires o + |b| <= |h| && i < |h|
    ensures Store(h, o, b)[i] == if o <= i < o + |b| then b[i - o] else h[i]
  {
  }

  lemma FirstIndex(name: seq<Byte>, kind: Byte, size: nat, i: nat)
    requires |name| <= 99 && size <= INT_MAX && i < HEADER_SIZE
    ensures FirstFields(name, kind, size)[i] == if i < CHKSUM then HeaderByte(name, kind, size, 0, i) else 0
  {
    NumbersFit(kind, size);
    ModeIs(kind);
    MtimeIs();
    hide Padded;
    hide Store;
    var h0 := Store(Repeat(0, HEADER_SIZE), 0, name + [0]);
    var h1 := Store(h0, 100, Padded(Mode(kind), 7) + [0]);
    var g2 := Store(h1, 108, Repeat(ZERO, 7) + [0]);
    var h2 := Store(g2, 116, Repeat(ZERO, 7) + [0]);
    var h3 := Store(h2, 124, Padded(size, 11) + [0]);
    StoredByte(Repeat(0, HEADER_SIZE), 0, name + [0], i);
    StoredByte(h0, 100, Padded(Mode(kind), 7) + [0], i);
    StoredByte(h1, 108, Repeat(ZERO, 7) + [0], i);
    StoredByte(g2, 116, Repeat(ZERO, 7) + [0], i);
    StoredByte(h2, 124, Padded(size, 11) + [0], i);
    StoredByte(h3, 136, Padded(1136102400, 11) + [0], i);
  }

  lemma UnsummedIndex(name: seq<Byte>, kind: Byte, size: nat, i: nat)
    requires |name| <= 99 && size <= INT_MAX && i < HEADER_SIZE
    ensures CHKSUM <= i < CHKSUM + 8 || Unsummed(name, kind, size)[i] == HeaderByte(name, kind, size, 0, i)
  {
    FirstIndex(name, kind, size, i);
    hide FirstFields;
    hide Padded;
    hide Store;
    var h4 := FirstFields(name, kind, size);
    var h5 := Store(h4, 156, [kind]);
    var g6 := Store(h5, 257, USTAR_MAGIC);
    var h6 := Store(g6, 263, [ZERO, ZERO]);
    var g7 := Store(h6, 297, ROOT_NAME);
    StoredByte(h4, 156, [kind], i);
    StoredByte(h5, 257, USTAR_MAGIC, i);
    StoredByte(g6, 263, [ZERO, ZERO], i);
    StoredByte(h6, 297, ROOT_NAME, i);
    StoredByte(g7, 265, ROOT_NAME, i);
  }

  /** The fields the parser looks at, before the checksum is stored. */
  lemma UnsummedFields(name: seq<Byte>, kind: Byte, size: nat)
    requires |name| <= 99 && size <= INT_MAX
    ensures var h := Unsummed(name, kind, size);
            && h[..|name| + 1] == name + [0] && h[99] == 0 && h[345] == 0 && h[156] == kind
            && Field(h, 124, 12) == Padded(size, 11) + [0]
            && Field(h, 257, 6) == USTAR_MAGIC && Field(h, 263, 2) == [ZERO, ZERO]
  {
    NumbersFit(kind, size);
    hide Padded;
    var h := Unsummed(name, kind, size);
    forall i: nat | i < HEADER_SIZE && !(CHKSUM <= i < CHKSUM + 8) ensures h[i] == HeaderByte(name, kind, size, 0, i) {
      UnsummedIndex(name, kind, size, i);
    }
    hide Unsummed;
    assert h[..|name| + 1] == name + [0];
    assert Field(h, 124, 12) == Padded(size, 11) + [0];
    assert Field(h, 257, 6) == USTAR_MAGIC;
    assert Field(h, 263, 2) == [ZERO, ZERO];
  }

  /** Storing the checksum keeps the other fields and makes the checksum right. */
  lemma SummedFields(h: seq<Byte>)
    requires |h| == HEADER_SIZE
    ensures var r := Summed(h);
            && (forall i | 0 <= i < HEADER_SIZE && !(CHKSUM <= i < CHKSUM + 8) :: r[i] == h[i])
            && FieldValue(Field(r, CHKSUM, 8)) == Some(Sum(r, HEADER_SIZE))
  {
    SumFits(h);
    var r, s := Summed(h), Sum(h, HEADER_SIZE);
    hide Padded;
    StoredField(h, CHKSUM, Padded(s, 7) + [0], CHKSUM, 8);
    assert forall i | 0 <= i < HEADER_SIZE && !(CHKSUM <= i < CHKSUM + 8) :: r[i] == h[i];
    SumIgnoresField(h, r, HEADER_SIZE);
    Powers();
    OctalRoundTrip(s, 7);
  }

  lemma FieldSame(a: seq<Byte>, b: seq<Byte>, o: nat, n: nat)
    requires |a| == |b| && o + n <= |a| && forall i | o <= i < o + n :: a[i] == b[i]
    ensures Field(a, o, n) == Field(b, o, n)
  {
  }

  /** The name field reads as the name. */
  lemma NameField(h: seq<Byte>, name: seq<Byte>)
    requires |h| == HEADER_SIZE && |name| <= 99 && 0 !in name && h[..|name| + 1] == name + [0]
    ensures CString(Field(h, 0, 100)) == name
  {
    var f := Field(h, 0, 100);
    assert f == name + [0] + f[|name| + 1..] by {
      assert f[..|name| + 1] == h[..|name| + 1];
    }
    CStringOf(name, f[|name| + 1..]);
  }

  /** Parsing a header that was made returns the stripped name, the type and the size. */
  lemma RoundTrip(name: seq<Byte>, kind: Byte, size: nat)
    requires 0 !in name && size <= INT_MAX && (kind == REGULAR || kind == DIRECTORY) && |Strip(name)| <= 99
    ensures var h := MakeHeader(name, kind, size);
            h.Some? && ParseHeader(h.value) == Member(Strip(name), kind, if kind == REGULAR then size else 0)
  {
    hide Unsummed;
    hide Summed;
    hide FieldValue;
    hide Padded;
    hide Strip;
    var u := Unsummed(Strip(name), kind, size);
    var h := Summed(u);
    UnsummedFields(Strip(name), kind, size);
    SummedFields(u);
    StripTwice(name);
    FieldSame(h, u, 124, 12);
    FieldSame(h, u, 257, 6);
    FieldSame(h, u, 263, 2);
    assert h[..|Strip(name)| + 1] == u[..|Strip(name)| + 1];
    NameField(h, Strip(name));
    Powers();
    OctalRoundTrip(size, 11);
    assert h[257] == Field(h, 257, 6)[0] == 117;
  }

  // ---------------------------------------------------------------- in place

  /** Stores bytes at an offset of the header. */
  method StoreAt(header: array<Byte>, o: nat, b: seq<Byte>)
    requires o + |b| <= header.Length
    modifies header
    ensures header[..] == Store(old(header[..]), o, b)
  {
    for i := 0 to |b|
      invariant header[o..o + i] == b[..i] && header[..o] == old(header[..o]) && header[o + i..] == old(header[o + i..])
    {
      header[o + i] := b[i];
      assert header[o..o + i + 1] == b[..i + 1];
    }
    assert header[..] == header[..o] + header[o..o + |b|] + header[o + |b|..];
  }

  /** ustar_make_header, filling in the caller's buffer. */
  method Make(name: seq<Byte>, kind: Byte, size: nat, header: array<Byte>) returns (ok: bool)
    requires size <= INT_MAX && header.Length == HEADER_SIZE
    modifies header
    ensures ok <==> MakeHeader(name, kind, size).Some?
    ensures ok ==> header[..] == MakeHeader(name, kind, size).value
    ensures !ok ==> header[..] == old(header[..])
  {
    hide Padded;
    hide Store;
    var file := StripPrefixes(name);
    if |file| > 99 {
      return false;
    }
    NumbersFit(kind, size);
    Clear(header);
    StoreAt(header, 0, file + [0]);
    var mode := FormatOctal(Mode(kind), 7);
    StoreAt(header, 100, mode + [0]);
    StoreAt(header, 108, Repeat(ZERO, 7) + [0]);
    StoreAt(header, 116, Repeat(ZERO, 7) + [0]);
    var number := FormatOctal(size, 11);
    StoreAt(header, 124, number + [0]);
    var mtime := FormatOctal(1136102400, 11);
    StoreAt(header, 136, mtime + [0]);
    StoreAt(header, 156, [kind]);
    StoreAt(header, 257, USTAR_MAGIC);
    StoreAt(header, 263, [ZERO, ZERO]);
    StoreAt(header, 297, ROOT_NAME);
    StoreAt(header, 265, ROOT_NAME);
    SumFits(header[..]);
    var sum := CalculateChecksum(header[..]);
    var chksum := FormatOctal(sum, 7);
    StoreAt(header, CHKSUM, chksum + [0]);
    return true;
  }

  /** memset to zero. */
  method Clear(header: array<Byte>)
    modifies header
    ensures header[..] == Repeat(0, header.Length)
  {
    for i := 0 to header.Length
      invariant forall k | 0 <= k < i :: header[k] == 0
    {
      header[i] := 0;
    }
  }

  /** ustar_parse_header. */
  method Parse(header: array<Byte>) returns (r: Parsed)
    requires header.Length == HEADER_SIZE
    ensures r == ParseHeader(header[..])
  {
    var h := header[..];
    var zeros := true;
    for i := 0 to HEADER_SIZE
      invariant zeros <==> forall k | 0 <= k < i :: h[k] == 0
    {
      if h[i] != 0 {
        zeros := false;
      }
    }
    if zeros {
      return EndOfArchive;
    }
    if Field(h, 257, 6) != USTAR_MAGIC {
      return Error("not a ustar archive");
    }
    if Field(h, 263, 2) != [ZERO, ZERO] {
      return Error("invalid ustar version");
    }
    var chksum := ParseOctalField(Field(h, CHKSUM, 8));
    if chksum.None? {
      return Error("corrupt chksum field");
    }
    var sum := CalculateChecksum(h);
    if chksum.value != sum {
      return Error("checksum mismatch");
    }
    if h[99] != 0 || h[345] != 0 {
      return Error("file name too long");
    }
    if h[156] != REGULAR && h[156] != DIRECTORY {
      return Error("unimplemented file type");
    }
    var size := Some(0);
    if h[156] == REGULAR {
      size := ParseOctalField(Field(h, 124, 12));
      if size.None? {
        return Error("corrupt file size field");
      }
      if size.value > INT_MAX {
        return Error("file too large");
      }
    }
    var name := StripPrefixes(CString(Field(h, 0, 100)));
    return Member(name, h[156], size.value);
  }
}
