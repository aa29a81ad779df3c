/** Which headers the parser accepts, what it says of the others, and what a made header holds. */
module UstarHeaders {
  import opened Collections
  import opened InodeIo
  import opened DiskFormat
  import opened Ustar

  // ---------------------------------------------------------------- the parser

  /** The field holds `v`: octal digits, at least one, in front of a blank or a NUL. */
  ghost predicate HoldsNumber(s: seq<Byte>, v: nat) {
    exists n :: 0 < n < |s| && Digits(s[..n]) && (s[n] == BLANK || s[n] == 0) && Value(s[..n]) == v <= ULONG_MAX
  }

  /** The digits end where something else comes. */
  lemma {:induction false} RunEnds(s: seq<Byte>, n: nat)
    requires n < |s| && Digits(s[..n]) && !IsDigit(s[n])
    ensures DigitRun(s) == n
  {
    if n > 0 {
      assert s[..n][0] == s[0];
      var d := s[1..][..n - 1];
      forall i | 0 <= i < |d| ensures IsDigit(d[i]) {
        assert s[..n][i + 1] == d[i];
      }
      RunEnds(s[1..], n - 1);
    }
  }

  lemma FieldIff(s: seq<Byte>, v: nat)
    ensures FieldValue(s) == Some(v) <==> HoldsNumber(s, v)
  {
    if n :| 0 < n < |s| && Digits(s[..n]) && (s[n] == BLANK || s[n] == 0) && Value(s[..n]) == v <= ULONG_MAX {
      RunEnds(s, n);
    }
  }

  ghost predicate Numeric(s: seq<Byte>) {
    exists v: nat :: HoldsNumber(s, v)
  }

  lemma NumericIff(s: seq<Byte>)
    ensures Numeric(s) <==> FieldValue(s).Some?
  {
    hide FieldValue;
    hide HoldsNumber;
    if v: nat :| HoldsNumber(s, v) {
      FieldIff(s, v);
    }
    if FieldValue(s).Some? {
      FieldIff(s, FieldValue(s).value);
    }
  }

  /** A header the parser accepts, and as what. */
  ghost predicate Accepted(h: seq<Byte>, name: seq<Byte>, kind: Byte, size: nat)
    requires |h| == HEADER_SIZE
  {
    && h[257..263] == [117, 115, 116, 97, 114, 0] && h[263] == h[264] == ZERO
    && HoldsNumber(h[148..156], Sum(h, HEADER_SIZE))
    && h[99] == 0 && h[345] == 0 && name == Strip(CString(h[..100])) && kind == h[156]
    && if kind == DIRECTORY then size == 0 else kind == REGULAR && HoldsNumber(h[124..136], size) && size <= INT_MAX
  }

  /** ustar_parse_header returns a member exactly for such a header, and sees the end of the archive
      exactly in a block of zeros. */
  lemma ParsesIff(h: seq<Byte>, name: seq<Byte>, kind: Byte, size: nat)
    requires |h| == HEADER_SIZE
    ensures ParseHeader(h) == Member(name, kind, size) <==> Accepted(h, name, kind, size)
    ensures ParseHeader(h) == EndOfArchive <==> forall i | 0 <= i < HEADER_SIZE :: h[i] == 0
  {
    hide FieldValue;
    hide HoldsNumber;
    hide Strip;
    hide CString;
    hide Sum;
    FieldIff(Field(h, CHKSUM, 8), Sum(h, HEADER_SIZE));
    FieldIff(Field(h, 124, 12), size);
    assert Field(h, 257, 6)[0] == h[257];
    assert Field(h, 263, 2) == [h[263], h[264]];
    assert Field(h, 0, 100) == h[..100];
  }

  const MESSAGES: seq<string> := ["not a ustar archive", "invalid ustar version", "corrupt chksum field",
                                  "checksum mismatch", "file name too long", "unimplemented file type",
                                  "corrupt file size field", "file too large"]

  /** What must hold for message `k` not to be given. */
  ghost predicate Passes(h: seq<Byte>, k: nat)
    requires |h| == HEADER_SIZE && k < |MESSAGES|
  {
    if k == 0 then h[257..263] == [117, 115, 116, 97, 114, 0]
    else if k == 1 then h[263] == h[264] == ZERO
    else if k == 2 then Numeric(h[148..156])
    else if k == 3 then HoldsNumber(h[148..156], Sum(h, HEADER_SIZE))
    else if k == 4 then h[99] == 0 && h[345] == 0
    else if k == 5 then h[156] == REGULAR || h[156] == DIRECTORY
    else if k == 6 then h[156] == DIRECTORY || Numeric(h[124..136])
    else h[156] == DIRECTORY || forall v: nat | HoldsNumber(h[124..136], v) :: v <= INT_MAX
  }

  /** Every other header is rejected with the message for the first condition it fails. */
  lemma RejectsIff(h: seq<Byte>, k: nat)
    requires |h| == HEADER_SIZE && k < |MESSAGES|
    ensures ParseHeader(h) == Error(MESSAGES[k]) <==>
              !AllZeros(h) && !Passes(h, k) && forall j | 0 <= j < k :: Passes(h, j)
  {
    ParseFlaws(h);
    hide Passes;
    hide ParseHeader;
    hide AllZeros;
    Different();
  }

  /** The conditions in the order in which they are judged. */
  lemma ParseFlaws(h: seq<Byte>)
    requires |h| == HEADER_SIZE
    ensures ParseHeader(h).Error? ==> !AllZeros(h)
    ensures !AllZeros(h) ==>
              if !Passes(h, 0) then ParseHeader(h) == Error(MESSAGES[0])
              else if !Passes(h, 1) then ParseHeader(h) == Error(MESSAGES[1])
              else if !Passes(h, 2) then ParseHeader(h) == Error(MESSAGES[2])
              else if !Passes(h, 3) then ParseHeader(h) == Error(MESSAGES[3])
              else if !Passes(h, 4) then ParseHeader(h) == Error(MESSAGES[4])
              else if !Passes(h, 5) then ParseHeader(h) == Error(MESSAGES[5])
              else if !Passes(h, 6) then ParseHeader(h) == Error(MESSAGES[6])
              else if !Passes(h, 7) then ParseHeader(h) == Error(MESSAGES[7])
              else ParseHeader(h).Member?
  {
    hide FieldValue;
    hide HoldsNumber;
    hide Numeric;
    hide Strip;
    hide CString;
    hide Sum;
    hide AllZeros;
    var sum, size := Field(h, CHKSUM, 8), Field(h, 124, 12);
    NumericIff(sum);
    NumericIff(size);
    FieldIff(sum, Sum(h, HEADER_SIZE));
    SizeIff(size);
    assert Field(h, 263, 2) == [h[263], h[264]];
  }

  lemma SizeIff(s: seq<Byte>)
    ensures FieldValue(s).Some? ==> (FieldValue(s).value <= INT_MAX <==> forall v: nat | HoldsNumber(s, v) :: v <= INT_MAX)
  {
    hide FieldValue;
    hide HoldsNumber;
    if FieldValue(s).Some? {
      FieldIff(s, FieldValue(s).value);
      forall v: nat | HoldsNumber(s, v) ensures v == FieldValue(s).value {
        FieldIff(s, v);
      }
    }
  }

  lemma Different()
    ensures forall j, k | 0 <= j < k < |MESSAGES| :: MESSAGES[j] != MESSAGES[k]
  {
    forall j, k | 0 <= j < k < |MESSAGES| ensures MESSAGES[j] != MESSAGES[k] {
      assert |MESSAGES[j]| != |MESSAGES[k]| || (j == 5 && k == 6);
      assert MESSAGES[5][0] != MESSAGES[6][0];
    }
  }

  // ---------------------------------------------------------------- damage

  lemma {:induction false} SumChanges(h: seq<Byte>, i: nat, b: Byte, n: nat)
    requires i < |h| && n <= |h| && !(CHKSUM <= i < CHKSUM + 8)
    ensures Sum(h[i := b], n) == Sum(h, n) + if i < n then b - h[i] else 0
  {
    if n > 0 {
      SumChanges(h, i, b, n - 1);
    }
  }

  /** A header with one byte changed outside the checksum is rejected. */
  lemma DamageRejected(h: seq<Byte>, i: nat, b: Byte)
    requires |h| == HEADER_SIZE && ParseHeader(h).Member? && i < HEADER_SIZE && !(CHKSUM <= i < CHKSUM + 8) && b != h[i]
    ensures ParseHeader(h[i := b]).Error?
  {
    hide Sum;
    hide FieldValue;
    hide Strip;
    hide CString;
    var r := h[i := b];
    SumChanges(h, i, b, HEADER_SIZE);
    assert Field(r, CHKSUM, 8) == Field(h, CHKSUM, 8);
    assert Field(h, 257, 6)[0] == h[257] && Field(h, 257, 6)[1] == h[258];
    assert r[257] != 0 || r[258] != 0;
  }

  // ---------------------------------------------------------------- what a made header holds

  /** ustar_make_header, byte by byte: every field, with NULs behind it, and the checksum. */
  lemma MadeBytes(name: seq<Byte>, kind: Byte, size: nat, i: nat)
    requires size <= INT_MAX && i < HEADER_SIZE
    ensures MakeHeader(name, kind, size).Some? <==> |Strip(name)| <= 99
    ensures |Strip(name)| <= 99 ==>
              var h := MakeHeader(name, kind, size).value;
              h[i] == HeaderByte(Strip(name), kind, size, Sum(h, HEADER_SIZE), i)
  {
    hide Unsummed;
    hide Strip;
    hide Padded;
    hide Sum;
    hide Store;
    if |Strip(name)| <= 99 {
      var u := Unsummed(Strip(name), kind, size);
      var h, s := Summed(u), Sum(u, HEADER_SIZE);
      SummedFields(u);
      SumFits(u);
      SumIgnoresField(u, h, HEADER_SIZE);
      UnsummedIndex(Strip(name), kind, size, i);
      StoredByte(u, CHKSUM, Padded(s, 7) + [0], i);
    }
  }
}
