/** `get_file_name`: the name of the exported cell matrix of one saved frame.
    Python's `str(int)` and `str.zfill` are written out here, sign handling included,
    so that the name of frame -1 (asked for by `get_max_cell_num` when no frame exists)
    is modelled too. */
module FileNames {
  import opened Outcomes

  const Prefix: string := "output"
  const Suffix: string := "_cells_physicell.mat"
  /** The width `zfill` pads to. */
  const Width: nat := 8

  predicate IsDigit(c: char) { '0' <= c <= '9' }

  predicate AllDigits(s: string) { forall i :: 0 <= i < |s| ==> IsDigit(s[i]) }

  function DigitChar(d: nat): (c: char)
    requires d < 10
    ensures IsDigit(c) && (c as int) - ('0' as int) == d
  {
    "0123456789"[d]
  }

  /** Python's `str(n)` for a natural number: decimal, no leading zeros. */
  function NatToDecimal(n: nat): (s: string)
    decreases n
  {
    if n < 10 then [DigitChar(n)] else NatToDecimal(n / 10) + [DigitChar(n % 10)]
  }

  /** Python's `str(t)` for an integer. */
  function IntToDecimal(t: int): (s: string) {
    if t < 0 then "-" + NatToDecimal(-t) else NatToDecimal(t)
  }

  function Zeros(k: nat): (s: string)
    ensures |s| == k && forall i :: 0 <= i < k ==> s[i] == '0'
  {
    seq(k, _ => '0')
  }

  /** Python's `s.zfill(width)`: left-pad with '0' to `width`, keeping a leading sign in front. */
  function ZFill(s: string, width: nat): (padded: string) {
    if |s| >= width then s
    else if |s| > 0 && (s[0] == '+' || s[0] == '-') then [s[0]] + Zeros(width - |s|) + s[1..]
    else Zeros(width - |s|) + s
  }

  /** `get_file_name(time)`. */
  function FileName(time: int): (name: string) {
    Prefix + ZFill(IntToDecimal(time), Width) + Suffix
  }

  /** The value of a string of decimal digits; leading zeros do not change it. */
  function DecimalValue(s: string): (value: nat)
    requires AllDigits(s)
  {
    if s == [] then 0 else DecimalValue(s[..|s| - 1]) * 10 + ((s[|s| - 1] as int) - ('0' as int))
  }

  /** Python's `int(s)` on an optionally signed string of digits. */
  function ParseInt(s: string): (parsed: Option<int>) {
    if |s| > 1 && s[0] == '-' && AllDigits(s[1..]) then Some(0 - DecimalValue(s[1..]))
    else if |s| > 0 && AllDigits(s) then Some(DecimalValue(s))
    else None
  }

  /** Recovers the frame index from a file name: strip the prefix and the suffix, read the rest. */
  function ParseFileName(name: string): (time: Option<int>) {
    if |name| >= |Prefix| + |Suffix| && name[..|Prefix|] == Prefix && name[|name| - |Suffix|..] == Suffix
    then ParseInt(name[|Prefix|..|name| - |Suffix|])
    else None
  }

  /** Drops leading zeros but keeps the last character. */
  function StripLeadingZeros(s: string): (r: string)
    ensures |r| <= |s|
  {
    if |s| > 1 && s[0] == '0' then StripLeadingZeros(s[1..]) else s
  }

  function Max(a: int, b: int): (m: int) { if a < b then b else a }

  // ---------------------------------------------------------------- lemmas

  lemma {:induction false} NatToDecimalDigits(n: nat)
    ensures 0 < |NatToDecimal(n)| && AllDigits(NatToDecimal(n))
    ensures DecimalValue(NatToDecimal(n)) == n
    ensures n > 0 ==> NatToDecimal(n)[0] != '0'
    decreases n
  {
    if n >= 10 {
      NatToDecimalDigits(n / 10);
      var s := NatToDecimal(n / 10) + [DigitChar(n % 10)];
      assert s[..|s| - 1] == NatToDecimal(n / 10);
    }
  }

  lemma {:induction false} DecimalValueZeros(k: nat, s: string)
    requires AllDigits(s)
    ensures AllDigits(Zeros(k) + s) && DecimalValue(Zeros(k) + s) == DecimalValue(s)
    decreases |s|
  {
    if s == [] {
      ZerosValue(k);
      assert Zeros(k) + s == Zeros(k);
    } else {
      var t := Zeros(k) + s;
      assert t[..|t| - 1] == Zeros(k) + s[..|s| - 1];
      DecimalValueZeros(k, s[..|s| - 1]);
    }
  }

  lemma {:induction false} ZerosValue(k: nat)
    ensures DecimalValue(Zeros(k)) == 0
  {
    if k > 0 {
      assert Zeros(k)[..k - 1] == Zeros(k - 1);
      ZerosValue(k - 1);
    }
  }

  lemma {:induction false} StripZerosPrefix(k: nat, s: string)
    requires |s| > 0 && (s[0] != '0' || |s| == 1)
    ensures StripLeadingZeros(Zeros(k) + s) == s
    decreases k
  {
    if k > 0 {
      assert (Zeros(k) + s)[1..] == Zeros(k - 1) + s;
      StripZerosPrefix(k - 1, s);
    } else {
      assert Zeros(k) + s == s;
    }
  }

  lemma ZFillNonNegative(n: nat)
    ensures ZFill(NatToDecimal(n), Width) == Zeros(Max(0, Width - |NatToDecimal(n)|)) + NatToDecimal(n)
  {
    var d := NatToDecimal(n);
    NatToDecimalDigits(n);
    assert d[0] != '-' && d[0] != '+';
    if |d| >= Width {
      assert Zeros(0) + d == d;
    }
  }

  lemma ZFillNegative(n: nat)
    requires n > 0
    ensures ZFill(IntToDecimal(-(n as int)), Width) == "-" + (Zeros(Max(0, Width - 1 - |NatToDecimal(n)|)) + NatToDecimal(n))
  {
    assert IntToDecimal(-(n as int)) == "-" + NatToDecimal(n);
    ZFillSigned(NatToDecimal(n));
  }

  lemma ZFillSigned(digits: string)
    ensures ZFill("-" + digits, Width) == "-" + (Zeros(Max(0, Width - 1 - |digits|)) + digits)
  {
    var d := "-" + digits;
    assert d[0] == '-' && d[1..] == digits;
    if |d| < Width {
      assert [d[0]] + Zeros(Width - |d|) + d[1..] == "-" + (Zeros(Width - |d|) + digits);
    } else {
      assert Zeros(0) + digits == digits;
    }
  }

  /** For a frame index, the name is the prefix, the decimal index left-padded with zeros to
      8 characters, and the suffix. */
  lemma FileNameLayout(time: nat)
    ensures FileName(time) == Prefix + (Zeros(Max(0, Width - |NatToDecimal(time)|)) + NatToDecimal(time)) + Suffix
  {
    ZFillNonNegative(time);
    assert IntToDecimal(time) == NatToDecimal(time);
  }

  /** For a negative index `-n`, the zeros go after the sign. */
  lemma NegativeFileNameLayout(n: nat)
    requires n > 0
    ensures FileName(-(n as int)) == Prefix + ("-" + (Zeros(Max(0, Width - 1 - |NatToDecimal(n)|)) + NatToDecimal(n))) + Suffix
  {
    ZFillNegative(n);
  }

  /** The padded part is `max(8, len(str(time)))` characters long. */
  lemma FileNameLength(time: int)
    ensures |FileName(time)| == |Prefix| + Max(Width, |IntToDecimal(time)|) + |Suffix|
  {
    var body := ZFill(IntToDecimal(time), Width);
    assert |body| == Max(Width, |IntToDecimal(time)|);
    assert FileName(time) == Prefix + body + Suffix;
  }

  lemma ParseFramed(body: string)
    ensures ParseFileName(Prefix + body + Suffix) == ParseInt(body)
  {
    Unframe(body);
  }

  lemma Unframe(body: string)
    ensures var name := Prefix + body + Suffix;
      && |name| >= |Prefix| + |Suffix|
      && name[..|Prefix|] == Prefix
      && name[|name| - |Suffix|..] == Suffix
      && name[|Prefix|..|name| - |Suffix|] == body
  {
    var name := Prefix + body + Suffix;
    assert name[..|Prefix|] == Prefix;
    assert name[|name| - |Suffix|..] == Suffix;
    assert name[|Prefix|..|name| - |Suffix|] == body;
  }

  lemma ParsePaddedNonNegative(n: nat)
    ensures ParseInt(ZFill(IntToDecimal(n), Width)) == Some(n)
  {
    var z := Max(0, Width - |NatToDecimal(n)|);
    var digits := Zeros(z) + NatToDecimal(n);
    assert |digits| > 0 && AllDigits(digits) && DecimalValue(digits) == n by {
      NatToDecimalValue(n);
      DecimalValueZeros(z, NatToDecimal(n));
    }
    ZFillNonNegative(n);
    assert ZFill(IntToDecimal(n), Width) == digits;
    assert digits[0] != '-';
  }

  lemma ParsePaddedNegative(n: nat)
    requires n > 0
    ensures ParseInt(ZFill(IntToDecimal(-(n as int)), Width)) == Some(-(n as int))
  {
    var z := Max(0, Width - 1 - |NatToDecimal(n)|);
    var digits := Zeros(z) + NatToDecimal(n);
    assert AllDigits(digits) && DecimalValue(digits) == n by {
      NatToDecimalValue(n);
      DecimalValueZeros(z, NatToDecimal(n));
    }
    ZFillNegative(n);
    ParseSigned(digits);
  }

  lemma NatToDecimalValue(n: nat)
    ensures AllDigits(NatToDecimal(n)) && DecimalValue(NatToDecimal(n)) == n
  {
    NatToDecimalDigits(n);
  }

  lemma ParseSigned(digits: string)
    requires |digits| > 0 && AllDigits(digits)
    ensures ParseInt("-" + digits) == Some(0 - DecimalValue(digits))
  {
    assert ("-" + digits)[1..] == digits;
  }

  /** Reading the index back out of the name gives the index: `int` of the padded part. */
  lemma FileNameRoundTrip(time: int)
    ensures ParseFileName(FileName(time)) == Some(time)
  {
    ParseFramed(ZFill(IntToDecimal(time), Width));
    if time < 0 {
      ParsePaddedNegative(-time);
    } else {
      ParsePaddedNonNegative(time);
    }
  }

  /** Distinct frames read distinct files. */
  lemma FileNameInjective(a: int, b: int)
    requires a != b
    ensures FileName(a) != FileName(b)
  {
    FileNameRoundTrip(a);
    FileNameRoundTrip(b);
  }

  /** For a frame index, stripping the prefix, the suffix and the padding zeros gives `str(time)`. */
  lemma FileNameStripsToDecimal(time: nat)
    ensures var name := FileName(time);
      StripLeadingZeros(name[|Prefix|..|name| - |Suffix|]) == NatToDecimal(time)
  {
    var body := ZFill(IntToDecimal(time), Width);
    assert FileName(time) == Prefix + body + Suffix;
    Unframe(body);
    ZFillNonNegative(time);
    NatToDecimalLeading(time);
    StripZerosPrefix(Max(0, Width - |NatToDecimal(time)|), NatToDecimal(time));
  }

  lemma NatToDecimalLeading(n: nat)
    ensures |NatToDecimal(n)| > 0 && (NatToDecimal(n)[0] != '0' || |NatToDecimal(n)| == 1)
  {
    NatToDecimalDigits(n);
  }

  lemma PaddedZero()
    ensures ZFill(IntToDecimal(0), Width) == "00000000"
  {
    assert IntToDecimal(0) == "0";
    assert Zeros(7) == "0000000";
  }

  lemma PaddedTwenty()
    ensures ZFill(IntToDecimal(20), Width) == "00000020"
  {
    assert NatToDecimal(20) == "20" by { assert NatToDecimal(2) == "2"; }
    assert Zeros(6) == "000000";
  }

  /** What the return statement yields for the first input the docstring shows. */
  lemma FileNameOfFrameZero()
    ensures FileName(0) == "output00000000_cells_physicell.mat"
  {
    PaddedZero();
  }

  /** What the return statement yields for the second input the docstring shows. */
  lemma FileNameOfFrameTwenty()
    ensures FileName(20) == "output00000020_cells_physicell.mat"
  {
    PaddedTwenty();
  }

  lemma PaddedMinusOne()
    ensures ZFill(IntToDecimal(-1), Width) == "-0000001"
  {
    assert IntToDecimal(-1) == "-1" by { assert NatToDecimal(1) == "1"; }
    assert Zeros(6) == "000000";
  }

  /** With no frame counted, the last frame is -1 and its name keeps the sign before the zeros. */
  lemma FileNameOfFrameMinusOne()
    ensures FileName(-1) == "output-0000001_cells_physicell.mat"
  {
    PaddedMinusOne();
  }

  /** The names the docstring promises for the same inputs, with the suffix `_cells.mat`. */
  function DocumentedFileName(time: int): (name: string) {
    Prefix + ZFill(IntToDecimal(time), Width) + "_cells.mat"
  }

  /** The docstring's examples disagree with the code for every index. */
  lemma DocstringDisagrees(time: int)
    ensures DocumentedFileName(time) != FileName(time)
  {
    var body := Prefix + ZFill(IntToDecimal(time), Width);
    var a := DocumentedFileName(time);
    var b := FileName(time);
    assert |b| == |a| + 10;
  }
}
