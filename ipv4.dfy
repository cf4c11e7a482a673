/**
 * IPv4 text rules shared by the three variants of the inventory manager:
 * the dotted-quad shape, the subnet-mask validator, the address validator
 * (reserved first octets), and the classful default mask of an address.
 */
module Ipv4 {
  import opened Wrappers
  import opened Text

  // ---------------------------------------------------------------------------
  // Dotted quads
  // ---------------------------------------------------------------------------

  /** One field of `\d{1,3}`. */
  predicate IsShortDigits(f: string) {
    IsDigitString(f) && |f| <= 3
  }

  /**
   * The full-string match of `\d{1,3}\.\d{1,3}\.\d{1,3}\.\d{1,3}`: exactly
   * four dot-separated fields of one to three decimal digits.
   */
  predicate IsQuadShape(s: string) {
    var p := Split(s, '.');
    |p| == 4 && forall i :: 0 <= i < 4 ==> IsShortDigits(p[i])
  }

  /** `[int(o) for o in s.split('.')]` on a dotted quad. */
  function QuadValues(s: string): (v: seq<nat>)
    requires IsQuadShape(s)
    ensures |v| == 4 && forall i :: 0 <= i < 4 ==> v[i] < 1000
  {
    var p := Split(s, '.');
    DigitsValueBound(p[0]);
    DigitsValueBound(p[1]);
    DigitsValueBound(p[2]);
    DigitsValueBound(p[3]);
    [DigitsValue(p[0]), DigitsValue(p[1]), DigitsValue(p[2]), DigitsValue(p[3])]
  }

  predicate OctetsInRange(v: seq<nat>) {
    forall i :: 0 <= i < |v| ==> v[i] <= 255
  }

  /** `int()` reads each field of a dotted quad as its decimal value. */
  lemma QuadValuesAreInts(s: string)
    requires IsQuadShape(s)
    ensures forall i :: 0 <= i < 4 ==> PyInt(Split(s, '.')[i]) == Some(QuadValues(s)[i])
  {
    var p := Split(s, '.');
    forall i | 0 <= i < 4 ensures PyInt(p[i]) == Some(QuadValues(s)[i]) {
      PyIntOfDigits(p[i]);
    }
  }

  // ---------------------------------------------------------------------------
  // Bit strings: `bin(o)[2:].zfill(n)`
  // ---------------------------------------------------------------------------

  function Pow2(n: nat): (p: nat)
    ensures p >= 1
  {
    if n == 0 then 1 else 2 * Pow2(n - 1)
  }

  predicate IsBinary(b: string) {
    forall i :: 0 <= i < |b| ==> b[i] == '0' || b[i] == '1'
  }

  /** The low `n` bits of `o`, most significant first: `bin(o)[2:].zfill(n)` when `o < 2^n`. */
  function Bin(o: nat, n: nat): (b: string)
    ensures |b| == n && IsBinary(b)
  {
    if n == 0 then [] else Bin(o / 2, n - 1) + [if o % 2 == 1 then '1' else '0']
  }

  /** The number a bit string denotes. */
  function BitsValue(b: string): nat
    requires IsBinary(b)
  {
    if b == [] then 0 else 2 * BitsValue(b[..|b| - 1]) + (if b[|b| - 1] == '1' then 1 else 0)
  }

  /** `Bin` loses nothing for values that fit. */
  lemma {:induction false} BinValue(o: nat, n: nat)
    requires o < Pow2(n)
    ensures BitsValue(Bin(o, n)) == o
  {
    if n > 0 {
      BinValue(o / 2, n - 1);
      assert Bin(o, n)[..n - 1] == Bin(o / 2, n - 1);
    }
  }

  /** `k` copies of the bit `c`. */
  function Fill(k: nat, c: char): (b: string)
    ensures |b| == k && forall i :: 0 <= i < k ==> b[i] == c
  {
    seq(k, i => c)
  }

  lemma {:induction false} BinOfZero(n: nat)
    ensures Bin(0, n) == Fill(n, '0')
  {
    if n > 0 {
      BinOfZero(n - 1);
      assert Fill(n - 1, '0') + ['0'] == Fill(n, '0');
    }
  }

  lemma {:induction false} BinOfAllOnes(n: nat)
    ensures Bin(Pow2(n) - 1, n) == Fill(n, '1')
  {
    if n > 0 {
      assert (Pow2(n) - 1) / 2 == Pow2(n - 1) - 1;
      BinOfAllOnes(n - 1);
      assert Fill(n - 1, '1') + ['1'] == Fill(n, '1');
    }
  }

  /** A value that fits in `n` bits expands to all zeros only when it is zero. */
  lemma {:induction false} BinZerosIff(o: nat, n: nat)
    requires o < Pow2(n)
    ensures Bin(o, n) == Fill(n, '0') <==> o == 0
  {
    if o == 0 {
      BinOfZero(n);
    } else if Bin(o, n) == Fill(n, '0') {
      assert n > 0;
      assert Bin(o, n)[n - 1] == '0';
      assert Bin(o / 2, n - 1) == Bin(o, n)[..n - 1] == Fill(n - 1, '0');
      BinZerosIff(o / 2, n - 1);
      assert false;
    }
  }

  /** `'01' in b`. */
  predicate Has01(b: string) {
    exists i :: 0 <= i < |b| - 1 && b[i] == '0' && b[i + 1] == '1'
  }

  lemma NoRiseTail(b: string)
    requires |b| > 0 && !Has01(b)
    ensures !Has01(b[1..])
  {
    forall i | 0 <= i < |b[1..]| - 1 ensures !(b[1..][i] == '0' && b[1..][i + 1] == '1') {
      assert b[1..][i] == b[i + 1] && b[1..][i + 1] == b[(i + 1) + 1];
    }
  }

  lemma PrefixFormNoRise(k: nat, n: nat)
    ensures !Has01(Fill(k, '1') + Fill(n, '0'))
  {
    var b := Fill(k, '1') + Fill(n, '0');
    forall i | 0 <= i < |b| - 1 ensures !(b[i] == '0' && b[i + 1] == '1') {
      if i < k { assert b[i] == '1'; } else { assert b[i + 1] == '0'; }
    }
  }

  /** A bit string with no `01` that starts with `0` is all zeros. */
  lemma {:induction false} NoRiseFromZero(b: string)
    requires IsBinary(b) && !Has01(b) && |b| > 0 && b[0] == '0'
    ensures b == Fill(|b|, '0')
  {
    if |b| > 1 {
      assert b[1] == '0';
      NoRiseTail(b);
      NoRiseFromZero(b[1..]);
      assert b == [b[0]] + b[1..];
    }
  }

  /** No `01` in a bit string exactly when it is a run of ones followed by a run of zeros. */
  lemma {:induction false} NoRiseIff(b: string)
    requires IsBinary(b)
    ensures !Has01(b) <==> exists k :: 0 <= k <= |b| && b == Fill(k, '1') + Fill(|b| - k, '0')
  {
    if !Has01(b) {
      NoRiseWitness(b);
    }
    if k :| 0 <= k <= |b| && b == Fill(k, '1') + Fill(|b| - k, '0') {
      PrefixFormNoRise(k, |b| - k);
    }
  }

  lemma {:induction false} NoRiseWitness(b: string)
    requires IsBinary(b) && !Has01(b)
    ensures exists k :: 0 <= k <= |b| && b == Fill(k, '1') + Fill(|b| - k, '0')
  {
    if b == [] {
      assert b == Fill(0, '1') + Fill(0, '0');
    } else if b[0] == '0' {
      NoRiseFromZero(b);
      assert b == Fill(0, '1') + Fill(|b|, '0');
    } else {
      NoRiseTail(b);
      NoRiseWitness(b[1..]);
      var k :| 0 <= k <= |b[1..]| && b[1..] == Fill(k, '1') + Fill(|b[1..]| - k, '0');
      assert b == [b[0]] + b[1..];
      assert b == Fill(k + 1, '1') + Fill(|b| - (k + 1), '0');
    }
  }

  /** The 32 bits of a mask: `"".join(bin(o)[2:].zfill(8) for o in octets)`. */
  function MaskBits(v: seq<nat>): (b: string)
    requires |v| == 4
    ensures |b| == 32 && IsBinary(b)
  {
    Bin(v[0], 8) + Bin(v[1], 8) + Bin(v[2], 8) + Bin(v[3], 8)
  }

  lemma FillConcat(m: nat, n: nat, c: char)
    ensures Fill(m, c) + Fill(n, c) == Fill(m + n, c)
  {
    assert forall i :: 0 <= i < m + n ==> (Fill(m, c) + Fill(n, c))[i] == c;
  }

  lemma Assoc(a: string, b: string, c: string)
    ensures a + b + c == a + (b + c)
  {
  }

  lemma FillSlice(n: nat, i: nat, j: nat, c: char)
    requires i <= j <= n
    ensures Fill(n, c)[i..j] == Fill(j - i, c)
  {
    assert forall k :: 0 <= k < j - i ==> Fill(n, c)[i..j][k] == c;
  }

  /** The four octet blocks of a 32-bit string. */
  lemma Blocks(p: string, q: string, r: string, t: string)
    requires |p| == 8 && |q| == 8 && |r| == 8 && |t| == 8
    ensures (p + q + r + t)[0..8] == p && (p + q + r + t)[8..16] == q
    ensures (p + q + r + t)[16..24] == r && (p + q + r + t)[24..32] == t
  {
    var b := p + q + r + t;
    assert forall k :: 0 <= k < 8 ==> b[k] == p[k] && b[8 + k] == q[k] && b[16 + k] == r[k] && b[24 + k] == t[k];
    assert b[0..8] == p;
    assert b[8..16] == q;
    assert b[16..24] == r;
    assert b[24..32] == t;
  }

  /** The mask bits are all zero exactly when every octet is zero. */
  lemma MaskBitsZeroIff(v: seq<nat>)
    requires |v| == 4 && OctetsInRange(v)
    ensures MaskBits(v) == Fill(32, '0') <==> v == [0, 0, 0, 0]
  {
    assert Pow2(8) == 256;
    BinZerosIff(v[0], 8);
    BinZerosIff(v[1], 8);
    BinZerosIff(v[2], 8);
    BinZerosIff(v[3], 8);
    Blocks(Bin(v[0], 8), Bin(v[1], 8), Bin(v[2], 8), Bin(v[3], 8));
    if MaskBits(v) == Fill(32, '0') {
      FillSlice(32, 0, 8, '0');
      FillSlice(32, 8, 16, '0');
      FillSlice(32, 16, 24, '0');
      FillSlice(32, 24, 32, '0');
    }
    if v == [0, 0, 0, 0] {
      FillConcat(8, 8, '0');
      FillConcat(16, 8, '0');
      FillConcat(24, 8, '0');
    }
  }

  /** A CIDR prefix mask (section 3.1 of RFC 4632): `k` ones, then `32 - k` zeros, `1 <= k <= 32`. */
  predicate IsPrefixMask(v: seq<nat>)
    requires |v| == 4
  {
    exists k :: 1 <= k <= 32 && MaskBits(v) == Fill(k, '1') + Fill(32 - k, '0')
  }

  // ---------------------------------------------------------------------------
  // Subnet-mask validation
  // ---------------------------------------------------------------------------

  /** Why `validar_mascara_red_ipv4` raised. */
  datatype MaskError = MaskFormat | MaskOctetRange | NonContiguous | ZeroMask

  /**
   * `validar_mascara_red_ipv4` exactly as written (the same in both dictionary-based
   * variants): the zero mask is refused by comparing the text with `"0.0.0.0"`.
   */
  function ValidateMaskAsWritten(s: string): Outcome<MaskError> {
    if !IsQuadShape(s) then Fail(MaskFormat)
    else if !OctetsInRange(QuadValues(s)) then Fail(MaskOctetRange)
    else if Has01(MaskBits(QuadValues(s))) then Fail(NonContiguous)
    else if s == "0.0.0.0" then Fail(ZeroMask)
    else Pass
  }

  /** The mask validator with the zero mask refused by value, whatever its spelling. */
  function ValidateMask(s: string): Outcome<MaskError> {
    if !IsQuadShape(s) then Fail(MaskFormat)
    else if !OctetsInRange(QuadValues(s)) then Fail(MaskOctetRange)
    else if Has01(MaskBits(QuadValues(s))) then Fail(NonContiguous)
    else if QuadValues(s) == [0, 0, 0, 0] then Fail(ZeroMask)
    else Pass
  }

  /** A contiguous mask is the zero mask or has at least one leading one. */
  lemma ContiguousSplit(v: seq<nat>)
    requires |v| == 4 && OctetsInRange(v)
    ensures !Has01(MaskBits(v)) <==> v == [0, 0, 0, 0] || IsPrefixMask(v)
  {
    var b := MaskBits(v);
    NoRiseIff(b);
    MaskBitsZeroIff(v);
    if !Has01(b) {
      var k :| 0 <= k <= 32 && b == Fill(k, '1') + Fill(32 - k, '0');
      if k == 0 {
        assert b == Fill(32, '0');
      }
    }
    if v == [0, 0, 0, 0] {
      assert b == Fill(0, '1') + Fill(32, '0');
    }
  }

  /**
   * The mask validator accepts exactly the dotted quads of octets 0-255 whose
   * 32-bit expansion is `1^k 0^(32-k)` with `1 <= k <= 32`.
   */
  lemma ValidateMaskIff(s: string)
    ensures ValidateMask(s) == Pass <==>
            IsQuadShape(s) && OctetsInRange(QuadValues(s)) && IsPrefixMask(QuadValues(s))
  {
    if IsQuadShape(s) && OctetsInRange(QuadValues(s)) {
      ContiguousSplit(QuadValues(s));
      if IsPrefixMask(QuadValues(s)) {
        var k :| 1 <= k <= 32 && MaskBits(QuadValues(s)) == Fill(k, '1') + Fill(32 - k, '0');
        assert MaskBits(QuadValues(s))[0] == '1';
        MaskBitsZeroIff(QuadValues(s));
      }
    }
  }

  /** As written, the validator accepts the same masks plus every zero mask not spelt `0.0.0.0`. */
  lemma ValidateMaskAsWrittenIff(s: string)
    ensures ValidateMaskAsWritten(s) == Pass <==>
            ValidateMask(s) == Pass ||
            (IsQuadShape(s) && QuadValues(s) == [0, 0, 0, 0] && s != "0.0.0.0")
  {
    if IsQuadShape(s) && QuadValues(s) == [0, 0, 0, 0] {
      MaskBitsZeroIff(QuadValues(s));
      NoRiseIff(MaskBits(QuadValues(s)));
      assert MaskBits(QuadValues(s)) == Fill(0, '1') + Fill(32, '0');
    }
    if s == "0.0.0.0" && IsQuadShape(s) {
      ZeroQuadText();
    }
  }

  lemma DigitsHaveNoDot(f: string)
    requires IsDigitString(f)
    ensures '.' !in f
  {
  }

  lemma JoinFour(a: string, b: string, c: string, d: string)
    ensures Join([a, b, c, d], ".") == a + "." + b + "." + c + "." + d
  {
    assert [a, b, c, d][1..] == [b, c, d];
    assert [b, c, d][1..] == [c, d];
    assert [c, d][1..] == [d];
    assert Join([c, d], ".") == c + "." + d;
    assert Join([b, c, d], ".") == b + "." + (c + "." + d);
  }

  /** Four short digit fields joined by dots form a quad with those fields. */
  lemma QuadOfFields(a: string, b: string, c: string, d: string)
    requires IsShortDigits(a) && IsShortDigits(b) && IsShortDigits(c) && IsShortDigits(d)
    ensures Split(a + "." + b + "." + c + "." + d, '.') == [a, b, c, d]
    ensures IsQuadShape(a + "." + b + "." + c + "." + d)
  {
    DigitsHaveNoDot(a);
    DigitsHaveNoDot(b);
    DigitsHaveNoDot(c);
    DigitsHaveNoDot(d);
    SplitJoin([a, b, c, d], '.');
    JoinFour(a, b, c, d);
  }

  lemma DigitValues()
    ensures DigitsValue("0") == 0 && DigitsValue("00") == 0 && DigitsValue("255") == 255
  {
    assert "00"[..1] == "0";
    assert "255"[..2] == "25";
    assert "25"[..1] == "2";
  }

  lemma ByteBlocks()
    ensures Bin(255, 8) == Fill(8, '1') && Bin(0, 8) == Fill(8, '0')
  {
    assert Pow2(8) - 1 == 255;
    BinOfAllOnes(8);
    BinOfZero(8);
  }

  /** The text `0.0.0.0` is a quad of four zero octets. */
  lemma ZeroQuadText()
    ensures IsQuadShape("0.0.0.0") && QuadValues("0.0.0.0") == [0, 0, 0, 0]
  {
    QuadOfFields("0", "0", "0", "0");
    assert "0.0.0.0" == "0" + "." + "0" + "." + "0" + "." + "0";
    DigitValues();
  }

  /** A quad whose bits are `k >= 1` ones and then zeros is accepted. */
  lemma PrefixQuadAccepted(s: string, k: nat)
    requires IsQuadShape(s) && OctetsInRange(QuadValues(s)) && 1 <= k <= 32
    requires MaskBits(QuadValues(s)) == Fill(k, '1') + Fill(32 - k, '0')
    ensures ValidateMask(s) == Pass && ValidateMaskAsWritten(s) == Pass
  {
    ValidateMaskIff(s);
    ValidateMaskAsWrittenIff(s);
  }

  /** A quad of `n` octets 255 followed by zero octets has `8 n` leading ones. */
  lemma PrefixBytesBits(v: seq<nat>, n: nat)
    requires |v| == 4 && 1 <= n <= 3
    requires forall i :: 0 <= i < 4 ==> v[i] == (if i < n then 255 else 0)
    ensures OctetsInRange(v) && MaskBits(v) == Fill(8 * n, '1') + Fill(32 - 8 * n, '0')
  {
    ByteBlocks();
    if n == 1 {
      FillConcat(8, 8, '0');
      FillConcat(16, 8, '0');
      Assoc(Fill(8, '1'), Fill(8, '0'), Fill(8, '0'));
      Assoc(Fill(8, '1'), Fill(16, '0'), Fill(8, '0'));
    } else if n == 2 {
      FillConcat(8, 8, '1');
      FillConcat(8, 8, '0');
      Assoc(Fill(16, '1'), Fill(8, '0'), Fill(8, '0'));
    } else {
      FillConcat(8, 8, '1');
      FillConcat(16, 8, '1');
    }
  }

  /** The three classful masks are dotted quads of 255s then 0s. */
  lemma ClassMaskQuad(m: string, n: nat)
    requires (n == 1 && m == "255.0.0.0") || (n == 2 && m == "255.255.0.0") || (n == 3 && m == "255.255.255.0")
    ensures IsQuadShape(m) && forall i :: 0 <= i < 4 ==> QuadValues(m)[i] == (if i < n then 255 else 0)
  {
    DigitValues();
    if n == 1 {
      QuadOfFields("255", "0", "0", "0");
      assert m == "255" + "." + "0" + "." + "0" + "." + "0";
    } else if n == 2 {
      QuadOfFields("255", "255", "0", "0");
      assert m == "255" + "." + "255" + "." + "0" + "." + "0";
    } else {
      QuadOfFields("255", "255", "255", "0");
      assert m == "255" + "." + "255" + "." + "255" + "." + "0";
    }
  }

  /** `255.0.0.0`, `255.255.0.0` and `255.255.255.0` are accepted. */
  lemma ClassMaskAccepted(m: string, n: nat)
    requires (n == 1 && m == "255.0.0.0") || (n == 2 && m == "255.255.0.0") || (n == 3 && m == "255.255.255.0")
    ensures ValidateMask(m) == Pass
    ensures ValidateMaskAsWritten(m) == Pass
  {
    ClassMaskQuad(m, n);
    PrefixBytesBits(QuadValues(m), n);
    PrefixQuadAccepted(m, 8 * n);
  }

  /** A quad holding `255.0.255.0` is refused by both validators: its bits hold a `01`. */
  lemma HolesRefused(s: string)
    requires IsQuadShape(s) && QuadValues(s) == [255, 0, 255, 0]
    ensures ValidateMask(s) == Fail(NonContiguous) && ValidateMaskAsWritten(s) == Fail(NonContiguous)
  {
    HolesRise();
  }

  lemma HolesRise()
    ensures OctetsInRange([255, 0, 255, 0]) && Has01(MaskBits([255, 0, 255, 0]))
  {
    ByteBlocks();
    var b := MaskBits([255, 0, 255, 0]);
    assert b == Fill(8, '1') + Fill(8, '0') + Fill(8, '1') + Fill(8, '0');
    assert b[15] == '0' && b[15 + 1] == '1';
  }

  /** The text `255.0.255.0` is such a quad, and is refused. */
  lemma MaskExampleHoles()
    ensures IsQuadShape("255.0.255.0") && QuadValues("255.0.255.0") == [255, 0, 255, 0]
    ensures ValidateMask("255.0.255.0") == Fail(NonContiguous)
  {
    QuadOfFields("255", "0", "255", "0");
    assert "255.0.255.0" == "255" + "." + "0" + "." + "255" + "." + "0";
    DigitValues();
    HolesRefused("255.0.255.0");
  }

  /** `0.0.0.0` is refused as the zero mask. */
  lemma MaskExampleZero()
    ensures ValidateMask("0.0.0.0") == Fail(ZeroMask)
    ensures ValidateMaskAsWritten("0.0.0.0") == Fail(ZeroMask)
  {
    ZeroQuadText();
    ZeroMaskContiguous();
  }

  lemma ZeroMaskContiguous()
    ensures !Has01(MaskBits([0, 0, 0, 0])) && !IsPrefixMask([0, 0, 0, 0])
  {
    ContiguousSplit([0, 0, 0, 0]);
    MaskBitsZeroIff([0, 0, 0, 0]);
    PrefixMaskLeadingOne([0, 0, 0, 0]);
  }

  lemma PrefixMaskLeadingOne(v: seq<nat>)
    requires |v| == 4
    ensures IsPrefixMask(v) ==> MaskBits(v)[0] == '1'
  {
    if IsPrefixMask(v) {
      var k :| 1 <= k <= 32 && MaskBits(v) == Fill(k, '1') + Fill(32 - k, '0');
    }
  }

  /** As written, `00.0.0.0` is accepted although it is the zero mask. */
  lemma MaskZeroSpeltOtherwise()
    ensures ValidateMaskAsWritten("00.0.0.0") == Pass
    ensures ValidateMask("00.0.0.0") == Fail(ZeroMask)
    ensures IsQuadShape("00.0.0.0") && !IsPrefixMask(QuadValues("00.0.0.0"))
  {
    QuadOfFields("00", "0", "0", "0");
    assert "00.0.0.0" == "00" + "." + "0" + "." + "0" + "." + "0";
    DigitValues();
    ZeroMaskContiguous();
  }

  // ---------------------------------------------------------------------------
  // Address validation
  // ---------------------------------------------------------------------------

  /**
   * One field of an IPv4 address as Python's `ipaddress` reads it: one to three
   * ASCII digits, no leading zero, at most 255.
   */
  predicate IsLibraryOctet(f: string) {
    IsShortDigits(f) && (|f| == 1 || f[0] != '0') && DigitsValue(f) <= 255
  }

  /** Text that `ipaddress.ip_address` reads as an IPv4 address. */
  predicate IsIpv4Text(t: string) {
    var p := Split(t, '.');
    |p| == 4 && forall i :: 0 <= i < 4 ==> IsLibraryOctet(p[i])
  }

  /** The first octet of an IPv4 text: `int(ip.split('.')[0])`. */
  function FirstOctet(t: string): (o: nat)
    requires IsQuadShape(t)
    ensures o < 1000
  {
    QuadValues(t)[0]
  }

  datatype Family = V4 | V6

  /** The reserved blocks the address validator refuses, and the unreachable broadcast case. */
  datatype Reserved =
    | ThisNetwork  // first octet 0, section 3.2.1.3 of RFC 1122
    | Loopback     // first octet 127, section 3.2.1.3 of RFC 1122
    | Multicast    // first octet 224-239, class D, section 4 of RFC 1112
    | Future       // first octet 240 and above, class E, section 4 of RFC 1112
    | Broadcast    // 255.255.255.255, the limited broadcast

  /** Why a string is not a usable address. */
  datatype AddressCause = NotAnAddress | ReservedBlock(block: Reserved)

  /**
   * Why `validar_formato_ip` raised. `Incorrect` is every error raised inside
   * its `try`, re-raised with the "Formato IP incorrecto" prefix; the empty and
   * the spaced input are refused before the `try` and carry no prefix.
   */
  datatype IpError = EmptyIp | SpacedIp | Incorrect(cause: AddressCause)

  /** The reserved block a first octet falls in, in the order the validator tests them. */
  function ReservedBlockOf(first: nat): (r: Option<Reserved>)
    ensures r == None <==> (1 <= first <= 126 || 128 <= first <= 223)
    ensures r == Some(ThisNetwork) <==> first == 0
    ensures r == Some(Loopback) <==> first == 127
    ensures r == Some(Multicast) <==> 224 <= first < 240
    ensures r == Some(Future) <==> first >= 240
  {
    if first == 0 then Some(ThisNetwork)
    else if first == 127 then Some(Loopback)
    else if first >= 224 then (if first < 240 then Some(Multicast) else Some(Future))
    else None
  }

  /**
   * `validar_formato_ip`: strip, refuse empty and spaced text, parse with the
   * library (IPv4 first), refuse reserved IPv4 blocks. `isIpv6` stands for the
   * library's IPv6 parser.
   */
  function ValidateAddress(raw: string, isIpv6: string -> bool): Result<Family, IpError> {
    var t := Strip(raw);
    if t == [] then Err(EmptyIp)
    else if ' ' in t then Err(SpacedIp)
    else if IsIpv4Text(t) then
      IpTextIsQuad(t);
      match ReservedBlockOf(FirstOctet(t))
      case Some(block) => Err(Incorrect(ReservedBlock(block)))
      case None => if t == "255.255.255.255" then Err(Incorrect(ReservedBlock(Broadcast))) else Ok(V4)
    else if isIpv6(t) then Ok(V6)
    else Err(Incorrect(NotAnAddress))
  }

  /** Library IPv4 text is a dotted quad with no whitespace. */
  lemma IpTextIsQuad(t: string)
    requires IsIpv4Text(t)
    ensures IsQuadShape(t)
  {
  }

  /** IPv4 text is free of whitespace and is not empty. */
  lemma IpTextNoSpace(t: string)
    requires IsIpv4Text(t)
    ensures t != [] && ' ' !in t && !HasSpace(t)
  {
    var p := Split(t, '.');
    JoinSplit(t, '.');
    assert |p[0]| > 0;
    assert t == p[0] + "." + Join(p[1..], ".");
    assert t[0] == p[0][0];
    SplitPiecesFree(t, '.');
    JoinSpaceFree(p, '.');
  }

  /** Digit fields joined by a non-space separator contain no whitespace. */
  lemma {:induction false} JoinSpaceFree(p: seq<string>, c: char)
    requires !IsSpace(c)
    requires forall i :: 0 <= i < |p| ==> IsDigitString(p[i])
    ensures !HasSpace(Join(p, [c]))
  {
    if |p| == 1 {
      DigitsHaveNoSpace(p[0]);
    } else if |p| > 1 {
      DigitsHaveNoSpace(p[0]);
      JoinSpaceFree(p[1..], c);
      var tail := Join(p[1..], [c]);
      var s := p[0] + [c] + tail;
      assert Join(p, [c]) == s;
      forall j | 0 <= j < |s| ensures !IsSpace(s[j]) {
        if j < |p[0]| {
          assert s[j] == p[0][j];
        } else if j > |p[0]| {
          assert s[j] == tail[j - |p[0]| - 1];
        }
      }
    }
  }

  /**
   * The validator returns "IPv4" exactly for library IPv4 text (after strip) whose
   * first octet is 1-126 or 128-223; the broadcast check is never what refuses.
   */
  lemma ValidateAddressV4Iff(raw: string, isIpv6: string -> bool)
    ensures ValidateAddress(raw, isIpv6) == Ok(V4) <==>
            IsIpv4Text(Strip(raw)) &&
            (1 <= FirstOctet(Strip(raw)) <= 126 || 128 <= FirstOctet(Strip(raw)) <= 223)
  {
    var t := Strip(raw);
    if IsIpv4Text(t) {
      IpTextNoSpace(t);
      BroadcastFirstOctet(t);
    }
  }

  /** The validator returns "IPv6" exactly for non-IPv4 text that the IPv6 parser accepts. */
  lemma ValidateAddressV6Iff(raw: string, isIpv6: string -> bool)
    ensures ValidateAddress(raw, isIpv6) == Ok(V6) <==>
            var t := Strip(raw); t != [] && ' ' !in t && !IsIpv4Text(t) && isIpv6(t)
  {
    var t := Strip(raw);
    if IsIpv4Text(t) {
      IpTextNoSpace(t);
      BroadcastFirstOctet(t);
    }
  }

  /** A reserved first octet is refused with its own reason, prefixed as an incorrect format. */
  lemma ValidateAddressReserved(raw: string, isIpv6: string -> bool)
    requires IsIpv4Text(Strip(raw))
    requires ReservedBlockOf(FirstOctet(Strip(raw))).Some?
    ensures ValidateAddress(raw, isIpv6) ==
            Err(Incorrect(ReservedBlock(ReservedBlockOf(FirstOctet(Strip(raw))).value)))
  {
    IpTextNoSpace(Strip(raw));
  }

  /** The explicit `255.255.255.255` refusal can never be the one that fires. */
  lemma BroadcastUnreachable(raw: string, isIpv6: string -> bool)
    ensures ValidateAddress(raw, isIpv6) != Err(Incorrect(ReservedBlock(Broadcast)))
  {
    var t := Strip(raw);
    if IsIpv4Text(t) {
      IpTextNoSpace(t);
      BroadcastFirstOctet(t);
    }
  }

  /** The text `255.255.255.255` has first octet 255, already refused as class E. */
  lemma BroadcastFirstOctet(t: string)
    requires IsQuadShape(t)
    ensures t == "255.255.255.255" ==> FirstOctet(t) == 255
  {
    if t == "255.255.255.255" {
      QuadOfFields("255", "255", "255", "255");
      assert t == "255" + "." + "255" + "." + "255" + "." + "255";
      DigitValues();
    }
  }

  // ---------------------------------------------------------------------------
  // Classful default masks (section 3.2 of RFC 791)
  // ---------------------------------------------------------------------------

  datatype IpClass = A | B | C

  /** The class and default mask for a first octet, if it lies in class A, B or C. */
  function ClassOf(first: int): (r: Option<(IpClass, string)>)
    ensures r == Some((A, "255.0.0.0")) <==> 1 <= first <= 126
    ensures r == Some((B, "255.255.0.0")) <==> 128 <= first <= 191
    ensures r == Some((C, "255.255.255.0")) <==> 192 <= first <= 223
    ensures r == None <==> !(1 <= first <= 126 || 128 <= first <= 223)
  {
    if 1 <= first <= 126 then Some((A, "255.0.0.0"))
    else if 128 <= first <= 191 then Some((B, "255.255.0.0"))
    else if 192 <= first <= 223 then Some((C, "255.255.255.0"))
    else None
  }

  /**
   * `obtener_clase_y_mascara_predeterminada_ipv4`: the class of `int()` of the
   * first dot-separated field; `None` stands for `(None, None)`, which is also
   * the answer when that field is not an integer.
   */
  function ClassDefault(ip: string): Option<(IpClass, string)> {
    match PyInt(Split(ip, '.')[0])
    case None => None
    case Some(first) => ClassOf(first)
  }

  /** Every mask the class lookup proposes passes the mask validator. */
  lemma ClassMasksValid(first: int)
    requires ClassOf(first).Some?
    ensures ValidateMask(ClassOf(first).value.1) == Pass
    ensures ValidateMaskAsWritten(ClassOf(first).value.1) == Pass
  {
    if 1 <= first <= 126 {
      ClassMaskAccepted(ClassOf(first).value.1, 1);
    } else if 128 <= first <= 191 {
      ClassMaskAccepted(ClassOf(first).value.1, 2);
    } else {
      ClassMaskAccepted(ClassOf(first).value.1, 3);
    }
  }


  /** Every address the validator accepts as IPv4 has a class and a default mask. */
  lemma AcceptedAddressHasClass(raw: string, isIpv6: string -> bool)
    requires ValidateAddress(raw, isIpv6) == Ok(V4)
    ensures ClassDefault(Strip(raw)) == ClassOf(FirstOctet(Strip(raw)))
    ensures ClassDefault(Strip(raw)).Some?
  {
    ValidateAddressV4Iff(raw, isIpv6);
    QuadValuesAreInts(Strip(raw));
  }

  /** On a dotted quad the class lookup reads the first octet's value. */
  lemma ClassDefaultOfQuad(ip: string)
    requires IsQuadShape(ip)
    ensures ClassDefault(ip) == ClassOf(FirstOctet(ip))
  {
    QuadValuesAreInts(ip);
  }
}
