/**
 * Integer-to-text conversion of the formatter (AlphaNumber in
 * lib/strings/fmt.cc): the digits of a 64-bit unsigned value in base 8, 10
 * or 16, written backwards from the end of a 32-character scratch area and
 * left-filled to the requested width, capped at 32.
 */
module FmtDigits {
  import opened FmtArgs

  /** kFastToBufferSize: the scratch area's size and the cap on the width. */
  const FastToBufferSize: nat := 32

  function Min(a: nat, b: nat): nat { if a < b then a else b }

  /** The base AlphaNumber uses: 8 and 16 as asked, anything else decimal. */
  function Radix(base: int): (r: nat)
    ensures r in {8, 10, 16}
  {
    if base == 8 then 8 else if base == 16 then 16 else 10
  }

  /** hex[d] or uhex[d]. */
  function DigitChar(d: nat, upper: bool): (c: WChar)
    requires d < 16
    ensures d < 10 ==> 0x30 <= c <= 0x39
    ensures d >= 10 && upper ==> 0x41 <= c <= 0x46
    ensures d >= 10 && !upper ==> 0x61 <= c <= 0x66
  {
    if d < 10 then 0x30 + d else if upper then 0x41 + (d - 10) else 0x61 + (d - 10)
  }

  /** The value of a digit character, in either case. */
  function DigitValue(c: WChar): nat
  {
    if 0x30 <= c <= 0x39 then c - 0x30
    else if 0x41 <= c <= 0x46 then c - 0x41 + 10
    else if 0x61 <= c <= 0x66 then c - 0x61 + 10
    else 0
  }

  /** The digits of value in radix, most significant first; zero is "0". */
  function DigitString(value: nat, radix: nat, upper: bool): (s: seq<WChar>)
    requires radix in {8, 10, 16}
    ensures |s| >= 1
    decreases value
  {
    if value < radix then [DigitChar(value, upper)]
    else DigitString(value / radix, radix, upper) + [DigitChar(value % radix, upper)]
  }

  /** The number a string of digits denotes in radix. */
  function ValueOf(s: seq<WChar>, radix: nat): nat
  {
    if |s| == 0 then 0 else ValueOf(s[..|s| - 1], radix) * radix + DigitValue(s[|s| - 1])
  }

  function Repeat(c: WChar, n: nat): (s: seq<WChar>)
    ensures |s| == n && forall k :: 0 <= k < n ==> s[k] == c
  {
    seq(n, _ => c)
  }

  /**
   * The characters AlphaNumber leaves between its result and digits + 32:
   * the digits of value, preceded by enough fill characters to make
   * min(width, 32) characters when there are fewer digits than that.
   */
  function AlphaText(value: nat, width: nat, base: int, fill: WChar, upper: bool): (t: seq<WChar>)
    ensures |t| >= 1 && |t| >= Min(width, FastToBufferSize)
  {
    var digits := DigitString(value, Radix(base), upper);
    var w := Min(width, FastToBufferSize);
    if |digits| < w then Repeat(fill, w - |digits|) + digits else digits
  }

  // ------------------------------------------------------------ the loop

  /** One step of the digit loop: the last digit, and the digits of what is left (none once that is zero). */
  lemma DigitStringStep(v: nat, radix: nat, upper: bool)
    requires radix in {8, 10, 16}
    ensures DigitString(v, radix, upper) == Undone(v / radix, radix, upper) + [DigitChar(v % radix, upper)]
  {
  }

  /**
   * The do-while loops of AlphaNumber: writes the digits of value backwards
   * ending at digits + 32 and returns where they start. The base-8 and
   * base-16 loops of the source shift and mask, which on an unsigned value
   * are division and remainder by 8 and 16.
   */
  method WriteDigits(value: nat, digits: array<WChar>, radix: nat, u: bool) returns (writer: nat)
    requires value < TwoTo64 && digits.Length > FastToBufferSize && radix in {8, 10, 16}
    modifies digits
    ensures FastToBufferSize - 22 <= writer < FastToBufferSize
    ensures digits[writer..FastToBufferSize] == DigitString(value, radix, u)
  {
    ghost var text := DigitString(value, radix, u);
    DigitCountOf64BitValue(value, radix, u);
    var v: nat;
    ghost var done: seq<WChar>;
    writer, v, done := EmitDigit(digits, FastToBufferSize, value, radix, u, []);
    while v != 0
      invariant writer + |done| == FastToBufferSize && |text| <= 22
      invariant digits[writer..FastToBufferSize] == done
      invariant text == Undone(v, radix, u) + done
      decreases v
    {
      writer, v, done := EmitDigit(digits, writer, v, radix, u, done);
    }
  }

  /** One pass of the do-while: *--writer = the last digit of v, and v /= radix. */
  method EmitDigit(digits: array<WChar>, writer: nat, v: nat, radix: nat, u: bool, ghost done: seq<WChar>)
    returns (writer': nat, v': nat, ghost done': seq<WChar>)
    requires 0 < writer <= FastToBufferSize < digits.Length && radix in {8, 10, 16}
    requires digits[writer..FastToBufferSize] == done
    modifies digits
    ensures writer' == writer - 1 && done' == [DigitChar(v % radix, u)] + done
    ensures digits[writer'..FastToBufferSize] == done'
    ensures DigitString(v, radix, u) + done == Undone(v', radix, u) + done'
    ensures v != 0 ==> v' < v
  {
    var d := v % radix;
    v' := v / radix;
    assert d < radix && (v != 0 ==> v' < v) by { DivStep(v, radix); }
    var c := DigitChar(d, u);
    PutDigit(digits, writer, c, done);
    writer', done' := writer - 1, [c] + done;
    assert DigitString(v, radix, u) + done == Undone(v', radix, u) + done' by {
      DigitStringStep(v, radix, u);
      AppendAssoc(Undone(v', radix, u), [c], done);
    }
  }

  lemma DivStep(v: nat, radix: nat)
    requires radix in {8, 10, 16}
    ensures v % radix < radix && (v != 0 ==> v / radix < v)
  {
  }

  lemma AppendAssoc(a: seq<WChar>, b: seq<WChar>, c: seq<WChar>)
    ensures (a + b) + c == a + (b + c)
  {
  }

  /** The digits the loop has still to write once v is what is left of the value. */
  function Undone(v: nat, radix: nat, upper: bool): (s: seq<WChar>)
    requires radix in {8, 10, 16}
    ensures v != 0 ==> |s| >= 1
  {
    if v == 0 then [] else DigitString(v, radix, upper)
  }

  /** *--writer = c, in front of the digits already written. */
  method PutDigit(digits: array<WChar>, writer: nat, c: WChar, ghost done: seq<WChar>)
    requires 0 < writer <= FastToBufferSize < digits.Length
    requires digits[writer..FastToBufferSize] == done
    modifies digits
    ensures digits[writer - 1..FastToBufferSize] == [c] + done
  {
    digits[writer - 1] := c;
    assert digits[writer - 1..FastToBufferSize] == [c] + digits[writer..FastToBufferSize];
  }

  /** AlphaNumber: leaves AlphaText in digits[beg..32] and returns beg. */
  method AlphaNumber(value: nat, digits: array<WChar>, width: nat, base: int, fill: WChar, u: bool) returns (beg: nat)
    requires value < TwoTo64 && digits.Length > FastToBufferSize
    modifies digits
    ensures beg <= FastToBufferSize
    ensures digits[beg..FastToBufferSize] == AlphaText(value, width, base, fill, u)
  {
    var w := Min(width, FastToBufferSize);
    var writer := WriteDigits(value, digits, Radix(base), u);
    if FastToBufferSize - writer < w {
      beg := FastToBufferSize - w;
      FillBefore(digits, beg, writer, fill);
    } else {
      beg := writer;
    }
  }

  /** std::fill_n(beg, writer - beg, fill), in front of the digits at writer. */
  method FillBefore(digits: array<WChar>, beg: nat, writer: nat, fill: WChar)
    requires beg <= writer <= FastToBufferSize < digits.Length
    modifies digits
    ensures digits[beg..FastToBufferSize] == Repeat(fill, writer - beg) + old(digits[writer..FastToBufferSize])
  {
    ghost var text := digits[writer..FastToBufferSize];
    var k := beg;
    while k < writer
      invariant beg <= k <= writer
      invariant digits[beg..k] == Repeat(fill, k - beg)
      invariant digits[writer..FastToBufferSize] == text
    {
      digits[k] := fill;
      k := k + 1;
    }
    assert digits[beg..FastToBufferSize] == digits[beg..writer] + digits[writer..FastToBufferSize];
  }

  // ------------------------------------------------------------ properties

  function Pow(b: nat, n: nat): nat
  {
    if n == 0 then 1 else b * Pow(b, n - 1)
  }

  /** A value below 8^n has at most n digits in any of the three bases. */
  lemma {:induction false} DigitCount(value: nat, radix: nat, upper: bool, n: nat)
    requires radix in {8, 10, 16} && 1 <= n && value < Pow(8, n)
    ensures |DigitString(value, radix, upper)| <= n
    decreases value
  {
    if value >= radix {
      var q := value / radix;
      assert n >= 2;
      assert q * 8 <= q * radix <= value;
      assert q < Pow(8, n - 1);
      DigitCount(q, radix, upper, n - 1);
    }
  }

  /** A 64-bit value has at most 22 digits, so the conversion stays inside the 32-character area. */
  lemma DigitCountOf64BitValue(value: nat, radix: nat, upper: bool)
    requires radix in {8, 10, 16} && value < TwoTo64
    ensures |DigitString(value, radix, upper)| <= 22
  {
    assert Pow(8, 11) == 0x2_0000_0000;
    DigitCount(value, radix, upper, 22);
  }

  /** Reading the digits back gives the value. */
  lemma {:induction false} DigitStringRoundTrip(value: nat, radix: nat, upper: bool)
    requires radix in {8, 10, 16}
    ensures ValueOf(DigitString(value, radix, upper), radix) == value
    decreases value
  {
    var s := DigitString(value, radix, upper);
    if value < radix {
      DigitCharValue(value, upper);
      assert s[..0] == [];
    } else {
      var q, r := value / radix, value % radix;
      assert ValueOf(s, radix) == ValueOf(DigitString(q, radix, upper), radix) * radix + DigitValue(DigitChar(r, upper)) by {
        assert s[..|s| - 1] == DigitString(q, radix, upper);
        assert s[|s| - 1] == DigitChar(r, upper);
      }
      DigitStringRoundTrip(q, radix, upper);
      DigitCharValue(r, upper);
      assert value == q * radix + r;
    }
  }

  /** Reading a leading digit: it counts radix^|s| times its value. */
  lemma {:induction false} ValueOfCons(c: WChar, s: seq<WChar>, radix: nat)
    ensures ValueOf([c] + s, radix) == DigitValue(c) * Pow(radix, |s|) + ValueOf(s, radix)
    decreases |s|
  {
    var t := [c] + s;
    if |s| == 0 {
      assert t[..0] == [];
    } else {
      var init := s[..|s| - 1];
      var last := DigitValue(s[|s| - 1]);
      assert ValueOf(t, radix) == ValueOf([c] + init, radix) * radix + last by {
        assert t[..|t| - 1] == [c] + init;
        assert t[|t| - 1] == s[|s| - 1];
      }
      ValueOfCons(c, init, radix);
      ShiftDigit(DigitValue(c), Pow(radix, |s| - 1), ValueOf(init, radix), radix, last);
    }
  }

  lemma ShiftDigit(d: nat, p: nat, w: nat, radix: nat, last: nat)
    ensures (d * p + w) * radix + last == d * (radix * p) + (w * radix + last)
  {
  }

  /** A digit character reads back as its digit. */
  lemma DigitCharValue(d: nat, upper: bool)
    requires d < 16
    ensures DigitValue(DigitChar(d, upper)) == d
  {
  }

  /** Every character is a digit of the radix, in the case asked for. */
  lemma {:induction false} DigitStringAlphabet(value: nat, radix: nat, upper: bool)
    requires radix in {8, 10, 16}
    ensures forall k :: 0 <= k < |DigitString(value, radix, upper)| ==>
      DigitString(value, radix, upper)[k] in DigitChars(radix, upper)
    decreases value
  {
    if value >= radix {
      DigitStringAlphabet(value / radix, radix, upper);
    }
  }

  function DigitChars(radix: nat, upper: bool): set<WChar>
    requires radix <= 16
  {
    set d: nat | d < radix :: DigitChar(d, upper)
  }

  /**
   * The text AlphaNumber returns: at most 32 characters, exactly
   * max(digits, min(width, 32)) of them, fill characters and then the
   * digits, which read back as the value.
   */
  lemma AlphaTextShape(value: nat, width: nat, base: int, fill: WChar, upper: bool)
    requires value < TwoTo64
    ensures var t := AlphaText(value, width, base, fill, upper);
      var digits := DigitString(value, Radix(base), upper);
      |t| <= FastToBufferSize &&
      |t| == (if |digits| < Min(width, FastToBufferSize) then Min(width, FastToBufferSize) else |digits|) &&
      t == Repeat(fill, |t| - |digits|) + digits &&
      ValueOf(t[|t| - |digits|..], Radix(base)) == value
  {
    var t := AlphaText(value, width, base, fill, upper);
    var digits := DigitString(value, Radix(base), upper);
    DigitCountOf64BitValue(value, Radix(base), upper);
    DigitStringRoundTrip(value, Radix(base), upper);
    assert t[|t| - |digits|..] == digits;
  }
}
