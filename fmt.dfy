/**
 * The wide-character formatter of lib/strings/fmt.cc: StrFormatInternal's
 * scan of the format string (literal runs, '%' directives with a zero flag,
 * a width and a fraction width), the directives it knows, the two writers it
 * runs over, and the argument-free fast paths.
 *
 * The behaviour is specified by Run, one Pass per directive, over a Sink;
 * the methods are proved to compute it.
 */
module Fmt {
  import opened Wrappers
  import opened Search
  import opened FmtArgs
  import opened FmtDigits
  import opened FmtBuffer

  const Percent: WChar := 0x25
  const Zero: WChar := 0x30
  const Space: WChar := 0x20
  const Dot: WChar := 0x2E
  const Minus: WChar := 0x2D
  const TwoTo32: nat := 0x1_0000_0000

  /** A wide string literal's code units (the literals used here are ASCII). */
  function Wide(s: string): (w: seq<WChar>)
    ensures |w| == |s|
  {
    if |s| == 0 then [] else [(s[0] as int) % 0x1_0000] + Wide(s[1..])
  }

  const FalseText: seq<WChar> := Wide("false")
  const TrueText: seq<WChar> := Wide("true")

  /** The text of a NUL-terminated wide string: what wcslen measures. */
  function Text(raw: seq<WChar>): (t: seq<WChar>)
    ensures forall k :: 0 <= k < |t| ==> t[k] != 0
  {
    raw[..WcsLen(raw)]
  }

  /** *it on the format: the terminator past the text. */
  function CharAt(fmt: seq<WChar>, i: nat): WChar
  {
    if i < |fmt| then fmt[i] else 0
  }

  predicate IsDigit(c: WChar)
  {
    0x30 <= c <= 0x39
  }

  // ------------------------------------------------------------ parsing

  /**
   * The digit loop: acc = acc * 10 + digit in uint32 arithmetic for every
   * digit from i on; the value and the index of the first non-digit.
   */
  function Digits(fmt: seq<WChar>, i: nat, acc: nat): (r: (nat, nat))
    requires i <= |fmt| && acc < TwoTo32
    ensures i <= r.1 <= |fmt| && r.0 < TwoTo32
    ensures !IsDigit(CharAt(fmt, r.1))
    ensures forall k :: i <= k < r.1 ==> IsDigit(fmt[k])
    decreases |fmt| - i
  {
    if i < |fmt| && IsDigit(fmt[i]) then Digits(fmt, i + 1, (acc * 10 + (fmt[i] - Zero)) % TwoTo32)
    else (acc, i)
  }

  /** A directive's modifiers: the '0' flag, the width, the fraction width, and where its letter is. */
  datatype Spec = Spec(zero: bool, width: nat, fracWidth: nat, at: nat)

  /** The parse after a '%' at j - 1: zero flag, width digits, and an optional '.' with fraction digits. */
  function ParseSpec(fmt: seq<WChar>, j: nat): (sp: Spec)
    requires j <= |fmt|
    ensures j <= sp.at <= |fmt|
    ensures sp.zero <==> CharAt(fmt, j) == Zero
    ensures sp.width < TwoTo32 && sp.fracWidth < TwoTo32
    ensures var e := Digits(fmt, j, 0).1;
      && sp.width == ValueOf(fmt[j..e], 10) % TwoTo32
      && if CharAt(fmt, e) == Dot then
           var f := Digits(fmt, e + 1, 0).1;
           sp.fracWidth == ValueOf(fmt[e + 1..f], 10) % TwoTo32 && sp.at == f
         else
           sp.fracWidth == 0 && sp.at == e
  {
    DigitsValue(fmt, j, 0);
    var (width, k) := Digits(fmt, j, 0);
    if CharAt(fmt, k) == Dot then
      DigitsValue(fmt, k + 1, 0);
      var (frac, m) := Digits(fmt, k + 1, 0);
      Spec(CharAt(fmt, j) == Zero, width, frac, m)
    else
      Spec(CharAt(fmt, j) == Zero, width, 0, k)
  }

  /**
   * The digit loop computes acc followed by the digit run, read in decimal,
   * in uint32 arithmetic: acc * 10^n + the run's value, modulo 2^32.
   */
  lemma {:induction false} DigitsValue(fmt: seq<WChar>, i: nat, acc: nat)
    requires i <= |fmt| && acc < TwoTo32
    ensures var r := Digits(fmt, i, acc);
      r.0 == (acc * Pow(10, r.1 - i) + ValueOf(fmt[i..r.1], 10)) % TwoTo32
    decreases |fmt| - i
  {
    var r := Digits(fmt, i, acc);
    if i < |fmt| && IsDigit(fmt[i]) {
      var next := (acc * 10 + (fmt[i] - Zero)) % TwoTo32;
      DigitsValue(fmt, i + 1, next);
      DigitsValueStep(fmt, i, acc);
    } else {
      assert r == (acc, i);
      assert ValueOf(fmt[i..i], 10) == 0 by { assert fmt[i..i] == []; }
      assert Pow(10, 0) == 1;
      assert acc % TwoTo32 == acc;
    }
  }

  /** The inductive step of DigitsValue: a leading digit d turns acc into acc * 10 + d. */
  lemma DigitsValueStep(fmt: seq<WChar>, i: nat, acc: nat)
    requires i < |fmt| && IsDigit(fmt[i]) && acc < TwoTo32
    requires var next := (acc * 10 + (fmt[i] - Zero)) % TwoTo32;
      var r := Digits(fmt, i + 1, next);
      r.0 == (next * Pow(10, r.1 - (i + 1)) + ValueOf(fmt[i + 1..r.1], 10)) % TwoTo32
    ensures var r := Digits(fmt, i, acc);
      r.0 == (acc * Pow(10, r.1 - i) + ValueOf(fmt[i..r.1], 10)) % TwoTo32
  {
    var d := fmt[i] - Zero;
    var next := (acc * 10 + d) % TwoTo32;
    var r := Digits(fmt, i + 1, next);
    assert Digits(fmt, i, acc) == r;
    var rest := fmt[i + 1..r.1];
    var v := ValueOf(rest, 10);
    assert ValueOf(fmt[i..r.1], 10) == d * Pow(10, |rest|) + v by {
      assert fmt[i..r.1] == [fmt[i]] + rest;
      ValueOfCons(fmt[i], rest, 10);
    }
    DigitStep(r.0, acc, d, |rest|, v, ValueOf(fmt[i..r.1], 10));
  }

  /** One turn of the digit loop, in the terms of DigitsValue. */
  lemma DigitStep(r0: nat, acc: nat, d: nat, n: nat, v: nat, total: nat)
    requires r0 == ((acc * 10 + d) % TwoTo32 * Pow(10, n) + v) % TwoTo32
    requires total == d * Pow(10, n) + v
    ensures r0 == (acc * Pow(10, n + 1) + total) % TwoTo32
  {
    ModAbsorbs(acc * 10 + d, Pow(10, n), v, TwoTo32);
    var p := Pow(10, n);
    assert Pow(10, n + 1) == 10 * p;
    assert (acc * 10 + d) * p == acc * (10 * p) + d * p;
  }

  /** Reducing a factor modulo m first does not change the sum modulo m. */
  lemma ModAbsorbs(a: nat, p: nat, v: nat, m: nat)
    requires m > 0
    ensures ((a % m) * p + v) % m == (a * p + v) % m
  {
    var q := a / m;
    assert a * p + v == ((a % m) * p + v) + (q * p) * m by {
      assert a == q * m + a % m;
    }
    ModPlusMultiple((a % m) * p + v, q * p, m);
  }

  lemma ModPlusMultiple(x: nat, k: nat, m: nat)
    requires m > 0
    ensures (x + k * m) % m == x % m
  {
    var y := x + k * m;
    var t := x / m + k - y / m;
    assert t * m == y % m - x % m by {
      assert y == (x / m + k) * m + x % m;
      assert y == (y / m) * m + y % m;
      assert (x / m + k) * m - (y / m) * m == t * m;
    }
    MulAtLeast(t, m);
  }

  /** A nonzero multiple of m is at least m away from zero. */
  lemma MulAtLeast(t: int, m: nat)
    requires m > 0
    ensures t >= 1 ==> t * m >= m
    ensures t <= -1 ==> t * m + m <= 0
  {
    if t >= 1 {
      assert t * m == (t - 1) * m + m;
    } else if t <= -1 {
      assert t * m == -((-t - 1) * m) - m;
    }
  }

  // ------------------------------------------------------------ directives

  /** The directive letters that consume an argument: b c s d o x X f a p. */
  predicate TakesArg(c: WChar)
  {
    c == 0x62 || c == 0x63 || c == 0x73 || c == 0x64 || c == 0x6F ||
    c == 0x78 || c == 0x58 || c == 0x66 || c == 0x61 || c == 0x70
  }

  /**
   * ToInteger(&sign) for %d: the magnitude and sign of an INTEGER, the
   * 64-bit unsigned reading of a UINTEGER, and the magnitude and sign of the
   * int64 a FLOAT or PTR argument reads as; nothing for a STRING.
   */
  function SignedReading(a: FormatArg): (r: Option<(nat, bool)>)
    ensures r.Some? <==> !a.Strings?
    ensures r.Some? ==> r.value.0 < TwoTo64
    ensures a.Integer? && !a.isUnsigned ==> (if r.value.1 then 0 - r.value.0 as int else r.value.0 as int) == a.i
    ensures a.Integer? && a.isUnsigned ==> !r.value.1 && r.value.0 % TwoTo64 == a.i % TwoTo64
    ensures a.Floating? || a.Pointer? ==>
      (if r.value.1 then 0 - r.value.0 as int else r.value.0 as int) == a.asInteger && (r.value.1 <==> a.asInteger < 0)
  {
    match a
    case Integer(u, i, _) =>
      var v: int := i;
      if u then Some((v % TwoTo64, false))
      else if v < 0 then Some((-v, true)) else Some((v, false))
    case Floating(_, i) => var v: int := i; if v < 0 then Some((-v, true)) else Some((v, false))
    case Pointer(i) => var v: int := i; if v < 0 then Some((-v, true)) else Some((v, false))
    case Strings(_) => None
  }

  /** ToInteger() for %o, %x and %X: the stored int64 (or the one a FLOAT or PTR reads as) read as uint64. */
  function UnsignedReading(a: FormatArg): (r: Option<nat>)
    ensures r.Some? <==> !a.Strings?
    ensures a.Integer? ==> r.value < TwoTo64 && r.value % TwoTo64 == a.i % TwoTo64
    ensures a.Floating? || a.Pointer? ==> r.value < TwoTo64 && r.value % TwoTo64 == a.asInteger % TwoTo64
  {
    match a
    case Integer(_, i, _) => Some(i % TwoTo64)
    case Floating(_, v) => Some(v % TwoTo64)
    case Pointer(v) => Some(v % TwoTo64)
    case Strings(_) => None
  }

  /**
   * %c: static_cast<char>(i) widened to wchar_t: the low byte, sign-extended
   * into the 16-bit unit when plain char is signed.
   */
  function CharToWide(i: int, signedChar: bool): (c: WChar)
    ensures c % 256 == i % 256
    ensures c < 128 || (signedChar <==> c >= 0xFF00)
  {
    var b := i % 256;
    if signedChar && b >= 128 then b + 0xFF00 else b
  }

  /**
   * The writer calls of one argument-consuming directive c applied to
   * argument a. An argument of the wrong kind writes nothing: %b and %c print
   * integers only, %s strings only, %d, %o, %x and %X anything but a string.
   */
  function ArgOps(c: WChar, sp: Spec, a: FormatArg, signedChar: bool): (ops: seq<Op>)
    ensures (c == 0x62 || c == 0x63) && !a.Integer? ==> ops == []
    ensures c == 0x73 && !a.Strings? ==> ops == []
    ensures (c == 0x64 || c == 0x6F || c == 0x78 || c == 0x58) && a.Strings? ==> ops == []
  {
    var fill := if sp.zero then Zero else Space;
    if c == 0x62 then // 'b'
      if a.Integer? then [Put(if a.i == 0 then FalseText else TrueText)] else []
    else if c == 0x63 then // 'c'
      if a.Integer? then
        (if sp.width > 1 then [PadOp(sp.width - 1, sp.zero)] else []) + [Push(CharToWide(a.i, signedChar))]
      else []
    else if c == 0x73 then // 's'
      if a.Strings? then
        (if sp.width > |a.data| then [PadOp(sp.width - |a.data|, sp.zero)] else []) + [Put(a.data)]
      else []
    else if c == 0x64 then // 'd'
      match SignedReading(a)
      case None => []
      case Some((m, negative)) =>
        (if negative then [Push(Minus)] else []) + [Put(AlphaText(m, sp.width, 10, fill, false))]
    else if c == 0x6F || c == 0x78 || c == 0x58 then // 'o', 'x', 'X'
      match UnsignedReading(a)
      case None => []
      case Some(u) => [Put(AlphaText(u, sp.width, if c == 0x6F then 8 else 16, fill, c == 0x58))]
    else // 'f', 'a', 'p'
      []
  }

  datatype Step = Emit(ops: seq<Op>, next: nat) | MissingArg

  /**
   * The switch on the directive letter: "%%" writes '%', an unknown letter
   * (or the terminator) writes nothing, and a letter that takes an argument
   * fails once the arguments are used up, else consumes the next one.
   */
  function DirectiveOps(c: WChar, sp: Spec, ca: nat, args: seq<FormatArg>, signedChar: bool): (r: Step)
    ensures r.MissingArg? <==> TakesArg(c) && ca >= |args|
    ensures r.Emit? ==> r.next == (if TakesArg(c) then ca + 1 else ca)
  {
    if c == Percent then Emit([Push(Percent)], ca)
    else if !TakesArg(c) then Emit([], ca)
    else if ca >= |args| then MissingArg
    else Emit(ArgOps(c, sp, args[ca], signedChar), ca + 1)
  }

  // ------------------------------------------------------------ the scan

  datatype PassResult = Next(ops: seq<Op>, it: nat, ca: nat) | Last(ops: seq<Op>) | Fail(ops: seq<Op>)

  /**
   * One turn of StrFormatInternal's loop from it: the literal run up to the
   * next '%' (or the rest of the text, which ends the scan), then one
   * directive.
   */
  function Pass(fmt: seq<WChar>, it: nat, ca: nat, args: seq<FormatArg>, signedChar: bool): (p: PassResult)
    requires it < |fmt|
    ensures p.Next? ==> it < p.it <= |fmt| + 1
  {
    match Find(fmt[it..], [Percent])
    case None => Last([Put(fmt[it..])])
    case Some(pos) =>
      var sp := ParseSpec(fmt, it + pos + 1);
      var lead := [Put(fmt[it..it + pos])];
      match DirectiveOps(CharAt(fmt, sp.at), sp, ca, args, signedChar)
      case MissingArg => Fail(lead)
      case Emit(ops, next) => Next(lead + ops, sp.at + 1, next)
  }

  /** What the writer holds when StrFormatInternal returns, and what it returns. */
  datatype Outcome = Outcome(sink: Sink, ok: bool)

  /** The loop from it, while it is inside the text and the writer has not overflowed. */
  function Run(fmt: seq<WChar>, args: seq<FormatArg>, signedChar: bool, cap: Option<nat>,
               s: Sink, it: nat, ca: nat): (o: Outcome)
    ensures Stopped(s, cap) ==> o == Outcome(s, false)
    ensures o.ok ==> !Stopped(o.sink, cap)
    ensures |s.text| <= |o.sink.text|
    decreases |fmt| + 1 - it
  {
    if it >= |fmt| || Stopped(s, cap) then Outcome(s, !Stopped(s, cap))
    else
      match Pass(fmt, it, ca, args, signedChar)
      case Last(ops) =>
        var s' := ApplyAll(s, cap, ops);
        Outcome(s', !Stopped(s', cap))
      case Fail(ops) => Outcome(ApplyAll(s, cap, ops), false)
      case Next(ops, it', ca') => Run(fmt, args, signedChar, cap, ApplyAll(s, cap, ops), it', ca')
  }

  /** StrFormatInternal(w, fmt, args, max_args): no arguments means failure before anything is written. */
  function Format(fmt: seq<WChar>, args: seq<FormatArg>, signedChar: bool, cap: Option<nat>, s: Sink): (o: Outcome)
    ensures |args| == 0 ==> o == Outcome(s, false)
    ensures o.ok ==> !Stopped(o.sink, cap)
    ensures |s.text| <= |o.sink.text|
  {
    if |args| == 0 then Outcome(s, false) else Run(fmt, args, signedChar, cap, s, 0, 0)
  }

  /** The std::wstring overload: the formatted text, or the empty string on failure. */
  function FormatString(raw: seq<WChar>, args: seq<FormatArg>, signedChar: bool): (r: seq<WChar>)
    ensures |args| == 0 ==> r == []
  {
    var o := Format(Text(raw), args, signedChar, None, Sink([], false));
    if o.ok then o.sink.text else []
  }

  // ------------------------------------------------------------ the methods

  /** memsearch: the offset of the first ch in s, or npos (None). */
  method MemSearch(s: seq<WChar>, ch: WChar) returns (r: Option<nat>)
    ensures r == Find(s, [ch])
  {
    var i := 0;
    while i < |s|
      invariant i <= |s|
      invariant forall j :: 0 <= j < i ==> s[j] != ch
    {
      if s[i] == ch {
        assert OccursAt(s, [ch], i);
        forall j: nat | j < i
          ensures !OccursAt(s, [ch], j)
        {
          if j + 1 <= |s| {
            assert s[j..j + 1][0] == s[j];
          }
        }
        FindIsLeftmost(s, [ch], i);
        return Some(i);
      }
      i := i + 1;
    }
    forall j: nat
      ensures !OccursAt(s, [ch], j)
    {
      if j + 1 <= |s| {
        assert s[j..j + 1][0] == s[j];
      }
    }
    return None;
  }

  /** The digit loops of the parse, from j; the index of the directive letter in sp.at. */
  method ParseSpecAt(fmt: seq<WChar>, j: nat) returns (sp: Spec)
    requires j <= |fmt|
    ensures sp == ParseSpec(fmt, j)
  {
    var zero := CharAt(fmt, j) == Zero;
    var width, it := ScanDigits(fmt, j);
    var fracWidth: nat := 0;
    if CharAt(fmt, it) == Dot {
      fracWidth, it := ScanDigits(fmt, it + 1);
    }
    sp := Spec(zero, width, fracWidth, it);
  }

  /** One of the digit loops: accumulates value * 10 + digit in a uint32 while the character is a digit. */
  method ScanDigits(fmt: seq<WChar>, j: nat) returns (value: nat, it: nat)
    requires j <= |fmt|
    ensures (value, it) == Digits(fmt, j, 0)
  {
    it := j;
    value := 0;
    while IsDigit(CharAt(fmt, it))
      invariant j <= it <= |fmt| && value < TwoTo32
      invariant Digits(fmt, it, value) == Digits(fmt, j, 0)
      decreases |fmt| - it
    {
      value := (value * 10 + (fmt[it] - Zero)) % TwoTo32;
      it := it + 1;
    }
  }

  /** The switch of StrFormatInternal for the letter c; false when an argument is missing. */
  method Directive(w: Writer, c: WChar, sp: Spec, ca: nat, args: seq<FormatArg>, signedChar: bool,
                   digits: array<WChar>) returns (ok: bool, next: nat)
    requires w.Valid() && digits.Length > FastToBufferSize && digits !in w.Repr
    modifies w.Repr, digits
    ensures w.Valid()
    ensures match DirectiveOps(c, sp, ca, args, signedChar)
      case MissingArg => !ok && w.State() == old(w.State())
      case Emit(ops, n) => ok && next == n && w.State() == ApplyAll(old(w.State()), w.Cap(), ops)
  {
    if c == Percent {
      w.Out(Percent);
      return true, ca;
    }
    if !TakesArg(c) {
      return true, ca;
    }
    if ca >= |args| {
      return false, ca;
    }
    ArgDirective(w, c, sp, args[ca], signedChar, digits);
    return true, ca + 1;
  }

  /** The switch cases that consume argument a: the writer calls ArgOps lists. */
  method ArgDirective(w: Writer, c: WChar, sp: Spec, a: FormatArg, signedChar: bool, digits: array<WChar>)
    requires TakesArg(c) && w.Valid() && digits.Length > FastToBufferSize && digits !in w.Repr
    modifies w.Repr, digits
    ensures w.Valid()
    ensures w.State() == ApplyAll(old(w.State()), w.Cap(), ArgOps(c, sp, a, signedChar))
  {
    if c == 0x62 {
      BoolDirective(w, sp, a, signedChar);
    } else if c == 0x63 {
      CharDirective(w, sp, a, signedChar);
    } else if c == 0x73 {
      StringDirective(w, sp, a, signedChar);
    } else if c == 0x64 {
      SignedDirective(w, sp, a, signedChar, digits);
    } else if c == 0x6F || c == 0x78 || c == 0x58 {
      UnsignedDirective(w, c, sp, a, signedChar, digits);
    } else {
      assert ArgOps(c, sp, a, signedChar) == [];
    }
  }

  /** %b: "true" or "false". */
  method BoolDirective(w: Writer, sp: Spec, a: FormatArg, signedChar: bool)
    requires w.Valid()
    modifies w.Repr
    ensures w.Valid()
    ensures w.State() == ApplyAll(old(w.State()), w.Cap(), ArgOps(0x62, sp, a, signedChar))
  {
    ghost var s0 := w.State();
    if a.Integer? {
      var text := if a.i == 0 then FalseText else TrueText;
      w.Append(text);
      OneOp(s0, w.Cap(), Put(text));
    }
  }

  /** %c: the padding, then the character. */
  method CharDirective(w: Writer, sp: Spec, a: FormatArg, signedChar: bool)
    requires w.Valid()
    modifies w.Repr
    ensures w.Valid()
    ensures w.State() == ApplyAll(old(w.State()), w.Cap(), ArgOps(0x63, sp, a, signedChar))
  {
    ghost var s0 := w.State();
    if a.Integer? {
      var ch := CharToWide(a.i, signedChar);
      if sp.width > 1 {
        w.Pad(sp.width - 1, sp.zero);
        w.Out(ch);
        ApplyTwo(s0, w.Cap(), PadOp(sp.width - 1, sp.zero), Push(ch));
        assert [PadOp(sp.width - 1, sp.zero)] + [Push(ch)] == [PadOp(sp.width - 1, sp.zero), Push(ch)];
      } else {
        w.Out(ch);
        OneOp(s0, w.Cap(), Push(ch));
        assert [] + [Push(ch)] == [Push(ch)];
      }
    }
  }

  /** %s: the padding, then the string. */
  method StringDirective(w: Writer, sp: Spec, a: FormatArg, signedChar: bool)
    requires w.Valid()
    modifies w.Repr
    ensures w.Valid()
    ensures w.State() == ApplyAll(old(w.State()), w.Cap(), ArgOps(0x73, sp, a, signedChar))
  {
    ghost var s0 := w.State();
    if a.Strings? {
      if sp.width > |a.data| {
        var pad := PadOp(sp.width - |a.data|, sp.zero);
        assert ArgOps(0x73, sp, a, signedChar) == [pad, Put(a.data)] by {
          assert [pad] + [Put(a.data)] == [pad, Put(a.data)];
        }
        w.Pad(sp.width - |a.data|, sp.zero);
        w.Append(a.data);
        ApplyTwo(s0, w.Cap(), pad, Put(a.data));
      } else {
        assert ArgOps(0x73, sp, a, signedChar) == [Put(a.data)] by {
          assert [] + [Put(a.data)] == [Put(a.data)];
        }
        w.Append(a.data);
        OneOp(s0, w.Cap(), Put(a.data));
      }
    } else {
      assert ArgOps(0x73, sp, a, signedChar) == [];
    }
  }

  /** %d: the sign, then the digits of the magnitude. */
  method SignedDirective(w: Writer, sp: Spec, a: FormatArg, signedChar: bool, digits: array<WChar>)
    requires w.Valid() && digits.Length > FastToBufferSize && digits !in w.Repr
    modifies w.Repr, digits
    ensures w.Valid()
    ensures w.State() == ApplyAll(old(w.State()), w.Cap(), ArgOps(0x64, sp, a, signedChar))
  {
    ghost var s0 := w.State();
    if !a.Strings? {
      var fill := if sp.zero then Zero else Space;
      var reading := SignedReading(a);
      var p := AlphaNumber(reading.value.0, digits, sp.width, 10, fill, false);
      ghost var text := AlphaText(reading.value.0, sp.width, 10, fill, false);
      if reading.value.1 {
        w.Out(Minus);
        w.Append(digits[p..FastToBufferSize]);
        ApplyTwo(s0, w.Cap(), Push(Minus), Put(text));
        assert [Push(Minus)] + [Put(text)] == [Push(Minus), Put(text)];
      } else {
        w.Append(digits[p..FastToBufferSize]);
        OneOp(s0, w.Cap(), Put(text));
        assert [] + [Put(text)] == [Put(text)];
      }
    }
  }

  /** %o, %x and %X: the digits of the uint64 reading. */
  method UnsignedDirective(w: Writer, c: WChar, sp: Spec, a: FormatArg, signedChar: bool, digits: array<WChar>)
    requires c == 0x6F || c == 0x78 || c == 0x58
    requires w.Valid() && digits.Length > FastToBufferSize && digits !in w.Repr
    modifies w.Repr, digits
    ensures w.Valid()
    ensures w.State() == ApplyAll(old(w.State()), w.Cap(), ArgOps(c, sp, a, signedChar))
  {
    ghost var s0 := w.State();
    if !a.Strings? {
      var fill := if sp.zero then Zero else Space;
      var u := UnsignedReading(a).value;
      var p := AlphaNumber(u, digits, sp.width, if c == 0x6F then 8 else 16, fill, c == 0x58);
      w.Append(digits[p..FastToBufferSize]);
      OneOp(s0, w.Cap(), Put(AlphaText(u, sp.width, if c == 0x6F then 8 else 16, fill, c == 0x58)));
    }
  }

  lemma ApplyTwo(s: Sink, cap: Option<nat>, a: Op, b: Op)
    ensures ApplyAll(s, cap, [a, b]) == ApplyOp(ApplyOp(s, cap, a), cap, b)
  {
    assert [a, b][1..] == [b];
    assert [b][1..] == [];
    calc {
      ApplyAll(s, cap, [a, b]);
      ApplyAll(ApplyOp(s, cap, a), cap, [b]);
      ApplyAll(ApplyOp(ApplyOp(s, cap, a), cap, b), cap, []);
    }
  }

  /** A single writer call. */
  lemma OneOp(s: Sink, cap: Option<nat>, a: Op)
    ensures ApplyAll(s, cap, [a]) == ApplyOp(s, cap, a)
  {
    assert [a][1..] == [];
  }

  /** How a turn of the loop ended: at the next index, at the end of the text, or on a missing argument. */
  datatype Turned = Continue(it: nat, ca: nat) | EndOfText | ArgMissing

  /** One turn of StrFormatInternal's loop: proved to make the writer calls of one Pass. */
  method Turn(w: Writer, fmt: seq<WChar>, it: nat, ca: nat, args: seq<FormatArg>, signedChar: bool,
              digits: array<WChar>) returns (t: Turned)
    requires it < |fmt| && w.Valid() && digits.Length > FastToBufferSize && digits !in w.Repr
    modifies w.Repr, digits
    ensures w.Valid()
    ensures t == TurnOf(Pass(fmt, it, ca, args, signedChar))
    ensures w.State() == ApplyAll(old(w.State()), w.Cap(), Pass(fmt, it, ca, args, signedChar).ops)
  {
    ghost var s0 := w.State();
    var pos := MemSearch(fmt[it..], Percent);
    if pos.None? {
      w.Append(fmt[it..]);
      assert Pass(fmt, it, ca, args, signedChar) == Last([Put(fmt[it..])]) by {
        PassNoPercent(fmt, it, ca, args, signedChar);
      }
      OneOp(s0, w.Cap(), Put(fmt[it..]));
      return EndOfText;
    }
    t := TurnAt(w, fmt, it, pos.value, ca, args, signedChar, digits);
  }

  /** How the loop goes on after a pass. */
  function TurnOf(p: PassResult): Turned
  {
    match p
    case Last(_) => EndOfText
    case Fail(_) => ArgMissing
    case Next(_, it', ca') => Continue(it', ca')
  }

  /** The turn from the '%' at it + pos: the characters before it, then the directive. */
  method TurnAt(w: Writer, fmt: seq<WChar>, it: nat, pos: nat, ca: nat, args: seq<FormatArg>, signedChar: bool,
                digits: array<WChar>) returns (t: Turned)
    requires it < |fmt| && Find(fmt[it..], [Percent]) == Some(pos)
    requires w.Valid() && digits.Length > FastToBufferSize && digits !in w.Repr
    modifies w.Repr, digits
    ensures w.Valid()
    ensures t == TurnOf(Pass(fmt, it, ca, args, signedChar))
    ensures w.State() == ApplyAll(old(w.State()), w.Cap(), Pass(fmt, it, ca, args, signedChar).ops)
  {
    ghost var s0 := w.State();
    var lead := fmt[it..it + pos];
    w.Append(lead);
    var sp := ParseSpecAt(fmt, it + pos + 1);
    ghost var d := DirectiveOps(CharAt(fmt, sp.at), sp, ca, args, signedChar);
    var more, next := Directive(w, CharAt(fmt, sp.at), sp, ca, args, signedChar, digits);
    if !more {
      assert w.State() == ApplyAll(s0, w.Cap(), [Put(lead)]) by { OneOp(s0, w.Cap(), Put(lead)); }
      assert Pass(fmt, it, ca, args, signedChar) == Fail([Put(lead)]) by {
        PassMissingArg(fmt, it, pos, sp, ca, args, signedChar);
      }
      return ArgMissing;
    }
    assert w.State() == ApplyAll(s0, w.Cap(), [Put(lead)] + d.ops) by {
      OneOp(s0, w.Cap(), Put(lead));
      ApplyAllAppend(s0, w.Cap(), [Put(lead)], d.ops);
    }
    assert Pass(fmt, it, ca, args, signedChar) == Next([Put(lead)] + d.ops, sp.at + 1, d.next) by {
      PassEmit(fmt, it, pos, sp, ca, args, signedChar);
    }
    return Continue(sp.at + 1, next);
  }

  /** A pass over text without a '%' writes the rest of it and ends. */
  lemma PassNoPercent(fmt: seq<WChar>, it: nat, ca: nat, args: seq<FormatArg>, signedChar: bool)
    requires it < |fmt| && Find(fmt[it..], [Percent]).None?
    ensures Pass(fmt, it, ca, args, signedChar) == Last([Put(fmt[it..])])
  {
  }

  /** A pass whose directive lacks its argument writes the characters before the '%' and fails. */
  lemma PassMissingArg(fmt: seq<WChar>, it: nat, pos: nat, sp: Spec, ca: nat, args: seq<FormatArg>, signedChar: bool)
    requires it < |fmt| && Find(fmt[it..], [Percent]) == Some(pos) && sp == ParseSpec(fmt, it + pos + 1)
    requires DirectiveOps(CharAt(fmt, sp.at), sp, ca, args, signedChar).MissingArg?
    ensures Pass(fmt, it, ca, args, signedChar) == Fail([Put(fmt[it..it + pos])])
  {
  }

  /** A pass whose directive is served writes the characters before the '%', then the directive's output. */
  lemma PassEmit(fmt: seq<WChar>, it: nat, pos: nat, sp: Spec, ca: nat, args: seq<FormatArg>, signedChar: bool)
    requires it < |fmt| && Find(fmt[it..], [Percent]) == Some(pos) && sp == ParseSpec(fmt, it + pos + 1)
    requires DirectiveOps(CharAt(fmt, sp.at), sp, ca, args, signedChar).Emit?
    ensures var d := DirectiveOps(CharAt(fmt, sp.at), sp, ca, args, signedChar);
      Pass(fmt, it, ca, args, signedChar) == Next([Put(fmt[it..it + pos])] + d.ops, sp.at + 1, d.next)
  {
  }

  /** StrFormatInternal over a writer: proved to end in the state and result Format specifies. */
  method StrFormatInternal(w: Writer, fmt: seq<WChar>, args: seq<FormatArg>, signedChar: bool) returns (ok: bool)
    requires w.Valid()
    modifies w.Repr
    ensures w.Valid()
    ensures Outcome(w.State(), ok) == Format(fmt, args, signedChar, w.Cap(), old(w.State()))
  {
    if |args| == 0 {
      return false;
    }
    var digits := new WChar[FastToBufferSize + 1];
    var it: nat := 0;
    var ca: nat := 0;
    while it < |fmt| && !w.Overflow()
      invariant w.Valid() && digits !in w.Repr
      invariant Run(fmt, args, signedChar, w.Cap(), w.State(), it, ca) == Format(fmt, args, signedChar, w.Cap(), old(w.State()))
      decreases |fmt| + 1 - it
    {
      var t := Turn(w, fmt, it, ca, args, signedChar, digits);
      match t
      case EndOfText =>
        return !w.Overflow();
      case ArgMissing =>
        return false;
      case Continue(it', ca') =>
        it, ca := it', ca';
    }
    return !w.Overflow();
  }

  /** StrFormatInternal into a std::wstring: the formatted text, or "" on failure. */
  method FormatToString(raw: seq<WChar>, args: seq<FormatArg>, signedChar: bool) returns (s: seq<WChar>)
    ensures s == FormatString(raw, args, signedChar)
  {
    var w := new Writer.OverString();
    var ok := StrFormatInternal(w, Text(raw), args, signedChar);
    if !ok {
      return [];
    }
    return w.str;
  }

  /**
   * StrFormatInternal into buf[0..buflen): the length written, or -1 on
   * failure; the buffer holds what was written, NUL-terminated when a slot
   * is left.
   */
  method FormatToBuffer(buf: array<WChar>, buflen: nat, raw: seq<WChar>, args: seq<FormatArg>, signedChar: bool)
      returns (n: int)
    requires buflen <= buf.Length
    modifies buf
    ensures var o := Format(Text(raw), args, signedChar, Some(buflen), Sink([], false));
      && n == (if o.ok then |o.sink.text| else -1)
      && |o.sink.text| <= buflen
      && buf[..|o.sink.text|] == o.sink.text
      && (|o.sink.text| < buflen ==> buf[|o.sink.text|] == 0)
      && forall k :: |o.sink.text| < k < buf.Length ==> buf[k] == old(buf[k])
  {
    var b := new Buffer(buf, buflen);
    var w := new Writer.OverBuffer(b);
    var ok := StrFormatInternal(w, Text(raw), args, signedChar);
    b.Close();
    if !ok {
      return -1;
    }
    return b.Length();
  }

  // ------------------------------------------------------------ fast paths

  /** The argument-free StrFormat overloads copy the text, writing "%%" as one '%'. */
  function Collapse(t: seq<WChar>): (r: seq<WChar>)
    ensures |r| <= |t|
    decreases |t|
  {
    if |t| == 0 then []
    else if t[0] == Percent && |t| > 1 && t[1] == Percent then [Percent] + Collapse(t[2..])
    else [t[0]] + Collapse(t[1..])
  }

  /** Every '%' doubled: the format text that stands for t literally. */
  function Escape(t: seq<WChar>): (r: seq<WChar>)
    decreases |t|
  {
    if |t| == 0 then [] else (if t[0] == Percent then [Percent, Percent] else [t[0]]) + Escape(t[1..])
  }

  /** StrFormat(fmt) without arguments. */
  method PlainToString(raw: seq<WChar>) returns (s: seq<WChar>)
    ensures s == Collapse(Text(raw))
  {
    var text := Text(raw);
    s := [];
    var src := 0;
    while src < |text|
      invariant src <= |text|
      invariant s + Collapse(text[src..]) == Collapse(text)
    {
      var step := StepAt(text, src);
      assert s + [text[src]] + Collapse(text[src + step..]) == Collapse(text) by {
        CollapseStep(text, src);
      }
      s := s + [text[src]];
      src := src + step;
    }
  }

  /** How many characters of text the fast path consumes at src to emit text[src]: two at "%%", else one. */
  function StepAt(text: seq<WChar>, src: nat): nat
  {
    if src < |text| && text[src] == Percent && CharAt(text, src + 1) == Percent then 2 else 1
  }

  /** One emitted character of the fast path. */
  lemma CollapseStep(text: seq<WChar>, src: nat)
    requires src < |text|
    ensures src + StepAt(text, src) <= |text|
    ensures Collapse(text[src..]) == [text[src]] + Collapse(text[src + StepAt(text, src)..])
  {
    var rest := text[src..];
    if StepAt(text, src) == 2 {
      assert rest[2..] == text[src + 2..];
    } else {
      assert rest[1..] == text[src + 1..];
    }
  }

  /** What a buffer of n slots holds after push_back of every character of t. */
  function Pushed(t: seq<WChar>, n: nat): (s: Sink)
    ensures s.overflow <==> |t| > n
    ensures s.text == t[..Min(|t|, n)]
  {
    if |t| <= n then Sink(t, false) else Sink(t[..n], true)
  }

  lemma PushedStep(t: seq<WChar>, n: nat, c: WChar)
    ensures BufferPush(Pushed(t, n), n, c) == Pushed(t + [c], n)
  {
    assert (t + [c])[..|t|] == t;
    if |t| > n {
      assert (t + [c])[..n] == t[..n];
    }
  }

  /** The fast path's loop on a buffer: push_back of each character of the collapsed text. */
  method PushCollapsed(b: Buffer, text: seq<WChar>)
    requires b.Valid() && b.State() == Sink([], false)
    modifies b, b.data
    ensures b.Valid() && b.State() == Pushed(Collapse(text), b.cap)
  {
    var src := 0;
    ghost var done: seq<WChar> := [];
    while src < |text|
      invariant src <= |text| && b.Valid()
      invariant done + Collapse(text[src..]) == Collapse(text)
      invariant b.State() == Pushed(done, b.cap)
    {
      src, done := PushAt(b, text, src, done);
    }
  }

  /** One turn of that loop: push_back(text[src]), stepping over the second '%' of "%%". */
  method PushAt(b: Buffer, text: seq<WChar>, src: nat, ghost done: seq<WChar>) returns (src': nat, ghost done': seq<WChar>)
    requires src < |text| && b.Valid() && b.State() == Pushed(done, b.cap)
    requires done + Collapse(text[src..]) == Collapse(text)
    modifies b, b.data
    ensures src' == src + StepAt(text, src) <= |text| && done' == done + [text[src]]
    ensures done' + Collapse(text[src'..]) == Collapse(text)
    ensures b.Valid() && b.State() == Pushed(done', b.cap)
  {
    src' := src + StepAt(text, src);
    done' := done + [text[src]];
    assert done' + Collapse(text[src'..]) == Collapse(text) by {
      CollapseStep(text, src);
    }
    b.PushBack(text[src]);
    PushedStep(done, b.cap, text[src]);
  }

  /**
   * StrFormat(buf, N, fmt) without arguments: push_back of every character,
   * so the text may fill all N slots and then has no terminator; -1 once a
   * character did not fit.
   */
  method PlainToBuffer(buf: array<WChar>, n: nat, raw: seq<WChar>) returns (r: int)
    requires n <= buf.Length
    modifies buf
    ensures var t := Collapse(Text(raw));
      && r == (if |t| <= n then |t| else -1)
      && buf[..Min(|t|, n)] == t[..Min(|t|, n)]
      && (|t| < n ==> buf[|t|] == 0)
      && forall k :: Min(|t|, n) < k < buf.Length ==> buf[k] == old(buf[k])
  {
    var text := Text(raw);
    var b := new Buffer(buf, n);
    PushCollapsed(b, text);
    b.Close();
    if b.IsOverflow() {
      return -1;
    }
    return b.Length();
  }

  // ------------------------------------------------------------ the StrFormat entry points

  /**
   * StrFormat(fmt, args...) returning a std::wstring: the arguments are
   * packed into an array of sizeof...(args) entries; with no arguments
   * overload resolution picks the argument-free fast path instead.
   */
  function StrFormatText(raw: seq<WChar>, args: seq<FormatArg>, signedChar: bool): (r: seq<WChar>)
    ensures |args| == 0 ==> |r| <= |Text(raw)|
  {
    if |args| == 0 then Collapse(Text(raw)) else FormatString(raw, args, signedChar)
  }

  method StrFormat(raw: seq<WChar>, args: seq<FormatArg>, signedChar: bool) returns (s: seq<WChar>)
    ensures s == StrFormatText(raw, args, signedChar)
  {
    if |args| == 0 {
      s := PlainToString(raw);
    } else {
      s := FormatToString(raw, args, signedChar);
    }
  }

  /** StrFormat(buf, N, fmt, args...): the length written or -1, by the same dispatch. */
  method StrFormatToBuffer(buf: array<WChar>, n: nat, raw: seq<WChar>, args: seq<FormatArg>, signedChar: bool)
      returns (r: int)
    requires n <= buf.Length
    modifies buf
    ensures |args| == 0 ==> var t := Collapse(Text(raw));
      && r == (if |t| <= n then |t| else -1)
      && buf[..Min(|t|, n)] == t[..Min(|t|, n)]
      && (|t| < n ==> buf[|t|] == 0)
      && forall k :: Min(|t|, n) < k < buf.Length ==> buf[k] == old(buf[k])
    ensures |args| > 0 ==> var o := Format(Text(raw), args, signedChar, Some(n), Sink([], false));
      && r == (if o.ok then |o.sink.text| else -1)
      && |o.sink.text| <= n
      && buf[..|o.sink.text|] == o.sink.text
      && (|o.sink.text| < n ==> buf[|o.sink.text|] == 0)
      && forall k :: |o.sink.text| < k < buf.Length ==> buf[k] == old(buf[k])
  {
    if |args| == 0 {
      r := PlainToBuffer(buf, n, raw);
    } else {
      r := FormatToBuffer(buf, n, raw, args, signedChar);
    }
  }

  // ------------------------------------------------------------ properties

  /**
   * Whatever arguments are packed, a format that is the escape of a text t
   * without NULs prints t: the fast path and the argument path agree on it.
   */
  lemma PackedEscapedIsLiteral(t: seq<WChar>, args: seq<FormatArg>, signedChar: bool)
    requires forall k :: 0 <= k < |t| ==> t[k] != 0
    ensures StrFormatText(Escape(t) + [0], args, signedChar) == t
  {
    var e := Escape(t);
    EscapeKeepsNul(t);
    assert Text(e + [0]) == e by {
      assert forall k :: 0 <= k < |e| ==> (e + [0])[k] != 0;
      assert (e + [0])[..|e|] == e;
    }
    if |args| > 0 {
      FormatEscaped(t, args, signedChar);
    } else {
      CollapseEscape(t);
    }
  }

  /** Escaping adds only '%' characters, so a text without NULs stays without them. */
  lemma {:induction false} EscapeKeepsNul(t: seq<WChar>)
    requires forall k :: 0 <= k < |t| ==> t[k] != 0
    ensures forall k :: 0 <= k < |Escape(t)| ==> Escape(t)[k] != 0
    decreases |t|
  {
    if |t| > 0 {
      EscapeKeepsNul(t[1..]);
    }
  }

  /** Collapse undoes Escape: the fast path prints escaped text as the text itself. */
  lemma {:induction false} CollapseEscape(t: seq<WChar>)
    ensures Collapse(Escape(t)) == t
    decreases |t|
  {
    if |t| > 0 {
      CollapseEscape(t[1..]);
      var e := Escape(t);
      if t[0] == Percent {
        assert e[2..] == Escape(t[1..]);
      } else {
        assert e[1..] == Escape(t[1..]);
      }
    }
  }

  /** The string writer's outcome only extends the text it starts from, and never overflows. */
  lemma {:induction false} UnboundedRunExtends(fmt: seq<WChar>, args: seq<FormatArg>, signedChar: bool,
                                               s: Sink, it: nat, ca: nat)
    ensures var o := Run(fmt, args, signedChar, None, s, it, ca);
      |s.text| <= |o.sink.text| && o.sink.overflow == s.overflow
    decreases |fmt| + 1 - it
  {
    if it < |fmt| {
      match Pass(fmt, it, ca, args, signedChar)
      case Last(ops) => UnboundedWritesAll(s, ops);
      case Fail(ops) => UnboundedWritesAll(s, ops);
      case Next(ops, it', ca') =>
        UnboundedWritesAll(s, ops);
        UnboundedRunExtends(fmt, args, signedChar, ApplyAll(s, None, ops), it', ca');
    }
  }

  /** A buffer with a slot to spare after the string writer's text runs exactly as the string writer. */
  lemma {:induction false} RoomyRun(fmt: seq<WChar>, args: seq<FormatArg>, signedChar: bool, cap: nat,
                                    s: Sink, it: nat, ca: nat)
    requires !s.overflow
    requires |Run(fmt, args, signedChar, None, s, it, ca).sink.text| < cap
    ensures Run(fmt, args, signedChar, Some(cap), s, it, ca) == Run(fmt, args, signedChar, None, s, it, ca)
    decreases |fmt| + 1 - it
  {
    if it < |fmt| {
      match Pass(fmt, it, ca, args, signedChar)
      case Last(ops) =>
        UnboundedWritesAll(s, ops);
        RoomyBufferWritesAll(s, cap, ops);
      case Fail(ops) =>
        UnboundedWritesAll(s, ops);
        RoomyBufferWritesAll(s, cap, ops);
      case Next(ops, it', ca') =>
        UnboundedWritesAll(s, ops);
        var s1 := ApplyAll(s, None, ops);
        UnboundedRunExtends(fmt, args, signedChar, s1, it', ca');
        RoomyBufferWritesAll(s, cap, ops);
        RoomyRun(fmt, args, signedChar, cap, s1, it', ca');
    }
  }

  /** Calls a buffer accepted all leave it as the string writer would. */
  lemma {:induction false} AcceptedWritesAll(s: Sink, cap: nat, ops: seq<Op>)
    requires !ApplyAll(s, Some(cap), ops).overflow
    ensures ApplyAll(s, Some(cap), ops) == ApplyAll(s, None, ops)
    decreases |ops|
  {
    if |ops| > 0 {
      var s1 := ApplyOp(s, Some(cap), ops[0]);
      if s1.overflow {
        OverflowIsSticky(s1, Some(cap), ops[1..]);
      }
      AcceptedWritesAll(s1, cap, ops[1..]);
    }
  }

  /** A buffer run that succeeds wrote what the string writer writes. */
  lemma {:induction false} BufferSuccessIsString(fmt: seq<WChar>, args: seq<FormatArg>, signedChar: bool, cap: nat,
                                                 s: Sink, it: nat, ca: nat)
    requires Run(fmt, args, signedChar, Some(cap), s, it, ca).ok
    ensures Run(fmt, args, signedChar, Some(cap), s, it, ca) == Run(fmt, args, signedChar, None, s, it, ca)
    decreases |fmt| + 1 - it
  {
    if it < |fmt| && !s.overflow {
      match Pass(fmt, it, ca, args, signedChar)
      case Last(ops) => AcceptedWritesAll(s, cap, ops);
      case Fail(ops) =>
      case Next(ops, it', ca') =>
        var s1 := ApplyAll(s, Some(cap), ops);
        AcceptedWritesAll(s, cap, ops);
        BufferSuccessIsString(fmt, args, signedChar, cap, s1, it', ca');
    }
  }

  /**
   * The two StrFormatInternal overloads agree: a buffer result other than -1
   * is the std::wstring result's text, and when the std::wstring overload
   * succeeds with a text shorter than the buffer, the buffer overload
   * succeeds with the same text.
   */
  lemma BufferAgreesWithString(raw: seq<WChar>, args: seq<FormatArg>, signedChar: bool, buflen: nat)
    ensures var b := Format(Text(raw), args, signedChar, Some(buflen), Sink([], false));
      b.ok ==> b.sink.text == FormatString(raw, args, signedChar)
    ensures var u := Format(Text(raw), args, signedChar, None, Sink([], false));
      u.ok && |u.sink.text| < buflen ==> Format(Text(raw), args, signedChar, Some(buflen), Sink([], false)) == u
  {
    if |args| > 0 {
      var fmt := Text(raw);
      if Run(fmt, args, signedChar, Some(buflen), Sink([], false), 0, 0).ok {
        BufferSuccessIsString(fmt, args, signedChar, buflen, Sink([], false), 0, 0);
      }
      if |Run(fmt, args, signedChar, None, Sink([], false), 0, 0).sink.text| < buflen {
        RoomyRun(fmt, args, signedChar, buflen, Sink([], false), 0, 0);
      }
    }
  }

  /**
   * An argument of the wrong kind is consumed and writes nothing: %b and %c
   * print integers only, %s strings only, and %d, %o, %x and %X anything but
   * a string.
   */
  lemma WrongKindConsumedSilently(c: WChar, sp: Spec, ca: nat, args: seq<FormatArg>, signedChar: bool)
    requires ca < |args|
    requires || (c in {0x62, 0x63} && !args[ca].Integer?)
             || (c == 0x73 && !args[ca].Strings?)
             || (c in {0x64, 0x6F, 0x78, 0x58} && args[ca].Strings?)
    ensures DirectiveOps(c, sp, ca, args, signedChar) == Emit([], ca + 1)
  {
  }

  /**
   * %d, %o, %x and %X print every argument that is not a string (a FLOAT or
   * PTR as the int64 ToInteger gives): at least one digit, and at least
   * min(width, 32) characters.
   */
  lemma NumberDirectiveWrites(c: WChar, sp: Spec, a: FormatArg, signedChar: bool)
    requires c in {0x64, 0x6F, 0x78, 0x58} && !a.Strings?
    ensures var t := Flatten(ArgOps(c, sp, a, signedChar));
      |t| >= 1 && |t| >= Min(sp.width, FastToBufferSize)
  {
    var fill := if sp.zero then Zero else Space;
    if c == 0x64 {
      var (m, negative) := SignedReading(a).value;
      var text := AlphaText(m, sp.width, 10, fill, false);
      assert ArgOps(c, sp, a, signedChar) == (if negative then [Push(Minus)] else []) + [Put(text)];
      FlattenNumber(negative, text);
    } else {
      var u := UnsignedReading(a).value;
      var base := if c == 0x6F then 8 else 16;
      var text := AlphaText(u, sp.width, base, fill, c == 0x58);
      assert ArgOps(c, sp, a, signedChar) == [Put(text)];
      FlattenNumber(false, text);
    }
  }

  lemma FlattenNumber(negative: bool, text: seq<WChar>)
    ensures Flatten((if negative then [Push(Minus)] else []) + [Put(text)]) == (if negative then [Minus] else []) + text
  {
    var ops := (if negative then [Push(Minus)] else []) + [Put(text)];
    assert Flatten([Put(text)]) == text + Flatten([]);
    if negative {
      assert ops[1..] == [Put(text)];
    } else {
      assert ops == [Put(text)];
    }
  }

  /** Without arguments StrFormatInternal fails, whatever the format. */
  lemma NoArgumentsFail(fmt: seq<WChar>, signedChar: bool, cap: Option<nat>, s: Sink)
    ensures Format(fmt, [], signedChar, cap, s) == Outcome(s, false)
  {
  }

  lemma {:induction false} EscapeAppend(a: seq<WChar>, b: seq<WChar>)
    ensures Escape(a + b) == Escape(a) + Escape(b)
    decreases |a|
  {
    if |a| == 0 {
      assert a + b == b;
    } else {
      assert (a + b)[1..] == a[1..] + b;
      EscapeAppend(a[1..], b);
    }
  }

  lemma {:induction false} EscapeNoPercent(v: seq<WChar>)
    requires forall k :: 0 <= k < |v| ==> v[k] != Percent
    ensures Escape(v) == v
    decreases |v|
  {
    if |v| > 0 {
      EscapeNoPercent(v[1..]);
    }
  }

  /** A one-character pattern occurs exactly where that character is. */
  lemma OccursSingle(s: seq<WChar>, c: WChar, j: nat)
    ensures OccursAt(s, [c], j) <==> j < |s| && s[j] == c
  {
    if j < |s| {
      assert s[j..j + 1][0] == s[j];
    }
  }

  /** A pass over text without '%' writes the rest of the text and ends the scan. */
  lemma PassWithoutPercent(fmt: seq<WChar>, it: nat, ca: nat, args: seq<FormatArg>, signedChar: bool)
    requires it < |fmt|
    requires forall k :: it <= k < |fmt| ==> fmt[k] != Percent
    ensures Pass(fmt, it, ca, args, signedChar) == Last([Put(fmt[it..])])
  {
    var e := fmt[it..];
    forall j: nat
      ensures !OccursAt(e, [Percent], j)
    {
      OccursSingle(e, Percent, j);
    }
  }

  /** A pass that meets "%%" after the plain characters p writes them and one '%'. */
  lemma PassAtDoublePercent(fmt: seq<WChar>, it: nat, p: seq<WChar>, r: seq<WChar>, ca: nat,
                            args: seq<FormatArg>, signedChar: bool)
    requires it <= |fmt| && fmt[it..] == p + [Percent, Percent] + r
    requires forall k :: 0 <= k < |p| ==> p[k] != Percent
    ensures Pass(fmt, it, ca, args, signedChar) == Next([Put(p), Push(Percent)], it + |p| + 2, ca)
  {
    var e := fmt[it..];
    var q := |p|;
    OccursSingle(e, Percent, q);
    forall j: nat | j < q
      ensures !OccursAt(e, [Percent], j)
    {
      OccursSingle(e, Percent, j);
    }
    FindIsLeftmost(e, [Percent], q);
    var j := it + q + 1;
    assert fmt[j] == Percent by { assert fmt[j] == e[q + 1]; }
    BareSpec(fmt, j);
    assert DirectiveOps(CharAt(fmt, j), Spec(false, 0, 0, j), ca, args, signedChar) == Emit([Push(Percent)], ca);
    assert fmt[it..it + q] == p;
  }

  /** A directive letter right after the '%': no flag, no width, no fraction width. */
  lemma BareSpec(fmt: seq<WChar>, j: nat)
    requires j <= |fmt| && !IsDigit(CharAt(fmt, j)) && CharAt(fmt, j) != Dot
    ensures ParseSpec(fmt, j) == Spec(false, 0, 0, j)
  {
  }

  /** The escape of t[i..] starts at the end of the escape of t[..i]. */
  lemma EscapeSuffix(t: seq<WChar>, i: nat)
    requires i <= |t|
    ensures Escape(t) == Escape(t[..i]) + Escape(t[i..])
  {
    assert t == t[..i] + t[i..];
    EscapeAppend(t[..i], t[i..]);
  }

  /** Escaping u around its first '%', at q. */
  lemma EscapeAtFirstPercent(u: seq<WChar>, q: nat)
    requires q < |u| && u[q] == Percent
    requires forall k :: 0 <= k < q ==> u[k] != Percent
    ensures Escape(u) == u[..q] + [Percent, Percent] + Escape(u[q + 1..])
    ensures Escape(u[..q + 1]) == u[..q] + [Percent, Percent]
  {
    var p, rest := u[..q], u[q + 1..];
    assert Escape(p + [Percent]) == p + [Percent, Percent] by {
      EscapeNoPercent(p);
      EscapeAppend(p, [Percent]);
      EscapeOfPercent();
    }
    SplitAt(u, q);
    EscapeAppend(p + [Percent], rest);
  }

  /** u around its element at q. */
  lemma SplitAt(u: seq<WChar>, q: nat)
    requires q < |u|
    ensures u == (u[..q] + [u[q]]) + u[q + 1..] && u[..q + 1] == u[..q] + [u[q]]
  {
  }

  lemma EscapeOfPercent()
    ensures Escape([Percent]) == [Percent, Percent]
  {
    assert [Percent][1..] == [];
  }

  /** The first '%' of u, as Find reports it. */
  lemma FirstPercent(u: seq<WChar>)
    ensures Find(u, [Percent]).None? ==> forall k :: 0 <= k < |u| ==> u[k] != Percent
    ensures Find(u, [Percent]).Some? ==>
      var q := Find(u, [Percent]).value;
      q < |u| && u[q] == Percent && forall k :: 0 <= k < q ==> u[k] != Percent
  {
    forall k | 0 <= k < |u|
      ensures OccursAt(u, [Percent], k) <==> u[k] == Percent
    {
      OccursSingle(u, Percent, k);
    }
    if Find(u, [Percent]).Some? {
      OccursSingle(u, Percent, Find(u, [Percent]).value);
    }
  }

  /** Run after a pass that continues. */
  lemma RunNext(fmt: seq<WChar>, args: seq<FormatArg>, signedChar: bool, cap: Option<nat>, s: Sink, it: nat, ca: nat,
                ops: seq<Op>, it': nat, ca': nat)
    requires it < |fmt| && !Stopped(s, cap)
    requires Pass(fmt, it, ca, args, signedChar) == Next(ops, it', ca')
    ensures Run(fmt, args, signedChar, cap, s, it, ca) == Run(fmt, args, signedChar, cap, ApplyAll(s, cap, ops), it', ca')
  {
  }

  /** Run after a pass that continues, with the run that follows it already known. */
  lemma RunNextTo(fmt: seq<WChar>, args: seq<FormatArg>, signedChar: bool, cap: Option<nat>, s: Sink, it: nat, ca: nat,
                  ops: seq<Op>, it': nat, ca': nat, s': Sink, o: Outcome)
    requires it < |fmt| && !Stopped(s, cap)
    requires Pass(fmt, it, ca, args, signedChar) == Next(ops, it', ca')
    requires ApplyAll(s, cap, ops) == s'
    requires Run(fmt, args, signedChar, cap, s', it', ca') == o
    ensures Run(fmt, args, signedChar, cap, s, it, ca) == o
  {
  }

  /** Run after a pass that ends the text. */
  lemma RunLast(fmt: seq<WChar>, args: seq<FormatArg>, signedChar: bool, cap: Option<nat>, s: Sink, it: nat, ca: nat,
                ops: seq<Op>)
    requires it < |fmt| && !Stopped(s, cap)
    requires Pass(fmt, it, ca, args, signedChar) == Last(ops)
    ensures var s' := ApplyAll(s, cap, ops);
      Run(fmt, args, signedChar, cap, s, it, ca) == Outcome(s', !Stopped(s', cap))
  {
  }

  lemma WriteLiteralAndPercent(x: seq<WChar>, p: seq<WChar>)
    ensures ApplyAll(Sink(x, false), None, [Put(p), Push(Percent)]) == Sink(x + p + [Percent], false)
  {
    ApplyTwo(Sink(x, false), None, Put(p), Push(Percent));
  }

  /**
   * Escaped text runs through StrFormatInternal's loop as literal text: from
   * an index where the escape of u begins, the run appends u and succeeds.
   */
  lemma {:induction false} RunEscaped(fmt: seq<WChar>, u: seq<WChar>, args: seq<FormatArg>, signedChar: bool,
                                      x: seq<WChar>, it: nat, ca: nat)
    requires it <= |fmt| && fmt[it..] == Escape(u)
    ensures Run(fmt, args, signedChar, None, Sink(x, false), it, ca) == Outcome(Sink(x + u, false), true)
    decreases |u|, 1
  {
    FirstPercent(u);
    if |u| == 0 {
      assert x + u == x;
    } else if Find(u, [Percent]).None? {
      RunEscapedTail(fmt, u, args, signedChar, x, it, ca);
    } else {
      var q := Find(u, [Percent]).value;
      var p, rest := u[..q], u[q + 1..];
      assert it < |fmt| && Pass(fmt, it, ca, args, signedChar) == Next([Put(p), Push(Percent)], it + |p| + 2, ca)
          && it + |p| + 2 <= |fmt| && fmt[it + |p| + 2..] == Escape(rest)
          && x + p + [Percent] + rest == x + u by {
        EscapedStepFacts(fmt, u, q, x, it);
        AfterDoublePercent(fmt, it, p, Escape(rest));
        PassAtDoublePercent(fmt, it, p, Escape(rest), ca, args, signedChar);
      }
      RunEscapedStep(fmt, p, rest, args, signedChar, x, it, ca);
    }
  }

  /** The last stretch of escaped text, without '%'. */
  lemma RunEscapedTail(fmt: seq<WChar>, u: seq<WChar>, args: seq<FormatArg>, signedChar: bool,
                       x: seq<WChar>, it: nat, ca: nat)
    requires it <= |fmt| && fmt[it..] == Escape(u) && |u| > 0
    requires forall k :: 0 <= k < |u| ==> u[k] != Percent
    ensures Run(fmt, args, signedChar, None, Sink(x, false), it, ca) == Outcome(Sink(x + u, false), true)
  {
    EscapeNoPercent(u);
    PassWithoutPercent(fmt, it, ca, args, signedChar);
    OneOp(Sink(x, false), None, Put(u));
    RunLast(fmt, args, signedChar, None, Sink(x, false), it, ca, [Put(u)]);
  }

  /** Plain characters p, then "%%" (a pass that writes p and one '%'), then the escape of rest. */
  lemma {:induction false} RunEscapedStep(fmt: seq<WChar>, p: seq<WChar>, rest: seq<WChar>, args: seq<FormatArg>,
                                          signedChar: bool, x: seq<WChar>, it: nat, ca: nat)
    requires it < |fmt| && Pass(fmt, it, ca, args, signedChar) == Next([Put(p), Push(Percent)], it + |p| + 2, ca)
    requires it + |p| + 2 <= |fmt| && fmt[it + |p| + 2..] == Escape(rest)
    ensures Run(fmt, args, signedChar, None, Sink(x, false), it, ca) == Outcome(Sink(x + p + [Percent] + rest, false), true)
    decreases |rest| + 1, 0
  {
    var o := Outcome(Sink(x + p + [Percent] + rest, false), true);
    RunEscaped(fmt, rest, args, signedChar, x + p + [Percent], it + |p| + 2, ca);
    WriteLiteralAndPercent(x, p);
    RunNextTo(fmt, args, signedChar, None, Sink(x, false), it, ca, [Put(p), Push(Percent)], it + |p| + 2, ca,
              Sink(x + p + [Percent], false), o);
  }

  lemma AfterDoublePercent(fmt: seq<WChar>, it: nat, p: seq<WChar>, r: seq<WChar>)
    requires it <= |fmt| && fmt[it..] == p + [Percent, Percent] + r
    ensures it + |p| + 2 <= |fmt| && fmt[it + |p| + 2..] == r
  {
    assert fmt[it + |p| + 2..] == fmt[it..][|p| + 2..];
  }

  /** How the escape of u splits at its first '%'. */
  lemma EscapedStepFacts(fmt: seq<WChar>, u: seq<WChar>, q: nat, x: seq<WChar>, it: nat)
    requires it <= |fmt| && fmt[it..] == Escape(u)
    requires q < |u| && u[q] == Percent && forall k :: 0 <= k < q ==> u[k] != Percent
    ensures fmt[it..] == u[..q] + [Percent, Percent] + Escape(u[q + 1..])
    ensures forall k :: 0 <= k < |u[..q]| ==> u[..q][k] != Percent
    ensures x + u[..q] + [Percent] + u[q + 1..] == x + u
  {
    var p := u[..q];
    var rest := u[q + 1..];
    EscapeAtFirstPercent(u, q);
    assert u == p + [Percent] + rest;
  }

  /**
   * Escaped text formats to itself on the argument path, as it does on the
   * argument-free fast path (CollapseEscape).
   */
  lemma FormatEscaped(t: seq<WChar>, args: seq<FormatArg>, signedChar: bool)
    requires |args| > 0
    ensures Format(Escape(t), args, signedChar, None, Sink([], false)) == Outcome(Sink(t, false), true)
    ensures Collapse(Escape(t)) == t
  {
    RunEscaped(Escape(t), t, args, signedChar, [], 0, 0);
    CollapseEscape(t);
  }
}
