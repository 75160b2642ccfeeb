/**
 * Worked examples of StrFormatInternal (lib/strings/fmt.cc) on the
 * std::wstring writer, each a whole call of Format: Pad's NUL filler, the
 * sign written before zero padding, a missing argument, and %c under a
 * signed and an unsigned plain char.
 */
module FmtExamples {
  import opened Wrappers
  import opened Search
  import opened FmtArgs
  import opened FmtDigits
  import opened FmtBuffer
  import opened Fmt

  /** "%3s" of "a": Pad(2) writes ' ' and one NUL before the string. */
  lemma PadWithNul()
    ensures Format([0x25, 0x33, 0x73], [Strings([0x61])], false, None, Sink([], false))
         == Outcome(Sink([0x20, 0x00, 0x61], false), true)
  {
    var fmt: seq<WChar> := [0x25, 0x33, 0x73];
    var args := [Strings([0x61])];
    assert OccursAt(fmt[0..], [Percent], 0);
    FindIsLeftmost(fmt[0..], [Percent], 0);
    assert Digits(fmt, 2, 3) == (3, 2);
    assert Digits(fmt, 1, 0) == (3, 2);
    assert ParseSpec(fmt, 1) == Spec(false, 3, 0, 2);
    assert PadText(2, false) == [0x20, 0x00];
    var ops := [Put([]), Put([0x20, 0x00]), Put([0x61])];
    assert Pass(fmt, 0, 0, args, false) == Next(ops, 3, 1);
    assert ApplyAll(Sink([], false), None, ops) == Sink([0x20, 0x00, 0x61], false);
  }

  /** "%05d" of -42: the sign goes before the zero-padded digits, "-00042". */
  lemma SignBeforePadding()
    ensures Format([0x25, 0x30, 0x35, 0x64], [Integer(false, -42, 4)], false, None, Sink([], false))
         == Outcome(Sink([0x2D, 0x30, 0x30, 0x30, 0x34, 0x32], false), true)
  {
    var ops := [Put([]), Push(Minus), Put([0x30, 0x30, 0x30, 0x34, 0x32])];
    NegativePass();
    assert ApplyAll(Sink([], false), None, ops) == Sink([0x2D, 0x30, 0x30, 0x30, 0x34, 0x32], false) by {
      UnboundedWritesAll(Sink([], false), ops);
      assert Flatten(ops[2..]) == [0x30, 0x30, 0x30, 0x34, 0x32] by { assert ops[2..][1..] == []; }
      assert Flatten(ops[1..]) == [Minus] + Flatten(ops[2..]) by { assert ops[1..][1..] == ops[2..]; }
    }
  }

  /** The one pass over "%05d": the '-', then "00042". */
  lemma NegativePass()
    ensures Pass([0x25, 0x30, 0x35, 0x64], 0, 0, [Integer(false, -42, 4)], false)
         == Next([Put([]), Push(Minus), Put([0x30, 0x30, 0x30, 0x34, 0x32])], 4, 1)
  {
    var fmt: seq<WChar> := [0x25, 0x30, 0x35, 0x64];
    assert OccursAt(fmt[0..], [Percent], 0);
    FindIsLeftmost(fmt[0..], [Percent], 0);
    ZeroFiveSpec();
    assert SignedReading(Integer(false, -42, 4)) == Some((42, true));
    FortyTwoPadded();
  }

  lemma ZeroFiveSpec()
    ensures ParseSpec([0x25, 0x30, 0x35, 0x64], 1) == Spec(true, 5, 0, 3)
  {
    var fmt: seq<WChar> := [0x25, 0x30, 0x35, 0x64];
    assert Digits(fmt, 3, 5) == (5, 3);
    assert Digits(fmt, 2, 0) == (5, 3);
    assert Digits(fmt, 1, 0) == (5, 3);
  }

  lemma FortyTwoPadded()
    ensures AlphaText(42, 5, 10, Zero, false) == [0x30, 0x30, 0x30, 0x34, 0x32]
  {
    assert DigitString(4, 10, false) == [0x34];
    assert DigitString(42, 10, false) == [0x34, 0x32];
  }

  /** "%d%d" with one argument: the first directive is written, the second fails the call. */
  lemma SecondArgumentMissing()
    ensures Format([0x25, 0x64, 0x25, 0x64], [Integer(false, 7, 4)], false, None, Sink([], false))
         == Outcome(Sink([0x37], false), false)
  {
    FirstOfTwoPass();
    SecondOfTwoPass();
    assert ApplyAll(Sink([], false), None, [Put([]), Put([0x37])]) == Sink([0x37], false);
  }

  lemma FirstOfTwoPass()
    ensures Pass([0x25, 0x64, 0x25, 0x64], 0, 0, [Integer(false, 7, 4)], false) == Next([Put([]), Put([0x37])], 2, 1)
  {
    var fmt: seq<WChar> := [0x25, 0x64, 0x25, 0x64];
    assert OccursAt(fmt[0..], [Percent], 0);
    FindIsLeftmost(fmt[0..], [Percent], 0);
    assert ParseSpec(fmt, 1) == Spec(false, 0, 0, 1);
    assert AlphaText(7, 0, 10, Space, false) == [0x37];
  }

  lemma SecondOfTwoPass()
    ensures Pass([0x25, 0x64, 0x25, 0x64], 2, 1, [Integer(false, 7, 4)], false) == Fail([Put([])])
  {
    var fmt: seq<WChar> := [0x25, 0x64, 0x25, 0x64];
    assert fmt[2..] == [0x25, 0x64];
    assert OccursAt(fmt[2..], [Percent], 0);
    FindIsLeftmost(fmt[2..], [Percent], 0);
    assert ParseSpec(fmt, 3) == Spec(false, 0, 0, 3);
    assert fmt[2..2] == [] && CharAt(fmt, 3) == 0x64 && TakesArg(0x64);
  }

  /** "%c" of 0xE9: sign-extended to U+FFE9 when plain char is signed, U+00E9 otherwise. */
  lemma CharSignExtends()
    ensures Format([0x25, 0x63], [Integer(false, 0xE9, 4)], true, None, Sink([], false))
         == Outcome(Sink([0xFFE9], false), true)
    ensures Format([0x25, 0x63], [Integer(false, 0xE9, 4)], false, None, Sink([], false))
         == Outcome(Sink([0xE9], false), true)
  {
    var fmt: seq<WChar> := [0x25, 0x63];
    assert OccursAt(fmt[0..], [Percent], 0);
    FindIsLeftmost(fmt[0..], [Percent], 0);
    assert ParseSpec(fmt, 1) == Spec(false, 0, 0, 1);
    assert ApplyAll(Sink([], false), None, [Put([]), Push(0xFFE9)]) == Sink([0xFFE9], false);
    assert ApplyAll(Sink([], false), None, [Put([]), Push(0xE9)]) == Sink([0xE9], false);
  }
}
