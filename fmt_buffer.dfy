/**
 * The formatter's output targets (lib/strings/fmt.cc): the bounded
 * `buffer` over a caller's wchar_t array, with its sticky overflow flag, and
 * the writer operations the formatter issues to it or to a std::wstring.
 */
module FmtBuffer {
  import opened Wrappers
  import opened FmtArgs
  import opened FmtDigits

  /** What a writer's target holds: the characters written so far and the overflow flag. */
  datatype Sink = Sink(text: seq<WChar>, overflow: bool)

  /** buffer::push_back on a buffer of capacity cap: append while there is room, else set overflow. */
  function BufferPush(s: Sink, cap: nat, ch: WChar): (r: Sink)
    ensures r.overflow <==> s.overflow || |s.text| >= cap
    ensures r.text == if |s.text| < cap then s.text + [ch] else s.text
  {
    if |s.text| < cap then Sink(s.text + [ch], s.overflow) else Sink(s.text, true)
  }

  /**
   * buffer::append: all or nothing, and only when one slot stays free after
   * the copy (len + n < cap); otherwise overflow is set and nothing is written.
   */
  function BufferAppend(s: Sink, cap: nat, str: seq<WChar>): (r: Sink)
    ensures r.overflow <==> s.overflow || |s.text| + |str| >= cap
    ensures r.text == if |s.text| + |str| < cap then s.text + str else s.text
  {
    if |s.text| + |str| < cap then Sink(s.text + str, s.overflow) else Sink(s.text, true)
  }

  /** The two calls the formatter makes on its writer: Out (one character, Push) and Append (Put). */
  datatype Op = Push(ch: WChar) | Put(str: seq<WChar>)

  /**
   * One writer call. A buffer writer has a capacity; the std::wstring writer
   * (cap None) always appends.
   */
  function ApplyOp(s: Sink, cap: Option<nat>, op: Op): (r: Sink)
    ensures s.overflow ==> r.overflow
    ensures cap.None? ==> r.overflow == s.overflow
    ensures |s.text| <= |r.text| && r.text[..|s.text|] == s.text
  {
    match (cap, op)
    case (None, Push(ch)) => Sink(s.text + [ch], s.overflow)
    case (None, Put(str)) => Sink(s.text + str, s.overflow)
    case (Some(c), Push(ch)) => BufferPush(s, c, ch)
    case (Some(c), Put(str)) => BufferAppend(s, c, str)
  }

  function ApplyAll(s: Sink, cap: Option<nat>, ops: seq<Op>): (r: Sink)
    ensures |s.text| <= |r.text|
    ensures cap.None? ==> r.overflow == s.overflow
    decreases |ops|
  {
    if |ops| == 0 then s else ApplyAll(ApplyOp(s, cap, ops[0]), cap, ops[1..])
  }

  /** The characters a sequence of calls writes when nothing is refused. */
  function Flatten(ops: seq<Op>): seq<WChar>
    decreases |ops|
  {
    if |ops| == 0 then []
    else (match ops[0] case Push(ch) => [ch] case Put(str) => str) + Flatten(ops[1..])
  }

  /** Writer<T>::Overflow(): the buffer's flag; always false for a std::wstring. */
  predicate Stopped(s: Sink, cap: Option<nat>)
  {
    cap.Some? && s.overflow
  }

  /**
   * buffer: writes into data[0..cap), keeps len <= cap, and records in
   * overflow that a write was refused. Writer<buffer>'s Out and Append are
   * push_back and append. Init is what the caller's array held when the
   * buffer was made: no slot after data[len] is ever written.
   */
  class Buffer {
    const data: array<WChar>
    const cap: nat
    var len: nat
    var overflow: bool
    ghost const Init: seq<WChar>

    ghost predicate Valid()
      reads this, data
    {
      len <= cap <= data.Length && |Init| == data.Length &&
      forall k :: len < k < data.Length ==> data[k] == Init[k]
    }

    function State(): (s: Sink)
      reads this, data
      requires Valid()
    {
      Sink(data[..len], overflow)
    }

    constructor (data: array<WChar>, cap: nat)
      requires cap <= data.Length
      ensures Valid() && this.data == data && this.cap == cap && Init == data[..]
      ensures State() == Sink([], false)
    {
      this.data := data;
      this.cap := cap;
      len := 0;
      overflow := false;
      Init := data[..];
    }

    method PushBack(ch: WChar)
      requires Valid()
      modifies this, data
      ensures Valid()
      ensures State() == BufferPush(old(State()), cap, ch)
      ensures forall k :: len <= k < data.Length ==> data[k] == old(data[k])
    {
      if len < cap {
        data[len] := ch;
        len := len + 1;
      } else {
        overflow := true;
      }
    }

    method Append(s: seq<WChar>)
      requires Valid()
      modifies this, data
      ensures Valid()
      ensures State() == BufferAppend(old(State()), cap, s)
      ensures forall k :: len <= k < data.Length ==> data[k] == old(data[k])
    {
      if len + |s| < cap {
        forall k | 0 <= k < |s| {
          data[len + k] := s[k];
        }
        len := len + |s|;
      } else {
        overflow := true;
      }
    }

    /** buffer::IsOverflow(): whether a write has been refused. */
    function IsOverflow(): (r: bool)
      reads this, data
      requires Valid()
      ensures r == State().overflow
    {
      overflow
    }

    /** buffer::length(): how many characters the buffer holds. */
    function Length(): (n: nat)
      reads this, data
      requires Valid()
      ensures n == |State().text| && n <= cap
    {
      len
    }

    /** ~buffer: terminates the text with a NUL when there is a slot for it. */
    method Close()
      requires Valid()
      modifies data
      ensures Valid() && State() == old(State())
      ensures len < cap ==> data[len] == 0
      ensures forall k :: len < k < data.Length ==> data[k] == old(data[k])
    {
      if len < cap {
        data[len] := 0;
      }
    }
  }

  /**
   * Writer::Pad appends min(pad, 32) characters of a 32-slot array whose
   * first slot holds the fill ('0' or ' ') and whose other slots are zero.
   */
  function PadText(n: nat, zero: bool): (t: seq<WChar>)
    ensures |t| == Min(n, 32)
  {
    var m := Min(n, 32);
    if m == 0 then [] else [if zero then 0x30 else 0x20] + Repeat(0, m - 1)
  }

  function PadOp(n: nat, zero: bool): Op
  {
    Put(PadText(n, zero))
  }

  /**
   * Writer<T>: forwards Out and Append to a buffer (target Some) or to a
   * std::wstring (target None, whose contents are str).
   */
  class Writer {
    const target: Option<Buffer>
    var str: seq<WChar>
    ghost const Repr: set<object>

    ghost predicate Valid()
      reads this, Repr
    {
      this in Repr &&
      (target.Some? ==> target.value in Repr && target.value.data in Repr && target.value.Valid())
    }

    /** The target's capacity: the buffer's, or none for a std::wstring. */
    function Cap(): (c: Option<nat>)
      ensures c.Some? <==> target.Some?
    {
      match target
      case None => None
      case Some(b) => Some(b.cap)
    }

    function State(): Sink
      reads this, Repr
      requires Valid()
    {
      match target
      case None => Sink(str, false)
      case Some(b) => b.State()
    }

    constructor OverBuffer(b: Buffer)
      requires b.Valid()
      ensures Valid() && target == Some(b) && Repr == {this, b, b.data}
      ensures State() == b.State()
    {
      target := Some(b);
      str := [];
      Repr := {this, b, b.data};
    }

    constructor OverString()
      ensures Valid() && target == None && Repr == {this}
      ensures State() == Sink([], false)
    {
      target := None;
      str := [];
      Repr := {this};
    }

    method Out(ch: WChar)
      requires Valid()
      modifies Repr
      ensures Valid()
      ensures State() == ApplyOp(old(State()), Cap(), Push(ch))
    {
      match target
      case None =>
        str := str + [ch];
      case Some(b) =>
        b.PushBack(ch);
    }

    method Append(s: seq<WChar>)
      requires Valid()
      modifies Repr
      ensures Valid()
      ensures State() == ApplyOp(old(State()), Cap(), Put(s))
    {
      match target
      case None =>
        str := str + s;
      case Some(b) =>
        b.Append(s);
    }

    method Pad(pad: nat, zero: bool)
      requires Valid()
      modifies Repr
      ensures Valid()
      ensures State() == ApplyOp(old(State()), Cap(), PadOp(pad, zero))
    {
      Append(PadText(pad, zero));
    }

    /** Writer<buffer>::Overflow is the buffer's flag; Writer<std::wstring>::Overflow is false. */
    function Overflow(): (r: bool)
      reads this, Repr
      requires Valid()
      ensures r == Stopped(State(), Cap())
    {
      match target
      case None => false
      case Some(b) => b.IsOverflow()
    }
  }

  // ------------------------------------------------------------ properties

  /** No call ever clears the overflow flag. */
  lemma {:induction false} OverflowIsSticky(s: Sink, cap: Option<nat>, ops: seq<Op>)
    requires s.overflow
    ensures ApplyAll(s, cap, ops).overflow
    decreases |ops|
  {
    if |ops| > 0 {
      OverflowIsSticky(ApplyOp(s, cap, ops[0]), cap, ops[1..]);
    }
  }

  /** Writes only ever extend the text, by some of the characters the calls carry. */
  lemma {:induction false} TextOnlyGrows(s: Sink, cap: Option<nat>, ops: seq<Op>)
    ensures |s.text| <= |ApplyAll(s, cap, ops).text| <= |s.text| + |Flatten(ops)|
    ensures ApplyAll(s, cap, ops).text[..|s.text|] == s.text
    decreases |ops|
  {
    if |ops| > 0 {
      var s1 := ApplyOp(s, cap, ops[0]);
      TextOnlyGrows(s1, cap, ops[1..]);
      assert ApplyAll(s, cap, ops).text[..|s1.text|][..|s.text|] == s.text;
    }
  }

  /** A buffer never holds more than its capacity. */
  lemma {:induction false} LenWithinCap(s: Sink, cap: nat, ops: seq<Op>)
    requires |s.text| <= cap
    ensures |ApplyAll(s, Some(cap), ops).text| <= cap
    decreases |ops|
  {
    if |ops| > 0 {
      LenWithinCap(ApplyOp(s, Some(cap), ops[0]), cap, ops[1..]);
    }
  }

  /** After a successful append one slot is still free: append never fills the buffer. */
  lemma AppendKeepsSpareSlot(s: Sink, cap: nat, str: seq<WChar>)
    requires |str| > 0 && !BufferAppend(s, cap, str).overflow
    ensures |BufferAppend(s, cap, str).text| < cap
  {
  }

  /** ... whereas push_back may use the last slot, leaving no room for the terminator. */
  lemma PushBackFillsLastSlot(cap: nat, text: seq<WChar>, ch: WChar)
    requires |text| + 1 == cap
    ensures BufferPush(Sink(text, false), cap, ch) == Sink(text + [ch], false)
    ensures |BufferPush(Sink(text, false), cap, ch).text| == cap
  {
  }

  /** The std::wstring writer writes every character of every call. */
  lemma {:induction false} UnboundedWritesAll(s: Sink, ops: seq<Op>)
    ensures ApplyAll(s, None, ops) == Sink(s.text + Flatten(ops), s.overflow)
    decreases |ops|
  {
    if |ops| > 0 {
      UnboundedWritesAll(ApplyOp(s, None, ops[0]), ops[1..]);
    }
  }

  /** A buffer with room for everything behaves as the std::wstring writer. */
  lemma {:induction false} RoomyBufferWritesAll(s: Sink, cap: nat, ops: seq<Op>)
    requires !s.overflow && |s.text| + |Flatten(ops)| < cap
    ensures ApplyAll(s, Some(cap), ops) == ApplyAll(s, None, ops)
    decreases |ops|
  {
    if |ops| > 0 {
      var s1 := ApplyOp(s, Some(cap), ops[0]);
      assert s1 == ApplyOp(s, None, ops[0]);
      RoomyBufferWritesAll(s1, cap, ops[1..]);
    }
  }

  /** Appending two calls' worth of characters. */
  lemma FlattenAppend(a: seq<Op>, b: seq<Op>)
    ensures Flatten(a + b) == Flatten(a) + Flatten(b)
  {
    if |a| > 0 {
      assert (a + b)[1..] == a[1..] + b;
      FlattenAppend(a[1..], b);
    } else {
      assert a + b == b;
    }
  }

  lemma ApplyAllAppend(s: Sink, cap: Option<nat>, a: seq<Op>, b: seq<Op>)
    ensures ApplyAll(s, cap, a + b) == ApplyAll(ApplyAll(s, cap, a), cap, b)
    decreases |a|
  {
    if |a| > 0 {
      assert (a + b)[1..] == a[1..] + b;
      ApplyAllAppend(ApplyOp(s, cap, a[0]), cap, a[1..], b);
    } else {
      assert a + b == b;
    }
  }
}
