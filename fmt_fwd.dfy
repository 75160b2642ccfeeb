/**
 * Argument tagging for the formatter (lib/strings/fmt_fwd.hpp): every value
 * handed to StrFormat is wrapped in a FormatArg that records its kind
 * (ArgType), the width of the C++ type it came from, and its payload.
 *
 * Sizes are those of the Windows (LLP64) data model the library targets:
 * long is 4 bytes and long double is 8.
 */
module FmtArgs {
  import opened Wrappers

  /** wchar_t on Windows: a 16-bit unsigned code unit. */
  type WChar = c: int | 0 <= c < 0x1_0000

  /** int64_t, the type of FormatArg::integer.i. */
  type Int64 = i: int | -0x8000_0000_0000_0000 <= i < 0x8000_0000_0000_0000

  const TwoTo64: nat := 0x1_0000_0000_0000_0000

  /** ArgType; its pointer tag is spelled PTR here. */
  datatype ArgType = INTEGER | UINTEGER | FLOAT | STRING | PTR

  /**
   * FormatArg with its union resolved by the tag: an integer with the
   * signedness of its tag, a floating value (of which the width is kept), a
   * string of wide characters (strings.data, strings.len), or a pointer.
   *
   * %d, %o, %x and %X print ToInteger() of every argument that is not a
   * string, and ToInteger is defined nowhere in the sources. For a floating
   * value or a pointer its result is therefore left open: asInteger is
   * whatever int64 it yields, any value at all.
   */
  datatype FormatArg =
    | Integer(isUnsigned: bool, i: Int64, width: nat)
    | Floating(width: nat, asInteger: Int64)
    | Strings(data: seq<WChar>)
    | Pointer(asInteger: Int64)

  /** FormatArg::at: the tag names the live member of the union. */
  function Tag(a: FormatArg): (t: ArgType)
    ensures t == INTEGER || t == UINTEGER <==> a.Integer?
    ensures a.Integer? ==> (t == UINTEGER <==> a.isUnsigned)
    ensures t == FLOAT <==> a.Floating?
    ensures t == STRING <==> a.Strings?
    ensures t == PTR <==> a.Pointer?
  {
    match a
    case Integer(u, _, _) => if u then UINTEGER else INTEGER
    case Floating(_, _) => FLOAT
    case Strings(_) => STRING
    case Pointer(_) => PTR
  }

  /** The C++ integer types FormatArg has a constructor for. */
  datatype IntType = Char | UChar | Short | UShort | Int | UInt | Long | ULong | LongLong | ULongLong

  /** The unsigned types; plain char is tagged INTEGER whatever its signedness. */
  predicate IsUnsignedType(t: IntType)
  {
    t in {UChar, UShort, UInt, ULong, ULongLong}
  }

  function SizeOf(t: IntType): nat
  {
    match t
    case Char | UChar => 1
    case Short | UShort => 2
    case Int | UInt | Long | ULong => 4
    case LongLong | ULongLong => 8
  }

  /** The values of type t; plain char is signed or unsigned as the compiler chooses. */
  predicate InRange(t: IntType, v: int, signedChar: bool)
  {
    var half: int := Half(t);
    if IsUnsignedType(t) || (t == Char && !signedChar) then 0 <= v < 2 * half
    else -half <= v < half
  }

  /** 2^(8 * sizeof(t) - 1) */
  function Half(t: IntType): nat
  {
    match SizeOf(t)
    case 1 => 0x80
    case 2 => 0x8000
    case 4 => 0x8000_0000
    case _ => 0x8000_0000_0000_0000
  }

  /**
   * The integer constructors: `integer.i = j` stores the value in an
   * int64_t (an unsigned long long above 2^63 - 1 wraps to a negative value)
   * and `integer.width` is sizeof the source type.
   */
  function FromInteger(t: IntType, v: int, signedChar: bool): (a: FormatArg)
    requires InRange(t, v, signedChar)
    ensures Tag(a) == (if IsUnsignedType(t) then UINTEGER else INTEGER)
    ensures a.Integer? && a.width == SizeOf(t)
    ensures a.i % TwoTo64 == v % TwoTo64
    ensures !IsUnsignedType(t) || t != ULongLong ==> a.i == v
  {
    var stored := if v >= 0x8000_0000_0000_0000 then v - TwoTo64 else v;
    Integer(IsUnsignedType(t), stored, SizeOf(t))
  }

  datatype FloatType = Float | Double | LongDouble

  /**
   * The floating constructors: tag FLOAT and the width of the source type;
   * asInteger is the (unspecified) ToInteger reading of the stored value.
   */
  function FromFloat(t: FloatType, asInteger: Int64): (a: FormatArg)
    ensures Tag(a) == FLOAT
    ensures a.width == (if t == Float then 4 else 8)
    ensures a.asInteger == asInteger
  {
    match t
    case Float => Floating(4, asInteger)
    case Double => Floating(8, asInteger)
    case LongDouble => Floating(8, asInteger)
  }

  /** L"(NULL)", what a null wide C string is formatted as. */
  const NullText: seq<WChar> := [0x28, 0x4E, 0x55, 0x4C, 0x4C, 0x29]

  /** wcslen: the number of characters before the first NUL (all of them if there is none). */
  function WcsLen(s: seq<WChar>): (n: nat)
    ensures n <= |s|
    ensures forall k :: 0 <= k < n ==> s[k] != 0
    ensures n < |s| ==> s[n] == 0
  {
    if |s| == 0 || s[0] == 0 then 0 else 1 + WcsLen(s[1..])
  }

  /**
   * FormatArg(const wchar_t *): a null pointer becomes "(NULL)" of length 6;
   * otherwise the string runs up to its terminator.
   */
  function FromWideCStr(p: Option<seq<WChar>>): (a: FormatArg)
    ensures Tag(a) == STRING
    ensures p.None? ==> a.data == NullText && |a.data| == 6
    ensures p.Some? ==> a.data == p.value[..WcsLen(p.value)]
  {
    match p
    case None => Strings(NullText)
    case Some(s) => Strings(s[..WcsLen(s)])
  }

  /** FormatArg(std::wstring_view): the view's characters, length included. */
  function FromWStringView(sv: seq<WChar>): (a: FormatArg)
    ensures Tag(a) == STRING && a.data == sv && |a.data| == |sv|
  {
    Strings(sv)
  }

  // ------------------------------------------------------------ properties

  /** Signed types and plain char are tagged INTEGER, unsigned types UINTEGER. */
  lemma {:induction false} IntegerTags(t: IntType, v: int, signedChar: bool)
    requires InRange(t, v, signedChar)
    ensures Tag(FromInteger(t, v, signedChar)) == INTEGER <==> t in {Char, Short, Int, Long, LongLong}
    ensures FromInteger(t, v, signedChar).width in {1, 2, 4, 8}
  {
  }

  /** The stored integer is the value itself, except for unsigned long long values beyond int64_t. */
  lemma StoredValue(t: IntType, v: int, signedChar: bool)
    requires InRange(t, v, signedChar)
    ensures v < 0x8000_0000_0000_0000 ==> FromInteger(t, v, signedChar).i == v
    ensures v >= 0x8000_0000_0000_0000 ==> FromInteger(t, v, signedChar).i == v - TwoTo64
  {
  }

  /** A wide C string keeps exactly the characters before its terminator. */
  lemma WideCStrStopsAtNul(s: seq<WChar>, k: nat)
    requires k < |s| && s[k] == 0 && forall j :: 0 <= j < k ==> s[j] != 0
    ensures FromWideCStr(Some(s)).data == s[..k]
  {
  }
}
