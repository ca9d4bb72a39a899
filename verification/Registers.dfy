/** Modbus registers as configuration leaves them: `config/modbus/Register.cpp`. */
module Registers {
  import opened Lists

  datatype Type =
    | NoType | String | Float | Double
    | Uint16 | Int16 | Uint32 | Int32 | Uint64 | Int64

  datatype Register = Register(name: string, address: int, byteOrder: seq<int>, dtype: Type)

  datatype ConfigError =
    | OrderTooShort | OrderTooLong | OrderOdd | OrderNotPowerOfTwo
    | UnknownType | FloatOrderTooShort | InvalidCharacter | UnnecessaryOrder

  predicate Supported(t: Type) {
    !t.NoType? && !t.String?
  }

  /** How many bytes the reading of a value of type `t` consumes. */
  function SizeOf(t: Type): nat {
    match t
    case Uint16 | Int16 => 2
    case Float | Uint32 | Int32 => 4
    case Double | Uint64 | Int64 => 8
    case NoType | String => 0
  }

  /** The 16-bit words that a register occupies. */
  function Words(r: Register): nat {
    |r.byteOrder| / 2
  }

  predicate InRange(order: seq<int>) {
    forall i | 0 <= i < |order| :: 0 <= order[i] < |order|
  }

  ghost predicate IsPermutation(order: seq<int>) {
    InRange(order) && Distinct(order)
  }

  predicate IsInvolution(order: seq<int>)
    requires InRange(order)
  {
    forall i | 0 <= i < |order| :: order[order[i]] == i
  }

  /** What the read path relies on. Configuration parsing establishes all of it except, for wild
      types, that the positions are in range (see `WildOrderIsUsable`). */
  predicate WellFormed(r: Register) {
    && 0 <= r.address
    && |r.byteOrder| in {2, 4, 8}
    && InRange(r.byteOrder)
    && (Supported(r.dtype) ==> SizeOf(r.dtype) == |r.byteOrder|)
  }

  /** The range of the source's `int`. */
  predicate FitsInt(x: int) {
    -0x8000_0000 <= x < 0x8000_0000
  }

  /** What configuration parsing establishes. */
  predicate AsParsed(r: Register) {
    FitsInt(r.address) && |r.byteOrder| in {2, 4, 8} && Supported(r.dtype) && SizeOf(r.dtype) == |r.byteOrder|
  }

  // ---------- Wild types ----------

  predicate IsWild(typeName: string) {
    typeName == "FLOAT" || typeName == "UINT" || typeName == "INT"
  }

  predicate IsOrderLetter(c: char) {
    'A' <= c <= 'H'
  }

  function Positions(order: string): (r: seq<int>)
    requires forall c | c in order :: IsOrderLetter(c)
    ensures |r| == |order|
  {
    seq(|order|, i requires 0 <= i < |order| => (assert order[i] in order; order[i] as int - 'A' as int))
  }

  /** The type is a floating-point, unsigned or signed one, as its name says. */
  predicate IsOfKind(t: Type, name: string) {
    && ("FLOAT" <= name ==> t in {Float, Double})
    && ("UINT" <= name ==> t in {Uint16, Uint32, Uint64})
    && ("INT" <= name ==> t in {Int16, Int32, Int64})
    && ("FLOAT" <= name || "UINT" <= name || "INT" <= name)
  }

  lemma KindsDiffer(name: string)
    ensures !("FLOAT" <= name && "UINT" <= name) && !("FLOAT" <= name && "INT" <= name) && !("UINT" <= name && "INT" <= name)
  {
    assert "FLOAT" <= name ==> name[0] == 'F';
    assert "UINT" <= name ==> name[0] == 'U';
    assert "INT" <= name ==> name[0] == 'I';
  }

  /** The type that a wild type name stands for at a given width. */
  function WildTypeAt(typeName: string, width: nat): Type {
    if typeName == "FLOAT" then (if width == 4 then Float else Double)
    else if typeName == "UINT" then (if width == 2 then Uint16 else if width == 4 then Uint32 else Uint64)
    else (if width == 2 then Int16 else if width == 4 then Int32 else Int64)
  }

  /** `getWildType`. Every check comes in the order the source makes it. */
  method GetWildType(typeName: string, order: string) returns (r: Result<(Type, seq<int>), ConfigError>)
    ensures r.Success? <==>
              && |order| in {2, 4, 8} && IsWild(typeName)
              && (typeName == "FLOAT" ==> |order| != 2)
              && (forall c | c in order :: IsOrderLetter(c))
    ensures r.Success? ==> r.value == (WildTypeAt(typeName, |order|), Positions(order))
    ensures r.Success? ==> IsOfKind(r.value.0, typeName)
    ensures r.Success? ==> forall i | 0 <= i < |order| :: r.value.1[i] == order[i] as int - 'A' as int
    ensures r.Success? ==> SizeOf(r.value.0) == |r.value.1| == |order|
    ensures r.Failure? && r.error == InvalidCharacter <==>
              && |order| in {2, 4, 8} && IsWild(typeName) && (typeName == "FLOAT" ==> |order| != 2)
              && exists c | c in order :: !IsOrderLetter(c)
    ensures r.Failure? && r.error == UnknownType <==> |order| in {2, 4, 8} && !IsWild(typeName)
    ensures r.Failure? && r.error == FloatOrderTooShort <==> |order| == 2 && typeName == "FLOAT"
    ensures r.Failure? && r.error == OrderNotPowerOfTwo <==> |order| == 6
    ensures r.Failure? && r.error == OrderOdd <==> |order| in {3, 5, 7}
    ensures r.Failure? && r.error == OrderTooLong <==> |order| > 8
    ensures r.Failure? && r.error == OrderTooShort <==> |order| < 2
  {
    if |order| < 2 { return Failure(OrderTooShort); }
    if |order| > 8 { return Failure(OrderTooLong); }
    if |order| % 2 != 0 { return Failure(OrderOdd); }
    if |order| / 2 == 3 { return Failure(OrderNotPowerOfTwo); }
    if !IsWild(typeName) { return Failure(UnknownType); }
    if typeName == "FLOAT" && |order| < 4 { return Failure(FloatOrderTooShort); }

    var positions := [];
    for i := 0 to |order|
      invariant forall c | c in order[..i] :: IsOrderLetter(c)
      invariant positions == Positions(order[..i])
    {
      if order[i] < 'A' || order[i] > 'H' {
        assert order[i] in order && !IsOrderLetter(order[i]);
        return Failure(InvalidCharacter);
      }
      assert order[..i + 1] == order[..i] + [order[i]];
      positions := positions + [order[i] as int - 'A' as int];
    }
    assert order[..|order|] == order;
    KindsDiffer(typeName);
    assert forall i | 0 <= i < |order| :: order[i] in order;
    var dtype;
    if typeName == "FLOAT" {
      dtype := if |positions| == 4 then Float else Double;
    } else if typeName == "UINT" {
      dtype := if |positions| == 2 then Uint16 else if |positions| == 4 then Uint32 else Uint64;
    } else {
      dtype := if |positions| == 2 then Int16 else if |positions| == 4 then Int32 else Int64;
    }
    return Success((dtype, positions));
  }

  /** The parser accepts letters up to 'H' whatever the width. The positions it produces stay
      inside the register iff every letter is among the first `|order|` ones, and they are a
      permutation iff moreover no letter repeats. */
  lemma WildOrderIsUsable(order: string)
    requires forall c | c in order :: IsOrderLetter(c)
    ensures InRange(Positions(order)) <==> forall i | 0 <= i < |order| :: order[i] as int < 'A' as int + |order|
    ensures IsPermutation(Positions(order)) <==> InRange(Positions(order)) && Distinct(order)
  {
    var p := Positions(order);
    forall i | 0 <= i < |order| ensures p[i] == order[i] as int - 'A' as int && 0 <= p[i] {
      assert order[i] in order;
    }
    if InRange(p) {
      forall i | 0 <= i < |order| ensures order[i] as int < 'A' as int + |order| {
        assert p[i] < |p|;
      }
    }
    if Distinct(p) {
      forall i, j | 0 <= i < j < |order| ensures order[i] != order[j] {
        assert p[i] != p[j];
      }
    }
  }

  /** An accepted wild order of two letters that reaches past the register it describes. */
  lemma WildOrderCanLeaveTheRegister()
    ensures (forall c | c in "AH" :: IsOrderLetter(c)) && !InRange(Positions("AH"))
  {
    assert Positions("AH")[1] == 7;
  }

  // ---------- Standard types ----------

  const STRAIGHT_2 := [0, 1]
  const SWAPPED_2 := [1, 0]
  const STRAIGHT_4 := [0, 1, 2, 3]
  const BYTES_SWAPPED_4 := [1, 0, 3, 2]
  const WORDS_SWAPPED_4 := [2, 3, 0, 1]
  const REVERSED_4 := [3, 2, 1, 0]
  const STRAIGHT_8 := [0, 1, 2, 3, 4, 5, 6, 7]
  const REVERSED_8 := [7, 6, 5, 4, 3, 2, 1, 0]

  /** The floating-point part of the type table. */
  function FloatEntry(name: string): Option<(Type, seq<int>)> {
    if name == "FLOAT_64A" then Some((Double, STRAIGHT_8))
    else if name == "FLOAT_64B" then Some((Double, REVERSED_8))
    else if name == "FLOAT_32A" then Some((Float, STRAIGHT_4))
    else if name == "FLOAT_32B" then Some((Float, BYTES_SWAPPED_4))
    else if name == "FLOAT_32C" then Some((Float, WORDS_SWAPPED_4))
    else if name == "FLOAT_32D" then Some((Float, REVERSED_4))
    else None
  }

  function UnsignedEntry(name: string): Option<(Type, seq<int>)> {
    if name == "UINT_64A" then Some((Uint64, STRAIGHT_8))
    else if name == "UINT_64B" then Some((Uint64, REVERSED_8))
    else if name == "UINT_32A" then Some((Uint32, STRAIGHT_4))
    else if name == "UINT_32B" then Some((Uint32, BYTES_SWAPPED_4))
    else if name == "UINT_32C" then Some((Uint32, WORDS_SWAPPED_4))
    else if name == "UINT_32D" then Some((Uint32, REVERSED_4))
    else if name == "UINT_16A" then Some((Uint16, STRAIGHT_2))
    else if name == "UINT_16B" then Some((Uint16, SWAPPED_2))
    else None
  }

  function SignedEntry(name: string): Option<(Type, seq<int>)> {
    if name == "INT_64A" then Some((Int64, STRAIGHT_8))
    else if name == "INT_64B" then Some((Int64, REVERSED_8))
    else if name == "INT_32A" then Some((Int32, STRAIGHT_4))
    else if name == "INT_32B" then Some((Int32, BYTES_SWAPPED_4))
    else if name == "INT_32C" then Some((Int32, WORDS_SWAPPED_4))
    else if name == "INT_32D" then Some((Int32, REVERSED_4))
    else if name == "INT_16A" then Some((Int16, STRAIGHT_2))
    else if name == "INT_16B" then Some((Int16, SWAPPED_2))
    else None
  }

  /** `getStandardType`: the look-up in the type table. */
  function GetStandardType(name: string): Result<(Type, seq<int>), ConfigError> {
    if FloatEntry(name).Some? then Success(FloatEntry(name).value)
    else if UnsignedEntry(name).Some? then Success(UnsignedEntry(name).value)
    else if SignedEntry(name).Some? then Success(SignedEntry(name).value)
    else Failure(UnknownType)
  }

  /** The data order that rdbus's README.md documents for a width in bytes and the name's last letter. */
  function DocumentedOrder(width: nat, variant: char): string {
    if width == 2 then (if variant == 'A' then "AB" else "BA")
    else if width == 4 then
      if variant == 'A' then "ABCD" else if variant == 'B' then "BADC"
      else if variant == 'C' then "CDAB" else "DCBA"
    else (if variant == 'A' then "ABCDEFGH" else "HGFEDCBA")
  }

  /** `order` is an involution, and is what rdbus's README.md documents. */
  ghost predicate MatchesDocumentation(order: seq<int>, letters: string) {
    && IsPermutation(order) && IsInvolution(order)
    && (forall c | c in letters :: IsOrderLetter(c))
    && order == Positions(letters)
  }

  lemma ShortOrdersMatch()
    ensures MatchesDocumentation(STRAIGHT_2, "AB") && MatchesDocumentation(SWAPPED_2, "BA")
  {
  }

  lemma StraightFourMatches()
    ensures MatchesDocumentation(STRAIGHT_4, "ABCD")
  {
  }

  lemma BytesSwappedFourMatches()
    ensures MatchesDocumentation(BYTES_SWAPPED_4, "BADC")
  {
  }

  lemma WordsSwappedFourMatches()
    ensures MatchesDocumentation(WORDS_SWAPPED_4, "CDAB")
  {
  }

  lemma ReversedFourMatches()
    ensures MatchesDocumentation(REVERSED_4, "DCBA")
  {
  }

  lemma EightIsInvolution()
    ensures IsPermutation(STRAIGHT_8) && IsInvolution(STRAIGHT_8)
  {
  }

  lemma StraightEightMatches()
    ensures MatchesDocumentation(STRAIGHT_8, "ABCDEFGH")
  {
    EightIsInvolution();
  }

  lemma ReversedEightMatches()
    ensures MatchesDocumentation(REVERSED_8, "HGFEDCBA")
  {
  }

  /** The orders in the type table, by width and by the last letter of the type's name. */
  ghost predicate IsTableOrder(order: seq<int>, width: nat, variant: char) {
    || (width == 2 && ((variant == 'A' && order == STRAIGHT_2) || (variant == 'B' && order == SWAPPED_2)))
    || (width == 4 && ((variant == 'A' && order == STRAIGHT_4) || (variant == 'B' && order == BYTES_SWAPPED_4)
                       || (variant == 'C' && order == WORDS_SWAPPED_4) || (variant == 'D' && order == REVERSED_4)))
    || (width == 8 && ((variant == 'A' && order == STRAIGHT_8) || (variant == 'B' && order == REVERSED_8)))
  }

  /** `entry` is one of the type table, as it should be for `name`. */
  ghost predicate IsEntryFor(entry: (Type, seq<int>), name: string) {
    name != "" && Supported(entry.0) && IsTableOrder(entry.1, SizeOf(entry.0), name[|name| - 1])
    && IsOfKind(entry.0, name) && SaysWidth(name, SizeOf(entry.0))
  }

  /** The digits before the last letter of the name are the width in bits. */
  predicate SaysWidth(name: string, width: nat) {
    && |name| >= 3
    && var tens, ones := name[|name| - 3], name[|name| - 2];
       if width == 2 then tens == '1' && ones == '6'
       else if width == 4 then tens == '3' && ones == '2'
       else tens == '6' && ones == '4'
  }

  /** The names in the table of standard data types of rdbus's README.md. */
  const DOCUMENTED_NAMES := {
    "FLOAT_64A", "FLOAT_64B", "FLOAT_32A", "FLOAT_32B", "FLOAT_32C", "FLOAT_32D",
    "UINT_64A", "UINT_64B", "UINT_32A", "UINT_32B", "UINT_32C", "UINT_32D", "UINT_16A", "UINT_16B",
    "INT_64A", "INT_64B", "INT_32A", "INT_32B", "INT_32C", "INT_32D", "INT_16A", "INT_16B"
  }

  /** Exactly the documented names are known. */
  lemma StandardNamesAreDocumented(name: string)
    ensures GetStandardType(name).Success? <==> name in DOCUMENTED_NAMES
    ensures GetStandardType(name).Failure? ==> GetStandardType(name).error == UnknownType
  {
  }

  lemma FloatEntries(name: string)
    ensures FloatEntry(name).Some? ==> IsEntryFor(FloatEntry(name).value, name)
  {
    KindsDiffer(name);
  }

  lemma UnsignedEntries(name: string)
    ensures UnsignedEntry(name).Some? ==> IsEntryFor(UnsignedEntry(name).value, name)
  {
    KindsDiffer(name);
  }

  lemma SignedEntries(name: string)
    ensures SignedEntry(name).Some? ==> IsEntryFor(SignedEntry(name).value, name)
  {
    KindsDiffer(name);
  }

  lemma TableEntry(name: string)
    requires GetStandardType(name).Success?
    ensures IsEntryFor(GetStandardType(name).value, name)
  {
    FloatEntries(name);
    UnsignedEntries(name);
    SignedEntries(name);
  }

  lemma TableOrdersMatch(order: seq<int>, width: nat, variant: char)
    requires IsTableOrder(order, width, variant)
    ensures |order| == width && width in {2, 4, 8}
    ensures MatchesDocumentation(order, DocumentedOrder(width, variant))
  {
    if width == 2 {
      ShortOrdersMatch();
    } else if width == 8 {
      StraightEightMatches();
      ReversedEightMatches();
    } else {
      StraightFourMatches();
      BytesSwappedFourMatches();
      WordsSwappedFourMatches();
      ReversedFourMatches();
    }
  }

  /** Every entry of the type table is an involutive permutation as wide as its type, and is the
      order that rdbus's README.md documents for its name. */
  lemma StandardTypesAreInvolutions(name: string)
    requires GetStandardType(name).Success?
    ensures name != ""
    ensures var (t, order) := GetStandardType(name).value;
            && Supported(t) && SizeOf(t) == |order| && |order| in {2, 4, 8} && IsOfKind(t, name) && SaysWidth(name, SizeOf(t))
            && IsPermutation(order) && IsInvolution(order)
            && MatchesDocumentation(order, DocumentedOrder(SizeOf(t), name[|name| - 1]))
  {
    TableEntry(name);
    var (t, order) := GetStandardType(name).value;
    TableOrdersMatch(order, SizeOf(t), name[|name| - 1]);
  }

  /** `from_json`: the choice between a wild and a standard type. */
  method MakeRegister(name: string, address: int, order: string, typeName: string)
    returns (r: Result<Register, ConfigError>)
    requires FitsInt(address)
    ensures r.Success? ==> r.value.name == name && r.value.address == address && AsParsed(r.value)
    ensures r.Success? && 0 <= address && InRange(r.value.byteOrder) ==> WellFormed(r.value)
    ensures r.Success? ==> IsOfKind(r.value.dtype, typeName)
    ensures !IsWild(typeName) ==>
              (r.Success? <==> order == "" && GetStandardType(typeName).Success?)
              && (r.Success? ==> (r.value.dtype, r.value.byteOrder) == GetStandardType(typeName).value)
    ensures r.Success? && !IsWild(typeName) ==> IsPermutation(r.value.byteOrder) && IsInvolution(r.value.byteOrder)
    ensures IsWild(typeName) ==>
              (r.Success? <==> |order| in {2, 4, 8} && (typeName == "FLOAT" ==> |order| != 2)
                               && forall c | c in order :: IsOrderLetter(c))
              && (r.Success? ==> (r.value.dtype, r.value.byteOrder) == (WildTypeAt(typeName, |order|), Positions(order)))
    ensures r.Failure? && r.error == UnnecessaryOrder <==> !IsWild(typeName) && order != ""
  {
    var parsed;
    if IsWild(typeName) {
      parsed := GetWildType(typeName, order);
    } else if order != "" {
      return Failure(UnnecessaryOrder);
    } else {
      parsed := GetStandardType(typeName);
      if parsed.Success? {
        StandardTypesAreInvolutions(typeName);
      }
    }
    if parsed.Failure? {
      return Failure(parsed.error);
    }
    return Success(Register(name, address, parsed.value.1, parsed.value.0));
  }
}
