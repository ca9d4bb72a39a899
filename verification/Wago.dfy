/** Analog values from a Wago PLC: `communication/wago/Communicator.cpp`. */
module Wago {
  import opened Lists
  import opened Config

  type Int16 = x: int | -0x8000 <= x < 0x8000

  predicate FitsInt32(x: int) {
    -0x8000_0000 <= x < 0x8000_0000
  }

  const MIN_CODE := 0
  const MAX_CODE := 0x7ff

  // ---------- Extracting the code ----------

  /** On 16-bit words, taking the sign bit out, shifting the diagnostic bits away and putting the
      sign bit back is a division by 16 of everything below the sign bit. */
  lemma ExtractOnBits(raw: bv16)
    ensures ((raw & !0x8000) >> 4) | (raw & 0x8000)
         == if raw < 0x8000 then raw / 16 else 0x8000 + (raw - 0x8000) / 16
  {
  }

  /** The 15 bits below the sign bit, as a number. */
  function BelowSign(x: Int16): nat {
    x % 0x8000
  }

  /** `extractAnalog`, with the bit operations written as arithmetic on two's complement: the sign
      bit stays, and the bits below it lose their four lowest. */
  method ExtractAnalog(raw: Int16) returns (value: Int16)
    ensures value < 0 <==> raw < 0
    ensures 16 * BelowSign(value) <= BelowSign(raw) < 16 * BelowSign(value) + 16
    ensures value == Code(raw)
  {
    var sign := if raw < 0 then -0x8000 else 0;
    value := raw - sign;
    value := value / 16;
    value := value + sign;
  }

  function Code(raw: Int16): Int16 {
    if raw >= 0 then raw / 16 else (raw + 0x8000) / 16 - 0x8000
  }

  // ---------- Scaling ----------

  /** C++ integer division for a positive divisor. */
  function TruncatingDivision(a: int, b: int): int
    requires b > 0
  {
    if a >= 0 then a / b else -((-a) / b)
  }

  /** `map`, in the 32 bits it is computed in. */
  function MapWide(x: int, inMin: int, inMax: int, outMin: int, outMax: int): int
    requires inMin < inMax
  {
    TruncatingDivision((x - inMin) * (outMax - outMin), inMax - inMin) + outMin
  }

  /** The conversion of the result to 16 bits. */
  function Narrow(x: int): Int16 {
    (x + 0x8000) % 0x1_0000 - 0x8000
  }

  function Wide(raw: Int16, min: Int16, max: Int16): int {
    MapWide(Code(raw), MIN_CODE, MAX_CODE, min, max)
  }

  /** What a raw word is reported as. */
  function Scaled(raw: Int16, min: Int16, max: Int16): Int16 {
    Narrow(Wide(raw, min, max))
  }

  lemma ProductBounds(x: int, d: int)
    requires -0x8000 <= x < 0x8000 && 0 <= d < 0x1_0000
    ensures -0x8000 * 0xffff <= x * d <= 0x7fff * 0xffff
  {
    ProductNotNegative(x + 0x8000, d);
    ProductNotNegative(0x7fff - x, d);
  }

  lemma ProductNotNegative(a: nat, b: nat)
    ensures a * b >= 0
  {
  }

  /** No intermediate of `map` overflows 32 bits, whatever the raw word. */
  lemma NoOverflow(raw: Int16, min: Int16, max: Int16)
    requires min <= max
    ensures FitsInt32(Code(raw) - MIN_CODE) && FitsInt32(max - min)
    ensures FitsInt32((Code(raw) - MIN_CODE) * (max - min))
    ensures FitsInt32(TruncatingDivision((Code(raw) - MIN_CODE) * (max - min), MAX_CODE - MIN_CODE))
    ensures FitsInt32(Wide(raw, min, max))
  {
    ProductBounds(Code(raw), max - min);
  }

  /** The step of the scaling that matters: the reading over `min`, for a code. */
  function Reading(code: nat, span: nat): nat {
    code * span / MAX_CODE
  }

  lemma ReadingBounds(code: nat, span: nat)
    requires code <= MAX_CODE
    ensures MAX_CODE * Reading(code, span) <= code * span < MAX_CODE * Reading(code, span) + MAX_CODE
    ensures Reading(code, span) <= span
  {
    assert code * span <= MAX_CODE * span;
  }

  /** For words with the sign bit clear the result is that of the exact linear map, rounded down:
      it lies in the instance's range, starts at `min` for code 0, ends at `max` for code 2047, and
      is less than one unit below the exact value. */
  lemma ScalingBounds(raw: Int16, min: Int16, max: Int16)
    requires raw >= 0 && min <= max
    ensures Scaled(raw, min, max) == Wide(raw, min, max) == min + Reading(Code(raw), max - min)
    ensures min <= Scaled(raw, min, max) <= max
    ensures Code(raw) == 0 ==> Scaled(raw, min, max) == min
    ensures Code(raw) == MAX_CODE ==> Scaled(raw, min, max) == max
    ensures 0 <= Code(raw) * (max - min) - MAX_CODE * (Scaled(raw, min, max) - min) < MAX_CODE
  {
    ReadingBounds(Code(raw), max - min);
  }

  /** For any word the scaled value is, up to multiples of 2^16, the exact linear value rounded
      towards the instance's minimum. */
  lemma ScalingTruncates(raw: Int16, min: Int16, max: Int16)
    requires min <= max
    ensures (Scaled(raw, min, max) - Wide(raw, min, max)) % 0x1_0000 == 0
    ensures var rest := Code(raw) * (max - min) - MAX_CODE * (Wide(raw, min, max) - min);
            if raw >= 0 then 0 <= rest < MAX_CODE else -MAX_CODE < rest <= 0
  {
    if raw >= 0 {
      ProductNotNegative(Code(raw), max - min);
    } else {
      ProductNotNegative(-(Code(raw) as int), max - min);
      assert Code(raw) * (max - min) == -(-(Code(raw) as int) * (max - min));
    }
  }

  lemma ReadingMonotone(low: nat, high: nat, span: nat)
    requires low <= high
    ensures Reading(low, span) <= Reading(high, span)
  {
    assert low * span <= high * span;
  }

  lemma ScalingMonotone(low: Int16, high: Int16, min: Int16, max: Int16)
    requires 0 <= low <= high && min <= max
    ensures Scaled(low, min, max) <= Scaled(high, min, max)
  {
    ScalingBounds(low, min, max);
    ScalingBounds(high, min, max);
    ReadingMonotone(Code(low), Code(high), max - min);
  }

  lemma NegativeWordsScaleBelow(x: int, span: int)
    requires x <= -0x7801 && span >= 1
    ensures TruncatingDivision(x * span, MAX_CODE) < 0
  {
    var product := x * span;
    assert product <= x by {
      assert x * (span - 1) <= 0;
    }
    assert -product / MAX_CODE >= 1;
  }

  /** The 32-bit result lies in the instance's range iff the sign bit is clear, apart from ranges
      of a single value: with the sign bit kept in place, negative words fall far below. */
  lemma WideInRangeIffSignClear(raw: Int16, min: Int16, max: Int16)
    requires min <= max
    ensures min <= Wide(raw, min, max) <= max <==> raw >= 0 || min == max
  {
    if raw >= 0 {
      ScalingBounds(raw, min, max);
    } else if min < max {
      NegativeWordsScaleBelow(Code(raw), max - min);
    }
  }

  // ---------- What 16 bits make of words with the sign bit set ----------

  /** How far below zero a word with the sign bit set is scaled from. */
  const LEAST_DEPTH := 0x7801
  const GREATEST_DEPTH := 0x8000

  function Depth(raw: Int16): (depth: nat)
    requires raw < 0
    ensures LEAST_DEPTH <= depth <= GREATEST_DEPTH
  {
    -(Code(raw) as int)
  }

  /** Going down by `depth`, in 16 bits. */
  function Wrapped(depth: int): (steps: nat)
    ensures steps < 0x1_0000 && (depth + steps) % 0x1_0000 == 0
  {
    (-depth) % 0x1_0000
  }

  /** How many steps above `min` a word is reported, counted in 16 bits. */
  function Steps(raw: Int16, span: nat): nat {
    if raw >= 0 then Reading(Code(raw), span) else Wrapped(Reading(Depth(raw), span))
  }

  /** Some word is that many steps above `min`. */
  ghost predicate Reached(y: nat, span: nat) {
    exists raw: Int16 :: Steps(raw, span) == y
  }

  lemma NarrowedSteps(min: Int16, max: Int16, depth: nat)
    requires min <= max
    ensures var scaled, steps := Narrow(min - depth), Wrapped(depth);
            (min <= scaled <= max <==> steps <= max - min) && (steps <= max - min ==> scaled == min + steps)
  {
  }

  /** A word is reported inside the instance's range iff it is within as many steps of `min` as the
      range has, and then as many steps above `min`. */
  lemma ScaledIsSteps(raw: Int16, min: Int16, max: Int16)
    requires min <= max
    ensures min <= Scaled(raw, min, max) <= max <==> Steps(raw, max - min) <= max - min
    ensures Steps(raw, max - min) <= max - min ==> Scaled(raw, min, max) == min + Steps(raw, max - min)
  {
    if raw >= 0 {
      ScalingBounds(raw, min, max);
    } else {
      ProductNotNegative(Depth(raw), max - min);
      assert Code(raw) * (max - min) == -(Depth(raw) * (max - min));
      assert Wide(raw, min, max) == min - Reading(Depth(raw), max - min);
      NarrowedSteps(min, max, Reading(Depth(raw), max - min));
    }
  }

  /** A multiple of 2^16 lies between the shallowest depth and a full range beyond the greatest, so
      that some word wraps around into the range. */
  predicate Reenters(span: nat) {
    var top := Reading(GREATEST_DEPTH, span) + span;
    top % 0x1_0000 <= top - Reading(LEAST_DEPTH, span)
  }

  lemma ReadingStep(code: nat, span: nat)
    ensures Reading(code, span) <= Reading(code + 1, span) <= Reading(code, span) + span
  {
    assert (code + 1) * span == code * span + span;
  }

  /** The deepest word that does not get below `target`. */
  lemma {:induction false} DepthReaching(depth: nat, target: nat, span: nat) returns (d: nat)
    requires LEAST_DEPTH <= depth && Reading(LEAST_DEPTH, span) <= target < Reading(depth, span)
    ensures LEAST_DEPTH <= d < depth && Reading(d, span) <= target < Reading(d, span) + span
  {
    d := depth - 1;
    ReadingStep(d, span);
    if target < Reading(d, span) {
      d := DepthReaching(d, target, span);
    }
  }

  lemma WordOfDepth(depth: nat) returns (raw: Int16)
    requires LEAST_DEPTH <= depth <= GREATEST_DEPTH
    ensures raw < 0 && Depth(raw) == depth
  {
    raw := 16 * (GREATEST_DEPTH - depth) - 0x8000;
  }

  lemma MultipleUpTo(top: nat) returns (multiple: nat)
    ensures multiple % 0x1_0000 == 0 && multiple == top - top % 0x1_0000
  {
    multiple := top - top % 0x1_0000;
  }

  lemma ReentryHappens(span: nat) returns (raw: Int16)
    requires span < 0x1_0000 && Reenters(span)
    ensures raw < 0 && Steps(raw, span) <= span
  {
    var deepest := Reading(GREATEST_DEPTH, span);
    var multiple := MultipleUpTo(deepest + span);
    var depth := GREATEST_DEPTH;
    if multiple < deepest {
      depth := DepthReaching(GREATEST_DEPTH, multiple, span);
    }
    raw := WordOfDepth(depth);
    StepsToMultiple(Reading(depth, span), multiple);
  }

  lemma StepsToMultiple(depth: nat, multiple: nat)
    requires multiple % 0x1_0000 == 0 && depth <= multiple < depth + 0x1_0000
    ensures Wrapped(depth) == multiple - depth
  {
  }

  lemma OnlyReentryReports(raw: Int16, span: nat)
    requires raw < 0 && Steps(raw, span) <= span
    ensures Reenters(span)
  {
    var depth := Reading(Depth(raw), span);
    ReadingMonotone(LEAST_DEPTH, Depth(raw), span);
    ReadingMonotone(Depth(raw), GREATEST_DEPTH, span);
    MultipleBelow(depth + Wrapped(depth), Reading(GREATEST_DEPTH, span) + span);
  }

  lemma MultipleBelow(multiple: nat, top: nat)
    requires multiple % 0x1_0000 == 0 && multiple <= top
    ensures multiple <= top - top % 0x1_0000
  {
  }

  /** The reported value lies in the instance's range exactly for the words with the sign bit clear,
      iff no word with the sign bit set wraps around into the range. */
  lemma InRangeIffSignClear(min: Int16, max: Int16)
    requires min <= max
    ensures (forall raw: Int16 :: min <= Scaled(raw, min, max) <= max <==> raw >= 0) <==> !Reenters(max - min)
  {
    forall raw: Int16 ensures raw >= 0 ==> min <= Scaled(raw, min, max) <= max {
      if raw >= 0 {
        ScalingBounds(raw, min, max);
      }
    }
    if Reenters(max - min) {
      var raw := ReentryHappens(max - min);
      ScaledIsSteps(raw, min, max);
      assert min <= Scaled(raw, min, max) <= max;
    } else {
      forall raw: Int16 | raw < 0 ensures !(min <= Scaled(raw, min, max) <= max) {
        ScaledIsSteps(raw, min, max);
        if Steps(raw, max - min) <= max - min {
          OnlyReentryReports(raw, max - min);
        }
      }
    }
  }

  /** Ranges of up to 3853 steps are safe; with one step more, the lowest word is reported inside. */
  lemma ReentryStartsAt3854(span: nat)
    ensures 1 <= span <= 3853 ==> !Reenters(span)
    ensures Reenters(3854) && Scaled(-0x8000, 0, 3854) == 3842
  {
    ReadingMonotone(1, LEAST_DEPTH, span);
  }

  // ---------- Resolution ----------

  /** Some code is read as `y`. */
  ghost predicate Hit(y: int, span: nat) {
    exists code | 0 <= code <= MAX_CODE :: Reading(code, span) == y
  }

  /** The least code that reaches `y` steps. */
  function CodeFor(y: nat, span: nat): nat
    requires span > 0
  {
    (y * MAX_CODE + span - 1) / span
  }

  lemma RoundingUp(a: nat, span: nat)
    requires span > 0
    ensures var q := (a + span - 1) / span;
            a <= q * span < a + span
  {
    var b := a + span - 1;
    assert b == span * (b / span) + b % span;
  }

  lemma QuotientBounded(q: nat, span: nat)
    requires span > 0 && q * span < (MAX_CODE + 1) * span
    ensures q <= MAX_CODE
  {
    assert (q - MAX_CODE - 1) * span < 0;
  }

  lemma HitsWhenNarrow(y: nat, span: nat)
    requires y <= span <= MAX_CODE
    ensures Hit(y, span)
  {
    if span == 0 {
      assert Reading(0, span) == y;
    } else {
      var code := CodeFor(y, span);
      RoundingUp(y * MAX_CODE, span);
      QuotientBounded(code, span);
      assert Reading(code, span) == y;
    }
  }

  /** Some word is reported as `y`. */
  ghost predicate Reported(y: int, min: Int16, max: Int16) {
    exists raw: Int16 :: Scaled(raw, min, max) == y
  }

  /** The two highest codes leave the value below the highest out. */
  lemma SkipsBelowTop(code: nat, span: nat)
    requires code <= MAX_CODE < span
    ensures Reading(code, span) != span - 1
  {
    if code < MAX_CODE {
      ReadingMonotone(code, MAX_CODE - 1, span);
      assert (MAX_CODE - 1) * span == MAX_CODE * span - span;
    }
  }

  /** Codes 1 and 2 leave the value 2 out. */
  lemma SkipsTwo(code: nat, span: nat)
    requires 3854 <= span <= 4093
    ensures Reading(code, span) != 2
  {
    if code <= 1 {
      ReadingMonotone(code, 1, span);
    } else {
      ReadingMonotone(2, code, span);
    }
  }

  /** In ranges of 2048 to 4095 steps some value is out of reach of every word. */
  lemma WideRangesSkip(span: nat) returns (y: nat)
    requires MAX_CODE < span <= 4095
    ensures y <= span && !Reached(y, span)
  {
    y := if 3854 <= span <= 4093 then 2 else span - 1;
    forall raw: Int16 ensures Steps(raw, span) != y {
      if raw >= 0 {
        if y == 2 { SkipsTwo(Code(raw), span); } else { SkipsBelowTop(Code(raw), span); }
      } else {
        SignSetSkips(raw, span, y);
      }
    }
  }

  lemma SignSetSkips(raw: Int16, span: nat, y: nat)
    requires raw < 0 && MAX_CODE < span <= 4095
    requires y == if 3854 <= span <= 4093 then 2 else span - 1
    ensures Steps(raw, span) != y
  {
    if span <= 3853 {
      ReentryStartsAt3854(span);
      if Steps(raw, span) == y { OnlyReentryReports(raw, span); }
    } else if span <= 4093 {
      NotDeepEnough(Depth(raw), span);
    } else {
      TooDeep(Depth(raw), span);
    }
  }

  lemma NotDeepEnough(depth: nat, span: nat)
    requires depth <= GREATEST_DEPTH && span <= 4093
    ensures Wrapped(Reading(depth, span)) != 2
  {
    ProductNotNegative(GREATEST_DEPTH - depth, span);
    assert Reading(depth, span) < 0xfffe;
  }

  lemma TooDeep(depth: nat, span: nat)
    requires LEAST_DEPTH <= depth <= GREATEST_DEPTH && 4094 <= span <= 4095
    ensures Wrapped(Reading(depth, span)) != span - 1
  {
    assert Reading(depth, 4094) == 2 * depth;
    assert Reading(depth, 4095) == 2 * depth + depth / MAX_CODE;
  }

  /** The words that differ only in their four lowest bits are reported alike. */
  function CodeIndex(raw: Int16): nat {
    (raw + 0x8000) / 16
  }

  ghost function WordReporting(y: nat, span: nat): (raw: Int16)
    requires Reached(y, span)
    ensures Steps(raw, span) == y
  {
    var raw: Int16 :| Steps(raw, span) == y;
    raw
  }

  /** There are 4096 words that can be told apart. */
  lemma NoMoreThanWords(span: nat)
    requires forall y | 0 <= y <= span :: Reached(y, span)
    ensures span < 4096
  {
    var chosen := seq(span + 1, y requires 0 <= y <= span => CodeIndex(WordReporting(y, span)));
    forall i, j | 0 <= i < j <= span ensures chosen[i] != chosen[j] {
      assert Reached(i, span) && Reached(j, span);
      if chosen[i] == chosen[j] {
        SameIndexSameSteps(WordReporting(i, span), WordReporting(j, span), span);
      }
    }
    Pigeonhole(chosen, 4096);
  }

  lemma CodeOfIndex(raw: Int16)
    ensures raw >= 0 <==> CodeIndex(raw) >= 0x800
    ensures Code(raw) == CodeIndex(raw) - (if raw >= 0 then 0x800 else 0x8000)
  {
    if raw >= 0 {
      DivisionByCodeStep(raw, 0x800);
    }
  }

  lemma DivisionByCodeStep(n: nat, k: nat)
    ensures (n + 16 * k) / 16 == n / 16 + k
  {
  }

  lemma SameIndexSameSteps(raw: Int16, other: Int16, span: nat)
    requires CodeIndex(raw) == CodeIndex(other)
    ensures Steps(raw, span) == Steps(other, span)
  {
    CodeOfIndex(raw);
    CodeOfIndex(other);
  }

  lemma AllReachedIsNarrow(span: nat)
    requires forall y | 0 <= y <= span :: Reached(y, span)
    ensures span <= MAX_CODE
  {
    NoMoreThanWords(span);
    if MAX_CODE < span {
      var y := WideRangesSkip(span);
      assert false;
    }
  }

  lemma HitByWord(y: nat, span: nat) returns (raw: Int16)
    requires Hit(y, span)
    ensures Steps(raw, span) == y
  {
    var code :| 0 <= code <= MAX_CODE && Reading(code, span) == y;
    raw := 16 * code;
  }

  /** Every integer in an instance's range can be reported iff the range has no more steps than
      there are codes with the sign bit clear, whatever the words with the sign bit set add. */
  lemma HitsEveryValue(min: Int16, max: Int16)
    requires min <= max
    ensures (forall y | min <= y <= max :: Reported(y, min, max)) <==> max - min <= MAX_CODE
  {
    var span := max - min;
    if span <= MAX_CODE {
      forall y | min <= y <= max ensures Reported(y, min, max) {
        HitsWhenNarrow(y - min, span);
        var raw := HitByWord(y - min, span);
        ScaledIsSteps(raw, min, max);
      }
    } else if forall y | min <= y <= max :: Reported(y, min, max) {
      forall y | 0 <= y <= span ensures Reached(y, span) {
        assert Reported(min + y, min, max);
        var raw: Int16 :| Scaled(raw, min, max) == min + y;
        ScaledIsSteps(raw, min, max);
      }
      AllReachedIsNarrow(span);
    }
  }

  /** Different codes are always reported differently iff the range has at least as many steps as
      there are codes. */
  lemma SeparatesCodes(span: nat)
    ensures (forall low, high | 0 <= low < high <= MAX_CODE :: Reading(low, span) != Reading(high, span))
            <==> span >= MAX_CODE
  {
    if span >= MAX_CODE {
      forall low, high | 0 <= low < high <= MAX_CODE ensures Reading(low, span) != Reading(high, span) {
        assert high * span >= (low + 1) * span == low * span + span;
        ReadingBounds(low, span);
        ReadingBounds(high, span);
      }
    } else {
      assert Reading(0, span) == Reading(1, span) == 0;
    }
  }

  // ---------- Reading a module ----------

  /** What the PLC answers for one instance. */
  datatype Outcome = Analog(raw: Int16, timestamp: int) | Thrown(what: string)

  datatype Field = Field(name: string, value: int, timestamp: int)

  datatype Data = Data(deviceName: string, fields: seq<Field>, error: Option<string>)

  /** `request`: reads consecutive instance ids from the module's offset on, and reports either all
      of them, scaled into their ranges, or the first error and nothing else. */
  method RequestModule(m: Module, plc: int -> Outcome) returns (data: Data)
    requires forall i | 0 <= i < |m.instances| ::
               -0x8000 <= m.instances[i].min <= m.instances[i].max < 0x8000
    ensures data.deviceName == m.name
    ensures data.error.None? <==> forall id | m.offset <= id < m.offset + |m.instances| :: plc(id).Analog?
    ensures data.error.None? ==>
              && |data.fields| == |m.instances|
              && forall i | 0 <= i < |m.instances| ::
                   var outcome := plc(m.offset + i);
                   outcome.Analog? && data.fields[i] == Field(m.instances[i].name,
                     Scaled(outcome.raw, m.instances[i].min, m.instances[i].max), outcome.timestamp)
    ensures data.error.Some? ==>
              && data.fields == []
              && exists id | m.offset <= id < m.offset + |m.instances| ::
                   plc(id) == Thrown(data.error.value) && forall k | m.offset <= k < id :: plc(k).Analog?
  {
    data := Data(m.name, [], None);
    var offset := m.offset;
    for i := 0 to |m.instances|
      invariant offset == m.offset + i
      invariant data.deviceName == m.name && data.error.None? && |data.fields| == i
      invariant forall k | m.offset <= k < offset :: plc(k).Analog?
      invariant forall k | 0 <= k < i ::
                  var outcome := plc(m.offset + k);
                  outcome.Analog? && data.fields[k] == Field(m.instances[k].name,
                    Scaled(outcome.raw, m.instances[k].min, m.instances[k].max), outcome.timestamp)
    {
      var outcome := plc(offset);
      offset := offset + 1;
      if outcome.Thrown? {
        return data.(fields := [], error := Some(outcome.what));
      }
      var code := ExtractAnalog(outcome.raw);
      var value := Narrow(MapWide(code, MIN_CODE, MAX_CODE, m.instances[i].min, m.instances[i].max));
      data := data.(fields := data.fields + [Field(m.instances[i].name, value, outcome.timestamp)]);
    }
  }
}
