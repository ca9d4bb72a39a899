/** Turning a block of 16-bit words into fields: `communication/modbus/Interpreter.cpp`. */
module ModbusInterpreter {
  import opened Lists
  import opened Registers
  import opened RequestPlanner

  type Byte = x: int | 0 <= x < 0x100
  type Word = x: int | 0 <= x < 0x1_0000

  /** A field's value. Float and Double carry their raw bits. */
  datatype Value = Value(dtype: Type, number: int)

  datatype Field = Field(name: string, timestamp: int, value: Value)

  datatype InterpreterError = CountMismatch | UnsupportedType

  // ---------- Number formats ----------

  function LittleEndian(bytes: seq<Byte>): nat {
    if bytes == [] then 0 else bytes[0] + 0x100 * LittleEndian(bytes[1..])
  }

  function BigEndian(bytes: seq<Byte>): nat {
    if bytes == [] then 0 else 0x100 * BigEndian(bytes[..|bytes| - 1]) + bytes[|bytes| - 1]
  }

  function Modulus(t: Type): nat {
    match SizeOf(t)
    case 2 => 0x1_0000
    case 4 => 0x1_0000_0000
    case 8 => 0x1_0000_0000_0000_0000
    case _ => 1
  }

  predicate Signed(t: Type) {
    t.Int16? || t.Int32? || t.Int64?
  }

  /** Two's complement for signed types, the plain number for the others. */
  function Interpret(t: Type, raw: nat): int {
    if Signed(t) && 2 * raw >= Modulus(t) then raw - Modulus(t) else raw
  }

  /** Reading a type-sized object at the front of a byte buffer of a little-endian machine. */
  function Reinterpret(t: Type, bytes: seq<Byte>): Value
    requires SizeOf(t) <= |bytes|
  {
    Value(t, Interpret(t, LittleEndian(bytes[..SizeOf(t)])))
  }

  // ---------- One register on its own ----------

  /** The bytes of some words as they travel on the wire, most significant first. */
  function WordBytes(words: seq<Word>): (bytes: seq<Byte>)
    ensures |bytes| == 2 * |words|
  {
    if words == [] then []
    else
      var last := words[|words| - 1];
      WordBytes(words[..|words| - 1]) + [last / 0x100, last % 0x100]
  }

  /** Byte `j` of the result is taken from position `order[j]`. */
  function Gather<T>(order: seq<int>, bytes: seq<T>): seq<T>
    requires InRange(order) && |bytes| == |order|
  {
    seq(|order|, j requires 0 <= j < |order| => bytes[order[j]])
  }

  /** What a register means, read alone: its own words' bytes, taken in `byteOrder`, are the
      value in big-endian form. */
  function DecodeRegister(r: Register, words: seq<Word>): Value
    requires WellFormed(r) && |words| == Words(r)
  {
    Value(r.dtype, Interpret(r.dtype, BigEndian(Gather(r.byteOrder, WordBytes(words)))))
  }

  // ---------- The stages ----------

  /** A word's two bytes, most significant first. */
  predicate IsPairOf(pair: seq<Byte>, word: Word) {
    |pair| == 2 && 0x100 * (pair[0] as int) + pair[1] as int == word
  }

  method ToRaw16BitRegisters(input: seq<Word>) returns (output: seq<seq<Byte>>)
    ensures |output| == |input|
    ensures forall i | 0 <= i < |output| :: IsPairOf(output[i], input[i])
  {
    output := [];
    for c := 0 to |input|
      invariant |output| == c
      invariant forall i | 0 <= i < c :: IsPairOf(output[i], input[i])
    {
      var reg := input[c];
      var lsb: Byte := reg % 0x100;
      var msb: Byte := reg / 0x100 % 0x100;
      output := output + [[msb, lsb]];
    }
  }

  /** The first word of the `k`-th register of a block. */
  function Offset(registers: seq<Register>, k: nat): (o: nat)
    requires k <= |registers|
    ensures o <= TotalWords(registers)
    ensures k < |registers| ==> o + Words(registers[k]) <= TotalWords(registers)
  {
    TotalWordsSplit(registers[..k], registers[k..]);
    assert registers == registers[..k] + registers[k..];
    TotalWords(registers[..k])
  }

  lemma OffsetStep(registers: seq<Register>, k: nat)
    requires k < |registers|
    ensures Offset(registers, k + 1) == Offset(registers, k) + Words(registers[k])
  {
    assert registers[..k + 1] == registers[..k] + [registers[k]];
    TotalWordsSplit(registers[..k], [registers[k]]);
    assert [registers[k]][1..] == [];
  }

  /** The slice of a block's words that belongs to its `k`-th register. */
  function Slice<T>(words: seq<T>, registers: seq<Register>, k: nat): (s: seq<T>)
    requires k < |registers| && TotalWords(registers) <= |words|
    ensures |s| == Words(registers[k])
  {
    words[Offset(registers, k)..Offset(registers, k) + Words(registers[k])]
  }

  lemma ConcatGrows(input: seq<seq<Byte>>, start: nat, i: nat)
    requires start <= i < |input|
    ensures Concat(input[start..i + 1]) == Concat(input[start..i]) + input[i]
  {
    assert input[start..i + 1] == input[start..i] + [input[i]];
    ConcatAppend(input[start..i], input[i]);
  }

  /** The inner loop: the bytes of one register's words. */
  method MergeWords(input: seq<seq<Byte>>, start: nat, end: nat) returns (word: seq<Byte>)
    requires start <= end <= |input|
    ensures word == Concat(input[start..end])
  {
    word := [];
    for i := start to end
      invariant word == Concat(input[start..i])
    {
      ConcatGrows(input, start, i);
      word := word + input[i];
    }
  }

  method ToRawMergedRegisters(input: seq<seq<Byte>>, registers: seq<Register>) returns (output: seq<seq<Byte>>)
    requires TotalWords(registers) <= |input|
    ensures |output| == |registers|
    ensures forall k | 0 <= k < |registers| :: output[k] == Concat(Slice(input, registers, k))
  {
    output := [];
    var i := 0;
    for regIt := 0 to |registers|
      invariant |output| == regIt
      invariant i == Offset(registers, regIt)
      invariant forall k | 0 <= k < regIt :: output[k] == Concat(Slice(input, registers, k))
    {
      var end := |registers[regIt].byteOrder| / 2 + i;
      OffsetStep(registers, regIt);
      var word := MergeWords(input, i, end);
      output := output + [word];
      i := end;
    }
  }

  method ToUserInterpretation(input: seq<seq<Byte>>, registers: seq<Register>)
    returns (r: Result<seq<seq<Byte>>, InterpreterError>)
    requires forall k | 0 <= k < |registers| && k < |input| ::
               InRange(registers[k].byteOrder) && |input[k]| == |registers[k].byteOrder|
    ensures if |input| != |registers| then r == Failure(CountMismatch) else r.Success? && |r.value| == |registers|
    ensures r.Success? ==> forall k | 0 <= k < |registers| :: r.value[k] == Gather(registers[k].byteOrder, input[k])
  {
    if |input| != |registers| { return Failure(CountMismatch); }
    var output := [];
    for it := 0 to |registers|
      invariant |output| == it
      invariant forall k | 0 <= k < it :: output[k] == Gather(registers[k].byteOrder, input[k])
    {
      var word := [];
      for position := 0 to |registers[it].byteOrder|
        invariant |word| == position
        invariant forall j | 0 <= j < position :: word[j] == input[it][registers[it].byteOrder[j]]
      {
        word := word + [input[it][registers[it].byteOrder[position]]];
      }
      assert word == Gather(registers[it].byteOrder, input[it]);
      output := output + [word];
    }
    return Success(output);
  }

  /** `std::reverse`. */
  function Reversed<T>(s: seq<T>): (r: seq<T>)
    ensures |r| == |s|
  {
    if s == [] then [] else [s[|s| - 1]] + Reversed(s[..|s| - 1])
  }

  method ToMachineInterpretation(input: seq<seq<Byte>>) returns (output: seq<seq<Byte>>)
    ensures |output| == |input|
    ensures forall k | 0 <= k < |input| :: output[k] == Reversed(input[k])
  {
    output := [];
    for it := 0 to |input|
      invariant |output| == it
      invariant forall k | 0 <= k < it :: output[k] == Reversed(input[k])
    {
      output := output + [Reversed(input[it])];
    }
  }

  predicate AllSupported(registers: seq<Register>) {
    forall k | 0 <= k < |registers| :: Supported(registers[k].dtype)
  }

  method ToParsedFields(input: seq<seq<Byte>>, registers: seq<Register>, timestamp: int)
    returns (r: Result<seq<Field>, InterpreterError>)
    requires forall k | 0 <= k < |registers| && k < |input| :: SizeOf(registers[k].dtype) <= |input[k]|
    ensures |input| != |registers| ==> r == Failure(CountMismatch)
    ensures |input| == |registers| && !AllSupported(registers) ==> r == Failure(UnsupportedType)
    ensures |input| == |registers| && AllSupported(registers) ==>
              && r.Success? && |r.value| == |registers|
              && forall k | 0 <= k < |registers| ::
                   r.value[k] == Field(registers[k].name, timestamp, Reinterpret(registers[k].dtype, input[k]))
  {
    if |input| != |registers| { return Failure(CountMismatch); }
    var output := [];
    for it := 0 to |registers|
      invariant |output| == it
      invariant forall k | 0 <= k < it ::
                  && Supported(registers[k].dtype)
                  && output[k] == Field(registers[k].name, timestamp, Reinterpret(registers[k].dtype, input[k]))
    {
      if !Supported(registers[it].dtype) { return Failure(UnsupportedType); }
      output := output + [Field(registers[it].name, timestamp, Reinterpret(registers[it].dtype, input[it]))];
    }
    return Success(output);
  }

  // ---------- The whole pipeline ----------

  /** One field per register, whose value is what the register means read alone. */
  function ParsedBlock(words: seq<Word>, registers: seq<Register>, timestamp: int): Result<seq<Field>, InterpreterError>
    requires forall k | 0 <= k < |registers| :: WellFormed(registers[k])
    requires TotalWords(registers) <= |words|
  {
    if !AllSupported(registers) then Failure(UnsupportedType)
    else Success(seq(|registers|, k requires 0 <= k < |registers| =>
                   Field(registers[k].name, timestamp, DecodeRegister(registers[k], Slice(words, registers, k)))))
  }

  lemma {:induction false} ReversalSwapsEndianness(bytes: seq<Byte>)
    ensures LittleEndian(Reversed(bytes)) == BigEndian(bytes)
  {
    if bytes != [] {
      var n := |bytes| - 1;
      ReversalSwapsEndianness(bytes[..n]);
      assert Reversed(bytes)[1..] == Reversed(bytes[..n]);
    }
  }

  lemma {:induction false} ConcatIsWordBytes(pairs: seq<seq<Byte>>, words: seq<Word>)
    requires |pairs| == |words|
    requires forall i | 0 <= i < |pairs| :: IsPairOf(pairs[i], words[i])
    ensures Concat(pairs) == WordBytes(words)
  {
    if words != [] {
      var n := |words| - 1;
      ConcatIsWordBytes(pairs[..n], words[..n]);
      assert pairs[n] == [words[n] / 0x100, words[n] % 0x100];
    }
  }

  /** A register's wire bytes, permuted and then reversed for the machine, hold its meaning. */
  lemma StagesDecode(r: Register, words: seq<Word>, big: seq<Byte>)
    requires WellFormed(r) && |words| == Words(r)
    requires big == Gather(r.byteOrder, WordBytes(words))
    ensures Supported(r.dtype) ==> Reinterpret(r.dtype, Reversed(big)) == DecodeRegister(r, words)
  {
    ReversalSwapsEndianness(big);
    if Supported(r.dtype) {
      assert Reversed(big)[..SizeOf(r.dtype)] == Reversed(big);
    }
  }

  lemma SlicePairs(raw: seq<seq<Byte>>, words: seq<Word>, registers: seq<Register>, k: nat)
    requires k < |registers| && TotalWords(registers) <= |words| == |raw|
    requires forall i | 0 <= i < |raw| :: IsPairOf(raw[i], words[i])
    ensures Concat(Slice(raw, registers, k)) == WordBytes(Slice(words, registers, k))
  {
    ConcatIsWordBytes(Slice(raw, registers, k), Slice(words, registers, k));
  }

  /** `parse`: cutting a block into registers, permuting their bytes, reversing them for the
      machine and reinterpreting them gives each register its own meaning. */
  method Parse(words: seq<Word>, registers: seq<Register>, timestamp: int)
    returns (r: Result<seq<Field>, InterpreterError>)
    requires forall k | 0 <= k < |registers| :: WellFormed(registers[k])
    requires TotalWords(registers) <= |words|
    ensures r == ParsedBlock(words, registers, timestamp)
  {
    var raw := ToRaw16BitRegisters(words);
    var merged := ToRawMergedRegisters(raw, registers);
    MergedBytes(raw, words, registers, merged);
    var big := ToUserInterpretation(merged, registers);
    assert big.Success?;
    var little := ToMachineInterpretation(big.value);
    StagesDecodeAll(words, registers, big.value, little);
    r := ToParsedFields(little, registers, timestamp);
    if r.Success? {
      FieldsAreParsed(words, registers, little, timestamp, r.value);
    }
  }

  lemma FieldsAreParsed(words: seq<Word>, registers: seq<Register>, little: seq<seq<Byte>>, timestamp: int,
                        fields: seq<Field>)
    requires TotalWords(registers) <= |words| && |fields| == |little| == |registers| && AllSupported(registers)
    requires forall k | 0 <= k < |registers| ::
               && WellFormed(registers[k]) && |little[k]| == |registers[k].byteOrder|
               && Reinterpret(registers[k].dtype, little[k]) == DecodeRegister(registers[k], Slice(words, registers, k))
               && fields[k] == Field(registers[k].name, timestamp, Reinterpret(registers[k].dtype, little[k]))
    ensures ParsedBlock(words, registers, timestamp) == Success(fields)
  {
    assert ParsedBlock(words, registers, timestamp).value == fields;
  }

  lemma MergedBytes(raw: seq<seq<Byte>>, words: seq<Word>, registers: seq<Register>, merged: seq<seq<Byte>>)
    requires TotalWords(registers) <= |words| == |raw| && |merged| == |registers|
    requires forall i | 0 <= i < |raw| :: IsPairOf(raw[i], words[i])
    requires forall k | 0 <= k < |registers| :: merged[k] == Concat(Slice(raw, registers, k))
    ensures forall k | 0 <= k < |registers| :: merged[k] == WordBytes(Slice(words, registers, k))
  {
    forall k | 0 <= k < |registers| ensures merged[k] == WordBytes(Slice(words, registers, k)) {
      SlicePairs(raw, words, registers, k);
    }
  }

  lemma StagesDecodeAll(words: seq<Word>, registers: seq<Register>, big: seq<seq<Byte>>, little: seq<seq<Byte>>)
    requires TotalWords(registers) <= |words| && |big| == |little| == |registers|
    requires forall k | 0 <= k < |registers| ::
               && WellFormed(registers[k])
               && big[k] == Gather(registers[k].byteOrder, WordBytes(Slice(words, registers, k)))
               && little[k] == Reversed(big[k])
    ensures forall k | 0 <= k < |registers| :: |little[k]| == |registers[k].byteOrder|
    ensures forall k | 0 <= k < |registers| && Supported(registers[k].dtype) ::
              && WellFormed(registers[k]) && |little[k]| == |registers[k].byteOrder|
              && Reinterpret(registers[k].dtype, little[k]) == DecodeRegister(registers[k], Slice(words, registers, k))
  {
    forall k | 0 <= k < |registers|
      ensures |little[k]| == |registers[k].byteOrder|
      ensures Supported(registers[k].dtype) ==>
                Reinterpret(registers[k].dtype, little[k]) == DecodeRegister(registers[k], Slice(words, registers, k))
    {
      StagesDecode(registers[k], Slice(words, registers, k), big[k]);
    }
  }
}
