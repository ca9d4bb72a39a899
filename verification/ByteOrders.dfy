/** What a byte order does to a register's bytes, and what it loses. */
module ByteOrders {
  import opened Lists
  import opened Registers
  import opened ModbusInterpreter

  // ---------- Gather against the documented scatter ----------

  ghost function IndexOf(order: seq<int>, p: int): (k: int)
    requires IsPermutation(order) && 0 <= p < |order|
    ensures 0 <= k < |order| && order[k] == p
  {
    Pigeonhole(order, |order|);
    assert p in order;
    var k :| 0 <= k < |order| && order[k] == p;
    k
  }

  /** `Register.hpp` documents that the `i`-th byte goes to position `order[i]`. */
  ghost function Scatter<T>(order: seq<int>, bytes: seq<T>): (r: seq<T>)
    requires IsPermutation(order) && |bytes| == |order|
    ensures |r| == |order| && forall i | 0 <= i < |order| :: r[order[i]] == bytes[i]
  {
    seq(|order|, p requires 0 <= p < |order| => bytes[IndexOf(order, p)])
  }

  lemma ScatterUndoesGather<T>(order: seq<int>, bytes: seq<T>)
    requires IsPermutation(order) && |bytes| == |order|
    ensures Scatter(order, Gather(order, bytes)) == bytes
    ensures Gather(order, Scatter(order, bytes)) == bytes
  {
    var scattered := Scatter(order, Gather(order, bytes));
    forall p | 0 <= p < |bytes| ensures scattered[p] == bytes[p] {
      var k := IndexOf(order, p);
      assert scattered[order[k]] == Gather(order, bytes)[k];
    }
  }

  /** The byte order, as the interpreter applies it, agrees with its documentation on every
      register content iff it is an involution. */
  lemma GatherIsDocumentedScatter(order: seq<int>)
    requires IsPermutation(order) && |order| <= 8
    ensures (forall bytes: seq<Byte> | |bytes| == |order| :: Gather(order, bytes) == Scatter(order, bytes))
            <==> IsInvolution(order)
  {
    if IsInvolution(order) {
      forall bytes: seq<Byte> | |bytes| == |order| ensures Gather(order, bytes) == Scatter(order, bytes) {
        var s := Scatter(order, bytes);
        forall i | 0 <= i < |order| ensures s[i] == bytes[order[i]] {
          assert order[order[i]] == i;
        }
      }
    } else {
      var i :| 0 <= i < |order| && order[order[i]] != i;
      var numbered: seq<Byte> := seq(|order|, k requires 0 <= k < |order| => k as Byte);
      assert Scatter(order, numbered)[order[order[i]]] == order[i];
      var k := IndexOf(order, i);
      assert Scatter(order, numbered)[i] == k;
      assert Gather(order, numbered)[i] == order[i] != k;
      assert Gather(order, numbered) != Scatter(order, numbered);
    }
  }

  /** The wild order "BCDA" is read differently from what is documented. */
  lemma WildOrderAgainstDocumentation()
    ensures Positions("BCDA") == [1, 2, 3, 0] && IsPermutation([1, 2, 3, 0])
    ensures Gather([1, 2, 3, 0], [10, 20, 30, 40]) == [20, 30, 40, 10]
    ensures Scatter([1, 2, 3, 0], [10, 20, 30, 40]) == [40, 10, 20, 30]
  {
    var s := Scatter([1, 2, 3, 0], [10, 20, 30, 40]);
    var order := [1, 2, 3, 0];
    assert s[order[0]] == 10 && s[order[1]] == 20 && s[order[2]] == 30 && s[order[3]] == 40;
  }

  /** Rearranging a register's bytes loses nothing iff the byte order is a permutation: otherwise
      two different contents are read as the same value. */
  lemma GatherLosesNothing(order: seq<int>)
    requires InRange(order)
    ensures IsPermutation(order) <==>
              forall b: seq<Byte>, c: seq<Byte> | |b| == |c| == |order| && Gather(order, b) == Gather(order, c) :: b == c
  {
    if IsPermutation(order) {
      forall b: seq<Byte>, c: seq<Byte> | |b| == |c| == |order| && Gather(order, b) == Gather(order, c) ensures b == c {
        ScatterUndoesGather(order, b);
        ScatterUndoesGather(order, c);
      }
    } else {
      var p := MissedPosition(order);
      var b: seq<Byte> := seq(|order|, _ => 0);
      var c: seq<Byte> := b[p := 1];
      forall j | 0 <= j < |order| ensures Gather(order, b)[j] == Gather(order, c)[j] {
        assert order[j] in order;
      }
      assert b[p] != c[p];
      assert Gather(order, b) == Gather(order, c);
    }
  }

  lemma MissedPosition(order: seq<int>) returns (p: int)
    requires InRange(order) && !Distinct(order)
    ensures 0 <= p < |order| && p !in order
  {
    var i, j :| 0 <= i < j < |order| && order[i] == order[j];
    var rest := order[..j] + order[j + 1..];
    if forall p | 0 <= p < |order| :: p in order {
      var values := set x | x in rest;
      assert Below(|order|) <= values by {
        forall p | p in Below(|order|) ensures p in rest {
          assert p in order;
          var k :| 0 <= k < |order| && order[k] == p;
          assert rest[if k < j then k else if k == j then i else k - 1] == p;
        }
      }
      SubsetCount(Below(|order|), values);
      ElementsCount(rest);
    }
    p :| 0 <= p < |order| && p !in order;
  }

  lemma {:induction false} ElementsCount<T>(s: seq<T>)
    ensures |(set x | x in s)| <= |s|
  {
    if s != [] {
      var n := |s| - 1;
      ElementsCount(s[..n]);
      assert (set x | x in s) == (set x | x in s[..n]) + {s[n]};
    }
  }

  // ---------- Decoding is a bijection ----------

  function Pow256(n: nat): nat {
    if n == 0 then 1 else 0x100 * Pow256(n - 1)
  }

  /** The `n`-byte big-endian form of a number. */
  function BigBytes(n: nat, v: nat): (bytes: seq<Byte>)
    ensures |bytes| == n
  {
    if n == 0 then [] else BigBytes(n - 1, v / 0x100) + [v % 0x100]
  }

  lemma {:induction false} BigEndianOfBigBytes(n: nat, v: nat)
    requires v < Pow256(n)
    ensures BigEndian(BigBytes(n, v)) == v
  {
    if n > 0 {
      BigEndianOfBigBytes(n - 1, v / 0x100);
      assert BigBytes(n, v)[..n - 1] == BigBytes(n - 1, v / 0x100);
    }
  }

  lemma {:induction false} BigBytesOfBigEndian(bytes: seq<Byte>)
    ensures BigEndian(bytes) < Pow256(|bytes|)
    ensures BigBytes(|bytes|, BigEndian(bytes)) == bytes
  {
    if bytes != [] {
      BigBytesOfBigEndian(bytes[..|bytes| - 1]);
    }
  }

  function WordOf(high: Byte, low: Byte): Word {
    0x100 * (high as int) + low as int
  }

  lemma BytesOf(word: Word) returns (high: Byte, low: Byte)
    ensures WordOf(high, low) == word
  {
    high, low := word / 0x100, word % 0x100;
  }

  function PairWords(bytes: seq<Byte>): (words: seq<Word>)
    ensures |words| == |bytes| / 2
  {
    if |bytes| < 2 then []
    else
      var n := |bytes| - 2;
      PairWords(bytes[..n]) + [WordOf(bytes[n], bytes[n + 1])]
  }

  lemma PairWordsAppend(bytes: seq<Byte>, high: Byte, low: Byte)
    ensures PairWords(bytes + [high, low]) == PairWords(bytes) + [WordOf(high, low)]
  {
    DropAll(bytes, [high, low]);
  }

  lemma WordBytesAppend(words: seq<Word>, high: Byte, low: Byte)
    ensures WordBytes(words + [WordOf(high, low)]) == WordBytes(words) + [high, low]
  {
    DropLast(words, WordOf(high, low));
  }

  lemma {:induction false} PairWordsInvertsWordBytes(words: seq<Word>)
    ensures PairWords(WordBytes(words)) == words
  {
    if words != [] {
      var front := words[..|words| - 1];
      var high, low := BytesOf(words[|words| - 1]);
      PairWordsInvertsWordBytes(front);
      PairWordsAppend(WordBytes(front), high, low);
      WordBytesAppend(front, high, low);
      assert words == front + [WordOf(high, low)];
    }
  }

  lemma LastTwo(bytes: seq<Byte>)
    requires |bytes| >= 2
    ensures var n := |bytes| - 2; bytes == bytes[..n] + [bytes[n], bytes[n + 1]]
  {
  }

  lemma {:induction false} WordBytesInvertsPairWords(bytes: seq<Byte>)
    requires |bytes| % 2 == 0
    ensures WordBytes(PairWords(bytes)) == bytes
  {
    if bytes != [] {
      var n := |bytes| - 2;
      WordBytesInvertsPairWords(bytes[..n]);
      WordBytesAppend(PairWords(bytes[..n]), bytes[n], bytes[n + 1]);
      LastTwo(bytes);
    }
  }

  /** The numbers that a supported type can hold. */
  predicate Holds(t: Type, number: int) {
    if Signed(t) then -(Modulus(t) as int) <= 2 * number < Modulus(t) else 0 <= number < Modulus(t)
  }

  function Uninterpret(t: Type, number: int): int {
    if number < 0 then number + Modulus(t) else number
  }

  lemma InterpretInverts(t: Type, raw: nat, number: int)
    requires Supported(t)
    ensures Modulus(t) == Pow256(SizeOf(t))
    ensures raw < Modulus(t) ==> Holds(t, Interpret(t, raw)) && Interpret(t, raw) in {raw, raw - Modulus(t)}
    ensures raw < Modulus(t) ==> Uninterpret(t, Interpret(t, raw)) == raw
    ensures Holds(t, number) ==>
              0 <= Uninterpret(t, number) < Modulus(t) && Interpret(t, Uninterpret(t, number)) == number
  {
    assert Pow256(2) == 0x100 * (0x100 * Pow256(0));
    assert Pow256(4) == 0x100 * (0x100 * Pow256(2));
    assert Pow256(6) == 0x100 * (0x100 * Pow256(4));
    assert Pow256(8) == 0x100 * (0x100 * Pow256(6));
  }

  /** The words that a device must store for its register to read as `number`. */
  ghost function EncodeRegister(r: Register, number: int): (words: seq<Word>)
    requires WellFormed(r) && Supported(r.dtype) && IsPermutation(r.byteOrder) && Holds(r.dtype, number)
    ensures |words| == Words(r)
  {
    InterpretInverts(r.dtype, 0, number);
    PairWords(Scatter(r.byteOrder, BigBytes(|r.byteOrder|, Uninterpret(r.dtype, number))))
  }

  /** Every value of the type is read back from the words that encode it. */
  lemma DecodeInvertsEncode(r: Register, number: int)
    requires WellFormed(r) && Supported(r.dtype) && IsPermutation(r.byteOrder) && Holds(r.dtype, number)
    ensures DecodeRegister(r, EncodeRegister(r, number)) == Value(r.dtype, number)
  {
    var raw := Uninterpret(r.dtype, number);
    InterpretInverts(r.dtype, 0, number);
    var bytes := BigBytes(|r.byteOrder|, raw);
    WordBytesInvertsPairWords(Scatter(r.byteOrder, bytes));
    ScatterUndoesGather(r.byteOrder, bytes);
    BigEndianOfBigBytes(|r.byteOrder|, raw);
  }

  /** Every register content is the encoding of the value it is read as. */
  lemma EncodeInvertsDecode(r: Register, words: seq<Word>)
    requires WellFormed(r) && Supported(r.dtype) && IsPermutation(r.byteOrder) && |words| == Words(r)
    ensures Holds(r.dtype, DecodeRegister(r, words).number)
    ensures EncodeRegister(r, DecodeRegister(r, words).number) == words
  {
    var bytes := WordBytes(words);
    var big := Gather(r.byteOrder, bytes);
    BigBytesOfBigEndian(big);
    InterpretInverts(r.dtype, BigEndian(big), 0);
    ScatterUndoesGather(r.byteOrder, bytes);
    PairWordsInvertsWordBytes(words);
  }

  // ---------- What the numbers are ----------

  /** The numbers of a type are those of the C++ integer it is called after; floating-point types
      carry raw bits. */
  lemma HoldsIsIntegerRange(t: Type, number: int)
    requires Supported(t)
    ensures Holds(t, number) <==>
              match t
              case Int16 => -0x8000 <= number < 0x8000
              case Uint16 => 0 <= number < 0x1_0000
              case Int32 => -0x8000_0000 <= number < 0x8000_0000
              case Uint32 | Float => 0 <= number < 0x1_0000_0000
              case Int64 => -0x8000_0000_0000_0000 <= number < 0x8000_0000_0000_0000
              case Uint64 | Double => 0 <= number < 0x1_0000_0000_0000_0000
              case NoType | String => false
  {
  }

  /** Words one after the other, as digits of a number. */
  function WordsNumber(words: seq<Word>): nat {
    if words == [] then 0 else 0x1_0000 * WordsNumber(words[..|words| - 1]) + words[|words| - 1]
  }

  lemma BigEndianPair(bytes: seq<Byte>, high: Byte, low: Byte)
    ensures BigEndian(bytes + [high, low]) == 0x1_0000 * BigEndian(bytes) + WordOf(high, low)
  {
    var all := bytes + [high, low];
    assert all[..|all| - 1] == bytes + [high];
    DropLast(bytes, high);
  }

  lemma {:induction false} BigEndianOfWords(words: seq<Word>)
    ensures BigEndian(WordBytes(words)) == WordsNumber(words)
  {
    if words != [] {
      var front := words[..|words| - 1];
      var high, low := BytesOf(words[|words| - 1]);
      BigEndianOfWords(front);
      WordBytesAppend(front, high, low);
      assert words == front + [WordOf(high, low)];
      BigEndianPair(WordBytes(front), high, low);
    }
  }

  lemma GatherStraight<T>(order: seq<int>, bytes: seq<T>)
    requires |bytes| == |order| && forall i | 0 <= i < |order| :: order[i] == i
    ensures Gather(order, bytes) == bytes
  {
  }

  /** With the straight byte order an unsigned register reads as the number that its words spell,
      most significant word first. */
  lemma StraightOrderSpellsWords(r: Register, words: seq<Word>)
    requires WellFormed(r) && |words| == Words(r) && r.dtype in {Uint16, Uint32, Uint64}
    requires forall i | 0 <= i < |r.byteOrder| :: r.byteOrder[i] == i
    ensures DecodeRegister(r, words) == Value(r.dtype, WordsNumber(words))
  {
    GatherStraight(r.byteOrder, WordBytes(words));
    BigEndianOfWords(words);
  }

  /** The four 32-bit orders, on the words 0x0102 and 0x0304. */
  lemma OrdersByExample()
    ensures forall order | order in {STRAIGHT_4, BYTES_SWAPPED_4, WORDS_SWAPPED_4, REVERSED_4} ::
              WellFormed(Register("r", 0, order, Uint32))
    ensures DecodeRegister(Register("r", 0, STRAIGHT_4, Uint32), [0x0102, 0x0304]).number == 0x0102_0304
    ensures DecodeRegister(Register("r", 0, BYTES_SWAPPED_4, Uint32), [0x0102, 0x0304]).number == 0x0201_0403
    ensures DecodeRegister(Register("r", 0, WORDS_SWAPPED_4, Uint32), [0x0102, 0x0304]).number == 0x0304_0102
    ensures DecodeRegister(Register("r", 0, REVERSED_4, Uint32), [0x0102, 0x0304]).number == 0x0403_0201
  {
    ExampleReads(STRAIGHT_4, 1, 2, 3, 4);
    ExampleReads(BYTES_SWAPPED_4, 2, 1, 4, 3);
    ExampleReads(WORDS_SWAPPED_4, 3, 4, 1, 2);
    ExampleReads(REVERSED_4, 4, 3, 2, 1);
  }

  lemma ExampleReads(order: seq<int>, a: Byte, b: Byte, c: Byte, d: Byte)
    requires WellFormed(Register("r", 0, order, Uint32))
    requires var bytes := [1, 2, 3, 4];
             bytes[order[0]] == a as int && bytes[order[1]] == b as int && bytes[order[2]] == c as int && bytes[order[3]] == d as int
    ensures DecodeRegister(Register("r", 0, order, Uint32), [0x0102, 0x0304]).number
         == 0x100_0000 * (a as int) + 0x1_0000 * (b as int) + 0x100 * (c as int) + d as int
  {
    var words: seq<Word> := [0x0102, 0x0304];
    BytesOfExample(words);
    assert Gather(order, WordBytes(words)) == [a, b, c, d];
    FourBytes(a, b, c, d);
  }

  lemma BytesOfExample(words: seq<Word>)
    requires words == [0x0102, 0x0304]
    ensures WordBytes(words) == [1, 2, 3, 4]
  {
    WordBytesAppend([], 1, 2);
    WordBytesAppend([WordOf(1, 2)], 3, 4);
    assert words == [WordOf(1, 2)] + [WordOf(3, 4)];
    assert [] + [WordOf(1, 2)] == [WordOf(1, 2)];
  }

  lemma FourBytes(a: Byte, b: Byte, c: Byte, d: Byte)
    ensures BigEndian([a, b, c, d]) == 0x100_0000 * (a as int) + 0x1_0000 * (b as int) + 0x100 * (c as int) + d as int
  {
    BigEndianPair([a, b], c, d);
    BigEndianPair([], a, b);
    assert [a, b] + [c, d] == [a, b, c, d] && [] + [a, b] == [a, b];
  }
}
