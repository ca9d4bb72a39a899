/** From a stream of bytes to named fields: `communication/nmea/Interpreter.cpp`. */
module NmeaInterpreter {
  import opened Lists
  import opened Registers
  import opened NmeaResponse
  import NmeaFraming

  // ---------- Splitting the stream ----------

  /** A chunk starts at a '$' and has no other. */
  predicate IsChunk(chunk: Bytes) {
    chunk != [] && chunk[0] == DOLLAR && DOLLAR !in chunk[1..]
  }

  /** `chunks` cut `data` at every '$', leaving out what comes before the first. */
  ghost predicate CutsAtDollars(data: Bytes, chunks: seq<Bytes>) {
    && (forall i | 0 <= i < |chunks| :: IsChunk(chunks[i]))
    && exists garbage :: Cut(data, garbage, chunks)
  }

  ghost predicate Cut(data: Bytes, garbage: Bytes, chunks: seq<Bytes>) {
    DOLLAR !in garbage && data == garbage + Concat(chunks)
  }

  lemma GarbageGrows(data: Bytes, garbage: Bytes, c: Byte)
    requires Cut(data, garbage, []) && c != DOLLAR
    ensures Cut(data + [c], garbage + [c], [])
  {
    ConcatNothing(garbage);
    ConcatNothing(garbage + [c]);
  }

  lemma ChunkStarts(data: Bytes, garbage: Bytes, chunks: seq<Bytes>)
    requires Cut(data, garbage, chunks)
    ensures Cut(data + [DOLLAR], garbage, chunks + [[DOLLAR]]) && IsChunk([DOLLAR])
  {
    ConcatAppend(chunks, [DOLLAR]);
    ConcatAssociates(garbage, Concat(chunks), [DOLLAR]);
  }

  lemma ChunkGrows(data: Bytes, garbage: Bytes, chunks: seq<Bytes>, chunk: Bytes, c: Byte)
    requires Cut(data, garbage, chunks + [chunk]) && IsChunk(chunk) && c != DOLLAR
    ensures Cut(data + [c], garbage, chunks + [chunk + [c]]) && IsChunk(chunk + [c])
  {
    ConcatAppend(chunks, chunk);
    ConcatAppend(chunks, chunk + [c]);
    ConcatAssociates(Concat(chunks), chunk, [c]);
    ConcatAssociates(garbage, Concat(chunks) + chunk, [c]);
    assert (chunk + [c])[1..] == chunk[1..] + [c];
  }

  /** `split`. */
  method Split(data: Bytes) returns (result: seq<Bytes>)
    ensures CutsAtDollars(data, result)
  {
    result := [];
    ghost var garbage := [];
    for i := 0 to |data|
      invariant forall k | 0 <= k < |result| :: IsChunk(result[k])
      invariant Cut(data[..i], garbage, result)
    {
      assert data[..i + 1] == data[..i] + [data[i]];
      ghost var before := result;
      if data[i] == DOLLAR {
        ChunkStarts(data[..i], garbage, result);
        result := result + [[]];
      } else if result != [] {
        CutAt(result, |result| - 1);
        assert result[|result| - 1..] == [result[|result| - 1]];
        ChunkGrows(data[..i], garbage, result[..|result| - 1], result[|result| - 1], data[i]);
      } else {
        GarbageGrows(data[..i], garbage, data[i]);
        garbage := garbage + [data[i]];
      }
      if result != [] {
        var last := |result| - 1;
        assert data[i] == DOLLAR ==> result[..last] == before && result[last] + [data[i]] == [DOLLAR];
        result := result[..last] + [result[last] + [data[i]]];
      }
    }
    assert data[..|data|] == data;
    assert Cut(data, garbage, result);
  }

  lemma {:induction false} ConcatStartsWithDollar(chunks: seq<Bytes>)
    requires chunks != [] && forall i | 0 <= i < |chunks| :: IsChunk(chunks[i])
    ensures Concat(chunks) != [] && Concat(chunks)[0] == DOLLAR
  {
    if |chunks| > 1 {
      ConcatStartsWithDollar(chunks[..|chunks| - 1]);
    }
  }

  /** The last '$' of a text that ends in a chunk is the chunk's first byte. */
  lemma LastDollarIs(front: Bytes, chunk: Bytes)
    requires IsChunk(chunk)
    ensures var text := front + chunk;
            text[|front|] == DOLLAR && forall q | |front| < q < |text| :: text[q] != DOLLAR
  {
    var text := front + chunk;
    forall q | |front| < q < |text| ensures text[q] != DOLLAR {
      assert text[q] == chunk[1..][q - |front| - 1];
    }
  }

  lemma LastChunkIsUnique(front: Bytes, chunk: Bytes, front': Bytes, chunk': Bytes)
    requires IsChunk(chunk) && IsChunk(chunk') && front + chunk == front' + chunk'
    ensures front == front' && chunk == chunk'
  {
    var text := front + chunk;
    LastDollarIs(front, chunk);
    LastDollarIs(front', chunk');
    assert front == text[..|front|] && front' == text[..|front'|];
    assert chunk == text[|front|..] && chunk' == text[|front'|..];
  }

  /** There is only one way to cut a stream at its '$' signs. */
  lemma {:induction false} CutIsUnique(garbage: Bytes, chunks: seq<Bytes>, garbage': Bytes, chunks': seq<Bytes>)
    requires DOLLAR !in garbage && DOLLAR !in garbage'
    requires (forall i | 0 <= i < |chunks| :: IsChunk(chunks[i])) && (forall i | 0 <= i < |chunks'| :: IsChunk(chunks'[i]))
    requires garbage + Concat(chunks) == garbage' + Concat(chunks')
    ensures chunks == chunks'
    decreases |chunks|
  {
    if chunks == [] || chunks' == [] {
      DollarsInCut(garbage, chunks);
      DollarsInCut(garbage', chunks');
    } else {
      var n, m := |chunks| - 1, |chunks'| - 1;
      var front, front' := garbage + Concat(chunks[..n]), garbage' + Concat(chunks'[..m]);
      assert garbage + Concat(chunks) == front + chunks[n];
      assert garbage' + Concat(chunks') == front' + chunks'[m];
      LastChunkIsUnique(front, chunks[n], front', chunks'[m]);
      CutIsUnique(garbage, chunks[..n], garbage', chunks'[..m]);
      assert chunks == chunks[..n] + [chunks[n]] && chunks' == chunks'[..m] + [chunks'[m]];
    }
  }

  lemma DollarsInCut(garbage: Bytes, chunks: seq<Bytes>)
    requires DOLLAR !in garbage && forall i | 0 <= i < |chunks| :: IsChunk(chunks[i])
    ensures DOLLAR in garbage + Concat(chunks) <==> chunks != []
  {
    if chunks != [] {
      ConcatStartsWithDollar(chunks);
      assert (garbage + Concat(chunks))[|garbage|] == DOLLAR;
    }
  }

  /** Garbage and chunks put together are cut into those chunks again. */
  lemma ChunksAre(garbage: Bytes, pieces: seq<Bytes>, chunks: seq<Bytes>)
    requires DOLLAR !in garbage && forall i | 0 <= i < |pieces| :: IsChunk(pieces[i])
    requires CutsAtDollars(garbage + Concat(pieces), chunks)
    ensures chunks == pieces
  {
    var other :| Cut(garbage + Concat(pieces), other, chunks);
    CutIsUnique(garbage, pieces, other, chunks);
  }

  // ---------- Printed streams ----------

  function PrintAll(sentences: seq<NmeaFraming.Sentence>): (chunks: seq<Bytes>)
    ensures |chunks| == |sentences|
  {
    seq(|sentences|, i requires 0 <= i < |sentences| => NmeaFraming.Print(sentences[i]))
  }

  lemma PrintedIsChunk(s: NmeaFraming.Sentence)
    requires NmeaFraming.PlainSentence(s)
    ensures IsChunk(NmeaFraming.Print(s)) && |NmeaFraming.Print(s)| >= 2
  {
    NmeaFraming.FieldsTextPlain(s.fields);
    assert NmeaFraming.Print(s)[1..] == NmeaFraming.Body(s) + NmeaFraming.Tail(s);
  }

  /** However much '$'-free garbage comes first, splitting a stream of printed sentences gives back
      exactly the sentences, and reading each of them with checksum validation on recovers its
      talker, id and fields. */
  lemma StreamRoundTrip(garbage: Bytes, sentences: seq<NmeaFraming.Sentence>, chunks: seq<Bytes>)
    requires DOLLAR !in garbage && forall i | 0 <= i < |sentences| :: NmeaFraming.Printable(sentences[i])
    requires CutsAtDollars(garbage + Concat(PrintAll(sentences)), chunks)
    ensures chunks == PrintAll(sentences)
    ensures forall i | 0 <= i < |chunks| ::
              && |chunks[i]| >= 2
              && Parsed(chunks[i], true)
                 == Success(Response(sentences[i].talkerId, sentences[i].sentenceId, sentences[i].fields))
  {
    var printed := PrintAll(sentences);
    forall i | 0 <= i < |printed| ensures IsChunk(printed[i]) && |printed[i]| >= 2 {
      NmeaFraming.PrintableIsPlain(sentences[i]);
      PrintedIsChunk(sentences[i]);
    }
    ChunksAre(garbage, printed, chunks);
    forall i | 0 <= i < |chunks|
      ensures Parsed(chunks[i], true)
              == Success(Response(sentences[i].talkerId, sentences[i].sentenceId, sentences[i].fields))
    {
      NmeaFraming.ReadInvertsPrint(sentences[i]);
    }
  }

  // ---------- Fields ----------

  datatype FieldFormat = FieldFormat(name: string, dtype: Type)

  datatype SentenceFormat = SentenceFormat(id: Bytes, fields: seq<FieldFormat>)

  datatype Value = IntegerValue(i: int) | UnsignedValue(u: int) | DoubleValue(bits: int) | TextValue(text: Bytes)

  datatype Field = Field(name: string, timestamp: int, value: Option<Value>)

  datatype InterpreterError = UnknownSentence | FieldCountMismatch | Unconvertible | UnsupportedType

  /** `std::stoll`, `std::stoull` and `std::stod`; None where they throw. */
  datatype Conversions = Conversions(stoll: Bytes -> Option<int>, stoull: Bytes -> Option<int>, stod: Bytes -> Option<int>)

  /** The value of one field; empty fields and fields of no type have none. */
  function ValueOf(text: Bytes, dtype: Type, c: Conversions): Result<Option<Value>, InterpreterError> {
    if text == [] then Success(None)
    else
      match dtype
      case Int64 => (match c.stoll(text) case Some(i) => Success(Some(IntegerValue(i))) case None => Failure(Unconvertible))
      case Uint64 => (match c.stoull(text) case Some(u) => Success(Some(UnsignedValue(u))) case None => Failure(Unconvertible))
      case Double => (match c.stod(text) case Some(d) => Success(Some(DoubleValue(d))) case None => Failure(Unconvertible))
      case String => Success(Some(TextValue(text)))
      case NoType => Success(None)
      case _ => Failure(UnsupportedType)
  }

  /** The text of a field can be converted to the type. */
  predicate Convertible(text: Bytes, dtype: Type, c: Conversions) {
    || text == [] || dtype.NoType? || dtype.String?
    || (dtype.Int64? && c.stoll(text).Some?) || (dtype.Uint64? && c.stoull(text).Some?)
    || (dtype.Double? && c.stod(text).Some?)
  }

  /** What a field's value says about the text it came from. */
  predicate Represents(v: Option<Value>, text: Bytes, dtype: Type, c: Conversions) {
    match v
    case None => text == [] || dtype.NoType?
    case Some(IntegerValue(i)) => text != [] && dtype.Int64? && c.stoll(text) == Some(i)
    case Some(UnsignedValue(u)) => text != [] && dtype.Uint64? && c.stoull(text) == Some(u)
    case Some(DoubleValue(bits)) => text != [] && dtype.Double? && c.stod(text) == Some(bits)
    case Some(TextValue(t)) => text != [] && dtype.String? && t == text
  }

  /** What is wrong with a text that cannot be converted. */
  function ConversionError(dtype: Type): InterpreterError {
    if dtype in {Int64, Uint64, Double} then Unconvertible else UnsupportedType
  }

  lemma ValueOfRepresents(text: Bytes, dtype: Type, c: Conversions)
    ensures ValueOf(text, dtype, c).Success? <==> Convertible(text, dtype, c)
    ensures var r := ValueOf(text, dtype, c);
            if r.Success? then Represents(r.value, text, dtype, c) else r.error == ConversionError(dtype)
  {
  }

  /** `findSentence`: the first configured sentence with the id. */
  function FindSentence(formats: seq<SentenceFormat>, id: Bytes): (r: Option<SentenceFormat>)
    ensures r.Some? ==> exists i | 0 <= i < |formats| ::
                          formats[i] == r.value && r.value.id == id && forall k | 0 <= k < i :: formats[k].id != id
    ensures r.None? ==> forall f | f in formats :: f.id != id
  {
    if formats == [] then None
    else if formats[0].id == id then Some(formats[0])
    else
      var r := FindSentence(formats[1..], id);
      assert r.Some? ==> forall i | 0 < i < |formats| :: formats[i] == formats[1..][i - 1];
      r
  }

  /** There are as many texts as fields, and every text converts. */
  ghost predicate Converts(texts: seq<Bytes>, formats: seq<FieldFormat>, c: Conversions) {
    && |texts| == |formats|
    && forall i | 0 <= i < |texts| :: Convertible(texts[i], formats[i].dtype, c)
  }

  /** The fields are named after their formats, stamped, and represent their texts. */
  ghost predicate ArePaired(fields: seq<Field>, texts: seq<Bytes>, formats: seq<FieldFormat>, timestamp: int, c: Conversions) {
    && |fields| == |texts| == |formats|
    && forall i | 0 <= i < |fields| ::
         && fields[i].name == formats[i].name && fields[i].timestamp == timestamp
         && Represents(fields[i].value, texts[i], formats[i].dtype, c)
  }

  /** The `i`-th text is the first that does not convert. */
  ghost predicate FailsAt(texts: seq<Bytes>, formats: seq<FieldFormat>, c: Conversions, i: nat) {
    && i < |texts| == |formats| && !Convertible(texts[i], formats[i].dtype, c)
    && forall k | 0 <= k < i :: Convertible(texts[k], formats[k].dtype, c)
  }

  /** The first failing conversion, if any. */
  ghost function FirstFailure(texts: seq<Bytes>, formats: seq<FieldFormat>, c: Conversions): Option<InterpreterError>
    requires |texts| == |formats|
  {
    if texts == [] then None
    else
      match ValueOf(texts[0], formats[0].dtype, c)
      case Failure(error) => Some(error)
      case Success(_) => FirstFailure(texts[1..], formats[1..], c)
  }

  /** The fields or the error that a response determines. */
  ghost function Interpretation(response: Response, formats: seq<SentenceFormat>, timestamp: int, c: Conversions)
    : Result<seq<Field>, InterpreterError>
  {
    match FindSentence(formats, response.sentenceId)
    case None => Failure(UnknownSentence)
    case Some(format) =>
      if |format.fields| != |response.fields| then Failure(FieldCountMismatch)
      else
        match FirstFailure(response.fields, format.fields, c)
        case Some(error) => Failure(error)
        case None => Success(FieldsOf(response.fields, format.fields, timestamp, c))
  }

  /** Names, times and values, where all texts convert. */
  ghost function FieldsOf(texts: seq<Bytes>, formats: seq<FieldFormat>, timestamp: int, c: Conversions): (fields: seq<Field>)
    requires |texts| == |formats|
    ensures |fields| == |texts|
  {
    seq(|texts|, i requires 0 <= i < |texts| =>
      var value := ValueOf(texts[i], formats[i].dtype, c);
      Field(formats[i].name, timestamp, if value.Success? then value.value else None))
  }

  lemma FirstFailureStep(texts: seq<Bytes>, formats: seq<FieldFormat>, c: Conversions, i: nat)
    requires i < |texts| == |formats|
    ensures FirstFailure(texts[i..], formats[i..], c)
            == match ValueOf(texts[i], formats[i].dtype, c)
               case Failure(error) => Some(error)
               case Success(_) => FirstFailure(texts[i + 1..], formats[i + 1..], c)
  {
    assert texts[i..][1..] == texts[i + 1..] && formats[i..][1..] == formats[i + 1..];
  }

  /** `parse`: pairs a response's fields with the names and types of its sentence, all of them or none. */
  method ParseFields(response: Response, formats: seq<SentenceFormat>, timestamp: int, c: Conversions)
    returns (r: Result<seq<Field>, InterpreterError>)
    ensures r == Interpretation(response, formats, timestamp, c)
    ensures (forall f | f in formats :: f.id != response.sentenceId) ==> r == Failure(UnknownSentence)
    ensures (exists f | f in formats :: f.id == response.sentenceId) ==>
              exists format | format in formats && format.id == response.sentenceId ::
                && (r.Success? <==> Converts(response.fields, format.fields, c))
                && (r.Success? ==>
                      && |r.value| == |format.fields| == |response.fields|
                      && forall i | 0 <= i < |r.value| ::
                           && r.value[i].name == format.fields[i].name && r.value[i].timestamp == timestamp
                           && Represents(r.value[i].value, response.fields[i], format.fields[i].dtype, c))
                && (|format.fields| != |response.fields| ==> r == Failure(FieldCountMismatch))
                && (|format.fields| == |response.fields| && r.Failure? ==>
                      exists i: nat :: FailsAt(response.fields, format.fields, c, i)
                                       && r.error == ConversionError(format.fields[i].dtype))
  {
    InterpretationIs(response, formats, timestamp, c);
    var found := FindSentence(formats, response.sentenceId);
    if found.None? { return Failure(UnknownSentence); }
    if |found.value.fields| != |response.fields| { return Failure(FieldCountMismatch); }
    r := PairFields(response.fields, found.value.fields, timestamp, c);
  }

  /** The loop of `parse`. */
  method PairFields(texts: seq<Bytes>, formats: seq<FieldFormat>, timestamp: int, c: Conversions)
    returns (r: Result<seq<Field>, InterpreterError>)
    requires |texts| == |formats|
    ensures r == match FirstFailure(texts, formats, c)
                 case Some(error) => Failure(error)
                 case None => Success(FieldsOf(texts, formats, timestamp, c))
  {
    var output := [];
    assert texts[0..] == texts && formats[0..] == formats;
    for i := 0 to |formats|
      invariant |output| == i
      invariant FirstFailure(texts[i..], formats[i..], c) == FirstFailure(texts, formats, c)
      invariant forall k | 0 <= k < i ::
                  && ValueOf(texts[k], formats[k].dtype, c).Success?
                  && output[k] == Field(formats[k].name, timestamp, ValueOf(texts[k], formats[k].dtype, c).value)
    {
      FirstFailureStep(texts, formats, c, i);
      var value := ValueOf(texts[i], formats[i].dtype, c);
      if value.Failure? { return Failure(value.error); }
      output := output + [Field(formats[i].name, timestamp, value.value)];
    }
    assert output == FieldsOf(texts, formats, timestamp, c);
    assert texts[|output|..] == [];
    return Success(output);
  }

  lemma {:induction false} FirstFailureIs(texts: seq<Bytes>, formats: seq<FieldFormat>, c: Conversions) returns (i: nat)
    requires |texts| == |formats|
    ensures FirstFailure(texts, formats, c).None? <==> Converts(texts, formats, c)
    ensures FirstFailure(texts, formats, c).Some? ==>
              FailsAt(texts, formats, c, i) && FirstFailure(texts, formats, c).value == ConversionError(formats[i].dtype)
  {
    i := 0;
    if texts != [] {
      ValueOfRepresents(texts[0], formats[0].dtype, c);
      if Convertible(texts[0], formats[0].dtype, c) {
        i := FirstFailureIs(texts[1..], formats[1..], c);
        assert forall k | 0 < k < |texts| :: texts[k] == texts[1..][k - 1] && formats[k] == formats[1..][k - 1];
        i := i + 1;
      }
    }
  }

  lemma FieldsArePaired(texts: seq<Bytes>, formats: seq<FieldFormat>, timestamp: int, c: Conversions)
    requires Converts(texts, formats, c)
    ensures ArePaired(FieldsOf(texts, formats, timestamp, c), texts, formats, timestamp, c)
  {
    forall i | 0 <= i < |texts|
      ensures Represents(FieldsOf(texts, formats, timestamp, c)[i].value, texts[i], formats[i].dtype, c)
    {
      ValueOfRepresents(texts[i], formats[i].dtype, c);
    }
  }

  /** What a response is interpreted as, by the sentence configured for it. */
  lemma InterpretationIs(response: Response, formats: seq<SentenceFormat>, timestamp: int, c: Conversions)
    ensures var r := Interpretation(response, formats, timestamp, c);
            match FindSentence(formats, response.sentenceId)
            case None => r == Failure(UnknownSentence)
            case Some(format) =>
              && (r.Success? <==> Converts(response.fields, format.fields, c))
              && (r.Success? ==> ArePaired(r.value, response.fields, format.fields, timestamp, c))
              && (|format.fields| != |response.fields| ==> r == Failure(FieldCountMismatch))
              && (|format.fields| == |response.fields| && r.Failure? ==>
                    exists i: nat :: FailsAt(response.fields, format.fields, c, i)
                                     && r.error == ConversionError(format.fields[i].dtype))
  {
    var found := FindSentence(formats, response.sentenceId);
    if found.Some? && |found.value.fields| == |response.fields| {
      var i := FirstFailureIs(response.fields, found.value.fields, c);
      if Converts(response.fields, found.value.fields, c) {
        FieldsArePaired(response.fields, found.value.fields, timestamp, c);
      }
    }
  }
}
