/** Listening to an NMEA talker: `communication/nmea/Communicator.cpp`. */
module NmeaCommunicator {
  import opened Lists
  import opened NmeaResponse
  import opened NmeaInterpreter
  import NmeaFraming

  datatype Error = OsError(what: string) | NmeaError(fault: NmeaFault)

  datatype NmeaFault = Unidentifiable | BadResponse(response: ResponseError) | BadFields(interpreter: InterpreterError)

  datatype Data = Data(deviceName: string, fields: seq<Field>, error: Option<Error>, metadata: Option<Bytes>)

  datatype Settings = Settings(name: string, withChecksum: bool, sentences: seq<SentenceFormat>)

  /** What the serial connection gives: bytes and the time they came, silence, or an error. */
  datatype Incoming = Received(bytes: Bytes, timestamp: int) | Timeout | Broken(what: string)

  /** Every '$' is followed by something other than a '$', so no chunk is a single byte. */
  predicate NoBareDollar(data: Bytes) {
    forall i | 0 <= i < |data| && data[i] == DOLLAR :: i + 1 < |data| && data[i + 1] != DOLLAR
  }

  lemma ChunksAreLong(data: Bytes, garbage: Bytes, chunks: seq<Bytes>, k: nat)
    requires NoBareDollar(data) && Cut(data, garbage, chunks) && k < |chunks|
    requires forall i | 0 <= i < |chunks| :: IsChunk(chunks[i])
    ensures |chunks[k]| >= 2
  {
    var before, after := chunks[..k], chunks[k + 1..];
    assert chunks == (before + [chunks[k]]) + after;
    ConcatSplit(before + [chunks[k]], after);
    ConcatAppend(before, chunks[k]);
    var start := |garbage + Concat(before)|;
    assert data == garbage + Concat(before) + chunks[k] + Concat(after);
    assert data[start] == DOLLAR;
    if after != [] {
      ConcatStartsWithDollar(after);
      assert data[start + |chunks[k]|] == Concat(after)[0] == DOLLAR;
    }
  }

  /** What one chunk contributes, a function of that chunk alone. */
  ghost function ResultOf(chunk: Bytes, settings: Settings, timestamp: int, c: Conversions): Data
    requires |chunk| >= 2
  {
    match Parsed(chunk, settings.withChecksum)
    case Failure(fault) => Data(settings.name, [], Some(NmeaError(BadResponse(fault))), None)
    case Success(response) =>
      match Interpretation(response, settings.sentences, timestamp, c)
      case Failure(fault) => Data(settings.name, [], Some(NmeaError(BadFields(fault))), None)
      case Success(fields) => Data(settings.name, fields, None, Some(response.sentenceId))
  }

  method ReadChunk(chunk: Bytes, settings: Settings, timestamp: int, c: Conversions) returns (data: Data)
    requires |chunk| >= 2
    ensures IsResultOf(data, chunk, settings, timestamp, c)
  {
    var response := NewResponse(chunk, settings.withChecksum);
    if response.Failure? {
      return Data(settings.name, [], Some(NmeaError(BadResponse(response.error))), None);
    }
    var fields := ParseFields(response.value, settings.sentences, timestamp, c);
    if fields.Failure? {
      return Data(settings.name, [], Some(NmeaError(BadFields(fields.error))), None);
    }
    return Data(settings.name, fields.value, None, Some(response.value.sentenceId));
  }

  /** One result per chunk, in order, each from its own chunk only. */
  ghost predicate AreResultsOf(data: seq<Data>, chunks: seq<Bytes>, settings: Settings, timestamp: int, c: Conversions) {
    && |data| == |chunks|
    && forall k | 0 <= k < |chunks| :: IsResultOf(data[k], chunks[k], settings, timestamp, c)
  }

  ghost predicate IsResultOf(data: Data, chunk: Bytes, settings: Settings, timestamp: int, c: Conversions) {
    |chunk| >= 2 && data == ResultOf(chunk, settings, timestamp, c)
  }

  /** Equal chunks give equal results, wherever and in whatever company they come. */
  lemma ResultsAreLocal(data: seq<Data>, chunks: seq<Bytes>, data': seq<Data>, chunks': seq<Bytes>, j: nat, k: nat,
                        settings: Settings, timestamp: int, c: Conversions)
    requires AreResultsOf(data, chunks, settings, timestamp, c) && AreResultsOf(data', chunks', settings, timestamp, c)
    requires j < |chunks| && k < |chunks'| && chunks[j] == chunks'[k]
    ensures data[j] == data'[k]
  {
    assert IsResultOf(data[j], chunks[j], settings, timestamp, c);
    assert IsResultOf(data'[k], chunks'[k], settings, timestamp, c);
  }

  /** The loop over the chunks: an error in one of them does not concern the others. */
  method ReadChunks(chunks: seq<Bytes>, settings: Settings, timestamp: int, c: Conversions) returns (data: seq<Data>)
    requires forall k | 0 <= k < |chunks| :: |chunks[k]| >= 2
    ensures AreResultsOf(data, chunks, settings, timestamp, c)
  {
    data := [];
    for i := 0 to |chunks|
      invariant |data| == i
      invariant forall k | 0 <= k < i :: IsResultOf(data[k], chunks[k], settings, timestamp, c)
    {
      var result := ReadChunk(chunks[i], settings, timestamp, c);
      data := data + [result];
    }
  }

  // ---------- What comes of printed sentences ----------

  /** The data of a sentence: its fields, paired with the names and types configured for it, with
      the sentence's id for metadata; or an error, if it is not configured or does not convert. */
  ghost predicate IsDataOf(data: Data, s: NmeaFraming.Sentence, settings: Settings, timestamp: int, c: Conversions) {
    && data.deviceName == settings.name
    && match FindSentence(settings.sentences, s.sentenceId)
       case None => data.fields == [] && data.metadata == None && data.error == Some(NmeaError(BadFields(UnknownSentence)))
       case Some(format) =>
         if Converts(s.fields, format.fields, c)
         then
           && data.error == None && data.metadata == Some(s.sentenceId)
           && ArePaired(data.fields, s.fields, format.fields, timestamp, c)
         else
           && data.fields == [] && data.metadata == None
           && if |s.fields| != |format.fields| then data.error == Some(NmeaError(BadFields(FieldCountMismatch)))
              else exists i: nat :: FailsAt(s.fields, format.fields, c, i)
                                    && data.error == Some(NmeaError(BadFields(ConversionError(format.fields[i].dtype))))
  }

  /** The chunk is rejected with the fault, before anything of it is looked at. */
  ghost predicate IsRejected(data: Data, settings: Settings, fault: ResponseError) {
    data == Data(settings.name, [], Some(NmeaError(BadResponse(fault))), None)
  }

  /** A chunk is rejected iff it is not framed, or has not the right checksum although that is asked for. */
  ghost predicate UnsoundAreRejected(data: seq<Data>, chunks: seq<Bytes>, settings: Settings) {
    && |data| == |chunks|
    && forall k | 0 <= k < |chunks| ::
         (exists fault :: IsRejected(data[k], settings, fault))
         <==> !(IsFramed(chunks[k]) && (settings.withChecksum ==> HasRightChecksum(chunks[k])))
  }

  lemma RejectedIffUnsound(data: seq<Data>, chunks: seq<Bytes>, settings: Settings, timestamp: int, c: Conversions)
    requires AreResultsOf(data, chunks, settings, timestamp, c)
    ensures UnsoundAreRejected(data, chunks, settings)
  {
    forall k | 0 <= k < |chunks|
      ensures (exists fault :: IsRejected(data[k], settings, fault))
              <==> !(IsFramed(chunks[k]) && (settings.withChecksum ==> HasRightChecksum(chunks[k])))
    {
      assert IsResultOf(data[k], chunks[k], settings, timestamp, c);
      RejectedIff(chunks[k], settings, timestamp, c);
    }
  }

  lemma RejectedIff(chunk: Bytes, settings: Settings, timestamp: int, c: Conversions)
    requires |chunk| >= 2
    ensures (exists fault :: IsRejected(ResultOf(chunk, settings, timestamp, c), settings, fault))
            <==> !(IsFramed(chunk) && (settings.withChecksum ==> HasRightChecksum(chunk)))
  {
    FaultIs(chunk, settings.withChecksum);
    var fault := Fault(chunk, settings.withChecksum);
    if fault.Some? {
      assert IsRejected(ResultOf(chunk, settings, timestamp, c), settings, fault.value);
    }
  }

  /** The bytes are garbage without a '$', and then the sentences. */
  ghost predicate IsStream(bytes: Bytes, garbage: Bytes, sentences: seq<NmeaFraming.Sentence>) {
    && DOLLAR !in garbage && sentences != [] && bytes == garbage + Concat(PrintAll(sentences))
  }

  /** The sentences may be sent: with validation every checksum is right, without it is any text. */
  ghost predicate AreSent(sentences: seq<NmeaFraming.Sentence>, withChecksum: bool) {
    forall i | 0 <= i < |sentences| ::
      if withChecksum then NmeaFraming.Printable(sentences[i]) else NmeaFraming.PlainSentence(sentences[i])
  }

  /** One byte strictly between '$' and '*' of the `k`-th sentence arrives as another byte `b`. */
  datatype Damage = Damage(k: nat, p: nat, b: Byte)

  predicate Damages(d: Damage, sentences: seq<NmeaFraming.Sentence>) {
    && d.k < |sentences| && 0 < d.p <= |NmeaFraming.Body(sentences[d.k])|
    && d.b != NmeaFraming.Print(sentences[d.k])[d.p] && d.b != DOLLAR
  }

  function Damaged(d: Damage, sentences: seq<NmeaFraming.Sentence>): (chunks: seq<Bytes>)
    requires Damages(d, sentences)
    ensures |chunks| == |sentences|
  {
    PrintAll(sentences)[d.k := NmeaFraming.Print(sentences[d.k])[d.p := d.b]]
  }

  ghost predicate IsDamagedStream(bytes: Bytes, garbage: Bytes, sentences: seq<NmeaFraming.Sentence>, d: Damage) {
    DOLLAR !in garbage && Damages(d, sentences) && bytes == garbage + Concat(Damaged(d, sentences))
  }

  /** All sentences but the damaged one are read. The damaged one is rejected if checksums are
      validated or the damage is a second '*'; otherwise it is accepted as if nothing had happened. */
  ghost predicate OnlyDamagedSuffers(data: seq<Data>, sentences: seq<NmeaFraming.Sentence>, d: Damage,
                                     settings: Settings, timestamp: int, c: Conversions)
  {
    && |data| == |sentences| && d.k < |data|
    && (forall i | 0 <= i < |data| && i != d.k :: IsDataOf(data[i], sentences[i], settings, timestamp, c))
    && (if d.b == STAR then IsRejected(data[d.k], settings, InvalidStructure)
        else if settings.withChecksum then IsRejected(data[d.k], settings, ChecksumMismatch)
        else forall fault :: !IsRejected(data[d.k], settings, fault))
  }

  lemma PrintedData(s: NmeaFraming.Sentence, settings: Settings, timestamp: int, c: Conversions)
    requires if settings.withChecksum then NmeaFraming.Printable(s) else NmeaFraming.PlainSentence(s)
    ensures |NmeaFraming.Print(s)| >= 2
    ensures IsDataOf(ResultOf(NmeaFraming.Print(s), settings, timestamp, c), s, settings, timestamp, c)
  {
    if settings.withChecksum {
      NmeaFraming.ReadInvertsPrint(s);
    } else {
      NmeaFraming.ReadInvertsPrintUnchecked(s);
    }
    InterpretationIs(Response(s.talkerId, s.sentenceId, s.fields), settings.sentences, timestamp, c);
  }

  lemma DamagedData(s: NmeaFraming.Sentence, p: nat, b: Byte, settings: Settings, timestamp: int, c: Conversions)
    requires NmeaFraming.Printable(s) && 0 < p <= |NmeaFraming.Body(s)| && b != NmeaFraming.Print(s)[p]
    ensures |NmeaFraming.Print(s)| >= 2
    ensures var data := ResultOf(NmeaFraming.Print(s)[p := b], settings, timestamp, c);
            if b == STAR then IsRejected(data, settings, InvalidStructure)
            else if settings.withChecksum then IsRejected(data, settings, ChecksumMismatch)
            else forall fault :: !IsRejected(data, settings, fault)
  {
    NmeaFraming.PrintableIsPlain(s);
    NmeaFraming.PrintedStar(s);
    NmeaFraming.PrintedIsValid(s);
    if settings.withChecksum {
      NmeaFraming.SubstitutionIsNoticed(NmeaFraming.Print(s), p, b);
    } else {
      NmeaFraming.PrintedHasStructure(s);
      NmeaFraming.SubstitutionIsUnnoticed(NmeaFraming.Print(s), p, b);
    }
  }

  lemma DamagedIsChunk(s: NmeaFraming.Sentence, p: nat, b: Byte)
    requires NmeaFraming.PlainSentence(s) && 0 < p <= |NmeaFraming.Body(s)| && b != DOLLAR
    ensures IsChunk(NmeaFraming.Print(s)[p := b])
  {
    PrintedIsChunk(s);
    assert NmeaFraming.Print(s)[p := b][1..] == NmeaFraming.Print(s)[1..][p - 1 := b];
  }

  /** Sentences are read, each as itself. */
  lemma StreamIsRead(bytes: Bytes, chunks: seq<Bytes>, data: seq<Data>, garbage: Bytes,
                     sentences: seq<NmeaFraming.Sentence>, settings: Settings, timestamp: int, c: Conversions)
    requires CutsAtDollars(bytes, chunks) && AreResultsOf(data, chunks, settings, timestamp, c)
    requires IsStream(bytes, garbage, sentences) && AreSent(sentences, settings.withChecksum)
    ensures |data| == |sentences|
    ensures forall i | 0 <= i < |data| :: IsDataOf(data[i], sentences[i], settings, timestamp, c)
  {
    forall i | 0 <= i < |sentences| ensures IsChunk(PrintAll(sentences)[i]) {
      if settings.withChecksum { NmeaFraming.PrintableIsPlain(sentences[i]); }
      PrintedIsChunk(sentences[i]);
    }
    ChunksAre(garbage, PrintAll(sentences), chunks);
    forall i | 0 <= i < |data| ensures IsDataOf(data[i], sentences[i], settings, timestamp, c) {
      assert IsResultOf(data[i], chunks[i], settings, timestamp, c);
      PrintedData(sentences[i], settings, timestamp, c);
    }
  }

  lemma DamagedChunks(sentences: seq<NmeaFraming.Sentence>, d: Damage)
    requires AreSent(sentences, true) && Damages(d, sentences)
    ensures forall i | 0 <= i < |sentences| :: IsChunk(Damaged(d, sentences)[i])
  {
    forall i | 0 <= i < |sentences| ensures IsChunk(Damaged(d, sentences)[i]) {
      NmeaFraming.PrintableIsPlain(sentences[i]);
      PrintedIsChunk(sentences[i]);
      if i == d.k {
        DamagedIsChunk(sentences[i], d.p, d.b);
      }
    }
  }

  /** Damage to one sentence concerns no other. */
  lemma DamageIsIsolated(bytes: Bytes, chunks: seq<Bytes>, data: seq<Data>, garbage: Bytes,
                         sentences: seq<NmeaFraming.Sentence>, d: Damage, settings: Settings, timestamp: int, c: Conversions)
    requires CutsAtDollars(bytes, chunks) && AreResultsOf(data, chunks, settings, timestamp, c)
    requires IsDamagedStream(bytes, garbage, sentences, d) && AreSent(sentences, true)
    ensures OnlyDamagedSuffers(data, sentences, d, settings, timestamp, c)
  {
    DamagedChunks(sentences, d);
    ChunksAre(garbage, Damaged(d, sentences), chunks);
    assert IsResultOf(data[d.k], chunks[d.k], settings, timestamp, c);
    DamagedData(sentences[d.k], d.p, d.b, settings, timestamp, c);
    forall i | 0 <= i < |data| && i != d.k ensures IsDataOf(data[i], sentences[i], settings, timestamp, c) {
      assert IsResultOf(data[i], chunks[i], settings, timestamp, c);
      NmeaFraming.PrintableIsPlain(sentences[i]);
      PrintedData(sentences[i], settings, timestamp, c);
    }
  }

  /** `receive`: silence gives nothing and a broken connection one error; otherwise every chunk of
      the stream gives one result, in order, that depends on that chunk only. In a stream of
      sentences each is read as itself, and damage to one byte of one of them concerns that
      sentence only, which is rejected iff checksums are validated or the damage is a '*'. */
  method Receive(settings: Settings, incoming: Incoming, c: Conversions) returns (data: seq<Data>)
    requires incoming.Received? ==> NoBareDollar(incoming.bytes)
    ensures forall d | d in data :: d.deviceName == settings.name && (d.error.Some? ==> d.fields == [])
    ensures incoming.Timeout? ==> data == []
    ensures incoming.Broken? ==> data == [Data(settings.name, [], Some(OsError(incoming.what)), None)]
    ensures incoming.Received? && DOLLAR !in incoming.bytes ==>
              data == [Data(settings.name, [], Some(NmeaError(Unidentifiable)), None)]
    ensures incoming.Received? && DOLLAR in incoming.bytes ==>
              exists chunks :: CutsAtDollars(incoming.bytes, chunks)
                               && AreResultsOf(data, chunks, settings, incoming.timestamp, c)
                               && UnsoundAreRejected(data, chunks, settings)
    ensures incoming.Received? ==>
              forall garbage, sentences |
                IsStream(incoming.bytes, garbage, sentences) && AreSent(sentences, settings.withChecksum) ::
                  && |data| == |sentences|
                  && forall i | 0 <= i < |data| :: IsDataOf(data[i], sentences[i], settings, incoming.timestamp, c)
    ensures incoming.Received? ==>
              forall garbage, sentences, damage |
                IsDamagedStream(incoming.bytes, garbage, sentences, damage) && AreSent(sentences, true) ::
                  OnlyDamagedSuffers(data, sentences, damage, settings, incoming.timestamp, c)
  {
    match incoming {
      case Timeout =>
        data := [];
      case Broken(what) =>
        data := [Data(settings.name, [], Some(OsError(what)), None)];
      case Received(bytes, timestamp) =>
        var chunks := Split(bytes);
        ChunksOfStream(bytes, chunks);
        if chunks == [] {
          data := [Data(settings.name, [], Some(NmeaError(Unidentifiable)), None)];
          StreamsHaveDollars(bytes);
        } else {
          data := ReadChunks(chunks, settings, timestamp, c);
          assert forall k | 0 <= k < |chunks| :: IsResultOf(data[k], chunks[k], settings, timestamp, c);
          RejectedIffUnsound(data, chunks, settings, timestamp, c);
          SentencesAreRead(bytes, chunks, data, settings, timestamp, c);
        }
    }
  }

  lemma SentencesAreRead(bytes: Bytes, chunks: seq<Bytes>, data: seq<Data>, settings: Settings, timestamp: int, c: Conversions)
    requires CutsAtDollars(bytes, chunks) && AreResultsOf(data, chunks, settings, timestamp, c)
    ensures forall garbage, sentences | IsStream(bytes, garbage, sentences) && AreSent(sentences, settings.withChecksum) ::
              |data| == |sentences| && forall i | 0 <= i < |data| :: IsDataOf(data[i], sentences[i], settings, timestamp, c)
    ensures forall garbage, sentences, damage |
              IsDamagedStream(bytes, garbage, sentences, damage) && AreSent(sentences, true) ::
                OnlyDamagedSuffers(data, sentences, damage, settings, timestamp, c)
  {
    forall garbage, sentences | IsStream(bytes, garbage, sentences) && AreSent(sentences, settings.withChecksum)
      ensures |data| == |sentences| && forall i | 0 <= i < |data| :: IsDataOf(data[i], sentences[i], settings, timestamp, c)
    {
      StreamIsRead(bytes, chunks, data, garbage, sentences, settings, timestamp, c);
    }
    forall garbage, sentences, damage | IsDamagedStream(bytes, garbage, sentences, damage) && AreSent(sentences, true)
      ensures OnlyDamagedSuffers(data, sentences, damage, settings, timestamp, c)
    {
      DamageIsIsolated(bytes, chunks, data, garbage, sentences, damage, settings, timestamp, c);
    }
  }

  lemma StreamHasDollar(bytes: Bytes, garbage: Bytes, sentences: seq<NmeaFraming.Sentence>, withChecksum: bool)
    requires IsStream(bytes, garbage, sentences) && AreSent(sentences, withChecksum)
    ensures DOLLAR in bytes
  {
    forall i | 0 <= i < |sentences| ensures IsChunk(PrintAll(sentences)[i]) {
      if withChecksum { NmeaFraming.PrintableIsPlain(sentences[i]); }
      PrintedIsChunk(sentences[i]);
    }
    DollarsInCut(garbage, PrintAll(sentences));
  }

  lemma DamagedStreamHasDollar(bytes: Bytes, garbage: Bytes, sentences: seq<NmeaFraming.Sentence>, damage: Damage)
    requires IsDamagedStream(bytes, garbage, sentences, damage) && AreSent(sentences, true)
    ensures DOLLAR in bytes
  {
    DamagedChunks(sentences, damage);
    DollarsInCut(garbage, Damaged(damage, sentences));
  }

  lemma StreamsHaveDollars(bytes: Bytes)
    requires DOLLAR !in bytes
    ensures forall garbage, sentences, withChecksum ::
              !(IsStream(bytes, garbage, sentences) && AreSent(sentences, withChecksum))
    ensures forall garbage, sentences, damage ::
              !(IsDamagedStream(bytes, garbage, sentences, damage) && AreSent(sentences, true))
  {
    forall garbage, sentences, withChecksum | IsStream(bytes, garbage, sentences) && AreSent(sentences, withChecksum)
      ensures false
    {
      StreamHasDollar(bytes, garbage, sentences, withChecksum);
    }
    forall garbage, sentences, damage | IsDamagedStream(bytes, garbage, sentences, damage) && AreSent(sentences, true)
      ensures false
    {
      DamagedStreamHasDollar(bytes, garbage, sentences, damage);
    }
  }

  lemma ChunksOfStream(bytes: Bytes, chunks: seq<Bytes>)
    requires NoBareDollar(bytes) && CutsAtDollars(bytes, chunks)
    ensures chunks == [] <==> DOLLAR !in bytes
    ensures forall k | 0 <= k < |chunks| :: |chunks[k]| >= 2
  {
    var garbage :| Cut(bytes, garbage, chunks);
    DollarsInCut(garbage, chunks);
    forall k | 0 <= k < |chunks| ensures |chunks[k]| >= 2 {
      ChunksAreLong(bytes, garbage, chunks, k);
    }
  }
}
