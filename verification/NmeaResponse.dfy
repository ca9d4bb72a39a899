/** One NMEA sentence, taken apart: `communication/nmea/Response.cpp`. */
module NmeaResponse {
  import opened Lists

  type Byte = bv8
  type Bytes = seq<Byte>

  const DOLLAR: Byte := 36
  const STAR: Byte := 42
  const COMMA: Byte := 44
  const CR: Byte := 13
  const LF: Byte := 10
  const LETTER_P: Byte := 80

  datatype Response = Response(talkerId: Bytes, sentenceId: Bytes, fields: seq<Bytes>)

  datatype ResponseError = InvalidStructure | NoChecksum | ChecksumMismatch

  // ---------- std::string ----------

  /** `find`, with the length standing for `npos`. */
  function Find(s: Bytes, c: Byte): (p: nat)
    ensures p <= |s| && c !in s[..p] && (p < |s| ==> s[p] == c)
    ensures p == |s| <==> c !in s
  {
    if s == [] then 0
    else if s[0] == c then 0
    else
      var p := Find(s[1..], c);
      assert s[..1 + p] == [s[0]] + s[1..][..p];
      assert s == [s[0]] + s[1..];
      1 + p
  }

  function CountOf(s: Bytes, c: Byte): nat {
    if s == [] then 0 else CountOf(s[..|s| - 1], c) + (if s[|s| - 1] == c then 1 else 0)
  }

  /** `substr`. */
  function Substring(s: Bytes, begin: nat, count: nat): Bytes
    requires begin <= |s|
  {
    s[begin..Min(begin + count, |s|)]
  }

  lemma {:induction false} FindIs(s: Bytes, c: Byte, p: nat)
    requires p <= |s| && c !in s[..p] && (p < |s| ==> s[p] == c)
    ensures Find(s, c) == p
  {
    if p > 0 {
      assert s[..p][0] == s[0] && s[..p][1..] == s[1..][..p - 1];
      FindIs(s[1..], c, p - 1);
    }
  }

  lemma {:induction false} CountSplit(s: Bytes, t: Bytes, c: Byte)
    ensures CountOf(s + t, c) == CountOf(s, c) + CountOf(t, c)
  {
    if t == [] {
      assert s + t == s;
    } else {
      var n := |t| - 1;
      CountSplit(s, t[..n], c);
      assert (s + t)[..|s| + n] == s + t[..n];
    }
  }

  lemma {:induction false} CountAbsent(s: Bytes, c: Byte)
    ensures c !in s <==> CountOf(s, c) == 0
  {
    if s != [] {
      CountAbsent(s[..|s| - 1], c);
      assert s == s[..|s| - 1] + [s[|s| - 1]];
    }
  }

  // ---------- Checksum ----------

  function Xor(s: Bytes): Byte {
    if s == [] then 0 else Xor(s[..|s| - 1]) ^ s[|s| - 1]
  }

  /** `computeChecksum`: the exclusive or of everything between '$' and '*'. */
  method ComputeChecksum(data: Bytes) returns (checksum: Byte)
    requires 1 <= Find(data, STAR) < |data|
    ensures checksum == Xor(data[1..Find(data, STAR)])
  {
    var begin, end := 1, Find(data, STAR);
    var body := data[begin..end];
    checksum := 0;
    for i := 0 to |body|
      invariant checksum == Xor(body[..i])
    {
      assert body[..i + 1][..i] == body[..i];
      checksum := checksum ^ body[i];
    }
    assert body[..|body|] == body;
  }

  /** How many of the bytes have the bit set. */
  ghost function CountWithBit(s: Bytes, bit: Byte): nat {
    if s == [] then 0 else CountWithBit(s[..|s| - 1], bit) + if s[|s| - 1] & bit != 0 then 1 else 0
  }

  lemma BitOfXor(x: Byte, y: Byte, bit: Byte)
    requires bit in {1, 2, 4, 8, 16, 32, 64, 128}
    ensures (x ^ y) & bit != 0 <==> (x & bit != 0) != (y & bit != 0)
  {
  }

  /** A bit of the exclusive or is set iff an odd number of the bytes have it set. */
  lemma {:induction false} XorIsParity(s: Bytes, bit: Byte)
    requires bit in {1, 2, 4, 8, 16, 32, 64, 128}
    ensures Xor(s) & bit != 0 <==> CountWithBit(s, bit) % 2 == 1
  {
    if s != [] {
      XorIsParity(s[..|s| - 1], bit);
      BitOfXor(Xor(s[..|s| - 1]), s[|s| - 1], bit);
    }
  }

  /** What `stream >> std::hex >> integer` reads from at most two characters. */
  datatype HexInt = HexInt(negative: bool, magnitude: Byte)

  predicate IsSpace(c: Byte) {
    c == 32 || 9 <= c <= 13
  }

  predicate IsHexDigit(c: Byte) {
    48 <= c <= 57 || 65 <= c <= 70 || 97 <= c <= 102
  }

  function DigitValue(c: Byte): Byte
    requires IsHexDigit(c)
  {
    if c <= 57 then c - 48 else if c <= 70 then c - 55 else c - 87
  }

  function HexDigits(s: Bytes): Byte {
    if s == [] || !IsHexDigit(s[0]) then 0
    else if |s| == 1 || !IsHexDigit(s[1]) then DigitValue(s[0])
    else 16 * DigitValue(s[0]) + DigitValue(s[1])
  }

  function ReadHex(s: Bytes): HexInt
    requires |s| <= 2
  {
    if s == [] then HexInt(false, 0)
    else if IsSpace(s[0]) then ReadHex(s[1..])
    else if s[0] == 43 then HexInt(false, HexDigits(s[1..]))
    else if s[0] == 45 then HexInt(true, HexDigits(s[1..]))
    else HexInt(false, HexDigits(s))
  }

  predicate SameNumber(checksum: Byte, received: HexInt) {
    checksum == received.magnitude && (received.negative ==> received.magnitude == 0)
  }

  function ReceivedChecksum(data: Bytes): HexInt
    requires STAR in data
  {
    ReadHex(Substring(data, Find(data, STAR) + 1, 2))
  }

  /** `checksum`. */
  method ChecksumMatches(data: Bytes) returns (matches: bool)
    requires 1 <= Find(data, STAR) < |data|
    ensures matches <==> SameNumber(Xor(data[1..Find(data, STAR)]), ReceivedChecksum(data))
  {
    var checksum := ComputeChecksum(data);
    var begin := Find(data, STAR) + 1;
    var received := ReadHex(Substring(data, begin, 2));
    matches := SameNumber(checksum, received);
  }

  // ---------- Validation ----------

  predicate HasStructure(data: Bytes)
    requires |data| >= 2
  {
    CountOf(data, STAR) <= 1 && data[0] == DOLLAR && data[|data| - 2] == CR && data[|data| - 1] == LF
  }

  lemma StarAfterDollar(data: Bytes)
    requires |data| >= 2 && HasStructure(data)
    ensures Find(data, STAR) >= 1
  {
  }

  function Fault(data: Bytes, validateChecksum: bool): Option<ResponseError>
    requires |data| >= 2
  {
    if !HasStructure(data) then Some(InvalidStructure)
    else if !validateChecksum then None
    else if STAR !in data then Some(NoChecksum)
    else if !SameNumber(Xor(data[1..Find(data, STAR)]), ReceivedChecksum(data)) then Some(ChecksumMismatch)
    else None
  }

  /** No character comes twice. */
  ghost predicate AtMostOne(s: Bytes, c: Byte) {
    forall i, j | 0 <= i < j < |s| :: !(s[i] == c && s[j] == c)
  }

  lemma {:induction false} CountAtMostOne(s: Bytes, c: Byte)
    ensures CountOf(s, c) <= 1 <==> AtMostOne(s, c)
  {
    if s != [] {
      var n := |s| - 1;
      CountAtMostOne(s[..n], c);
      CountAbsent(s[..n], c);
      if s[n] == c && c in s[..n] {
        var i :| 0 <= i < n && s[..n][i] == c;
        assert s[i] == c && s[n] == c;
      }
      forall i, j | AtMostOne(s, c) && 0 <= i < j < n ensures !(s[..n][i] == c && s[..n][j] == c) {
        assert s[i] == s[..n][i] && s[j] == s[..n][j];
      }
      forall i, j | AtMostOne(s[..n], c) && (s[n] == c ==> c !in s[..n]) && 0 <= i < j < |s|
        ensures !(s[i] == c && s[j] == c)
      {
        assert s[i] == s[..n][i] && (j < n ==> s[j] == s[..n][j]);
      }
    }
  }

  /** The message starts with '$', ends in CRLF and has no second '*'. */
  ghost predicate IsFramed(data: Bytes) {
    && |data| >= 2 && data[0] == DOLLAR && data[|data| - 2] == CR && data[|data| - 1] == LF
    && AtMostOne(data, STAR)
  }

  /** The number after the '*' is the exclusive or of what is between '$' and '*'. */
  ghost predicate HasRightChecksum(data: Bytes) {
    exists star | 1 <= star < |data| && data[star] == STAR ::
      SameNumber(Xor(data[1..star]), ReadHex(Substring(data, star + 1, 2)))
  }

  lemma FaultIs(data: Bytes, validateChecksum: bool)
    requires |data| >= 2
    ensures Fault(data, validateChecksum)
            == if !IsFramed(data) then Some(InvalidStructure)
               else if !validateChecksum || HasRightChecksum(data) then None
               else if STAR !in data then Some(NoChecksum)
               else Some(ChecksumMismatch)
  {
    CountAtMostOne(data, STAR);
    var star := Find(data, STAR);
    if IsFramed(data) && star < |data| {
      assert forall other | 0 <= other < |data| && data[other] == STAR :: other == star;
    }
  }

  /** `validate`: without validation of the checksum every framed message is accepted; with it, iff
      it has the right checksum. */
  method Validate(data: Bytes, validateChecksum: bool) returns (fault: Option<ResponseError>)
    requires |data| >= 2
    ensures fault == Fault(data, validateChecksum)
    ensures fault == Some(InvalidStructure) <==> !IsFramed(data)
    ensures fault == None <==> IsFramed(data) && (validateChecksum ==> HasRightChecksum(data))
    ensures fault == Some(NoChecksum) <==> IsFramed(data) && validateChecksum && STAR !in data
  {
    FaultIs(data, validateChecksum);
    if CountOf(data, STAR) > 1 || data[0] != DOLLAR || data[|data| - 2] != CR || data[|data| - 1] != LF {
      return Some(InvalidStructure);
    }
    if validateChecksum {
      if Find(data, STAR) == |data| {
        return Some(NoChecksum);
      }
      StarAfterDollar(data);
      var matches := ChecksumMatches(data);
      if !matches {
        return Some(ChecksumMismatch);
      }
    }
    return None;
  }

  // ---------- Tokens ----------

  /** `std::getline` with ',' until the stream is exhausted. */
  function Tokens(s: Bytes): (tokens: seq<Bytes>)
    ensures s != [] ==> tokens != []
  {
    if s == [] then []
    else
      var p := Find(s, COMMA);
      if p == |s| then [s] else [s[..p]] + Tokens(s[p + 1..])
  }

  function WithoutTail(token: Bytes): Bytes {
    var p := Find(token, STAR);
    if p < |token| then token[..p] else if |token| >= 2 then token[..|token| - 2] else token
  }

  /** `cleanBack`: keeps what comes before a '*'; without one, drops the last two bytes. */
  method CleanBack(token: Bytes) returns (cleaned: Bytes)
    ensures cleaned <= token && STAR !in cleaned
    ensures STAR in token ==> |cleaned| < |token| && token[|cleaned|] == STAR
    ensures STAR !in token ==> |cleaned| == if |token| < 2 then |token| else |token| - 2
  {
    var delimiterPosition := Find(token, STAR);
    if delimiterPosition != |token| {
      cleaned := Substring(token, 0, delimiterPosition);
    } else if |token| < 2 {
      // `size() - 2` wraps around and `substr` stops at the end.
      cleaned := token;
    } else {
      cleaned := Substring(token, 0, |token| - 2);
    }
  }

  /** Only one text is cleaned in that sense. */
  lemma CleanedIsUnique(token: Bytes, cleaned: Bytes)
    requires cleaned <= token && STAR !in cleaned
    requires STAR in token ==> |cleaned| < |token| && token[|cleaned|] == STAR
    requires STAR !in token ==> |cleaned| == if |token| < 2 then |token| else |token| - 2
    ensures cleaned == WithoutTail(token)
  {
    if STAR in token {
      FindIs(token, STAR, |cleaned|);
    }
  }

  function ExtractTalkerId(token: Bytes): Bytes
    requires token != []
  {
    if |token| > 1 && token[1] == LETTER_P then Substring(token, 1, 4) else Substring(token, 1, 2)
  }

  function ExtractSentenceId(token: Bytes, talkerId: Bytes): Bytes
    requires |talkerId| + 1 <= |token|
  {
    token[|talkerId| + 1..]
  }

  function CleanTokens(data: Bytes): (tokens: seq<Bytes>)
    requires data != []
    ensures tokens != []
  {
    var tokens := Tokens(data);
    tokens[|tokens| - 1 := WithoutTail(tokens[|tokens| - 1])]
  }

  lemma FirstTokenStaysNonempty(data: Bytes)
    requires |data| >= 2 && HasStructure(data)
    ensures CleanTokens(data)[0] != [] && CleanTokens(data)[0][0] == DOLLAR
  {
    var p := Find(data, COMMA);
    if p == |data| {
      assert Tokens(data) == [data];
      assert |data| != 2;
    } else {
      assert p > 0;
      assert Tokens(data)[0] == data[..p];
      assert p + 1 < |data|;
      assert Tokens(data[p + 1..]) != [];
    }
  }

  function Parsed(data: Bytes, validateChecksum: bool): Result<Response, ResponseError>
    requires |data| >= 2
  {
    var fault := Fault(data, validateChecksum);
    if fault.Some? then Failure(fault.value)
    else
      FirstTokenStaysNonempty(data);
      var tokens := CleanTokens(data);
      var talkerId := ExtractTalkerId(tokens[0]);
      Success(Response(talkerId, ExtractSentenceId(tokens[0], talkerId), tokens[1..]))
  }

  lemma TokensAtComma(s: Bytes)
    requires COMMA in s
    ensures Tokens(s) == [s[..Find(s, COMMA)]] + Tokens(s[Find(s, COMMA) + 1..])
  {
  }

  lemma TokensOfSingle(s: Bytes)
    requires s != [] && COMMA !in s
    ensures Tokens(s) == [s] && s[..Find(s, COMMA)] == s
  {
  }

  lemma TokensUnfold(s: Bytes, rest: Bytes)
    requires s != []
    requires var p := Find(s, COMMA); rest == if p < |s| then s[p + 1..] else []
    ensures Tokens(s) == [s[..Find(s, COMMA)]] + Tokens(rest)
  {
    if COMMA in s {
      TokensAtComma(s);
    } else {
      TokensOfSingle(s);
      ConcatNothing([s]);
    }
  }

  /** The tokenizing loop of the constructor, over what is left in the stream. */
  method Tokenize(data: Bytes) returns (tokens: seq<Bytes>)
    ensures tokens == Tokens(data)
  {
    tokens := [];
    var rest := data;
    ConcatNothing(Tokens(data));
    while rest != []
      invariant tokens + Tokens(rest) == Tokens(data)
      decreases |rest|
    {
      var end := Find(rest, COMMA);
      var token, next := rest[..end], if end < |rest| then rest[end + 1..] else [];
      TokensUnfold(rest, next);
      ConcatAssociates(tokens, [token], Tokens(next));
      tokens := tokens + [token];
      rest := next;
    }
    ConcatNothing(tokens);
  }

  /** The constructor. */
  method NewResponse(data: Bytes, validateChecksum: bool) returns (r: Result<Response, ResponseError>)
    requires |data| >= 2
    ensures r == Parsed(data, validateChecksum)
  {
    var fault := Validate(data, validateChecksum);
    if fault.Some? {
      return Failure(fault.value);
    }
    var tokens := Tokenize(data);
    FirstTokenStaysNonempty(data);
    var back := CleanBack(tokens[|tokens| - 1]);
    CleanedIsUnique(tokens[|tokens| - 1], back);
    tokens := tokens[|tokens| - 1 := back];
    var talkerId := ExtractTalkerId(tokens[0]);
    return Success(Response(talkerId, ExtractSentenceId(tokens[0], talkerId), tokens[1..]));
  }
}
