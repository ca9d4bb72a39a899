/** The NMEA reader against a printer: what is printed is read back, nothing that is read is
    lost, and a damaged byte is noticed. */
module NmeaFraming {
  import opened Lists
  import opened NmeaResponse

  /** A sentence to be sent: its checksum is the two characters that follow '*'. */
  datatype Sentence = Sentence(talkerId: Bytes, sentenceId: Bytes, fields: seq<Bytes>, checksum: Bytes)

  function FieldsText(fields: seq<Bytes>): Bytes {
    if fields == [] then [] else [COMMA] + fields[0] + FieldsText(fields[1..])
  }

  function Body(s: Sentence): Bytes {
    s.talkerId + s.sentenceId + FieldsText(s.fields)
  }

  function Tail(s: Sentence): Bytes {
    [STAR] + s.checksum + [CR, LF]
  }

  function Print(s: Sentence): Bytes {
    [DOLLAR] + Body(s) + Tail(s)
  }

  predicate Plain(text: Bytes) {
    DOLLAR !in text && COMMA !in text && STAR !in text
  }

  /** Two characters, or 'P' and three more for proprietary sentences. */
  predicate IsTalkerId(talkerId: Bytes) {
    if |talkerId| == 2 then talkerId[0] != LETTER_P else |talkerId| == 4 && talkerId[0] == LETTER_P
  }

  /** All parts are plain text, whatever the checksum. */
  predicate PlainSentence(s: Sentence) {
    && IsTalkerId(s.talkerId) && Plain(s.talkerId) && Plain(s.sentenceId)
    && (forall i | 0 <= i < |s.fields| :: Plain(s.fields[i])) && Plain(s.checksum)
  }

  /** The checksum is the right one, in hexadecimal digits. */
  predicate Printable(s: Sentence) {
    && IsTalkerId(s.talkerId) && Plain(s.talkerId) && Plain(s.sentenceId)
    && (forall i | 0 <= i < |s.fields| :: Plain(s.fields[i]))
    && |s.checksum| == 2 && IsHexDigit(s.checksum[0]) && IsHexDigit(s.checksum[1])
    && HexDigits(s.checksum) == Xor(Body(s))
  }

  /** The usual two upper-case digits of a checksum. */
  function HexText(b: Byte): (text: Bytes)
    ensures |text| == 2 && IsHexDigit(text[0]) && IsHexDigit(text[1])
  {
    [HexDigit(b >> 4), HexDigit(b & 15)]
  }

  function HexDigit(nibble: Byte): (c: Byte)
    ensures nibble < 16 ==> IsHexDigit(c) && DigitValue(c) == nibble
  {
    if nibble < 10 then nibble + 48 else if nibble < 16 then nibble + 55 else 48
  }

  /** Two printed digits are read as the number they stand for, so every sentence of plain parts
      has a checksum that makes it printable. */
  lemma HexRoundTrip(talkerId: Bytes, sentenceId: Bytes, fields: seq<Bytes>)
    requires IsTalkerId(talkerId) && Plain(talkerId) && Plain(sentenceId)
    requires forall i | 0 <= i < |fields| :: Plain(fields[i])
    ensures forall b: Byte :: HexDigits(HexText(b)) == b
    ensures var body := Body(Sentence(talkerId, sentenceId, fields, []));
            Printable(Sentence(talkerId, sentenceId, fields, HexText(Xor(body))))
  {
    forall b: Byte ensures HexDigits(HexText(b)) == b {
      Nibbles(b);
    }
    var body := Body(Sentence(talkerId, sentenceId, fields, []));
    assert Body(Sentence(talkerId, sentenceId, fields, HexText(Xor(body)))) == body;
  }

  /** Lower-case digits are read like upper-case ones. */
  lemma HexCase(high: Byte, low: Byte)
    requires IsHexDigit(high) && IsHexDigit(low)
    ensures HexDigits([high, low]) == HexDigits([LowerCase(high), LowerCase(low)])
  {
  }

  function LowerCase(c: Byte): Byte {
    if 65 <= c <= 90 then c + 32 else c
  }

  lemma Nibbles(b: Byte)
    ensures b >> 4 < 16 && b & 15 < 16 && 16 * (b >> 4) + (b & 15) == b
  {
  }

  // ---------- Reading what was printed ----------

  lemma {:induction false} FieldsTextPlain(fields: seq<Bytes>)
    requires forall i | 0 <= i < |fields| :: Plain(fields[i])
    ensures DOLLAR !in FieldsText(fields) && STAR !in FieldsText(fields)
  {
    if fields != [] {
      FieldsTextPlain(fields[1..]);
    }
  }

  lemma TokensCons(head: Bytes, rest: Bytes)
    requires COMMA !in head
    ensures Tokens(head + ([COMMA] + rest)) == [head] + Tokens(rest)
  {
    var text := head + ([COMMA] + rest);
    assert text[..|head|] == head;
    FindIs(text, COMMA, |head|);
    assert text[|head| + 1..] == rest;
  }

  /** `tokens` with `tail` stuck to the last of them. */
  function AppendToLast(tokens: seq<Bytes>, tail: Bytes): (r: seq<Bytes>)
    requires tokens != []
    ensures |r| == |tokens| && r[|r| - 1] == tokens[|r| - 1] + tail
    ensures forall i | 0 <= i < |r| - 1 :: r[i] == tokens[i]
  {
    if |tokens| == 1 then [tokens[0] + tail] else [tokens[0]] + AppendToLast(tokens[1..], tail)
  }

  function Joined(tokens: seq<Bytes>): Bytes
    requires tokens != []
  {
    tokens[0] + FieldsText(tokens[1..])
  }

  lemma JoinedCons(head: Bytes, tokens: seq<Bytes>)
    requires tokens != []
    ensures Joined([head] + tokens) == head + ([COMMA] + Joined(tokens))
  {
    assert ([head] + tokens)[1..] == tokens;
    assert [COMMA] + tokens[0] + FieldsText(tokens[1..]) == [COMMA] + (tokens[0] + FieldsText(tokens[1..]));
  }

  lemma {:induction false} JoinedLast(tokens: seq<Bytes>, tail: Bytes)
    requires tokens != []
    ensures Joined(AppendToLast(tokens, tail)) == Joined(tokens) + tail
  {
    if |tokens| == 1 {
      assert AppendToLast(tokens, tail)[1..] == [] == tokens[1..];
    } else {
      var rest := tokens[1..];
      JoinedLast(rest, tail);
      JoinedCons(tokens[0], rest);
      JoinedCons(tokens[0], AppendToLast(rest, tail));
      assert tokens == [tokens[0]] + rest;
      JoinedAssociates(tokens[0], Joined(rest), tail);
    }
  }

  lemma JoinedAssociates(head: Bytes, middle: Bytes, tail: Bytes)
    ensures head + ([COMMA] + (middle + tail)) == (head + ([COMMA] + middle)) + tail
  {
  }

  lemma JoinedOne(token: Bytes, tail: Bytes)
    ensures Joined([token]) == token && AppendToLast([token], tail) == [token + tail]
  {
    assert [token][1..] == [];
    ConcatNothing(token);
  }

  /** Splitting at commas recovers what was joined; the tail stays on the last token. */
  lemma {:induction false} TokensOfJoined(tokens: seq<Bytes>, tail: Bytes)
    requires tokens != [] && tail != [] && COMMA !in tail
    requires forall i | 0 <= i < |tokens| :: COMMA !in tokens[i]
    ensures Tokens(Joined(tokens) + tail) == AppendToLast(tokens, tail)
    decreases |tokens|
  {
    if |tokens| == 1 {
      assert tokens == [tokens[0]];
      JoinedOne(tokens[0], tail);
      TokensOfSingle(tokens[0] + tail);
    } else {
      TokensOfJoined(tokens[1..], tail);
      OneMoreToken(tokens[0], tokens[1..], tail);
      assert tokens == [tokens[0]] + tokens[1..];
    }
  }

  lemma OneMoreToken(head: Bytes, rest: seq<Bytes>, tail: Bytes)
    requires COMMA !in head && rest != [] && Tokens(Joined(rest) + tail) == AppendToLast(rest, tail)
    ensures Tokens(Joined([head] + rest) + tail) == AppendToLast([head] + rest, tail)
  {
    JoinedCons(head, rest);
    JoinedAssociates(head, Joined(rest), tail);
    TokensCons(head, Joined(rest) + tail);
    DropFirst(head, rest);
  }

  lemma PrintedStar(s: Sentence)
    requires PlainSentence(s)
    ensures Find(Print(s), STAR) == 1 + |Body(s)|
    ensures STAR !in [DOLLAR] + Body(s)
  {
    FieldsTextPlain(s.fields);
    var text, front := Print(s), [DOLLAR] + Body(s);
    assert text[..|front|] == front;
    FindIs(text, STAR, |front|);
  }

  lemma OneStar(front: Bytes, checksum: Bytes)
    requires STAR !in front && STAR !in checksum
    ensures CountOf(front + ([STAR] + checksum + [CR, LF]), STAR) == 1
  {
    var back := checksum + [CR, LF];
    CountSplit(front, [STAR] + back, STAR);
    CountAbsent(front, STAR);
    CountSplit([STAR], back, STAR);
    CountAbsent(back, STAR);
    CountOne(STAR, STAR);
    assert [STAR] + checksum + [CR, LF] == [STAR] + back;
  }

  lemma PrintedParts(s: Sentence)
    ensures Print(s)[1..1 + |Body(s)|] == Body(s)
    ensures |s.checksum| == 2 ==> Substring(Print(s), 2 + |Body(s)|, 2) == s.checksum
    ensures Print(s)[0] == DOLLAR && Print(s)[|Print(s)| - 2] == CR && Print(s)[|Print(s)| - 1] == LF
  {
  }

  lemma HexDigitsAreRead(s: Bytes)
    requires |s| == 2 && IsHexDigit(s[0]) && IsHexDigit(s[1])
    ensures ReadHex(s) == HexInt(false, HexDigits(s)) && Plain(s)
  {
  }

  lemma PrintableIsPlain(s: Sentence)
    requires Printable(s)
    ensures PlainSentence(s)
  {
    HexDigitsAreRead(s.checksum);
  }

  lemma PrintedHasStructure(s: Sentence)
    requires PlainSentence(s)
    ensures HasStructure(Print(s))
  {
    PrintedStar(s);
    PrintedParts(s);
    OneStar([DOLLAR] + Body(s), s.checksum);
  }

  lemma PrintedIsValid(s: Sentence)
    requires Printable(s)
    ensures Fault(Print(s), true) == None
  {
    PrintableIsPlain(s);
    PrintedStar(s);
    PrintedParts(s);
    HexDigitsAreRead(s.checksum);
    PrintedHasStructure(s);
    FaultOf(Print(s), 1 + |Body(s)|);
  }

  lemma HeadParts(talkerId: Bytes, sentenceId: Bytes)
    requires IsTalkerId(talkerId)
    ensures var head := [DOLLAR] + talkerId + sentenceId;
            ExtractTalkerId(head) == talkerId && ExtractSentenceId(head, talkerId) == sentenceId
  {
    var head := [DOLLAR] + talkerId + sentenceId;
    assert head[1..1 + |talkerId|] == talkerId;
    assert head[1] == talkerId[0];
  }

  lemma TailIsCleaned(token: Bytes, rest: Bytes)
    requires STAR !in token
    ensures WithoutTail(token + ([STAR] + rest)) == token
  {
    var text := token + ([STAR] + rest);
    assert text[..|token|] == token;
    FindIs(text, STAR, |token|);
  }

  lemma PrintedIsJoined(s: Sentence)
    ensures Print(s) == Joined([[DOLLAR] + s.talkerId + s.sentenceId] + s.fields) + Tail(s)
  {
    var head := [DOLLAR] + s.talkerId + s.sentenceId;
    DropFirst(head, s.fields);
    assert [DOLLAR] + Body(s) == head + FieldsText(s.fields);
  }

  /** Cleaning the last token takes the tail off again. */
  lemma AppendedIsCleaned(tokens: seq<Bytes>, rest: Bytes)
    requires tokens != [] && STAR !in tokens[|tokens| - 1]
    ensures var appended, last := AppendToLast(tokens, [STAR] + rest), |tokens| - 1;
            appended[last := WithoutTail(appended[last])] == tokens
  {
    TailIsCleaned(tokens[|tokens| - 1], rest);
  }

  lemma PrintedPartsArePlain(s: Sentence)
    requires PlainSentence(s)
    ensures var all := [[DOLLAR] + s.talkerId + s.sentenceId] + s.fields;
            forall i | 0 <= i < |all| :: COMMA !in all[i] && STAR !in all[i]
    ensures COMMA !in Tail(s)
  {
    var all := [[DOLLAR] + s.talkerId + s.sentenceId] + s.fields;
    forall i | 0 <= i < |all| ensures COMMA !in all[i] && STAR !in all[i] {
      assert i > 0 ==> Plain(s.fields[i - 1]);
    }
  }

  lemma PrintedTokens(s: Sentence)
    requires PlainSentence(s)
    ensures CleanTokens(Print(s)) == [[DOLLAR] + s.talkerId + s.sentenceId] + s.fields
  {
    var all := [[DOLLAR] + s.talkerId + s.sentenceId] + s.fields;
    PrintedIsJoined(s);
    PrintedPartsArePlain(s);
    TokensOfJoined(all, Tail(s));
    var rest := s.checksum + [CR, LF];
    ConcatAssociates([STAR], s.checksum, [CR, LF]);
    AppendedIsCleaned(all, rest);
  }

  /** Reading a printed sentence, with checksum validation on, recovers its talker, its id and
      all its fields. */
  lemma ReadInvertsPrint(s: Sentence)
    requires Printable(s)
    ensures Parsed(Print(s), true) == Success(Response(s.talkerId, s.sentenceId, s.fields))
  {
    PrintableIsPlain(s);
    PrintedIsValid(s);
    PrintedTokens(s);
    HeadParts(s.talkerId, s.sentenceId);
  }

  /** Without checksum validation the same holds whatever stands where the checksum should be. */
  lemma ReadInvertsPrintUnchecked(s: Sentence)
    requires PlainSentence(s)
    ensures Parsed(Print(s), false) == Success(Response(s.talkerId, s.sentenceId, s.fields))
  {
    PrintedHasStructure(s);
    PrintedTokens(s);
    HeadParts(s.talkerId, s.sentenceId);
  }

  // ---------- Nothing is lost ----------

  lemma {:induction false} JoinTokens(s: Bytes)
    requires s != [] && s[|s| - 1] != COMMA
    ensures Joined(Tokens(s)) == s
  {
    var p := Find(s, COMMA);
    if p == |s| {
      TokensOfSingle(s);
      JoinedOne(s, []);
    } else {
      var rest := s[p + 1..];
      RestKeepsEnd(s, p, 1);
      JoinTokens(rest);
      TokensAtComma(s);
      JoinedCons(s[..p], Tokens(rest));
      CutAtComma(s, p);
    }
  }

  /** If the last `n` bytes are no commas, they are behind every comma. */
  lemma RestKeepsEnd(s: Bytes, p: nat, n: nat)
    requires p < |s| && s[p] == COMMA && n <= |s|
    requires forall i | |s| - n <= i < |s| :: s[i] != COMMA
    ensures p + 1 + n <= |s| && s[p + 1..][|s| - p - 1 - n..] == s[|s| - n..]
  {
  }

  lemma CutAtComma(s: Bytes, p: nat)
    requires p < |s| && s[p] == COMMA
    ensures s == s[..p] + ([COMMA] + s[p + 1..])
  {
  }

  /** Every accepted message is its parsed parts followed by what was cleaned off its end, which
      is CRLF or starts at the '*': the parts determine the message up to there. Conversely the
      message determines the parts: the talker is as long as its first letter says, or as the text
      allows, and no part has a comma in it. */
  lemma ReadLosesNothing(data: Bytes, validateChecksum: bool) returns (tail: Bytes)
    requires |data| >= 2 && Parsed(data, validateChecksum).Success?
    ensures var r := Parsed(data, validateChecksum).value;
            && data == [DOLLAR] + r.talkerId + r.sentenceId + FieldsText(r.fields) + tail
            && |r.talkerId| == Min(if r.talkerId != [] && r.talkerId[0] == LETTER_P then 4 else 2,
                                   |r.talkerId + r.sentenceId|)
            && COMMA !in r.talkerId + r.sentenceId && forall f | f in r.fields :: COMMA !in f
    ensures tail == [CR, LF] || (tail != [] && tail[0] == STAR && COMMA !in tail)
  {
    FirstTokenStaysNonempty(data);
    tail := CleanedText(data);
    HeadSplits(CleanTokens(data)[0]);
    CleanTokensHaveNoComma(data);
    var head := CleanTokens(data)[0];
    assert forall i | 0 < i < |head| :: head[i] in head;
  }

  lemma {:induction false} TokensHaveNoComma(s: Bytes)
    ensures forall token | token in Tokens(s) :: COMMA !in token
  {
    if s != [] {
      var p := Find(s, COMMA);
      if p < |s| {
        TokensHaveNoComma(s[p + 1..]);
        TokensAtComma(s);
      } else {
        TokensOfSingle(s);
      }
    }
  }

  lemma CleanTokensHaveNoComma(data: Bytes)
    requires data != []
    ensures forall token | token in CleanTokens(data) :: COMMA !in token
  {
    TokensHaveNoComma(data);
    var tokens := Tokens(data);
    assert tokens[|tokens| - 1] in tokens;
  }

  lemma AppendRestores(tokens: seq<Bytes>, last: Bytes, tail: Bytes)
    requires tokens != [] && tokens[|tokens| - 1] == last + tail
    ensures tokens == AppendToLast(tokens[|tokens| - 1 := last], tail)
  {
  }

  /** The cleaned tokens, joined again, are the text without its tail. */
  lemma CleanedText(data: Bytes) returns (tail: Bytes)
    requires |data| >= 2 && data[|data| - 2] == CR && data[|data| - 1] == LF
    ensures data == Joined(CleanTokens(data)) + tail
    ensures tail == [CR, LF] || (tail != [] && tail[0] == STAR && COMMA !in tail)
  {
    var tokens, clean := Tokens(data), CleanTokens(data);
    LastTokenEnds(data, CR, LF);
    tail := CleanedTail(tokens[|tokens| - 1]);
    AppendRestores(tokens, clean[|clean| - 1], tail);
    JoinTokens(data);
    JoinedLast(clean, tail);
  }

  lemma HeadSplits(head: Bytes)
    requires head != [] && head[0] == DOLLAR
    ensures head == [DOLLAR] + ExtractTalkerId(head) + ExtractSentenceId(head, ExtractTalkerId(head))
  {
  }

  /** What `cleanBack` takes off a last token. */
  lemma CleanedTail(token: Bytes) returns (tail: Bytes)
    requires TokenEndsIn(token, CR, LF)
    ensures token == WithoutTail(token) + tail
    ensures tail == [CR, LF] || (tail != [] && tail[0] == STAR && COMMA !in tail)
  {
    tail := token[|WithoutTail(token)|..];
  }

  /** The last of `tokens` is free of commas and ends in `x` and `y`. */
  ghost predicate EndIn(tokens: seq<Bytes>, x: Byte, y: Byte) {
    tokens != [] && TokenEndsIn(tokens[|tokens| - 1], x, y)
  }

  ghost predicate TokenEndsIn(token: Bytes, x: Byte, y: Byte) {
    COMMA !in token && |token| >= 2 && token[|token| - 2] == x && token[|token| - 1] == y
  }

  lemma EndInCons(head: Bytes, tokens: seq<Bytes>, x: Byte, y: Byte)
    requires EndIn(tokens, x, y)
    ensures EndIn([head] + tokens, x, y)
  {
  }

  /** The last token keeps the end of the text. */
  lemma {:induction false} LastTokenEnds(s: Bytes, x: Byte, y: Byte)
    requires |s| >= 2 && s[|s| - 2] == x != COMMA && s[|s| - 1] == y != COMMA
    ensures EndIn(Tokens(s), x, y)
  {
    var p := Find(s, COMMA);
    if p < |s| {
      var rest := s[p + 1..];
      RestKeepsEnd(s, p, 2);
      assert rest[|rest| - 2] == x && rest[|rest| - 1] == y;
      LastTokenEnds(rest, x, y);
      TokensAtComma(s);
      EndInCons(s[..p], Tokens(rest), x, y);
    } else {
      TokensOfSingle(s);
    }
  }

  // ---------- Damage is noticed ----------

  lemma {:induction false} XorUpdate(s: Bytes, k: nat, b: Byte)
    requires k < |s|
    ensures Xor(s[k := b]) == Xor(s) ^ s[k] ^ b
  {
    var n := |s| - 1;
    if k == n {
      assert s[k := b][..n] == s[..n];
    } else {
      XorUpdate(s[..n], k, b);
      assert s[k := b][..n] == s[..n][k := b];
    }
  }

  lemma CountUpdate(s: Bytes, k: nat, b: Byte, c: Byte)
    requires k < |s|
    ensures CountOf(s[k := b], c) == CountOf(s, c) - (if s[k] == c then 1 else 0) + (if b == c then 1 else 0)
  {
    CountOne(s[k], c);
    CountOne(b, c);
    assert s == s[..k] + [s[k]] + s[k + 1..];
    assert s[k := b] == s[..k] + [b] + s[k + 1..];
    CountSplit(s[..k] + [s[k]], s[k + 1..], c);
    CountSplit(s[..k], [s[k]], c);
    CountSplit(s[..k] + [b], s[k + 1..], c);
    CountSplit(s[..k], [b], c);
  }

  lemma CountOne(b: Byte, c: Byte)
    ensures CountOf([b], c) == if b == c then 1 else 0
  {
    assert [b][..0] == [];
  }

  lemma StarUnmoved(data: Bytes, k: nat, b: Byte)
    requires k < Find(data, STAR) < |data| && b != STAR
    ensures Find(data[k := b], STAR) == Find(data, STAR)
  {
    var star := Find(data, STAR);
    assert data[k := b][..star] == data[..star][k := b];
    FindIs(data[k := b], STAR, star);
  }

  lemma BodyChanges(data: Bytes, k: nat, b: Byte, star: nat)
    requires 0 < k < star < |data| && b != data[k]
    ensures Xor(data[k := b][1..star]) != Xor(data[1..star])
    ensures Substring(data[k := b], star + 1, 2) == Substring(data, star + 1, 2)
  {
    var body := data[1..star];
    assert data[k := b][1..star] == body[k - 1 := b];
    XorUpdate(body, k - 1, b);
    XorCancels(Xor(body), body[k - 1], b);
  }

  /** What passing checksum validation amounts to. */
  ghost predicate Passes(data: Bytes, star: nat)
    requires 1 <= star < |data|
  {
    SameNumber(Xor(data[1..star]), ReadHex(Substring(data, star + 1, 2)))
  }

  lemma FaultOf(data: Bytes, star: nat)
    requires |data| >= 2 && HasStructure(data) && 1 <= star < |data| && star == Find(data, STAR)
    ensures Fault(data, true) == if Passes(data, star) then None else Some(ChecksumMismatch)
  {
  }

  lemma DamagedDoesNotPass(data: Bytes, k: nat, b: Byte, star: nat)
    requires 0 < k < star < |data| && b != data[k]
    requires Passes(data, star)
    ensures !Passes(data[k := b], star)
  {
    BodyChanges(data, k, b, star);
  }

  /** In every message that passes checksum validation, replacing any one byte strictly between
      '$' and '*' by another makes it fail: a second '*' breaks the structure, anything else the
      checksum. */
  lemma SubstitutionIsNoticed(data: Bytes, k: nat, b: Byte)
    requires |data| >= 2 && Fault(data, true) == None
    requires 0 < k < Find(data, STAR) && b != data[k]
    ensures Fault(data[k := b], true) == Some(if b == STAR then InvalidStructure else ChecksumMismatch)
    ensures Parsed(data[k := b], true).Failure?
  {
    var star := Find(data, STAR);
    assert data[..star][k] == data[k];
    StarBeforeEnd(data);
    FaultOf(data, star);
    CountUpdate(data, k, b, STAR);
    if b == STAR {
      CountAbsent(data, STAR);
    } else {
      StarUnmoved(data, k, b);
      DamagedDoesNotPass(data, k, b, star);
      FaultOf(data[k := b], star);
    }
  }

  lemma ParsedUnchecked(data: Bytes)
    requires |data| >= 2
    ensures Parsed(data, false).Success? <==> HasStructure(data)
    ensures !HasStructure(data) ==> Parsed(data, false) == Failure(InvalidStructure)
  {
  }

  lemma StructureAfterDamage(data: Bytes, k: nat, b: Byte)
    requires |data| >= 2 && HasStructure(data) && 0 < k < |data| - 2
    requires data[k] != STAR && CountOf(data, STAR) == 1
    ensures HasStructure(data[k := b]) <==> b != STAR
  {
    CountUpdate(data, k, b, STAR);
  }

  /** Without checksum validation the same damage goes unnoticed, unless it makes a second '*'. */
  lemma SubstitutionIsUnnoticed(data: Bytes, k: nat, b: Byte)
    requires |data| >= 2 && HasStructure(data) && STAR in data && 0 < k < Find(data, STAR)
    ensures Parsed(data[k := b], false).Success? <==> b != STAR
    ensures b == STAR ==> Parsed(data[k := b], false) == Failure(InvalidStructure)
  {
    assert data[..Find(data, STAR)][k] == data[k];
    StarBeforeEnd(data);
    CountAbsent(data, STAR);
    StructureAfterDamage(data, k, b);
    ParsedUnchecked(data[k := b]);
  }

  /** A field's text damaged into other plain text is the text of a sentence with that other field. */
  lemma DamagedFieldIsSentence(s: Sentence, i: nat, q: nat, b: Byte)
    requires i < |s.fields| && q < |s.fields[i]|
    ensures var p := 1 + |s.talkerId| + |s.sentenceId| + |FieldsText(s.fields[..i])| + 1 + q;
            && 0 < p <= |Body(s)|
            && Print(s)[p := b] == Print(s.(fields := s.fields[i := s.fields[i][q := b]]))
  {
    var t := s.fields[i][q := b];
    FieldsTextAt(s.fields, i, s.fields[i]);
    FieldsTextAt(s.fields, i, t);
    assert s.fields[i := s.fields[i]] == s.fields;
    UpdateInside([DOLLAR] + s.talkerId + s.sentenceId + FieldsText(s.fields[..i]) + [COMMA], s.fields[i], q, b,
                 FieldsText(s.fields[i + 1..]) + Tail(s));
    RegroupPrinted(s, i, s.fields[i]);
    RegroupPrinted(s, i, t);
  }

  lemma {:induction false} FieldsTextSplit(p: seq<Bytes>, q: seq<Bytes>)
    ensures FieldsText(p + q) == FieldsText(p) + FieldsText(q)
  {
    if p == [] {
      ConcatNothing(q);
      ConcatNothing(FieldsText(q));
    } else {
      FieldsTextSplit(p[1..], q);
      assert p + q == [p[0]] + (p[1..] + q);
      DropFirst(p[0], p[1..] + q);
      ConcatAssociates([COMMA] + p[0], FieldsText(p[1..]), FieldsText(q));
    }
  }

  lemma FieldsTextAt(fields: seq<Bytes>, i: nat, text: Bytes)
    requires i < |fields|
    ensures FieldsText(fields[i := text]) == FieldsText(fields[..i]) + ([COMMA] + text) + FieldsText(fields[i + 1..])
  {
    assert fields[i := text] == (fields[..i] + [text]) + fields[i + 1..];
    FieldsTextSplit(fields[..i] + [text], fields[i + 1..]);
    FieldsTextSplit(fields[..i], [text]);
    FieldsTextOne(text);
  }

  lemma FieldsTextOne(text: Bytes)
    ensures FieldsText([text]) == [COMMA] + text
  {
    assert [text][1..] == [];
    ConcatNothing([COMMA] + text);
  }

  lemma UpdateInside(front: Bytes, text: Bytes, q: nat, b: Byte, back: Bytes)
    requires q < |text|
    ensures (front + text + back)[|front| + q := b] == front + text[q := b] + back
  {
  }

  lemma RegroupPrinted(s: Sentence, i: nat, text: Bytes)
    requires i < |s.fields|
    requires FieldsText(s.fields[i := text])
          == FieldsText(s.fields[..i]) + ([COMMA] + text) + FieldsText(s.fields[i + 1..])
    ensures Print(s.(fields := s.fields[i := text]))
         == ([DOLLAR] + s.talkerId + s.sentenceId + FieldsText(s.fields[..i]) + [COMMA]) + text
            + (FieldsText(s.fields[i + 1..]) + Tail(s))
  {
  }

  lemma StarBeforeEnd(data: Bytes)
    requires |data| >= 2 && HasStructure(data) && STAR in data
    ensures 1 <= Find(data, STAR) < |data| - 2
  {
    StarElsewhere(data, Find(data, STAR), data[0], data[|data| - 2], data[|data| - 1]);
  }

  lemma StarElsewhere(data: Bytes, star: nat, first: Byte, next: Byte, last: Byte)
    requires |data| >= 2 && data[0] == first && data[|data| - 2] == next && data[|data| - 1] == last
    requires first != STAR && next != STAR && last != STAR
    requires star < |data| && data[star] == STAR
    ensures 1 <= star < |data| - 2
  {
    assert star != 0 && star != |data| - 2 && star != |data| - 1;
  }

  lemma XorCancels(x: Byte, a: Byte, b: Byte)
    requires a != b
    ensures x ^ a ^ b != x
  {
  }
}
