/** DNS messages on the wire (sections 4.1.1 to 4.1.3 of RFC 1035): the decoder, which threads
    an offset through the four sections, and the query encoder. */
module DnsMessage {
  import opened Bytes
  import opened DnsName

  datatype Header = Header(id: uint16, flags: uint16, qdCount: uint16, anCount: uint16, nsCount: uint16, arCount: uint16)

  datatype Question = Question(name: Bytes, qtype: uint16, qclass: uint16)

  datatype Record = Record(name: Bytes, rtype: uint16, rclass: uint16, ttl: uint32, rdataLen: uint16, rdata: Bytes)

  datatype Message = Message(
    header: Header, questions: seq<Question>, answers: seq<Record>, authority: seq<Record>, additional: seq<Record>)

  datatype Part = QType | QClass | RType | RClass | Ttl | RdLength | RData

  datatype DecodeError = ShortHeader | BadName(cause: NameError) | Truncated(part: Part)

  const HEADER_SIZE := 12

  const TYPE_A: uint16 := 1
  const CLASS_IN: uint16 := 1
  const FLAG_RD: uint16 := 0x100

  // flags & FlagQR, flags & FlagTC and flags & RCodeMask
  predicate IsResponse(flags: uint16) { 0x8000 <= flags }

  predicate IsTruncated(flags: uint16) { flags / 0x200 % 2 == 1 }

  function ResponseCode(flags: uint16): nat { flags % 16 }

  /** The arithmetic readings of the three masks are the bit operations of the source. */
  lemma {:induction false} FlagMasks(flags: bv16)
    ensures flags & 0x8000 != 0 <==> 0x8000 <= flags
    ensures flags & 0x200 != 0 <==> flags / 0x200 % 2 == 1
    ensures flags & 0xF == flags % 16
  {
  }

  // ---------- decoding ----------

  function HeaderAt(data: Bytes): Header
    requires HEADER_SIZE <= |data|
  {
    Header(GetU16(data, 0), GetU16(data, 2), GetU16(data, 4), GetU16(data, 6), GetU16(data, 8), GetU16(data, 10))
  }

  function QuestionAt(data: Bytes, offset: int): Result<(Question, int), DecodeError> {
    match NameAt(data, offset)
    case Err(e) => Err(BadName(e))
    case Ok((name, next)) =>
      NameExtends(data, [], offset);
      if |data| - next < 2 then Err(Truncated(QType))
      else if |data| - next < 4 then Err(Truncated(QClass))
      else Ok((Question(name, GetU16(data, next), GetU16(data, next + 2)), next + 4))
  }

  function RecordAt(data: Bytes, offset: int): Result<(Record, int), DecodeError> {
    match NameAt(data, offset)
    case Err(e) => Err(BadName(e))
    case Ok((name, next)) =>
      NameExtends(data, [], offset);
      RecordFields(data, name, next)
  }

  // The record's fields after its name.
  function RecordFields(data: Bytes, name: Bytes, next: nat): Result<(Record, int), DecodeError> {
    if |data| - next < 2 then Err(Truncated(RType))
    else if |data| - next < 4 then Err(Truncated(RClass))
    else if |data| - next < 8 then Err(Truncated(Ttl))
    else if |data| - next < 10 then Err(Truncated(RdLength))
    else
      var size := GetU16(data, next + 8);
      var body := next + 10;
      if size > |data| - body then Err(Truncated(RData))
      else
        var record := Record(
          name, GetU16(data, next), GetU16(data, next + 2), GetU32(data, next + 4), size, data[body..body + size]);
        Ok((record, body + size))
  }

  /** The first `count` questions from `offset`, and where they end. */
  function QuestionsAt(data: Bytes, offset: int, count: nat): Result<(seq<Question>, int), DecodeError> {
    if count == 0 then Ok(([], offset))
    else
      match QuestionsAt(data, offset, count - 1)
      case Err(e) => Err(e)
      case Ok((before, middle)) =>
        match QuestionAt(data, middle)
        case Err(e) => Err(e)
        case Ok((q, next)) => Ok((before + [q], next))
  }

  /** The first `count` records from `offset`, and where they end. */
  function RecordsAt(data: Bytes, offset: int, count: nat): Result<(seq<Record>, int), DecodeError> {
    if count == 0 then Ok(([], offset))
    else
      match RecordsAt(data, offset, count - 1)
      case Err(e) => Err(e)
      case Ok((before, middle)) =>
        match RecordAt(data, middle)
        case Err(e) => Err(e)
        case Ok((r, next)) => Ok((before + [r], next))
  }

  /** The message in `data` and the offset after its last section. */
  function MessageAt(data: Bytes): Result<(Message, int), DecodeError> {
    if |data| < HEADER_SIZE then Err(ShortHeader)
    else
      var h := HeaderAt(data);
      match QuestionsAt(data, HEADER_SIZE, h.qdCount)
      case Err(e) => Err(e)
      case Ok((questions, a)) =>
        match RecordsAt(data, a, h.anCount)
        case Err(e) => Err(e)
        case Ok((answers, b)) =>
          match RecordsAt(data, b, h.nsCount)
          case Err(e) => Err(e)
          case Ok((authority, c)) =>
            match RecordsAt(data, c, h.arCount)
            case Err(e) => Err(e)
            case Ok((additional, end)) => Ok((Message(h, questions, answers, authority, additional), end))
  }

  function Decoded(data: Bytes): Result<Message, DecodeError> {
    match MessageAt(data)
    case Err(e) => Err(e)
    case Ok((m, _)) => Ok(m)
  }

  method DecodeQuestion(data: Bytes, offset: int) returns (r: Result<(Question, int), DecodeError>)
    ensures r == QuestionAt(data, offset)
  {
    var named, _ := DecodeName(data, offset);
    if named.Err? {
      return Err(BadName(named.error));
    }
    NameExtends(data, [], offset);
    hide NameAt;
    var (name, next) := named.value;
    if |data| - next < 2 {
      return Err(Truncated(QType));
    }
    var questionType := GetU16(data, next);
    next := next + 2;
    if |data| - next < 2 {
      return Err(Truncated(QClass));
    }
    var questionClass := GetU16(data, next);
    next := next + 2;
    return Ok((Question(name, questionType, questionClass), next));
  }

  method DecodeRecord(data: Bytes, offset: int) returns (r: Result<(Record, int), DecodeError>)
    ensures r == RecordAt(data, offset)
  {
    hide NameAt, RecordFields;
    var named, _ := DecodeName(data, offset);
    if named.Err? {
      return Err(BadName(named.error));
    }
    NameExtends(data, [], offset);
    r := DecodeRecordFields(data, named.value.0, named.value.1);
  }

  /** decodeResourceRecord after its call of decodeName. */
  method DecodeRecordFields(data: Bytes, name: Bytes, start: nat) returns (r: Result<(Record, int), DecodeError>)
    ensures r == RecordFields(data, name, start)
  {
    hide GetU16, GetU32;
    var next := start;
    var record := Record(name, 0, 0, 0, 0, []);
    if |data| - next < 2 {
      return Err(Truncated(RType));
    }
    record := record.(rtype := GetU16(data, next));
    next := next + 2;
    if |data| - next < 2 {
      return Err(Truncated(RClass));
    }
    record := record.(rclass := GetU16(data, next));
    next := next + 2;
    if |data| - next < 4 {
      return Err(Truncated(Ttl));
    }
    record := record.(ttl := GetU32(data, next));
    next := next + 4;
    if |data| - next < 2 {
      return Err(Truncated(RdLength));
    }
    record := record.(rdataLen := GetU16(data, next));
    next := next + 2;
    if record.rdataLen > |data| - next {
      return Err(Truncated(RData));
    }
    var end := next + record.rdataLen;
    record := record.(rdata := data[next..end]);
    return Ok((record, end));
  }

  lemma {:induction false} QuestionsFailEarly(data: Bytes, offset: int, i: nat, count: nat)
    requires i <= count && QuestionsAt(data, offset, i).Err?
    ensures QuestionsAt(data, offset, count) == QuestionsAt(data, offset, i)
    decreases count
  {
    if i < count {
      QuestionsFailEarly(data, offset, i, count - 1);
    }
  }

  lemma {:induction false} RecordsFailEarly(data: Bytes, offset: int, i: nat, count: nat)
    requires i <= count && RecordsAt(data, offset, i).Err?
    ensures RecordsAt(data, offset, count) == RecordsAt(data, offset, i)
    decreases count
  {
    if i < count {
      RecordsFailEarly(data, offset, i, count - 1);
    }
  }

  method DecodeRecords(data: Bytes, start: int, count: uint16) returns (r: Result<(seq<Record>, int), DecodeError>)
    ensures r == RecordsAt(data, start, count)
  {
    hide RecordAt;
    var records: seq<Record> := [];
    var offset := start;
    for i := 0 to count
      invariant RecordsAt(data, start, i) == Ok((records, offset))
    {
      var one := DecodeRecord(data, offset);
      if one.Err? {
        RecordsFailEarly(data, start, i + 1, count);
        return Err(one.error);
      }
      records := records + [one.value.0];
      offset := one.value.1;
    }
    return Ok((records, offset));
  }

  method DecodeMessage(data: Bytes) returns (r: Result<Message, DecodeError>)
    ensures r == Decoded(data)
  {
    hide QuestionAt, RecordsAt;
    if |data| < HEADER_SIZE {
      return Err(ShortHeader);
    }
    var header := HeaderAt(data);
    var offset := HEADER_SIZE;
    var questions: seq<Question> := [];
    for i := 0 to header.qdCount
      invariant QuestionsAt(data, HEADER_SIZE, i) == Ok((questions, offset))
    {
      var one := DecodeQuestion(data, offset);
      if one.Err? {
        QuestionsFailEarly(data, HEADER_SIZE, i + 1, header.qdCount);
        return Err(one.error);
      }
      questions := questions + [one.value.0];
      offset := one.value.1;
    }
    var answers := DecodeRecords(data, offset, header.anCount);
    if answers.Err? {
      return Err(answers.error);
    }
    var authority := DecodeRecords(data, answers.value.1, header.nsCount);
    if authority.Err? {
      return Err(authority.error);
    }
    var additional := DecodeRecords(data, authority.value.1, header.arCount);
    if additional.Err? {
      return Err(additional.error);
    }
    return Ok(Message(header, questions, answers.value.0, authority.value.0, additional.value.0));
  }

  // ---------- encoding ----------

  function HeaderWire(h: Header): (s: Bytes)
    ensures |s| == HEADER_SIZE
  {
    PutU16(h.id) + PutU16(h.flags) + PutU16(h.qdCount) + PutU16(h.anCount) + PutU16(h.nsCount) + PutU16(h.arCount)
  }

  function QuestionWire(q: Question): Result<Bytes, EncodeError> {
    match NameWire(q.name)
    case Err(e) => Err(e)
    case Ok(name) => Ok(name + PutU16(q.qtype) + PutU16(q.qclass))
  }

  function QueryHeader(id: uint16): Header {
    Header(id, FLAG_RD, 1, 0, 0, 0)
  }

  /** A query never comes near the limit of a frame or a datagram. */
  function QueryWire(id: uint16, q: Question): (r: Result<Bytes, EncodeError>)
    ensures r.Ok? ==> HEADER_SIZE + 5 <= |r.value| <= 271
  {
    match QuestionWire(q)
    case Err(e) => Err(e)
    case Ok(question) => Ok(HeaderWire(QueryHeader(id)) + question)
  }

  /** binary.BigEndian.PutUint16(buffer[at:at+2], n). */
  method PutAt(buffer: array<byte>, at: nat, n: uint16)
    requires at + 2 <= buffer.Length
    modifies buffer
    ensures buffer[..] == old(buffer[..at]) + PutU16(n) + old(buffer[at + 2..])
  {
    buffer[at], buffer[at + 1] := n / 256, n % 256;
  }

  method EncodeHeader(h: Header) returns (buffer: array<byte>)
    ensures fresh(buffer) && buffer[..] == HeaderWire(h)
  {
    hide PutU16;
    buffer := new byte[HEADER_SIZE];
    PutAt(buffer, 0, h.id);
    assert buffer[..2] == PutU16(h.id);
    PutAt(buffer, 2, h.flags);
    assert buffer[..4] == PutU16(h.id) + PutU16(h.flags);
    PutAt(buffer, 4, h.qdCount);
    assert buffer[..6] == PutU16(h.id) + PutU16(h.flags) + PutU16(h.qdCount);
    PutAt(buffer, 6, h.anCount);
    assert buffer[..8] == PutU16(h.id) + PutU16(h.flags) + PutU16(h.qdCount) + PutU16(h.anCount);
    PutAt(buffer, 8, h.nsCount);
    assert buffer[..10] == PutU16(h.id) + PutU16(h.flags) + PutU16(h.qdCount) + PutU16(h.anCount) + PutU16(h.nsCount);
    PutAt(buffer, 10, h.arCount);
    assert buffer[..] == buffer[..10] + PutU16(h.arCount);
  }

  method EncodeQuestion(q: Question) returns (r: Result<Bytes, EncodeError>)
    ensures r == QuestionWire(q)
  {
    hide NameWire, PutU16;
    var encoded := EncodeName(q.name);
    if encoded.Err? {
      return Err(encoded.error);
    }
    var name := encoded.value;
    var buffer := new byte[|name| + 4];
    forall i | 0 <= i < |name| {
      buffer[i] := name[i];
    }
    assert buffer[..|name|] == name;
    PutAt(buffer, |name|, q.qtype);
    assert buffer[..|name| + 2] == name + PutU16(q.qtype);
    PutAt(buffer, |name| + 2, q.qclass);
    assert buffer[..] == buffer[..|name| + 2] + PutU16(q.qclass);
    assert buffer[..] == name + PutU16(q.qtype) + PutU16(q.qclass);
    return Ok(buffer[..]);
  }

  method EncodeQuery(id: uint16, q: Question) returns (r: Result<Bytes, EncodeError>)
    ensures r == QueryWire(id, q)
  {
    hide QuestionWire, HeaderWire;
    var header := EncodeHeader(QueryHeader(id));
    var question := EncodeQuestion(q);
    if question.Err? {
      return Err(question.error);
    }
    var message := header[..];
    message := message + question.value;
    return Ok(message);
  }
}
