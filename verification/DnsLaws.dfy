/** What a decoded message says about its bytes: which bytes every field is, how the sections
    tile the message, and that nothing after them matters. */
module DnsLaws {
  import opened Bytes
  import opened DnsName
  import opened DnsMessage

  // ---------- items ----------

  // The bytes of a question and of a record after the name.
  function QuestionTail(q: Question): Bytes {
    PutU16(q.qtype) + PutU16(q.qclass)
  }

  function RecordTail(r: Record): Bytes {
    PutU16(r.rtype) + (PutU16(r.rclass) + (PutU32(r.ttl) + (PutU16(r.rdataLen) + r.rdata)))
  }

  /** The bytes from `offset` to `next` are the question. */
  ghost predicate QuestionStands(data: Bytes, offset: int, q: Question, next: int) {
    exists m: nat :: NameStands(data, offset, q.name, m) && OccursAt(data, QuestionTail(q), m) && next == m + 4
  }

  /** The bytes from `offset` to `next` are the record. */
  ghost predicate RecordStands(data: Bytes, offset: int, r: Record, next: int) {
    && r.rdataLen == |r.rdata|
    && exists m: nat :: NameStands(data, offset, r.name, m) && OccursAt(data, RecordTail(r), m) && next == m + 10 + |r.rdata|
  }

  lemma QuestionTailIff(data: Bytes, m: nat, q: Question)
    ensures OccursAt(data, QuestionTail(q), m) <==>
      m + 4 <= |data| && q.qtype == GetU16(data, m) && q.qclass == GetU16(data, m + 2)
  {
    hide PutU16, GetU16;
    if OccursAt(data, QuestionTail(q), m) {
      OccursParts(data, PutU16(q.qtype), PutU16(q.qclass), m);
      GetAt(data, m);
      GetAt(data, m + 2);
    }
    if m + 4 <= |data| {
      PutGetU16(data, m);
      PutGetU16(data, m + 2);
      assert data[m..m + 4] == data[m..m + 2] + data[m + 2..m + 4];
    }
  }

  /** A question is decoded exactly when its bytes stand there: the name, then QTYPE and QCLASS. */
  lemma {:induction false} QuestionIff(data: Bytes, offset: int, q: Question, next: int)
    ensures QuestionAt(data, offset) == Ok((q, next)) <==> QuestionStands(data, offset, q, next)
  {
    hide NameAt, NameStands, GetU16, QuestionTail;
    if QuestionAt(data, offset).Ok? {
      var (name, m) := NameAt(data, offset).value;
      NameExtends(data, [], offset);
      NameIff(data, offset, name, m);
      QuestionTailIff(data, m, QuestionAt(data, offset).value.0);
      assert QuestionStands(data, offset, QuestionAt(data, offset).value.0, m + 4);
    }
    if QuestionStands(data, offset, q, next) {
      var m: nat :| NameStands(data, offset, q.name, m) && OccursAt(data, QuestionTail(q), m) && next == m + 4;
      NameIff(data, offset, q.name, m);
      QuestionTailIff(data, m, q);
    }
  }

  lemma RecordTailSound(data: Bytes, m: nat, r: Record)
    requires OccursAt(data, RecordTail(r), m)
    ensures m + 10 + |r.rdata| <= |data|
    ensures r.rtype == GetU16(data, m) && r.rclass == GetU16(data, m + 2) && r.ttl == GetU32(data, m + 4)
    ensures r.rdataLen == GetU16(data, m + 8) && r.rdata == data[m + 10..m + 10 + |r.rdata|]
  {
    hide PutU16, PutU32, GetU16, GetU32;
    var tail3 := PutU16(r.rdataLen) + r.rdata;
    var tail2 := PutU32(r.ttl) + tail3;
    OccursParts(data, PutU16(r.rtype), PutU16(r.rclass) + tail2, m);
    OccursParts(data, PutU16(r.rclass), tail2, m + 2);
    OccursParts(data, PutU32(r.ttl), tail3, m + 4);
    OccursParts(data, PutU16(r.rdataLen), r.rdata, m + 8);
    GetAt(data, m);
    GetAt(data, m + 2);
    GetAt32(data, m + 4);
    GetAt(data, m + 8);
  }

  lemma RecordTailComplete(data: Bytes, m: nat, r: Record)
    requires m + 10 + |r.rdata| <= |data|
    requires r.rtype == GetU16(data, m) && r.rclass == GetU16(data, m + 2) && r.ttl == GetU32(data, m + 4)
    requires r.rdataLen == GetU16(data, m + 8) && r.rdata == data[m + 10..m + 10 + |r.rdata|]
    ensures OccursAt(data, RecordTail(r), m)
  {
    PutGetU16(data, m);
    PutGetU16(data, m + 2);
    PutGetU32(data, m + 4);
    PutGetU16(data, m + 8);
    hide PutU16, PutU32, GetU16, GetU32;
    var end := m + 10 + |r.rdata|;
    assert data[m + 8..end] == data[m + 8..m + 10] + data[m + 10..end];
    assert data[m + 4..end] == data[m + 4..m + 8] + data[m + 8..end];
    assert data[m + 2..end] == data[m + 2..m + 4] + data[m + 4..end];
    assert data[m..end] == data[m..m + 2] + data[m + 2..end];
  }

  lemma RecordFieldsIff(data: Bytes, name: Bytes, m: nat, r: Record, next: int)
    requires m <= |data|
    ensures RecordFields(data, name, m) == Ok((r, next)) <==>
      r.name == name && r.rdataLen == |r.rdata| && OccursAt(data, RecordTail(r), m) && next == m + 10 + |r.rdata|
  {
    hide GetU16, GetU32, RecordTail;
    if RecordFields(data, name, m) == Ok((r, next)) {
      RecordTailComplete(data, m, r);
    }
    if r.name == name && r.rdataLen == |r.rdata| && OccursAt(data, RecordTail(r), m) && next == m + 10 + |r.rdata| {
      RecordTailSound(data, m, r);
    }
  }

  /** A record is decoded exactly when its bytes stand there: the name, then TYPE, CLASS, TTL,
      RDLENGTH and as many bytes of RDATA. */
  lemma {:induction false} RecordIff(data: Bytes, offset: int, r: Record, next: int)
    ensures RecordAt(data, offset) == Ok((r, next)) <==> RecordStands(data, offset, r, next)
  {
    hide NameAt, NameStands, RecordFields, RecordTail;
    if RecordAt(data, offset) == Ok((r, next)) {
      var (name, m) := NameAt(data, offset).value;
      NameExtends(data, [], offset);
      NameIff(data, offset, name, m);
      RecordFieldsIff(data, name, m, r, next);
    }
    if RecordStands(data, offset, r, next) {
      var m: nat :| NameStands(data, offset, r.name, m) && OccursAt(data, RecordTail(r), m) && next == m + 10 + |r.rdata|;
      NameIff(data, offset, r.name, m);
      RecordFieldsIff(data, r.name, m, r, next);
    }
  }

  // The message ends inside the given field of an item whose name ends at `m`.
  predicate EndsInside(data: Bytes, m: nat, part: Part) {
    match part
    case QType => |data| < m + 2
    case QClass => m + 2 <= |data| < m + 4
    case RType => |data| < m + 2
    case RClass => m + 2 <= |data| < m + 4
    case Ttl => m + 4 <= |data| < m + 8
    case RdLength => m + 8 <= |data| < m + 10
    case RData => m + 10 <= |data| < m + 10 + GetU16(data, m + 8)
  }

  predicate InQuestion(part: Part) { part.QType? || part.QClass? }

  ghost predicate CutInside(data: Bytes, offset: int, part: Part) {
    exists name, m: nat :: NameStands(data, offset, name, m) && EndsInside(data, m, part)
  }

  /** Every failure names its cause: the name's own error, or the one field in which the message
      ends. */
  lemma {:induction false} ItemErrorIff(data: Bytes, offset: int, part: Part)
    ensures InQuestion(part) ==> (QuestionAt(data, offset) == Err(Truncated(part)) <==> CutInside(data, offset, part))
    ensures !InQuestion(part) ==> (RecordAt(data, offset) == Err(Truncated(part)) <==> CutInside(data, offset, part))
    ensures forall e :: QuestionAt(data, offset) == Err(BadName(e)) <==> NameAt(data, offset) == Err(e)
    ensures forall e :: RecordAt(data, offset) == Err(BadName(e)) <==> NameAt(data, offset) == Err(e)
  {
    hide NameAt, NameStands, GetU16, GetU32;
    if NameAt(data, offset).Ok? {
      var (name, m) := NameAt(data, offset).value;
      NameExtends(data, [], offset);
      NameIff(data, offset, name, m);
      OneName(data, offset, name, m);
    } else {
      NoName(data, offset);
    }
  }

  lemma OneName(data: Bytes, offset: int, name: Bytes, m: int)
    requires NameAt(data, offset) == Ok((name, m))
    ensures forall other, k: int :: NameStands(data, offset, other, k) ==> other == name && k == m
  {
    forall other, k: int | NameStands(data, offset, other, k) ensures other == name && k == m {
      NameIff(data, offset, other, k);
    }
  }

  lemma NoName(data: Bytes, offset: int)
    requires NameAt(data, offset).Err?
    ensures forall name, m: int :: !NameStands(data, offset, name, m)
  {
    forall name, m: int ensures !NameStands(data, offset, name, m) {
      NameIff(data, offset, name, m);
    }
  }

  /** The header is the first twelve bytes. */
  lemma {:induction false} HeaderIff(data: Bytes, h: Header)
    ensures HEADER_SIZE <= |data| && HeaderAt(data) == h <==> OccursAt(data, HeaderWire(h), 0)
  {
    if HEADER_SIZE <= |data| {
      HeaderBytes(data);
    }
    if OccursAt(data, HeaderWire(h), 0) {
      HeaderIsInjective(HeaderAt(data), h);
    }
  }

  lemma HeaderBytes(data: Bytes)
    requires HEADER_SIZE <= |data|
    ensures OccursAt(data, HeaderWire(HeaderAt(data)), 0)
  {
    PutGetU16(data, 0);
    PutGetU16(data, 2);
    PutGetU16(data, 4);
    PutGetU16(data, 6);
    PutGetU16(data, 8);
    PutGetU16(data, 10);
    hide PutU16, GetU16;
    assert data[0..12] == data[0..2] + data[2..4] + data[4..6] + data[6..8] + data[8..10] + data[10..12];
  }

  lemma HeaderIsInjective(h: Header, g: Header)
    requires HeaderWire(h) == HeaderWire(g)
    ensures h == g
  {
    HeaderReadBack(h);
    HeaderReadBack(g);
    hide *;
  }

  lemma HeaderReadBack(h: Header)
    ensures HeaderAt(HeaderWire(h)) == h
  {
    var s := HeaderWire(h);
    assert s[0..2] == PutU16(h.id) && s[2..4] == PutU16(h.flags) && s[4..6] == PutU16(h.qdCount);
    assert s[6..8] == PutU16(h.anCount) && s[8..10] == PutU16(h.nsCount) && s[10..12] == PutU16(h.arCount);
  }

  // ---------- tiling ----------

  // Item i of a section lies between two consecutive cuts.
  ghost predicate QuestionTiles(data: Bytes, cuts: seq<int>, questions: seq<Question>) {
    && |cuts| == |questions| + 1
    && forall i :: 0 <= i < |questions| ==> QuestionStands(data, cuts[i], questions[i], cuts[i + 1])
  }

  ghost predicate RecordTiles(data: Bytes, cuts: seq<int>, records: seq<Record>) {
    && |cuts| == |records| + 1
    && forall i :: 0 <= i < |records| ==> RecordStands(data, cuts[i], records[i], cuts[i + 1])
  }

  // The cuts of the four sections.
  datatype Cuts = Cuts(questions: seq<int>, answers: seq<int>, authority: seq<int>, additional: seq<int>)

  function Last(s: seq<int>): int
    requires s != []
  {
    s[|s| - 1]
  }

  /** The message is its header, then its items one after the other without a gap, as many in
      each section as the header announces, up to `end`. */
  ghost predicate Tiles(data: Bytes, m: Message, cuts: Cuts, end: int) {
    && OccursAt(data, HeaderWire(m.header), 0)
    && |m.questions| == m.header.qdCount && |m.answers| == m.header.anCount
    && |m.authority| == m.header.nsCount && |m.additional| == m.header.arCount
    && QuestionTiles(data, cuts.questions, m.questions) && cuts.questions[0] == HEADER_SIZE
    && RecordTiles(data, cuts.answers, m.answers) && cuts.answers[0] == Last(cuts.questions)
    && RecordTiles(data, cuts.authority, m.authority) && cuts.authority[0] == Last(cuts.answers)
    && RecordTiles(data, cuts.additional, m.additional) && cuts.additional[0] == Last(cuts.authority)
    && Last(cuts.additional) == end
  }

  lemma {:induction false} QuestionsSound(data: Bytes, offset: int, count: nat) returns (cuts: seq<int>)
    requires QuestionsAt(data, offset, count).Ok?
    ensures QuestionTiles(data, cuts, QuestionsAt(data, offset, count).value.0)
    ensures cuts[0] == offset && Last(cuts) == QuestionsAt(data, offset, count).value.1
    ensures |QuestionsAt(data, offset, count).value.0| == count
    decreases count
  {
    hide QuestionAt, QuestionStands;
    if count == 0 {
      cuts := [offset];
    } else {
      cuts := QuestionsSound(data, offset, count - 1);
      var (q, next) := QuestionAt(data, Last(cuts)).value;
      QuestionIff(data, Last(cuts), q, next);
      cuts := cuts + [next];
    }
  }

  lemma {:induction false} QuestionsComplete(data: Bytes, cuts: seq<int>, questions: seq<Question>)
    requires QuestionTiles(data, cuts, questions)
    ensures QuestionsAt(data, cuts[0], |questions|) == Ok((questions, Last(cuts)))
    decreases |questions|
  {
    hide QuestionAt, QuestionStands;
    if questions == [] {
    } else {
      var n := |questions| - 1;
      QuestionsComplete(data, cuts[..n + 1], questions[..n]);
      QuestionIff(data, cuts[n], questions[n], cuts[n + 1]);
      assert questions == questions[..n] + [questions[n]];
    }
  }

  lemma {:induction false} RecordsSound(data: Bytes, offset: int, count: nat) returns (cuts: seq<int>)
    requires RecordsAt(data, offset, count).Ok?
    ensures RecordTiles(data, cuts, RecordsAt(data, offset, count).value.0)
    ensures cuts[0] == offset && Last(cuts) == RecordsAt(data, offset, count).value.1
    ensures |RecordsAt(data, offset, count).value.0| == count
    decreases count
  {
    hide RecordAt, RecordStands;
    if count == 0 {
      cuts := [offset];
    } else {
      cuts := RecordsSound(data, offset, count - 1);
      var (r, next) := RecordAt(data, Last(cuts)).value;
      RecordIff(data, Last(cuts), r, next);
      cuts := cuts + [next];
    }
  }

  lemma {:induction false} RecordsComplete(data: Bytes, cuts: seq<int>, records: seq<Record>)
    requires RecordTiles(data, cuts, records)
    ensures RecordsAt(data, cuts[0], |records|) == Ok((records, Last(cuts)))
    decreases |records|
  {
    hide RecordAt, RecordStands;
    if records == [] {
    } else {
      var n := |records| - 1;
      RecordsComplete(data, cuts[..n + 1], records[..n]);
      RecordIff(data, cuts[n], records[n], cuts[n + 1]);
      assert records == records[..n] + [records[n]];
    }
  }

  lemma MessageSound(data: Bytes) returns (cuts: Cuts)
    requires MessageAt(data).Ok?
    ensures Tiles(data, MessageAt(data).value.0, cuts, MessageAt(data).value.1)
  {
    hide QuestionsAt, RecordsAt, QuestionStands, RecordStands, HeaderAt, HeaderWire, OccursAt;
    var h := HeaderAt(data);
    HeaderIff(data, h);
    var q := QuestionsSound(data, HEADER_SIZE, h.qdCount);
    var a := RecordsSound(data, Last(q), h.anCount);
    var b := RecordsSound(data, Last(a), h.nsCount);
    var c := RecordsSound(data, Last(b), h.arCount);
    cuts := Cuts(q, a, b, c);
  }

  lemma MessageComplete(data: Bytes, m: Message, cuts: Cuts, end: int)
    requires Tiles(data, m, cuts, end)
    ensures MessageAt(data) == Ok((m, end))
  {
    hide QuestionsAt, RecordsAt, QuestionStands, RecordStands, HeaderAt, HeaderWire, OccursAt;
    HeaderIff(data, m.header);
    QuestionsComplete(data, cuts.questions, m.questions);
    RecordsComplete(data, cuts.answers, m.answers);
    RecordsComplete(data, cuts.authority, m.authority);
    RecordsComplete(data, cuts.additional, m.additional);
  }

  /** A message is decoded exactly when its bytes are tiled by the items it lists. */
  lemma {:induction false} MessageIff(data: Bytes, m: Message, end: int)
    ensures MessageAt(data) == Ok((m, end)) <==> exists cuts :: Tiles(data, m, cuts, end)
  {
    hide MessageAt, Tiles;
    if MessageAt(data) == Ok((m, end)) {
      var cuts := MessageSound(data);
    }
    if cuts :| Tiles(data, m, cuts, end) {
      MessageComplete(data, m, cuts, end);
    }
  }

  // ---------- sizes ----------

  lemma StandingName(data: Bytes, offset: int, name: Bytes, m: int)
    requires NameStands(data, offset, name, m)
    ensures 0 <= offset < m <= |data|
  {
    NameIff(data, offset, name, m);
    hide NameAt, NameStands;
    NameExtends(data, [], offset);
  }

  lemma QuestionSpan(data: Bytes, offset: int, q: Question, next: int)
    requires QuestionStands(data, offset, q, next)
    ensures 0 <= offset && offset + 5 <= next <= |data|
  {
    hide NameStands, PutU16;
    var m: nat :| NameStands(data, offset, q.name, m) && OccursAt(data, QuestionTail(q), m) && next == m + 4;
    StandingName(data, offset, q.name, m);
  }

  lemma RecordSpan(data: Bytes, offset: int, r: Record, next: int)
    requires RecordStands(data, offset, r, next)
    ensures 0 <= offset && offset + 11 + |r.rdata| <= next <= |data|
  {
    hide NameStands, PutU16, PutU32;
    var m: nat :| NameStands(data, offset, r.name, m) && OccursAt(data, RecordTail(r), m) && next == m + 10 + |r.rdata|;
    StandingName(data, offset, r.name, m);
  }

  lemma {:induction false} QuestionSizes(data: Bytes, cuts: seq<int>, questions: seq<Question>)
    requires QuestionTiles(data, cuts, questions) && 0 <= cuts[0] <= |data|
    ensures cuts[0] + 5 * |questions| <= Last(cuts) <= |data|
    ensures forall i :: 0 <= i < |questions| ==> cuts[i] < cuts[i + 1]
    decreases |questions|
  {
    hide QuestionStands;
    if questions == [] {
    } else {
      var n := |questions| - 1;
      QuestionSizes(data, cuts[..n + 1], questions[..n]);
      QuestionSpan(data, cuts[n], questions[n], cuts[n + 1]);
    }
  }

  lemma {:induction false} RecordSizes(data: Bytes, cuts: seq<int>, records: seq<Record>)
    requires RecordTiles(data, cuts, records) && 0 <= cuts[0] <= |data|
    ensures cuts[0] + 11 * |records| <= Last(cuts) <= |data|
    ensures forall i :: 0 <= i < |records| ==> cuts[i] < cuts[i + 1]
    decreases |records|
  {
    hide RecordStands;
    if records == [] {
    } else {
      var n := |records| - 1;
      RecordSizes(data, cuts[..n + 1], records[..n]);
      RecordSpan(data, cuts[n], records[n], cuts[n + 1]);
    }
  }

  lemma RdataSizes(data: Bytes, cuts: seq<int>, records: seq<Record>)
    requires RecordTiles(data, cuts, records)
    ensures RdataLengthsHold(records)
  {
    hide RecordStands;
    forall i | 0 <= i < |records| ensures records[i].rdataLen == |records[i].rdata| {
      RdataSize(data, cuts[i], records[i], cuts[i + 1]);
    }
  }

  lemma RdataSize(data: Bytes, offset: int, r: Record, next: int)
    requires RecordStands(data, offset, r, next)
    ensures r.rdataLen == |r.rdata|
  {
  }

  predicate RdataLengthsHold(records: seq<Record>) {
    forall i :: 0 <= i < |records| ==> records[i].rdataLen == |records[i].rdata|
  }

  /** The counts of the header are the lengths of the sections, and the message has at least 5
      bytes for every question and 11 for every record, so a forged count cannot be accepted. */
  lemma {:induction false} MessageSizes(data: Bytes)
    requires MessageAt(data).Ok?
    ensures var (m, end) := MessageAt(data).value;
      && |m.questions| == m.header.qdCount && |m.answers| == m.header.anCount
      && |m.authority| == m.header.nsCount && |m.additional| == m.header.arCount
      && 12 + 5 * m.header.qdCount + 11 * (m.header.anCount + m.header.nsCount + m.header.arCount) <= end <= |data|
      && RdataLengthsHold(m.answers) && RdataLengthsHold(m.authority) && RdataLengthsHold(m.additional)
  {
    hide MessageAt, QuestionTiles, RecordTiles, HeaderWire, RdataLengthsHold;
    var cuts := MessageSound(data);
    var m := MessageAt(data).value.0;
    TilesNonempty(data, m, cuts);
    HeaderIff(data, m.header);
    QuestionSizes(data, cuts.questions, m.questions);
    RecordSizes(data, cuts.answers, m.answers);
    RecordSizes(data, cuts.authority, m.authority);
    RecordSizes(data, cuts.additional, m.additional);
    RdataSizes(data, cuts.answers, m.answers);
    RdataSizes(data, cuts.authority, m.authority);
    RdataSizes(data, cuts.additional, m.additional);
  }

  lemma TilesNonempty(data: Bytes, m: Message, cuts: Cuts)
    requires QuestionTiles(data, cuts.questions, m.questions) && RecordTiles(data, cuts.answers, m.answers)
    requires RecordTiles(data, cuts.authority, m.authority) && RecordTiles(data, cuts.additional, m.additional)
    ensures |cuts.questions| > 0 && |cuts.answers| > 0 && |cuts.authority| > 0 && |cuts.additional| > 0
  {
  }

  // ---------- what follows the message ----------

  lemma StandingNameExtends(data: Bytes, more: Bytes, offset: int, name: Bytes, m: int)
    requires NameStands(data, offset, name, m)
    ensures NameStands(data + more, offset, name, m)
  {
    NameIff(data, offset, name, m);
    NameIff(data + more, offset, name, m);
    hide NameAt, NameStands;
    NameExtends(data, more, offset);
  }

  lemma QuestionExtends(data: Bytes, more: Bytes, offset: int, q: Question, next: int)
    requires QuestionStands(data, offset, q, next)
    ensures QuestionStands(data + more, offset, q, next)
  {
    hide NameStands, QuestionTail;
    var m: nat :| NameStands(data, offset, q.name, m) && OccursAt(data, QuestionTail(q), m) && next == m + 4;
    StandingNameExtends(data, more, offset, q.name, m);
    OccursInExtension(data, more, QuestionTail(q), m);
  }

  lemma RecordExtends(data: Bytes, more: Bytes, offset: int, r: Record, next: int)
    requires RecordStands(data, offset, r, next)
    ensures RecordStands(data + more, offset, r, next)
  {
    hide NameStands, RecordTail;
    var m: nat :| NameStands(data, offset, r.name, m) && OccursAt(data, RecordTail(r), m) && next == m + 10 + |r.rdata|;
    StandingNameExtends(data, more, offset, r.name, m);
    OccursInExtension(data, more, RecordTail(r), m);
  }

  lemma TilesExtend(data: Bytes, more: Bytes, m: Message, cuts: Cuts, end: int)
    requires Tiles(data, m, cuts, end)
    ensures Tiles(data + more, m, cuts, end)
  {
    hide QuestionStands, RecordStands, HeaderWire;
    OccursInExtension(data, more, HeaderWire(m.header), 0);
    QuestionTilesExtend(data, more, cuts.questions, m.questions);
    RecordTilesExtend(data, more, cuts.answers, m.answers);
    RecordTilesExtend(data, more, cuts.authority, m.authority);
    RecordTilesExtend(data, more, cuts.additional, m.additional);
    hide OccursAt, QuestionTiles, RecordTiles;
  }

  lemma QuestionTilesExtend(data: Bytes, more: Bytes, cuts: seq<int>, questions: seq<Question>)
    requires QuestionTiles(data, cuts, questions)
    ensures QuestionTiles(data + more, cuts, questions)
  {
    hide QuestionStands;
    forall i | 0 <= i < |questions| ensures QuestionStands(data + more, cuts[i], questions[i], cuts[i + 1]) {
      QuestionExtends(data, more, cuts[i], questions[i], cuts[i + 1]);
    }
  }

  lemma RecordTilesExtend(data: Bytes, more: Bytes, cuts: seq<int>, records: seq<Record>)
    requires RecordTiles(data, cuts, records)
    ensures RecordTiles(data + more, cuts, records)
  {
    hide RecordStands;
    forall i | 0 <= i < |records| ensures RecordStands(data + more, cuts[i], records[i], cuts[i + 1]) {
      RecordExtends(data, more, cuts[i], records[i], cuts[i + 1]);
    }
  }

  /** Bytes after a message change nothing, although pointers may lead anywhere. */
  lemma {:induction false} MessageExtends(data: Bytes, more: Bytes)
    requires MessageAt(data).Ok?
    ensures MessageAt(data + more) == MessageAt(data)
  {
    hide MessageAt, Tiles;
    var cuts := MessageSound(data);
    TilesExtend(data, more, MessageAt(data).value.0, cuts, MessageAt(data).value.1);
    MessageComplete(data + more, MessageAt(data).value.0, cuts, MessageAt(data).value.1);
  }
}
