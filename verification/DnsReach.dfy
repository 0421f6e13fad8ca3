/** How much of a message the decoder looks at, and so exactly which prefixes it accepts. */
module DnsReach {
  import opened Bytes
  import opened DnsName
  import opened DnsMessage
  import opened DnsLaws

  /** The end of the furthest byte of a name: of one of its pointers or of its zero byte. */
  function NameReach(pos: int, hops: seq<Hop>): int
    decreases |hops|
  {
    if hops == [] then pos + 1
    else Max(if hops[0].Jump? then pos + 2 else 0, NameReach(Next(pos, hops[0]), hops[1..]))
  }

  function NameReachAt(data: Bytes, offset: int): int
    requires NameAt(data, offset).Ok?
  {
    NameReach(offset, Walk(data, offset, 0, 1).value)
  }

  function QuestionReach(data: Bytes, offset: int): int
    requires QuestionAt(data, offset).Ok?
  {
    Max(NameReachAt(data, offset), QuestionAt(data, offset).value.1)
  }

  function RecordReach(data: Bytes, offset: int): int
    requires RecordAt(data, offset).Ok?
  {
    Max(NameReachAt(data, offset), RecordAt(data, offset).value.1)
  }

  function QuestionsReach(data: Bytes, offset: int, count: nat): int
    requires QuestionsAt(data, offset, count).Ok?
  {
    if count == 0 then 0
    else Max(QuestionsReach(data, offset, count - 1), QuestionReach(data, QuestionsAt(data, offset, count - 1).value.1))
  }

  function RecordsReach(data: Bytes, offset: int, count: nat): int
    requires RecordsAt(data, offset, count).Ok?
  {
    if count == 0 then 0
    else Max(RecordsReach(data, offset, count - 1), RecordReach(data, RecordsAt(data, offset, count - 1).value.1))
  }

  /** The end of the furthest byte that decoding depends on. */
  function MessageReach(data: Bytes): int
    requires MessageAt(data).Ok?
  {
    var h := HeaderAt(data);
    var a := QuestionsAt(data, HEADER_SIZE, h.qdCount).value.1;
    var b := RecordsAt(data, a, h.anCount).value.1;
    var c := RecordsAt(data, b, h.nsCount).value.1;
    Max(Max(HEADER_SIZE, QuestionsReach(data, HEADER_SIZE, h.qdCount)),
        Max(RecordsReach(data, a, h.anCount), Max(RecordsReach(data, b, h.nsCount), RecordsReach(data, c, h.arCount))))
  }

  // ---------- names ----------

  lemma {:induction false} UnfoldsInPrefix(data: Bytes, k: nat, pos: int, hops: seq<Hop>)
    requires Unfolds(data, pos, hops) && k <= |data|
    ensures Unfolds(data[..k], pos, hops) <==> NameReach(pos, hops) <= k
    ensures pos < NameReach(pos, hops) <= |data|
    decreases |hops|
  {
    if hops == [] {
    } else {
      var hop := hops[0];
      UnfoldsInPrefix(data, k, Next(pos, hop), hops[1..]);
      if hop.Label? && Next(pos, hop) <= k {
        assert data[..k][pos + 1..pos + 1 + |hop.text|] == data[pos + 1..pos + 1 + |hop.text|];
      }
    }
  }

  lemma WalkIs(data: Bytes, offset: int)
    ensures NameAt(data, offset).Ok? <==> Walk(data, offset, 0, 1).Ok?
    ensures forall p: Bytes :: Walk(p, offset, 0, 1) == Walk(data, offset, 0, 1) ==> NameAt(p, offset) == NameAt(data, offset)
  {
    hide Walk, Labels, End, Join;
  }

  lemma ReachIs(data: Bytes, offset: int)
    requires NameAt(data, offset).Ok?
    ensures Walk(data, offset, 0, 1).Ok? && NameReachAt(data, offset) == NameReach(offset, Walk(data, offset, 0, 1).value)
  {
    hide Walk, Labels, End, Join, NameReach;
  }

  /** A name is decoded from a prefix exactly when the prefix covers its reach. */
  lemma {:induction false} NamePrefixIff(data: Bytes, k: nat, offset: int)
    requires NameAt(data, offset).Ok? && k <= |data|
    ensures NameAt(data[..k], offset).Ok? <==> NameReachAt(data, offset) <= k
    ensures NameAt(data[..k], offset).Ok? ==> NameAt(data[..k], offset) == NameAt(data, offset)
    ensures NameReachAt(data, offset) <= |data|
  {
    hide NameAt, NameReachAt, NameReach, Walk, Unfolds, Labels, Jumps, LabelBytes, End, Join;
    WalkIs(data, offset);
    WalkIs(data[..k], offset);
    ReachIs(data, offset);
    var hops := Walk(data, offset, 0, 1).value;
    WalkSound(data, offset, 0, 1);
    UnfoldsInPrefix(data, k, offset, hops);
    if NameReachAt(data, offset) <= k {
      WalkComplete(data[..k], offset, 0, 1, hops);
    }
    if NameAt(data[..k], offset).Ok? {
      NameExtends(data[..k], data[k..], offset);
      assert data[..k] + data[k..] == data;
      var short := Walk(data[..k], offset, 0, 1).value;
      WalkSound(data[..k], offset, 0, 1);
      UnfoldsExtends(data[..k], data[k..], offset, short);
      WalkComplete(data, offset, 0, 1, short);
    }
  }

  // ---------- items ----------

  lemma QuestionPrefixIff(data: Bytes, k: nat, offset: int)
    requires QuestionAt(data, offset).Ok? && k <= |data|
    ensures QuestionAt(data[..k], offset).Ok? <==> QuestionReach(data, offset) <= k
    ensures QuestionAt(data[..k], offset).Ok? ==> QuestionAt(data[..k], offset) == QuestionAt(data, offset)
    ensures QuestionReach(data, offset) <= |data|
  {
    hide NameAt, NameReachAt;
    NamePrefixIff(data, k, offset);
    NameExtends(data, [], offset);
  }

  lemma RecordPrefixIff(data: Bytes, k: nat, offset: int)
    requires RecordAt(data, offset).Ok? && k <= |data|
    ensures RecordAt(data[..k], offset).Ok? <==> RecordReach(data, offset) <= k
    ensures RecordAt(data[..k], offset).Ok? ==> RecordAt(data[..k], offset) == RecordAt(data, offset)
    ensures RecordReach(data, offset) <= |data|
  {
    hide NameAt, NameReachAt, RecordFields;
    NamePrefixIff(data, k, offset);
    NameExtends(data, [], offset);
    if NameAt(data[..k], offset).Ok? {
      NameExtends(data[..k], [], offset);
    }
    var (name, m) := NameAt(data, offset).value;
    FieldsPrefixIff(data, k, name, m);
  }

  lemma FieldsPrefixIff(data: Bytes, k: nat, name: Bytes, m: nat)
    requires RecordFields(data, name, m).Ok? && k <= |data|
    ensures RecordFields(data, name, m).value.1 <= |data|
    ensures m <= k ==> (RecordFields(data[..k], name, m).Ok? <==> RecordFields(data, name, m).value.1 <= k)
    ensures m <= k && RecordFields(data[..k], name, m).Ok? ==> RecordFields(data[..k], name, m) == RecordFields(data, name, m)
    ensures m < RecordFields(data, name, m).value.1
  {
    var end := RecordFields(data, name, m).value.1;
    if end <= k {
      assert data[..k][m + 10..end] == data[m + 10..end];
    }
  }

  // ---------- sections ----------

  lemma {:induction false} QuestionsPrefixIff(data: Bytes, k: nat, offset: int, count: nat)
    requires QuestionsAt(data, offset, count).Ok? && k <= |data|
    ensures QuestionsAt(data[..k], offset, count).Ok? <==> QuestionsReach(data, offset, count) <= k
    ensures QuestionsAt(data[..k], offset, count).Ok? ==> QuestionsAt(data[..k], offset, count) == QuestionsAt(data, offset, count)
    ensures QuestionsReach(data, offset, count) <= |data|
    decreases count
  {
    hide QuestionAt, QuestionReach;
    if count == 0 {
    } else {
      QuestionsPrefixIff(data, k, offset, count - 1);
      QuestionPrefixIff(data, k, QuestionsAt(data, offset, count - 1).value.1);
    }
  }

  lemma {:induction false} RecordsPrefixIff(data: Bytes, k: nat, offset: int, count: nat)
    requires RecordsAt(data, offset, count).Ok? && k <= |data|
    ensures RecordsAt(data[..k], offset, count).Ok? <==> RecordsReach(data, offset, count) <= k
    ensures RecordsAt(data[..k], offset, count).Ok? ==> RecordsAt(data[..k], offset, count) == RecordsAt(data, offset, count)
    ensures RecordsReach(data, offset, count) <= |data|
    decreases count
  {
    hide RecordAt, RecordReach;
    if count == 0 {
    } else {
      RecordsPrefixIff(data, k, offset, count - 1);
      RecordPrefixIff(data, k, RecordsAt(data, offset, count - 1).value.1);
    }
  }

  lemma HeaderInPrefix(data: Bytes, k: nat)
    requires HEADER_SIZE <= k <= |data|
    ensures HeaderAt(data[..k]) == HeaderAt(data)
  {
  }

  lemma MessagePrefixIff(data: Bytes, k: nat)
    requires MessageAt(data).Ok? && k <= |data|
    ensures MessageAt(data[..k]).Ok? <==> MessageReach(data) <= k
    ensures MessageAt(data[..k]).Ok? ==> MessageAt(data[..k]) == MessageAt(data)
    ensures MessageReach(data) <= |data|
  {
    if HEADER_SIZE <= k {
      HeaderInPrefix(data, k);
    }
    hide QuestionsAt, RecordsAt, QuestionsReach, RecordsReach, HeaderAt;
    var h := HeaderAt(data);
    var a := QuestionsAt(data, HEADER_SIZE, h.qdCount).value.1;
    var b := RecordsAt(data, a, h.anCount).value.1;
    var c := RecordsAt(data, b, h.nsCount).value.1;
    QuestionsPrefixIff(data, k, HEADER_SIZE, h.qdCount);
    RecordsPrefixIff(data, k, a, h.anCount);
    RecordsPrefixIff(data, k, b, h.nsCount);
    RecordsPrefixIff(data, k, c, h.arCount);
  }

  lemma AtLeastHeader(data: Bytes)
    requires MessageAt(data).Ok?
    ensures HEADER_SIZE <= MessageReach(data)
  {
  }

  /** A prefix of a message is accepted exactly when it covers the reach, and then with the same
      result. The reach covers the whole message, so that a message cut before its end is never
      accepted, not even as another message. */
  lemma {:induction false} PrefixIff(data: Bytes, k: nat)
    requires MessageAt(data).Ok? && k <= |data|
    ensures MessageAt(data[..k]).Ok? <==> MessageReach(data) <= k
    ensures MessageAt(data[..k]).Ok? ==> MessageAt(data[..k]) == MessageAt(data)
    ensures MessageAt(data).value.1 <= MessageReach(data) <= |data|
  {
    hide MessageAt, MessageReach;
    MessagePrefixIff(data, k);
    AtLeastHeader(data);
    MessagePrefixIff(data, MessageReach(data));
    MessageSizes(data[..MessageReach(data)]);
  }

  // A question whose name is a pointer past the end of the message, to a zero byte.
  const POINTS_PAST: Bytes := [0, 0, 0, 0, 0, 1, 0, 0, 0, 0, 0, 0, 0xC0, 18, 0, 1, 0, 1, 0]

  lemma PastTheEnd()
    ensures NameAt(POINTS_PAST, 12) == Ok(([], 14)) && NameReachAt(POINTS_PAST, 12) == 19
  {
    var hops := [Jump(18)];
    assert hops[1..] == [];
    assert Unfolds(POINTS_PAST, 18, []) && Unfolds(POINTS_PAST, 12, hops);
    WalkComplete(POINTS_PAST, 12, 0, 1, hops);
  }

  /** The end may be short of the reach: then the message without the rest is refused. */
  lemma EndIsNotReach()
    ensures MessageAt(POINTS_PAST).Ok? && MessageAt(POINTS_PAST).value.1 == 18 < MessageReach(POINTS_PAST) == 19
    ensures MessageAt(POINTS_PAST[..18]).Err?
  {
    PastTheEnd();
    hide NameAt, NameReachAt;
    assert QuestionsAt(POINTS_PAST, 12, 0).Ok?;
    assert QuestionsReach(POINTS_PAST, 12, 1) == 19;
    PrefixIff(POINTS_PAST, 18);
  }
}
