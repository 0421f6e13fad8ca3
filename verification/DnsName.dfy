/** Domain names on the wire (sections 2.3.4, 3.1 and 4.1.4 of RFC 1035): labels, compression
    pointers, and the encoder. */
module DnsName {
  import opened Bytes

  const DOT: byte := 46
  const MAX_JUMPS := 16
  const MAX_NAME := 255
  const MAX_LABEL := 63

  // ---------- decoding ----------

  // One step of a name: a label, or a pointer to where it continues.
  datatype Hop = Label(text: Bytes) | Jump(target: nat)

  datatype NameError = OutOfBounds | TruncatedPointer | TooManyJumps | BadLabelLength | LabelOutOfBounds | NameTooLong

  // length&0xC0 == 0xC0
  predicate IsPointer(b: byte) { 0xC0 <= b }

  function Target(high: byte, low: byte): nat
    requires IsPointer(high)
  {
    (high as int - 0xC0) * 256 + low as int
  }

  function Next(pos: int, hop: Hop): int {
    match hop
    case Jump(target) => target
    case Label(text) => pos + 1 + |text|
  }

  /** What stands at `pos`, with `jumps` pointers followed and `length` bytes of expanded name
      seen so far: nothing more, one more step, or an error. */
  function Turn(data: Bytes, pos: int, jumps: nat, length: nat): (r: Result<Option<Hop>, NameError>)
    ensures r.Ok? && r.value.Some? && r.value.value.Jump? ==> jumps + 1 <= MAX_JUMPS
    ensures r.Ok? && r.value.Some? && r.value.value.Label? ==> length + 1 + |r.value.value.text| <= MAX_NAME
  {
    if pos < 0 || |data| <= pos then Err(OutOfBounds)
    else
      var b := data[pos];
      if b == 0 then Ok(None)
      else if IsPointer(b) then
        if |data| <= pos + 1 then Err(TruncatedPointer)
        else if MAX_JUMPS < jumps + 1 then Err(TooManyJumps)
        else Ok(Some(Jump(Target(b, data[pos + 1]))))
      else if b > MAX_LABEL then Err(BadLabelLength)
      else if b > |data| - pos - 1 then Err(LabelOutOfBounds)
      else if length + 1 + b > MAX_NAME then Err(NameTooLong)
      else Ok(Some(Label(data[pos + 1..pos + 1 + b])))
  }

  /** All steps from `pos` to the end of the name. */
  function Walk(data: Bytes, pos: int, jumps: nat, length: nat): Result<seq<Hop>, NameError>
    requires jumps <= MAX_JUMPS && length <= MAX_NAME
    decreases MAX_JUMPS - jumps + (MAX_NAME - length)
  {
    match Turn(data, pos, jumps, length)
    case Err(e) => Err(e)
    case Ok(None) => Ok([])
    case Ok(Some(hop)) =>
      match hop
      case Jump(target) => Onward([hop], Walk(data, target, jumps + 1, length))
      case Label(text) => Onward([hop], Walk(data, pos + 1 + |text|, jumps, length + 1 + |text|))
  }

  function Onward(front: seq<Hop>, r: Result<seq<Hop>, NameError>): Result<seq<Hop>, NameError> {
    match r
    case Ok(hops) => Ok(front + hops)
    case Err(_) => r
  }

  function Labels(hops: seq<Hop>): seq<Bytes> {
    if hops == [] then []
    else (if hops[0].Label? then [hops[0].text] else []) + Labels(hops[1..])
  }

  function Jumps(hops: seq<Hop>): nat {
    if hops == [] then 0 else (if hops[0].Jump? then 1 else 0) + Jumps(hops[1..])
  }

  // The bytes that the labels take when written out, lengths included.
  function LabelBytes(hops: seq<Hop>): nat {
    if hops == [] then 0 else (if hops[0].Label? then 1 + |hops[0].text| else 0) + LabelBytes(hops[1..])
  }

  /** Where the name that starts at `pos` ends: after its zero byte or its first pointer. */
  function End(pos: int, hops: seq<Hop>): int
    decreases |hops|
  {
    if hops == [] then pos + 1
    else if hops[0].Jump? then pos + 2
    else End(pos + 1 + |hops[0].text|, hops[1..])
  }

  function NameAt(data: Bytes, offset: int): Result<(Bytes, int), NameError> {
    match Walk(data, offset, 0, 1)
    case Err(e) => Err(e)
    case Ok(hops) => Ok((Join(Labels(hops), [DOT]), End(offset, hops)))
  }

  lemma {:induction false} HopsAppend(pos: int, hops: seq<Hop>, more: seq<Hop>)
    ensures Labels(hops + more) == Labels(hops) + Labels(more)
    ensures Jumps(hops + more) == Jumps(hops) + Jumps(more)
    ensures LabelBytes(hops + more) == LabelBytes(hops) + LabelBytes(more)
    ensures End(pos, hops + more) ==
      if Jumps(hops) > 0 then End(pos, hops) else End(pos + LabelBytes(hops), more)
    decreases |hops|
  {
    if hops == [] {
      assert hops + more == more;
    } else {
      assert (hops + more)[0] == hops[0] && (hops + more)[1..] == hops[1..] + more;
      HopsAppend(if hops[0].Label? then pos + 1 + |hops[0].text| else pos, hops[1..], more);
    }
  }

  lemma AppendHop(pos: int, hops: seq<Hop>, hop: Hop)
    ensures Labels(hops + [hop]) == Labels(hops) + if hop.Label? then [hop.text] else []
    ensures Jumps(hops + [hop]) == Jumps(hops) + if hop.Jump? then 1 else 0
    ensures LabelBytes(hops + [hop]) == LabelBytes(hops) + if hop.Label? then 1 + |hop.text| else 0
    ensures Jumps(hops) > 0 ==> End(pos, hops + [hop]) == End(pos, hops)
    ensures Jumps(hops) == 0 && hop.Jump? ==> End(pos, hops + [hop]) == pos + LabelBytes(hops) + 2
  {
    HopsAppend(pos, hops, [hop]);
  }

  lemma EndWithoutJump(pos: int, hops: seq<Hop>)
    ensures Jumps(hops) == 0 ==> End(pos, hops) == pos + LabelBytes(hops) + 1
  {
    HopsAppend(pos, hops, []);
    assert hops + [] == hops;
  }

  /** decodeName. `rounds` counts the turns of its loop: at most 16 pointers, 127 labels and
      the turn that ends it. */
  method DecodeName(data: Bytes, offset: int) returns (r: Result<(Bytes, int), NameError>, ghost rounds: nat)
    ensures r == NameAt(data, offset)
    ensures rounds <= 144
  {
    hide Labels, Jumps, LabelBytes, End, Join, Target, Walk, Onward, IsPointer;
    EmptyHops(offset);
    var labels: seq<Bytes> := [];
    var current, nextOffset, jumps, nameLength := offset, -1, 0, 1;
    ghost var hops: seq<Hop> := [];
    rounds := 0;
    OnwardNothing(Walk(data, offset, 0, 1));
    while true
      invariant 0 <= jumps <= MAX_JUMPS && 1 <= nameLength <= MAX_NAME
      invariant Walk(data, offset, 0, 1) == Onward(hops, Walk(data, current, jumps, nameLength))
      invariant labels == Labels(hops) && jumps == Jumps(hops)
      invariant jumps > 0 ==> nextOffset == End(offset, hops) >= 0
      invariant jumps == 0 ==> nextOffset == -1 && current == offset + LabelBytes(hops)
      invariant rounds >= jumps && 2 * (rounds - jumps) <= nameLength - 1
      decreases MAX_JUMPS - jumps + (MAX_NAME - nameLength)
    {
      WalkTurn(hops, data, current, jumps, nameLength);
      rounds := rounds + 1;
      if current < 0 || current >= |data| {
        return Err(OutOfBounds), rounds;
      }
      var length := data[current];
      if length == 0 {
        EndWithoutJump(offset, hops);
        if nextOffset == -1 {
          nextOffset := current + 1;
        }
        return Ok((Join(labels, [DOT]), nextOffset)), rounds;
      }
      if IsPointer(length) {
        if current + 1 >= |data| {
          return Err(TruncatedPointer), rounds;
        }
        var pointer := Target(length, data[current + 1]);
        AppendHop(offset, hops, Jump(pointer));
        hops := hops + [Jump(pointer)];
        if nextOffset == -1 {
          nextOffset := current + 2;
        }
        jumps := jumps + 1;
        if jumps > MAX_JUMPS {
          return Err(TooManyJumps), rounds;
        }
        current := pointer;
        continue;
      }
      if length > MAX_LABEL {
        return Err(BadLabelLength), rounds;
      }
      if length > |data| - current - 1 {
        return Err(LabelOutOfBounds), rounds;
      }
      nameLength := nameLength + 1 + length;
      if nameLength > MAX_NAME {
        return Err(NameTooLong), rounds;
      }
      current := current + 1;
      labels := labels + [data[current..current + length]];
      AppendHop(offset, hops, Label(data[current..current + length]));
      hops := hops + [Label(data[current..current + length])];
      current := current + length;
    }
  }

  /** One turn of the loop, as the walk sees it. */
  lemma WalkTurn(hops: seq<Hop>, data: Bytes, pos: int, jumps: nat, length: nat)
    requires jumps <= MAX_JUMPS && length <= MAX_NAME
    ensures Onward(hops, Walk(data, pos, jumps, length)) ==
      match Turn(data, pos, jumps, length)
      case Err(e) => Err(e)
      case Ok(None) => Ok(hops)
      case Ok(Some(hop)) =>
        match hop
        case Jump(target) => Onward(hops + [hop], Walk(data, target, jumps + 1, length))
        case Label(text) => Onward(hops + [hop], Walk(data, pos + 1 + |text|, jumps, length + 1 + |text|))
  {
    hide Turn;
    assert hops + [] == hops;
    match Turn(data, pos, jumps, length)
    case Ok(Some(hop)) =>
      OnwardTwice(hops, hop, if hop.Jump? then Walk(data, hop.target, jumps + 1, length)
                             else Walk(data, pos + 1 + |hop.text|, jumps, length + 1 + |hop.text|));
    case _ =>
  }

  lemma OnwardNothing(r: Result<seq<Hop>, NameError>)
    ensures Onward([], r) == r
  {
    if r.Ok? {
      assert [] + r.value == r.value;
    }
  }

  lemma EmptyHops(pos: int)
    ensures Labels([]) == [] && Jumps([]) == 0 && LabelBytes([]) == 0
  {
  }

  lemma OnwardTwice(hops: seq<Hop>, hop: Hop, r: Result<seq<Hop>, NameError>)
    ensures Onward(hops, Onward([hop], r)) == Onward(hops + [hop], r)
  {
    if r.Ok? {
      assert hops + ([hop] + r.value) == hops + [hop] + r.value;
    }
  }

  // ---------- what a name on the wire is ----------

  /** `hops` is the unfolding of the name at `pos`, down to its zero byte; no limits. */
  ghost predicate Unfolds(data: Bytes, pos: int, hops: seq<Hop>)
    decreases |hops|
  {
    && 0 <= pos < |data|
    && if hops == [] then data[pos] == 0
       else StepsTo(data, pos, hops[0]) && Unfolds(data, Next(pos, hops[0]), hops[1..])
  }

  ghost predicate StepsTo(data: Bytes, pos: int, hop: Hop) {
    && 0 <= pos < |data|
    && match hop
       case Jump(target) =>
         IsPointer(data[pos]) && pos + 1 < |data| && target == Target(data[pos], data[pos + 1])
       case Label(text) =>
         && 1 <= |text| == data[pos] <= MAX_LABEL
         && pos + 1 + |text| <= |data| && text == data[pos + 1..pos + 1 + |text|]
  }

  lemma {:induction false} WalkSound(data: Bytes, pos: int, jumps: nat, length: nat)
    requires jumps <= MAX_JUMPS && length <= MAX_NAME
    requires Walk(data, pos, jumps, length).Ok?
    ensures var hops := Walk(data, pos, jumps, length).value;
      Unfolds(data, pos, hops) && jumps + Jumps(hops) <= MAX_JUMPS && length + LabelBytes(hops) <= MAX_NAME
    decreases MAX_JUMPS - jumps + (MAX_NAME - length)
  {
    var turn := Turn(data, pos, jumps, length).value;
    if turn.Some? {
      var hop := turn.value;
      var (j, l) := if hop.Jump? then (jumps + 1, length) else (jumps, length + 1 + |hop.text|);
      WalkSound(data, Next(pos, hop), j, l);
      assert Walk(data, pos, jumps, length).value == [hop] + Walk(data, Next(pos, hop), j, l).value;
      assert ([hop] + Walk(data, Next(pos, hop), j, l).value)[1..] == Walk(data, Next(pos, hop), j, l).value;
    }
  }

  lemma {:induction false} WalkComplete(data: Bytes, pos: int, jumps: nat, length: nat, hops: seq<Hop>)
    requires Unfolds(data, pos, hops) && jumps + Jumps(hops) <= MAX_JUMPS && length + LabelBytes(hops) <= MAX_NAME
    ensures Walk(data, pos, jumps, length) == Ok(hops)
    decreases |hops|
  {
    if hops == [] {
    } else {
      var hop := hops[0];
      assert hops == [hop] + hops[1..];
      if hop.Jump? {
        WalkComplete(data, hop.target, jumps + 1, length, hops[1..]);
      } else {
        WalkComplete(data, pos + 1 + |hop.text|, jumps, length + 1 + |hop.text|, hops[1..]);
      }
    }
  }

  ghost predicate UnfoldsWithin(data: Bytes, offset: int, hops: seq<Hop>) {
    Unfolds(data, offset, hops) && Jumps(hops) <= MAX_JUMPS && 1 + LabelBytes(hops) <= MAX_NAME
  }

  /** `name` stands at the offset and ends before `next`: following labels and pointers reaches
      a zero byte within the limits, the labels joined by dots are the name, and `next` is the
      position after the zero or after the first pointer. */
  ghost predicate NameStands(data: Bytes, offset: int, name: Bytes, next: int) {
    exists hops :: UnfoldsWithin(data, offset, hops) && name == Join(Labels(hops), [DOT]) && next == End(offset, hops)
  }

  /** A name is decoded exactly when it stands there: no zero byte within 16 pointers and 255
      expanded bytes, no name. */
  lemma {:induction false} NameIff(data: Bytes, offset: int, name: Bytes, next: int)
    ensures NameAt(data, offset) == Ok((name, next)) <==> NameStands(data, offset, name, next)
  {
    if NameAt(data, offset).Ok? {
      WalkSound(data, offset, 0, 1);
      assert UnfoldsWithin(data, offset, Walk(data, offset, 0, 1).value);
    }
    forall hops | UnfoldsWithin(data, offset, hops) ensures Walk(data, offset, 0, 1) == Ok(hops) {
      WalkComplete(data, offset, 0, 1, hops);
    }
  }

  /** The pointers and labels `hops` lead from one position to another. */
  ghost predicate Leads(data: Bytes, from: int, hops: seq<Hop>, to: int)
    decreases |hops|
  {
    if hops == [] then from == to
    else StepsTo(data, from, hops[0]) && Leads(data, Next(from, hops[0]), hops[1..], to)
  }

  lemma {:induction false} UnfoldingContinues(data: Bytes, pos: int, hops: seq<Hop>, lead: seq<Hop>, to: int)
    requires Unfolds(data, pos, hops) && Leads(data, pos, lead, to)
    ensures |lead| <= |hops| && Unfolds(data, to, hops[|lead|..])
    decreases |lead|
  {
    if lead == [] {
    } else {
      assert hops != [] && hops[0] == lead[0];
      UnfoldingContinues(data, Next(pos, lead[0]), hops[1..], lead[1..], to);
      assert hops[1..][|lead| - 1..] == hops[|lead|..];
    }
  }

  lemma {:induction false} NoUnfoldingFromCycle(data: Bytes, pos: int, cycle: seq<Hop>, hops: seq<Hop>)
    requires cycle != [] && Leads(data, pos, cycle, pos)
    ensures !Unfolds(data, pos, hops)
    decreases |hops|
  {
    if Unfolds(data, pos, hops) {
      UnfoldingContinues(data, pos, hops, cycle, pos);
      NoUnfoldingFromCycle(data, pos, cycle, hops[|cycle|..]);
      assert false;
    }
  }

  /** A name that runs into a cycle of pointers, with or without labels in it, is rejected. */
  lemma {:induction false} CycleRejected(data: Bytes, offset: int, lead: seq<Hop>, pos: int, cycle: seq<Hop>)
    requires Leads(data, offset, lead, pos)
    requires cycle != [] && Leads(data, pos, cycle, pos)
    ensures NameAt(data, offset).Err?
  {
    if NameAt(data, offset).Ok? {
      var hops := Walk(data, offset, 0, 1).value;
      WalkSound(data, offset, 0, 1);
      UnfoldingContinues(data, offset, hops, lead, pos);
      NoUnfoldingFromCycle(data, pos, cycle, hops[|lead|..]);
      assert false;
    }
  }

  lemma {:induction false} UnfoldsExtends(data: Bytes, more: Bytes, pos: int, hops: seq<Hop>)
    requires Unfolds(data, pos, hops)
    ensures Unfolds(data + more, pos, hops)
    ensures pos < End(pos, hops) <= |data|
    decreases |hops|
  {
    if hops == [] {
    } else {
      var hop := hops[0];
      if hop.Label? {
        assert (data + more)[pos + 1..pos + 1 + |hop.text|] == data[pos + 1..pos + 1 + |hop.text|];
      }
      UnfoldsExtends(data, more, Next(pos, hop), hops[1..]);
    }
  }

  /** A decoded name lies inside the message and does not depend on what follows the message. */
  lemma {:induction false} NameExtends(data: Bytes, more: Bytes, offset: int)
    requires NameAt(data, offset).Ok?
    ensures NameAt(data + more, offset) == NameAt(data, offset)
    ensures 0 <= offset < NameAt(data, offset).value.1 <= |data|
  {
    WalkSound(data, offset, 0, 1);
    var hops := Walk(data, offset, 0, 1).value;
    UnfoldsExtends(data, more, offset, hops);
    WalkComplete(data + more, offset, 0, 1, hops);
  }

  // ---------- encoding ----------

  datatype EncodeError = EmptyName | EmptyLabel | LabelTooLong | EncodedTooLong

  /** strings.TrimSuffix(name, "."). */
  function TrimDot(name: Bytes): Bytes {
    if name != [] && name[|name| - 1] == DOT then name[..|name| - 1] else name
  }

  function LabelFault(labels: seq<Bytes>): Option<EncodeError> {
    if labels == [] then None
    else if labels[0] == [] then Some(EmptyLabel)
    else if |labels[0]| > MAX_LABEL then Some(LabelTooLong)
    else LabelFault(labels[1..])
  }

  predicate FitLabels(labels: seq<Bytes>) {
    forall i :: 0 <= i < |labels| ==> 1 <= |labels[i]| <= MAX_LABEL
  }

  lemma {:induction false} LabelFaultIff(labels: seq<Bytes>)
    ensures LabelFault(labels) == None <==> FitLabels(labels)
  {
    if labels == [] {
    } else {
      LabelFaultIff(labels[1..]);
      assert forall i :: 1 <= i < |labels| ==> labels[i] == labels[1..][i - 1];
    }
  }

  function LabelsWire(labels: seq<Bytes>): Bytes
    requires FitLabels(labels)
  {
    if labels == [] then [] else [|labels[0]|] + labels[0] + LabelsWire(labels[1..])
  }

  function NameWire(name: Bytes): Result<Bytes, EncodeError> {
    if name == [] then Err(EmptyName)
    else if TrimDot(name) == [] then Ok([0])
    else
      var labels := Split(TrimDot(name), [DOT]);
      match LabelFault(labels)
      case Some(e) => Err(e)
      case None =>
        LabelFaultIff(labels);
        var encoded := LabelsWire(labels) + [0];
        if |encoded| > MAX_NAME then Err(EncodedTooLong) else Ok(encoded)
  }

  lemma {:induction false} LabelsWireAppend(labels: seq<Bytes>, text: Bytes)
    requires FitLabels(labels) && 1 <= |text| <= MAX_LABEL
    ensures LabelsWire(labels + [text]) == LabelsWire(labels) + [|text|] + text
    decreases |labels|
  {
    if labels == [] {
      assert labels + [text] == [text];
      assert LabelsWire([text]) == [|text|] + text + [];
    } else {
      assert (labels + [text])[0] == labels[0] && (labels + [text])[1..] == labels[1..] + [text];
      LabelsWireAppend(labels[1..], text);
    }
  }

  lemma {:induction false} LabelFaultFirst(labels: seq<Bytes>, i: nat)
    requires i <= |labels| && FitLabels(labels[..i])
    ensures LabelFault(labels) == LabelFault(labels[i..])
    decreases i
  {
    if i == 0 {
    } else {
      assert labels[..i][0] == labels[0];
      assert labels[1..][..i - 1] == labels[..i][1..];
      LabelFaultFirst(labels[1..], i - 1);
      assert labels[1..][i - 1..] == labels[i..];
    }
  }

  lemma NoLabelsWire()
    ensures LabelsWire([]) == []
  {
  }

  method EncodeName(name: Bytes) returns (r: Result<Bytes, EncodeError>)
    ensures r == NameWire(name)
  {
    hide Split, TrimDot, LabelsWire, Join;
    assert LabelsWire([]) == [] by { NoLabelsWire(); }
    if name == [] {
      return Err(EmptyName);
    }
    var trimmed := TrimDot(name);
    if trimmed == [] {
      return Ok([0]);
    }
    var labels := Split(trimmed, [DOT]);
    var encoded: Bytes := [];
    for i := 0 to |labels|
      invariant FitLabels(labels[..i])
      invariant encoded == LabelsWire(labels[..i])
    {
      var text := labels[i];
      LabelFaultFirst(labels, i);
      if text == [] {
        return Err(EmptyLabel);
      }
      if |text| > MAX_LABEL {
        return Err(LabelTooLong);
      }
      assert labels[..i + 1] == labels[..i] + [text];
      LabelsWireAppend(labels[..i], text);
      encoded := encoded + [|text|];
      encoded := encoded + text;
    }
    assert labels[..|labels|] == labels;
    LabelFaultIff(labels);
    encoded := encoded + [0];
    if |encoded| > MAX_NAME {
      return Err(EncodedTooLong);
    }
    return Ok(encoded);
  }

  /** A name can be encoded exactly when, without one trailing dot, it is the root or its
      pieces between dots have 1 to 63 bytes and it has at most 253; only the empty string is
      not even the root. */
  lemma {:induction false} NameWireIff(name: Bytes)
    ensures NameWire(name).Ok? <==>
      name != [] && (TrimDot(name) == [] || (FitLabels(Split(TrimDot(name), [DOT])) && |TrimDot(name)| <= MAX_NAME - 2))
  {
    var t := TrimDot(name);
    if t != [] {
      WireLength(t);
      LabelFaultIff(Split(t, [DOT]));
      hide Split, TrimDot, LabelFault, LabelsWire;
    }
  }

  lemma WireLength(t: Bytes)
    ensures var parts := Split(t, [DOT]); FitLabels(parts) ==> |LabelsWire(parts)| == |t| + 1
  {
    hide *;
    if FitLabels(Split(t, [DOT])) {
      WireSize(Split(t, [DOT]));
    }
  }

  // ---------- the two together ----------

  function LabelHops(labels: seq<Bytes>): (hops: seq<Hop>)
    ensures |hops| == |labels|
  {
    seq(|labels|, i requires 0 <= i < |labels| => Label(labels[i]))
  }

  lemma {:induction false} LabelHopsAre(labels: seq<Bytes>, pos: int)
    requires FitLabels(labels)
    ensures var hops := LabelHops(labels);
      && Labels(hops) == labels && Jumps(hops) == 0 && LabelBytes(hops) == |LabelsWire(labels)|
      && End(pos, hops) == pos + |LabelsWire(labels)| + 1
    decreases |labels|
  {
    if labels == [] {
    } else {
      assert LabelHops(labels)[1..] == LabelHops(labels[1..]);
      LabelHopsAre(labels[1..], pos + 1 + |labels[0]|);
      assert [labels[0]] + labels[1..] == labels;
    }
  }

  lemma FirstLabelOfWire(data: Bytes, pos: nat, labels: seq<Bytes>)
    requires labels != [] && FitLabels(labels)
    requires OccursAt(data, LabelsWire(labels) + [0], pos)
    ensures StepsTo(data, pos, Label(labels[0]))
    ensures OccursAt(data, LabelsWire(labels[1..]) + [0], pos + 1 + |labels[0]|)
  {
    var text, rest := labels[0], LabelsWire(labels[1..]) + [0];
    WireCons(labels);
    hide LabelsWire;
    OccursParts(data, [|text|] + text, rest, pos);
    OccursParts(data, [|text|], text, pos);
    OccursByte(data, [|text|], pos, 0);
  }

  lemma WireCons(labels: seq<Bytes>)
    requires labels != [] && FitLabels(labels)
    ensures LabelsWire(labels) + [0] == [|labels[0]|] + labels[0] + (LabelsWire(labels[1..]) + [0])
  {
  }

  lemma {:induction false} LabelsUnfold(data: Bytes, pos: nat, labels: seq<Bytes>)
    requires FitLabels(labels)
    requires OccursAt(data, LabelsWire(labels) + [0], pos)
    ensures Unfolds(data, pos, LabelHops(labels))
    decreases |labels|
  {
    if labels == [] {
      OccursByte(data, [0], pos, 0);
    } else {
      FirstLabelOfWire(data, pos, labels);
      assert LabelHops(labels)[1..] == LabelHops(labels[1..]);
      hide OccursAt, LabelsWire;
      LabelsUnfold(data, pos + 1 + |labels[0]|, labels[1..]);
    }
  }

  /** Wherever an encoded name stands in a message, it is decoded as the name without one
      trailing dot and ends exactly where the encoding ends. */
  lemma {:induction false} NameRoundTrip(name: Bytes, data: Bytes, pos: nat)
    requires NameWire(name).Ok? && OccursAt(data, NameWire(name).value, pos)
    ensures NameAt(data, pos) == Ok((TrimDot(name), pos + |NameWire(name).value|))
  {
    hide NameWire, Unfolds, Walk;
    var labels := EncodedLabels(name);
    LabelsUnfold(data, pos, labels);
    LabelHopsAre(labels, pos);
    WalkComplete(data, pos, 0, 1, LabelHops(labels));
  }

  lemma EncodedLabels(name: Bytes) returns (labels: seq<Bytes>)
    requires NameWire(name).Ok?
    ensures FitLabels(labels) && Join(labels, [DOT]) == TrimDot(name)
    ensures NameWire(name).value == LabelsWire(labels) + [0]
    ensures 1 + |LabelsWire(labels)| <= MAX_NAME
  {
    labels := if TrimDot(name) == [] then [] else Split(TrimDot(name), [DOT]);
    LabelFaultIff(labels);
  }

  lemma {:induction false} WireSize(labels: seq<Bytes>)
    requires labels != [] && FitLabels(labels)
    ensures |LabelsWire(labels)| == |Join(labels, [DOT])| + 1
    decreases |labels|
  {
    if |labels| > 1 {
      assert FitLabels(labels[1..]);
      WireSize(labels[1..]);
    } else {
      assert LabelsWire(labels[1..]) == [];
    }
  }

  lemma {:induction false} SplitPieces(s: Bytes)
    ensures forall p <- Split(s, [DOT]) :: |p| <= |s|
    decreases |s|
  {
    var i := Find(s, [DOT]);
    if i != -1 {
      SplitPieces(s[i + 1..]);
    }
  }

  lemma SplitAtFirstDot(first: Bytes, rest: Bytes)
    requires Find(first, [DOT]) == -1
    ensures Split(first + [DOT] + rest, [DOT]) == [first] + Split(rest, [DOT])
  {
    var s := first + [DOT] + rest;
    ByteAbsent(first, DOT);
    FindAfterText(first, [DOT], rest);
    assert s[..|first|] == first && s[|first| + 1..] == rest;
  }

  lemma SplitWhole(s: Bytes)
    requires Find(s, [DOT]) == -1
    ensures Split(s, [DOT]) == [s]
  {
  }

  /** The pieces between dots of a + "." + b are those of a and those of b. */
  lemma {:induction false} SplitAtDot(a: Bytes, b: Bytes)
    ensures Split(a + [DOT] + b, [DOT]) == Split(a, [DOT]) + Split(b, [DOT])
    decreases |a|
  {
    hide *;
    var i := Find(a, [DOT]);
    if i == -1 {
      SplitWhole(a);
      SplitAtFirstDot(a, b);
    } else {
      var first, inner := CutAtDot(a);
      assert a + [DOT] + b == first + [DOT] + (inner + [DOT] + b);
      SplitAtFirstDot(first, inner);
      SplitAtFirstDot(first, inner + [DOT] + b);
      SplitAtDot(inner, b);
    }
  }

  lemma CutAtDot(s: Bytes) returns (first: Bytes, rest: Bytes)
    requires Find(s, [DOT]) != -1
    ensures s == first + [DOT] + rest && Find(first, [DOT]) == -1
  {
    CutBefore(s, [DOT]);
    var i := Find(s, [DOT]);
    first, rest := s[..i], s[i + 1..];
    assert s == s[..i] + s[i..i + 1] + s[i + 1..];
  }

  lemma {:induction false} PiecesOfLabelsFit(labels: seq<Bytes>)
    requires forall i :: 0 <= i < |labels| ==> |labels[i]| <= MAX_LABEL
    ensures forall p <- Split(Join(labels, [DOT]), [DOT]) :: |p| <= MAX_LABEL
    decreases |labels|
  {
    if |labels| >= 1 {
      SplitPieces(labels[0]);
      if |labels| > 1 {
        SplitAtDot(labels[0], Join(labels[1..], [DOT]));
        PiecesOfLabelsFit(labels[1..]);
      }
    } else {
      SplitPieces([]);
    }
  }

  lemma {:induction false} UnfoldedLabels(data: Bytes, pos: int, hops: seq<Hop>)
    requires Unfolds(data, pos, hops)
    ensures FitLabels(Labels(hops)) && LabelBytes(hops) == |LabelsWire(Labels(hops))|
    decreases |hops|
  {
    if hops == [] {
    } else {
      UnfoldedLabels(data, Next(pos, hops[0]), hops[1..]);
      if hops[0].Label? {
        assert Labels(hops)[1..] == Labels(hops[1..]);
      } else {
        assert Labels(hops) == Labels(hops[1..]);
      }
    }
  }

  lemma {:induction false} JoinEndsWithLabel(parts: seq<Bytes>)
    requires parts != [] && forall p <- parts :: p != [] && DOT !in p
    ensures var s := Join(parts, [DOT]); s != [] && s[|s| - 1] != DOT
    decreases |parts|
  {
    assert parts[0] in parts;
    if |parts| > 1 {
      assert forall p <- parts[1..] :: p in parts;
      JoinEndsWithLabel(parts[1..]);
    }
  }

  predicate NoneEmpty(parts: seq<Bytes>) {
    forall i :: 0 <= i < |parts| ==> parts[i] != []
  }

  predicate NoneTooLong(parts: seq<Bytes>) {
    forall i :: 0 <= i < |parts| ==> |parts[i]| <= MAX_LABEL
  }

  predicate NoEmptyPiece(name: Bytes) {
    NoneEmpty(Split(name, [DOT]))
  }

  lemma NoEmptyPieceIs(name: Bytes)
    ensures NoEmptyPiece(name) <==> NoneEmpty(Split(name, [DOT]))
  {
  }

  lemma NoEmptyPieceUntrimmed(name: Bytes)
    requires NoEmptyPiece(name)
    ensures name != [] && TrimDot(name) == name
  {
    var parts := Split(name, [DOT]);
    forall p | p in parts ensures DOT !in p {
      ByteAbsent(p, DOT);
    }
    JoinEndsWithLabel(parts);
  }

  // Encoding the name and decoding the result gives the name back.
  ghost predicate Reencodes(name: Bytes) {
    NameWire(name).Ok? && NameAt(NameWire(name).value, 0) == Ok((name, |NameWire(name).value|))
  }

  /** A decoded name can be encoded and decoded again to itself exactly when no piece between
      its dots is empty: that shuts out the root name and labels with a dot at either end or
      two dots in a row. The encoding is flat and, like every encoding, at most 255 bytes. */
  lemma {:induction false} ReencodesIff(data: Bytes, offset: int, name: Bytes)
    requires NameAt(data, offset).Ok? && NameAt(data, offset).value.0 == name
    ensures Reencodes(name) <==> NoEmptyPiece(name)
    ensures NameWire(name).Ok? ==> |NameWire(name).value| <= MAX_NAME
  {
    hide *;
    if NoEmptyPiece(name) {
      DecodedPiecesFit(data, offset, name);
      NoEmptyPieceUntrimmed(name);
      assert NoneEmpty(Split(name, [DOT])) by { NoEmptyPieceIs(name); }
      Encodable(name);
      ReencodesGives(name);
    }
    if Reencodes(name) {
      ReencodesGives(name);
      EncodedPieces(name);
    }
    if NameWire(name).Ok? {
      EncodedPieces(name);
    }
  }

  lemma ReencodesGives(name: Bytes)
    ensures Reencodes(name) <==> NameWire(name).Ok? && TrimDot(name) == name
  {
    hide NameAt, NameWire, TrimDot;
    if NameWire(name).Ok? {
      var wire := NameWire(name).value;
      assert wire[0..0 + |wire|] == wire;
      NameRoundTrip(name, wire, 0);
    }
  }

  lemma Encodable(name: Bytes)
    requires NoneEmpty(Split(name, [DOT])) && |name| <= MAX_NAME - 2 && name != [] && TrimDot(name) == name
    requires NoneTooLong(Split(name, [DOT]))
    ensures NameWire(name).Ok?
  {
    hide *;
    PiecesEncodable(Split(name, [DOT]));
    NameWireFits(name);
  }

  lemma PiecesEncodable(parts: seq<Bytes>)
    requires parts != [] && NoneEmpty(parts) && NoneTooLong(parts)
    ensures FitLabels(parts) && LabelFault(parts) == None && |LabelsWire(parts)| == |Join(parts, [DOT])| + 1
  {
    hide *;
    FitIff(parts);
    LabelFaultIff(parts);
    WireSize(parts);
  }

  lemma FitIff(parts: seq<Bytes>)
    ensures FitLabels(parts) <==> NoneEmpty(parts) && NoneTooLong(parts)
  {
    forall i | 0 <= i < |parts| ensures parts[i] != [] <==> 1 <= |parts[i]| {
    }
  }

  lemma NameWireFits(name: Bytes)
    requires name != [] && TrimDot(name) == name && FitLabels(Split(name, [DOT]))
    requires LabelFault(Split(name, [DOT])) == None && |LabelsWire(Split(name, [DOT]))| + 1 <= MAX_NAME
    ensures NameWire(name).Ok?
  {
    hide Split, TrimDot, LabelFault, LabelsWire, FitLabels;
  }

  lemma EncodedPieces(name: Bytes)
    requires NameWire(name).Ok?
    ensures |NameWire(name).value| <= MAX_NAME
    ensures TrimDot(name) == name ==> NoEmptyPiece(name)
  {
    hide Split, TrimDot;
    LabelFaultIff(Split(name, [DOT]));
    hide LabelFault;
  }

  lemma DecodedPiecesFit(data: Bytes, offset: int, name: Bytes)
    requires NameAt(data, offset).Ok? && NameAt(data, offset).value.0 == name
    ensures NoneTooLong(Split(name, [DOT]))
    ensures |name| <= MAX_NAME - 2
  {
    WalkSound(data, offset, 0, 1);
    var hops := Walk(data, offset, 0, 1).value;
    UnfoldedLabels(data, offset, hops);
    PiecesOfLabelsFit(Labels(hops));
    assert name == Join(Labels(hops), [DOT]);
    if Labels(hops) != [] {
      WireSize(Labels(hops));
    }
  }
}
