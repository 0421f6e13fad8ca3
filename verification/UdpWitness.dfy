/** The assumptions about the encoding can be met, and runs in which a client succeeds exist. */
module UdpWitness {
  import opened Bytes
  import opened UdpExchange

  // ---------- an encoding with fields of fixed width ----------

  function PutU64(n: uint64): (s: Bytes)
    ensures |s| == 8
  {
    PutU32(n / 0x1_0000_0000) + PutU32(n % 0x1_0000_0000)
  }

  function GetU64(s: Bytes): uint64
    requires 8 <= |s|
  {
    GetU32(s, 0) * 0x1_0000_0000 + GetU32(s, 4)
  }

  lemma U64RoundTrip(n: uint64, rest: Bytes)
    ensures GetU64(PutU64(n) + rest) == n && (PutU64(n) + rest)[8..] == rest
  {
    var high, low := PutU32(n / 0x1_0000_0000), PutU32(n % 0x1_0000_0000);
    var s := PutU64(n) + rest;
    assert GetU32(s, 0) == GetU32(high, 0);
    assert GetU32(s, 4) == GetU32(low, 0);
  }

  function FixedRequestBytes(r: Request): Bytes {
    PutU64(r.id) + r.operation
  }

  function FixedRequest(s: Bytes): Option<Request> {
    if |s| < 8 then None else Some(Request(GetU64(s), s[8..], []))
  }

  function FixedResponseBytes(r: Response): Bytes {
    PutU64(r.id) + ([if r.status == STATUS_OK then 1 else 0] + r.payload)
  }

  function FixedResponse(s: Bytes): Option<Response> {
    if |s| < 9 then None
    else Some(Response(GetU64(s), if s[8] == 1 then STATUS_OK else STATUS_ERROR, s[9..]))
  }

  function FixedWidth(): Codec {
    Codec(FixedRequest, FixedRequestBytes, FixedResponse, FixedResponseBytes)
  }

  lemma ResponseRoundTrip(r: Response)
    requires r.status == STATUS_OK || r.status == STATUS_ERROR
    ensures FixedResponse(FixedResponseBytes(r)) == Some(r)
  {
    StatusesDiffer();
    var rest := [if r.status == STATUS_OK then 1 else 0] + r.payload;
    U64RoundTrip(r.id, rest);
    hide GetU64, PutU64;
    var s := FixedResponseBytes(r);
    assert s[8] == s[8..][0] && s[9..] == s[8..][1..];
  }

  lemma FixedWidthIsLawful()
    ensures Lawful(FixedWidth())
  {
    forall r: Response | Built(r)
      ensures |FixedResponseBytes(r)| <= BUFFER && FixedResponse(FixedResponseBytes(r)) == Some(r)
    {
      ResponseRoundTrip(r);
      assert |UNKNOWN| == 17;
    }
  }

  const ASKS_TIME := Request(42, TIME, [])

  lemma AsksTimeIsProper()
    ensures ProperRequest(FixedWidth(), ASKS_TIME)
  {
    U64RoundTrip(42, TIME);
    assert |TIME| == 4 && TIME[0] == 84;
    TimeIsNotBlank();
    hide GetU64, PutU64, Ascii, TrimSpace;
  }

  lemma TimeIsNotBlank()
    ensures TrimSpace(TIME) != []
  {
    assert |TIME| == 4 && TIME[0] == 84 && TIME[3] == 69;
    assert SpacePrefix(TIME) == 0;
    assert TrimSpaceLeft(TIME) == TIME;
    assert SpaceSuffix(TIME) == 0;
  }

  const CLIENT: Bytes := [1]

  function Start(): State {
    State(FixedWidth(), map[], 0, map[CLIENT := Client(ASKS_TIME, 0, Ready)], {}, {}, [], [])
  }

  lemma StartIsReachable()
    ensures Reachable(Start())
    ensures Start().clients == map[CLIENT := Client(ASKS_TIME, 0, Ready)]
  {
    hide FixedWidth, Lawful, ProperRequest;
    FixedWidthIsLawful();
    AsksTimeIsProper();
    assert Initial(Start()) && Runs(Start(), [], Start());
  }

  /** There are an encoding, a client and a run after which the client is done: the statements
      about reachable states are about something. */
  lemma {:induction false} SomeClientSucceeds() returns (s: State)
    ensures Reachable(s) && CLIENT in s.clients && s.clients[CLIENT].phase.Done?
  {
    StartIsReachable();
    NoTextIsClockText();
    hide *;
    s := ClientCanSucceed(Start(), CLIENT, []);
  }

  lemma NoTextIsClockText()
    ensures ClockText([]) && 0 < MAX_ATTEMPTS
  {
  }
}
