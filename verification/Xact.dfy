/** PFCP transactions (section 6.4 of 3GPP TS 29.244): message steps, stored packets, duplicates, identifiers. */
module Xact {
  import opened Prelude
  import opened Packet
  import Pool
  import Buffers

  datatype Stage = UnknownStage | InitialStage | FinalStage

  datatype Origin = LocalOriginator | RemoteOriginator

  /** `PfcpXactGetStage`; no message type maps to the intermediate stage. */
  function GetStage(msgType: octet): Stage {
    match msgType
    case 1 | 5 | 7 | 9 | 50 | 52 | 54 | 56 => InitialStage
    case 2 | 6 | 8 | 10 | 11 | 51 | 53 | 55 | 57 => FinalStage
    case _ => UnknownStage
  }

  const PFCP_HEARTBEAT_REQUEST := 1
  const PFCP_ASSOCIATION_SETUP_REQUEST := 5
  const PFCP_ASSOCIATION_UPDATE_REQUEST := 7
  const PFCP_ASSOCIATION_RELEASE_REQUEST := 9
  const PFCP_VERSION_NOT_SUPPORTED_RESPONSE := 11
  const PFCP_SESSION_MODIFICATION_REQUEST := 52
  const PFCP_SESSION_DELETION_REQUEST := 54
  const PFCP_SESSION_REPORT_REQUEST := 56

  const REQUESTS: set<int> := {
    PFCP_HEARTBEAT_REQUEST,
    PFCP_ASSOCIATION_SETUP_REQUEST, PFCP_ASSOCIATION_UPDATE_REQUEST, PFCP_ASSOCIATION_RELEASE_REQUEST,
    PFCP_SESSION_ESTABLISHMENT_REQUEST, PFCP_SESSION_MODIFICATION_REQUEST, PFCP_SESSION_DELETION_REQUEST,
    PFCP_SESSION_REPORT_REQUEST
  }

  /** A response has the type behind that of its request; a wrong version has a response of its own. */
  predicate Response(msgType: octet) {
    msgType - 1 in REQUESTS || msgType == PFCP_VERSION_NOT_SUPPORTED_RESPONSE
  }

  /** The requests open an exchange and the responses continue it; the other types have no stage. */
  lemma StageIs(msgType: octet)
    ensures GetStage(msgType) == InitialStage <==> msgType in REQUESTS
    ensures GetStage(msgType) == FinalStage <==> Response(msgType)
    ensures msgType in REQUESTS <==> msgType in {1, 5, 7, 9, 50, 52, 54, 56}
    ensures Response(msgType) <==> msgType in {2, 6, 8, 10, 11, 51, 53, 55, 57}
  {
  }

  // ----- The exchange as a history -----------------------------------------

  /** A message of the exchange as this side saw it. */
  datatype Entry = Transmitted(msgType: octet, packet: octets) | Received(msgType: octet)

  /** Who speaks at position `i`: the originator first, then in turn. */
  predicate SpeaksAt(origin: Origin, i: nat) {
    origin.LocalOriginator? <==> i % 2 == 0
  }

  /** An exchange is a request, its response and a confirmation, spoken in turn. */
  ghost predicate Exchange(origin: Origin, h: seq<Entry>) {
    && |h| <= 3
    && (forall i :: 0 <= i < |h| ==> (h[i].Transmitted? <==> SpeaksAt(origin, i)))
    && (forall i :: 0 <= i < |h| ==> GetStage(h[i].msgType) == if i == 0 then InitialStage else FinalStage)
  }

  lemma ExchangeGrows(origin: Origin, h: seq<Entry>, e: Entry)
    requires Exchange(origin, h)
    ensures Exchange(origin, h + [e]) <==> (
      && |h| < 3 && (e.Transmitted? <==> SpeaksAt(origin, |h|))
      && GetStage(e.msgType) == if |h| == 0 then InitialStage else FinalStage)
  {
    var r := h + [e];
    assert forall i :: 0 <= i < |h| ==> r[i] == h[i];
    assert r[|h|] == e;
  }

  // ----- The transaction -----------------------------------------------------

  /** One element of the array of recorded messages. */
  datatype Message = Message(msgType: octet, bufBlk: Option<octets>)

  function Recorded(e: Entry): Message {
    Message(e.msgType, if e.Transmitted? then Some(e.packet) else None)
  }

  /** What a commit does with the exchange. */
  datatype Reaction = Send(packet: octets) | Finish | Refuse

  /** A side sends what it said last, and finishes when the other side has answered it. */
  function ReactionTo(origin: Origin, h: seq<Entry>): Reaction
    requires h != []
  {
    var last := h[|h| - 1];
    if last.Transmitted? then Send(last.packet)
    else if |h| == 1 then Refuse
    else Finish
  }

  /** The largest body that a packet buffer, which starts with room for 64 octets, can grow to hold. */
  const MAX_BODY := 65472

  /** What happens to a transaction; the flags tell whether buffers are had and whether the network takes a packet. */
  datatype Event =
    | Tx(msgType: octet, seid: u64, body: octets, room: bool)
    | Rx(msgType: octet, sendOk: bool)
    | Commit(sendOk: bool)

  /** A transaction from outside: its exchange, whether it still exists, and what it handed to the network. */
  datatype State = State(history: seq<Entry>, live: bool, sent: seq<octets>)

  /** A request that this side has seen already. */
  predicate Duplicate(origin: Origin, h: seq<Entry>, msgType: octet) {
    origin.RemoteOriginator? && 1 <= |h| <= 2 && msgType == h[0].msgType
  }

  /** The stored response, if there is one. */
  function Answer(h: seq<Entry>): seq<octets> {
    if |h| >= 2 && h[1].Transmitted? then [h[1].packet] else []
  }

  /** A message is taken exactly when it continues the exchange. */
  ghost function Next(origin: Origin, transactionId: u32, st: State, ev: Event): State {
    if !st.live then st else
      match ev
      case Tx(msgType, seid, body, room) =>
        var h := st.history + [Transmitted(msgType, MakePacket(msgType, seid, transactionId, body))];
        if room && |body| <= MAX_BODY && Exchange(origin, h) then st.(history := h) else st
      case Rx(msgType, sendOk) =>
        if Exchange(origin, st.history + [Received(msgType)]) then st.(history := st.history + [Received(msgType)])
        else if Duplicate(origin, st.history, msgType) && sendOk then st.(sent := st.sent + Answer(st.history))
        else st
      case Commit(sendOk) =>
        if st.history == [] then st else
          match ReactionTo(origin, st.history)
          case Send(packet) => if sendOk then st.(sent := st.sent + [packet]) else st
          case Finish => st.(live := false)
          case Refuse => st
  }

  ghost function Run(origin: Origin, transactionId: u32, st: State, evs: seq<Event>): State
    decreases |evs|
  {
    if evs == [] then st else Run(origin, transactionId, Next(origin, transactionId, st, evs[0]), evs[1..])
  }

  /** The largest body is the largest that fits behind a header in a buffer that can take any block. */
  lemma LargestBody(pools: seq<Pool.PoolState>, b: Buffers.Block, seidP: bool, n: nat)
    requires |pools| == Buffers.CLASSES && forall c :: 0 <= c < Buffers.CLASSES ==> pools[c].free != []
    ensures Buffers.SelectClass(Buffers.AskedSize(1, HeaderLen(seidP))) == Some(0) && Buffers.Nominal(0) == 64
    ensures Buffers.CanHold(pools, Buffers.Bufblk(Some(b), 64, HeaderLen(seidP)), n) <==> n <= MAX_BODY
  {
  }

  // ----- What each event does ------------------------------------------------

  /** The positions at which this side sends: 0 and 2 in its own exchange, 1 in that of the other side. */
  lemma TurnIs(origin: Origin, h: seq<Entry>, i: nat)
    requires Exchange(origin, h) && i < |h|
    ensures h[i].Transmitted? <==> (if origin.LocalOriginator? then i != 1 else i == 1)
    ensures if i == 0 then h[i].msgType in REQUESTS else Response(h[i].msgType)
  {
    StageIs(h[i].msgType);
  }

  /** A message to send is recorded exactly when room is had and it is the request or the answer that is due. */
  lemma TxRecords(origin: Origin, transactionId: u32, st: State, msgType: octet, seid: u64, body: octets, room: bool)
    requires st.live && Exchange(origin, st.history)
    ensures var n := |st.history|;
      var due := if origin.LocalOriginator? then (n == 0 && msgType in REQUESTS) || (n == 2 && Response(msgType))
                 else n == 1 && Response(msgType);
      Next(origin, transactionId, st, Tx(msgType, seid, body, room)) ==
        if room && |body| <= MAX_BODY && due
        then st.(history := st.history + [Transmitted(msgType, MakePacket(msgType, seid, transactionId, body))])
        else st
  {
    hide Exchange, MakePacket;
    StageIs(msgType);
    ExchangeGrows(origin, st.history, Transmitted(msgType, MakePacket(msgType, seid, transactionId, body)));
    ExchangeShort(origin, st.history);
  }

  /**
   * A received message is recorded exactly when it is the one that is due; the repeated request is answered
   * with the stored response as soon as there is one.
   */
  lemma RxRecords(origin: Origin, transactionId: u32, st: State, msgType: octet, sendOk: bool)
    requires st.live && Exchange(origin, st.history)
    ensures var h := st.history;
      var due := if origin.LocalOriginator? then |h| == 1 && Response(msgType)
                 else (|h| == 0 && msgType in REQUESTS) || (|h| == 2 && Response(msgType));
      var again := origin.RemoteOriginator? && |h| == 2 && msgType == h[0].msgType;
      && (again ==> h[1].Transmitted?)
      && Next(origin, transactionId, st, Rx(msgType, sendOk)) ==
        if due then st.(history := h + [Received(msgType)])
        else if again && sendOk then st.(sent := st.sent + [h[1].packet])
        else st
  {
    hide MakePacket;
    StageIs(msgType);
    if st.history != [] {
      TurnIs(origin, st.history, 0);
    }
    ExchangeGrows(origin, st.history, Received(msgType));
    hide GetStage;
  }

  /** A commit sends what this side said last, or ends the exchange when the other side had the last word. */
  lemma CommitSends(origin: Origin, transactionId: u32, st: State, sendOk: bool)
    requires st.live && Exchange(origin, st.history)
    ensures var h := st.history;
      var speaks := if origin.LocalOriginator? then |h| == 1 || |h| == 3 else |h| == 2;
      var over := if origin.LocalOriginator? then |h| == 2 else |h| == 3;
      && (speaks ==> h[|h| - 1].Transmitted?)
      && Next(origin, transactionId, st, Commit(sendOk)) ==
        if speaks && sendOk then st.(sent := st.sent + [h[|h| - 1].packet])
        else if over then st.(live := false)
        else st
  {
    if st.history != [] {
      TurnIs(origin, st.history, |st.history| - 1);
    }
    hide GetStage;
  }

  lemma ExchangeShort(origin: Origin, h: seq<Entry>)
    requires Exchange(origin, h)
    ensures |h| <= 3
  {
  }

  /** A transaction that has ended takes part in nothing. */
  lemma EndedStays(origin: Origin, transactionId: u32, st: State, ev: Event)
    requires !st.live
    ensures Next(origin, transactionId, st, ev) == st
  {
  }

  lemma RunStep(origin: Origin, transactionId: u32, st: State, ev: Event, evs: seq<Event>)
    ensures Run(origin, transactionId, st, [ev] + evs)
         == Run(origin, transactionId, Next(origin, transactionId, st, ev), evs)
    ensures Run(origin, transactionId, st, []) == st
  {
    hide Next;
    assert ([ev] + evs)[1..] == evs;
  }

  /** The whole local exchange: the request goes out once, the response is recorded, and the transaction ends. */
  lemma LocalExchange(transactionId: u32, request: octet, seid: u64, body: octets, response: octet, sendOk: bool)
    requires request in REQUESTS && Response(response) && |body| <= MAX_BODY
    ensures var p := MakePacket(request, seid, transactionId, body);
      Run(LocalOriginator, transactionId, State([], true, []),
          [Tx(request, seid, body, true)] + ([Commit(true)] + ([Rx(response, sendOk)] + ([Commit(sendOk)] + []))))
        == State([Transmitted(request, p), Received(response)], false, [p])
  {
    hide Run, Next, MakePacket, GetStage;
    var p := MakePacket(request, seid, transactionId, body);
    var o, st0 := LocalOriginator, State([], true, []);
    var st1 := State([Transmitted(request, p)], true, []);
    var st2 := st1.(sent := [p]);
    var st3 := st2.(history := st2.history + [Received(response)]);
    var end := [Commit(sendOk)] + [];
    var answered := [Rx(response, sendOk)] + end;
    StageIs(request);
    StageIs(response);
    assert [] + st1.history == st1.history && [] + [p] == [p];
    TxRecords(o, transactionId, st0, request, seid, body, true);
    CommitSends(o, transactionId, st1, true);
    RxRecords(o, transactionId, st2, response, sendOk);
    CommitSends(o, transactionId, st3, sendOk);
    hide Exchange;
    RunStep(o, transactionId, st0, Tx(request, seid, body, true), [Commit(true)] + answered);
    RunStep(o, transactionId, st1, Commit(true), answered);
    RunStep(o, transactionId, st2, Rx(response, sendOk), end);
    RunStep(o, transactionId, st3, Commit(sendOk), []);
    RunStep(o, transactionId, st3.(live := false), Commit(sendOk), []);
  }

  /**
   * The whole remote exchange: the response goes out once, and once more for every repetition of the request
   * that the network lets answer.
   */
  lemma RemoteExchange(transactionId: u32, request: octet, seid: u64, body: octets, response: octet,
                       evs: seq<Event>)
    requires request in REQUESTS && Response(response) && |body| <= MAX_BODY
    requires forall ev :: ev in evs ==> ev.Rx? && ev.msgType == request
    ensures var p := MakePacket(response, seid, transactionId, body);
      Run(RemoteOriginator, transactionId, State([], true, []),
          [Rx(request, true)] + ([Tx(response, seid, body, true)] + ([Commit(true)] + evs)))
        == State([Received(request), Transmitted(response, p)], true,
                 seq(1 + multiset(evs)[Rx(request, true)], _ => p))
  {
    hide Run, Next, MakePacket, GetStage;
    var p := MakePacket(response, seid, transactionId, body);
    var o, st0 := RemoteOriginator, State([], true, []);
    var st1 := State([Received(request)], true, []);
    var st2 := State([Received(request), Transmitted(response, p)], true, []);
    var st3 := st2.(sent := [p]);
    var sending := [Commit(true)] + evs;
    StageIs(request);
    StageIs(response);
    assert [] + st1.history == st1.history && [] + [p] == [p];
    assert st1.history + [Transmitted(response, p)] == st2.history;
    RxRecords(o, transactionId, st0, request, true);
    TxRecords(o, transactionId, st1, response, seid, body, true);
    CommitSends(o, transactionId, st2, true);
    DuplicatesIdempotent(transactionId, st3, evs);
    hide Exchange;
    RunStep(o, transactionId, st0, Rx(request, true), [Tx(response, seid, body, true)] + sending);
    RunStep(o, transactionId, st1, Tx(response, seid, body, true), sending);
    RunStep(o, transactionId, st2, Commit(true), evs);
    var k := multiset(evs)[Rx(request, true)];
    assert [p] + seq(k, _ => p) == seq(1 + k, _ => p);
  }

  /** Every transmitted packet of the exchange was made for this transaction and its message type. */
  ghost predicate MadeFor(transactionId: u32, h: seq<Entry>) {
    forall i :: 0 <= i < |h| && h[i].Transmitted? ==> Made(transactionId, h[i].msgType, h[i].packet)
  }

  ghost predicate Made(transactionId: u32, msgType: octet, packet: octets) {
    exists seid: u64, body: octets ::
      |body| <= MAX_BODY && packet == MakePacket(msgType, seid, transactionId, body)
  }

  /** Every packet handed to the network is the one stored in the exchange at a place where this side speaks. */
  ghost predicate SentStored(st: State) {
    forall p :: p in st.sent ==>
      exists i :: 0 <= i < |st.history| && st.history[i].Transmitted? && st.history[i].packet == p
  }

  ghost predicate Sound(origin: Origin, transactionId: u32, st: State) {
    Exchange(origin, st.history) && MadeFor(transactionId, st.history) && SentStored(st)
  }

  lemma StoredStays(st: State, h: seq<Entry>)
    requires SentStored(st) && st.history <= h
    ensures SentStored(st.(history := h))
  {
  }

  lemma NextKeeps(origin: Origin, transactionId: u32, st: State, ev: Event)
    requires Sound(origin, transactionId, st)
    ensures var st' := Next(origin, transactionId, st, ev);
      Sound(origin, transactionId, st') && st.history <= st'.history && st.sent <= st'.sent
  {
    hide Exchange, MakePacket, GetStage;
    var st' := Next(origin, transactionId, st, ev);
    StoredStays(st, st'.history);
    if ev.Tx? && st' != st {
      var e := st'.history[|st.history|];
      assert Made(transactionId, e.msgType, e.packet);
    }
  }

  /** Over every run the exchange stays in order and grows only, and only stored packets are sent. */
  lemma {:induction false} RunKeeps(origin: Origin, transactionId: u32, st: State, evs: seq<Event>)
    requires Sound(origin, transactionId, st)
    ensures var st' := Run(origin, transactionId, st, evs);
      Sound(origin, transactionId, st') && st.history <= st'.history && st.sent <= st'.sent
    decreases |evs|
  {
    hide Sound, Next;
    if evs != [] {
      NextKeeps(origin, transactionId, st, evs[0]);
      RunKeeps(origin, transactionId, Next(origin, transactionId, st, evs[0]), evs[1..]);
    }
  }

  /** Whatever a fresh transaction sends over any run carries the transaction's identifier and a recorded type. */
  lemma SentCarriesIdentifier(origin: Origin, transactionId: u32, evs: seq<Event>, p: octets)
    requires transactionId < 0x100_0000
    requires p in Run(origin, transactionId, State([], true, []), evs).sent
    ensures var r := ParseHeader(p);
      && r.Some? && r.value.0.transactionId == transactionId && r.value.0.length == |p| - 4
      && exists i :: 0 <= i < |Run(origin, transactionId, State([], true, []), evs).history|
           && Run(origin, transactionId, State([], true, []), evs).history[i] == Transmitted(r.value.0.msgType, p)
  {
    hide Run, Exchange, ParseHeader, MakePacket, GetStage;
    var st' := Run(origin, transactionId, State([], true, []), evs);
    FreshIsSound(origin, transactionId);
    RunKeeps(origin, transactionId, State([], true, []), evs);
    var i :| 0 <= i < |st'.history| && st'.history[i].Transmitted? && st'.history[i].packet == p;
    var msgType := st'.history[i].msgType;
    assert Made(transactionId, msgType, p);
    var seid: u64, body: octets :| |body| <= MAX_BODY && p == MakePacket(msgType, seid, transactionId, body);
    PacketRoundTrip(msgType, seid, transactionId, body);
    PacketExactIff(msgType, seid, transactionId, body);
  }

  lemma FreshIsSound(origin: Origin, transactionId: u32)
    ensures Sound(origin, transactionId, State([], true, []))
  {
  }

  /**
   * Repetitions of the request send the stored response once for each send that the network takes, and
   * nothing before there is a response; they change nothing else.
   */
  lemma {:induction false} DuplicatesIdempotent(transactionId: u32, st: State, evs: seq<Event>)
    requires st.live && Exchange(RemoteOriginator, st.history) && 1 <= |st.history| <= 2
    requires forall ev :: ev in evs ==> ev.Rx? && ev.msgType == st.history[0].msgType
    ensures |st.history| == 1 ==> Run(RemoteOriginator, transactionId, st, evs) == st
    ensures |st.history| == 2 ==> st.history[1].Transmitted?
    ensures |st.history| == 2 ==>
      Run(RemoteOriginator, transactionId, st, evs) == st.(sent := st.sent
        + seq(multiset(evs)[Rx(st.history[0].msgType, true)], _ => st.history[1].packet))
    decreases |evs|
  {
    hide MakePacket, Next;
    if |st.history| == 2 {
      TurnIs(RemoteOriginator, st.history, 1);
    }
    if evs != [] {
      var st1 := Next(RemoteOriginator, transactionId, st, evs[0]);
      TurnIs(RemoteOriginator, st.history, 0);
      RxRecords(RemoteOriginator, transactionId, st, evs[0].msgType, evs[0].sendOk);
      StageIs(evs[0].msgType);
      hide Exchange, GetStage;
      assert forall ev :: ev in evs[1..] ==> ev in evs;
      DuplicatesIdempotent(transactionId, st1, evs[1..]);
      assert evs == [evs[0]] + evs[1..];
      assert multiset(evs) == multiset{evs[0]} + multiset(evs[1..]);
    }
  }

  /** A commit sends exactly while this side spoke last, and finishes exactly after the other side's answer. */
  lemma ReactionByPosition(origin: Origin, h: seq<Entry>)
    requires Exchange(origin, h) && h != []
    ensures match ReactionTo(origin, h)
      case Send(packet) => SpeaksAt(origin, |h| - 1) && h[|h| - 1] == Transmitted(h[|h| - 1].msgType, packet)
      case Finish => !SpeaksAt(origin, |h| - 1) && |h| == if origin.LocalOriginator? then 2 else 3
      case Refuse => origin.RemoteOriginator? && |h| == 1
  {
  }

  class PfcpXact {
    const origin: Origin
    const transactionId: u32
    const messages: array<Message>
    var step: int
    var live: bool
    ghost var history: seq<Entry>
    ghost var sent: seq<octets>

    /** The array records the history, position by position, and is blank behind it. */
    ghost predicate Valid()
      reads this, messages
    {
      && messages.Length == 3 && live && step == |history| && Exchange(origin, history)
      && (forall i :: 0 <= i < step ==> messages[i] == Recorded(history[i]))
      && (forall i :: step <= i < 3 ==> messages[i] == Message(0, None))
    }

    constructor (origin: Origin, transactionId: u32)
      ensures Valid() && fresh(messages) && history == [] && sent == []
      ensures this.origin == origin && this.transactionId == transactionId
    {
      this.origin := origin;
      this.transactionId := transactionId;
      messages := new Message[3](_ => Message(0, None));
      step := 0;
      live := true;
      history := [];
      sent := [];
    }

    /** Stores a message at the current step. */
    method Record(m: Message, ghost e: Entry)
      requires Valid() && m == Recorded(e) && Exchange(origin, history + [e])
      modifies messages, `step, `history
      ensures Valid() && history == old(history) + [e]
    {
      messages[step] := m;
      step := step + 1;
      history := history + [e];
    }

    ghost function Now(): State
      reads this
    {
      State(history, live, sent)
    }

    /**
     * `PfcpXactUpdateTx`: stores a packet made of a header and the body.  `room` tells whether buffers
     * for it could be had.
     */
    method UpdateTx(msgType: octet, seid: u64, body: octets, room: bool) returns (status: Status)
      requires Valid()
      modifies messages, `step, `history
      ensures Valid() && Now() == Next(origin, transactionId, old(Now()), Tx(msgType, seid, body, room))
      ensures status == if history == old(history) then Error else Ok
    {
      hide MakePacket;
      ghost var e := Transmitted(msgType, MakePacket(msgType, seid, transactionId, body));
      ExchangeGrows(origin, history, e);
      var stage := GetStage(msgType);
      if origin.LocalOriginator? {
        match stage
        case InitialStage =>
          if step != 0 {
            return Error;
          }
        case FinalStage =>
          if step != 2 {
            return Error;
          }
        case UnknownStage =>
          return Error;
      } else {
        match stage
        case InitialStage =>
          return Error;
        case FinalStage =>
          if step != 1 {
            return Error;
          }
        case UnknownStage =>
          return Error;
      }
      if !room || |body| > MAX_BODY {
        return Error;
      }
      Record(Message(msgType, Some(MakePacket(msgType, seid, transactionId, body))), e);
      status := Ok;
    }

    /** `PfcpXactUpdateRx`; `sendOk` tells whether a packet handed to the network was taken. */
    method UpdateRx(msgType: octet, sendOk: bool) returns (status: Status)
      requires Valid()
      modifies messages, `step, `history, `sent
      ensures Valid() && Now() == Next(origin, transactionId, old(Now()), Rx(msgType, sendOk))
      ensures status == Ok <==> history != old(history)
      ensures status == Again <==> (
        && origin.RemoteOriginator? && 1 <= |old(history)| <= 2 && old(history)[0].msgType == msgType
        && (sendOk || |old(history)| == 1))
      ensures status == Again && |old(history)| == 2 ==> sent == old(sent) + [old(messages[1].bufBlk).value]
    {
      hide MakePacket;
      ghost var e := Received(msgType);
      ExchangeGrows(origin, history, e);
      var stage := GetStage(msgType);
      if origin.LocalOriginator? {
        match stage
        case InitialStage =>
          return Error;
        case FinalStage =>
          if step != 1 {
            return Error;
          }
        case UnknownStage =>
          return Error;
      } else {
        match stage
        case InitialStage =>
          if messages[0].msgType == msgType {
            if !(step == 1 || step == 2) {
              return Error;
            }
            if messages[1].bufBlk.Some? {
              if !sendOk {
                return Error;
              }
              sent := sent + [messages[1].bufBlk.value];
            }
            return Again;
          }
          if step != 0 {
            return Error;
          }
        case FinalStage =>
          if step != 2 {
            return Error;
          }
        case UnknownStage =>
          return Error;
      }
      Record(messages[step].(msgType := msgType), e);
      status := Ok;
    }

    /** `PfcpXactCommit`: sends the packet stored last or ends the transaction, whose blocks are given back. */
    method Commit(sendOk: bool) returns (status: Status)
      requires Valid() && step >= 1
      modifies `live, `sent
      ensures Now() == Next(origin, transactionId, old(Now()), Event.Commit(sendOk)) && (live ==> Valid())
      ensures status != Again
      ensures old(messages[step - 1].bufBlk).Some? && sendOk ==>
        sent == old(sent) + [old(messages[step - 1].bufBlk).value]
      ensures status == Ok <==> (ReactionTo(origin, history).Send? && sendOk) || ReactionTo(origin, history).Finish?
    {
      hide MakePacket;
      var stage := GetStage(messages[step - 1].msgType);
      if origin.LocalOriginator? {
        match stage
        case InitialStage =>
          if step != 1 {
            return Error;
          }
        case FinalStage =>
          if !(step == 2 || step == 3) {
            return Error;
          }
          if step == 2 {
            live := false;
            return Ok;
          }
        case UnknownStage =>
          return Error;
      } else {
        match stage
        case InitialStage =>
          return Error;
        case FinalStage =>
          if !(step == 2 || step == 3) {
            return Error;
          }
          if step == 3 {
            live := false;
            return Ok;
          }
        case UnknownStage =>
          return Error;
      }
      var bufBlk := messages[step - 1].bufBlk;
      if bufBlk.None? {
        return Error;
      }
      if !sendOk {
        return Error;
      }
      sent := sent + [bufBlk.value];
      status := Ok;
    }
  }

  // ----- Identifiers and lookup ---------------------------------------------

  const PFCP_MIN_XACT_ID := 1
  const PFCP_MAX_XACT_ID := 0x80_0000

  /** The number of identifiers that the counter runs through. */
  const CYCLE := 0x7F_FFFF

  /** The identifier of the `n`-th transaction created locally. */
  function XactId(n: nat): (id: u24)
    ensures PFCP_MIN_XACT_ID <= id < PFCP_MAX_XACT_ID
  {
    1 + n % CYCLE
  }

  /** Two local transactions share an identifier exactly when a whole number of cycles lies between them. */
  lemma SameIdIff(i: nat, j: nat)
    requires i <= j
    ensures XactId(i) == XactId(j) <==> (j - i) % CYCLE == 0
  {
    var q, r := i / CYCLE, i % CYCLE;
    var k, m := (j - i) / CYCLE, (j - i) % CYCLE;
    assert j == CYCLE * (q + k) + (r + m);
    if r + m < CYCLE {
      assert j % CYCLE == r + m;
    } else {
      assert j == CYCLE * (q + k + 1) + (r + m - CYCLE);
      assert j % CYCLE == r + m - CYCLE;
    }
  }

  /** Within one cycle the identifiers differ, and none has the bit that marks a remote transaction. */
  lemma IdsWithinCycle(i: nat, j: nat)
    requires i < j < i + CYCLE
    ensures XactId(i) != XactId(j) && !RemoteMark(XactId(i)) && !RemoteMark(XactId(j))
  {
    SameIdIff(i, j);
  }

  /** `transactionId & PFCP_MAX_XACT_ID` */
  predicate RemoteMark(transactionId: u32) {
    transactionId / PFCP_MAX_XACT_ID % 2 == 1
  }

  /** The counter of local transactions. */
  class XactCounter {
    var globalXactId: u32
    ghost var made: nat

    ghost predicate Valid()
      reads this
    {
      globalXactId == if made == 0 then PFCP_MIN_XACT_ID else XactId(made - 1) + 1
    }

    constructor ()
      ensures Valid() && made == 0
    {
      globalXactId := PFCP_MIN_XACT_ID;
      made := 0;
    }

    /** The identifier part of `PfcpXactLocalCreate`. */
    method NextId() returns (transactionId: u32)
      requires Valid()
      modifies this
      ensures Valid() && made == old(made) + 1 && transactionId == XactId(old(made))
    {
      CounterStep(made);
      if globalXactId >= PFCP_MAX_XACT_ID {
        globalXactId := PFCP_MIN_XACT_ID;
      }
      transactionId := globalXactId;
      globalXactId := globalXactId + 1;
      made := made + 1;
    }
  }

  lemma CounterStep(n: nat)
    ensures n > 0 ==> XactId(n) == if XactId(n - 1) + 1 >= PFCP_MAX_XACT_ID then PFCP_MIN_XACT_ID else XactId(n - 1) + 1
    ensures XactId(0) == PFCP_MIN_XACT_ID
  {
    if n > 0 {
      var q, r := (n - 1) / CYCLE, (n - 1) % CYCLE;
      assert n == CYCLE * q + (r + 1);
    }
  }

  /** The first transaction of a list with the identifier. */
  function First(list: seq<PfcpXact>, transactionId: u32): (xact: PfcpXact?)
    ensures xact == null <==> forall i :: 0 <= i < |list| ==> list[i].transactionId != transactionId
    ensures xact != null ==> xact.transactionId == transactionId
    ensures xact != null ==> (exists i :: 0 <= i < |list| && list[i] == xact
                                && forall j :: 0 <= j < i ==> list[j].transactionId != transactionId)
  {
    if list == [] then null
    else if list[0].transactionId == transactionId then list[0]
    else First(list[1..], transactionId)
  }

  lemma {:induction false} FirstIs(list: seq<PfcpXact>, i: nat)
    requires i < |list| && forall j :: 0 <= j < i ==> list[j].transactionId != list[i].transactionId
    ensures First(list, list[i].transactionId) == list[i]
  {
    if i > 0 {
      FirstIs(list[1..], i - 1);
    }
  }

  lemma {:induction false} FirstAbsent(list: seq<PfcpXact>, transactionId: u32)
    requires forall j :: 0 <= j < |list| ==> list[j].transactionId != transactionId
    ensures First(list, transactionId) == null
  {
    if list != [] {
      FirstAbsent(list[1..], transactionId);
    }
  }

  /** The list that a message is looked up in: requests among the remote transactions, responses by the mark. */
  function ListFor(local: seq<PfcpXact>, remote: seq<PfcpXact>, msgType: octet, transactionId: u32): seq<PfcpXact> {
    match GetStage(msgType)
    case InitialStage => remote
    case FinalStage => if RemoteMark(transactionId) then remote else local
    case UnknownStage => []
  }

  /**
   * A request is looked for among the remote transactions, a response among those that the highest of the
   * 24 bits names, and a message of another type nowhere.
   */
  lemma ListForMeans(local: seq<PfcpXact>, remote: seq<PfcpXact>, msgType: octet, transactionId: u32)
    ensures var list := ListFor(local, remote, msgType, transactionId);
      && (msgType in REQUESTS ==> list == remote)
      && (Response(msgType) ==> list == if transactionId % 0x100_0000 >= 0x80_0000 then remote else local)
      && (msgType !in REQUESTS && !Response(msgType) ==> list == [])
  {
    StageIs(msgType);
  }

  /** `PfcpXactFindByTransactionId` */
  method FindByTransactionId(local: seq<PfcpXact>, remote: seq<PfcpXact>, msgType: octet, transactionId: u32)
      returns (xact: PfcpXact?)
    ensures xact == First(ListFor(local, remote, msgType, transactionId), transactionId)
  {
    var list := [];
    match GetStage(msgType) {
      case InitialStage => list := remote;
      case FinalStage =>
        if RemoteMark(transactionId) {
          list := remote;
        } else {
          list := local;
        }
      case UnknownStage => return null;
    }
    var i := 0;
    while i < |list|
      invariant i <= |list| && forall j :: 0 <= j < i ==> list[j].transactionId != transactionId
    {
      if list[i].transactionId == transactionId {
        FirstIs(list, i);
        return list[i];
      }
      i := i + 1;
    }
    FirstAbsent(list, transactionId);
    xact := null;
  }

  /**
   * A response is matched with the local transaction that asked, whatever the remote list holds, as long
   * as the transactions on the local list were created within one cycle of identifiers.
   */
  lemma ResponseFindsItsRequest(local: seq<PfcpXact>, ns: seq<nat>, start: nat, remote: seq<PfcpXact>, msgType: octet,
                                i: nat)
    requires |ns| == |local| && forall j :: 0 <= j < |ns| ==> start <= ns[j] < start + CYCLE
    requires forall j, k :: 0 <= j < k < |ns| ==> ns[j] != ns[k]
    requires forall j :: 0 <= j < |ns| ==> local[j].transactionId == XactId(ns[j])
    requires i < |local| && GetStage(msgType) == FinalStage
    ensures First(ListFor(local, remote, msgType, local[i].transactionId), local[i].transactionId) == local[i]
  {
    forall j | 0 <= j < i
      ensures local[j].transactionId != local[i].transactionId
    {
      if ns[j] < ns[i] {
        IdsWithinCycle(ns[j], ns[i]);
      } else {
        IdsWithinCycle(ns[i], ns[j]);
      }
    }
    FirstIs(local, i);
  }
}
