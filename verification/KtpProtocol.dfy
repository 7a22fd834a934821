/** The KTP stop-and-wait protocol as a transition system: one sending socket,
    one receiving socket, and a network that may lose, duplicate and reorder.

    A datagram carries its sequence number in one `char`; both ends compare
    that `char` with an `int`. */
module KtpProtocol {

  type Payload = string

  const MAX_DATA_SIZE := 512

  datatype Kind = DATA_MSG | ACK_MSG

  /** Whether plain `char` is signed is the compiler's choice. */
  datatype CharKind = SignedChar | UnsignedChar

  /** The value read back after storing the int `n` in one `char`. */
  function Wire(chars: CharKind, n: int): int {
    match chars
    case SignedChar => (n + 128) % 256 - 128
    case UnsignedChar => n % 256
  }

  /** The largest sequence number that survives the trip through a `char`. */
  function Limit(chars: CharKind): int {
    match chars
    case SignedChar => 127
    case UnsignedChar => 255
  }

  /** `num` and `kind` are the two header bytes the code looks at. `origin` is
      not on the wire: it remembers which send the datagram belongs to. */
  datatype Datagram = Datagram(num: int, kind: Kind, payload: Payload, origin: nat)

  datatype Phase = Idle | Sending(payload: Payload)

  /** `returned` and `delivered` list the payloads of finished sends and of
      finished receives; the tally records what the network did. */
  datatype Sender = Sender(nextSeqno: int, lastAckno: int, phase: Phase, returned: seq<Payload>)
  datatype Receiver = Receiver(expSeqno: int, receiving: bool, delivered: seq<Payload>)
  datatype Network = Network(toReceiver: multiset<Datagram>, toSender: multiset<Datagram>)
  datatype Tally = Tally(timeouts: nat, lost: nat, duplicated: nat)
  datatype State = State(chars: CharKind, snd: Sender, rcv: Receiver, net: Network, tally: Tally)

  datatype Event =
    | SendCall(buf: Payload)
    | Timeout
    | AckDropped(d: Datagram)
    | AckRead(d: Datagram)
    | RecvCall
    | PacketDropped(d: Datagram)
    | PacketRead(d: Datagram)
    | LoseData(d: Datagram)
    | LoseAck(d: Datagram)
    | DupData(d: Datagram)
    | DupAck(d: Datagram)

  function Init(chars: CharKind): State {
    State(chars, Sender(1, 0, Idle, []), Receiver(1, false, []), Network(multiset{}, multiset{}), Tally(0, 0, 0))
  }

  function Cut(buf: Payload): Payload {
    if |buf| > MAX_DATA_SIZE then buf[..MAX_DATA_SIZE] else buf
  }

  /** The packet the sender transmits at the top of its loop, every time round. */
  function Packet(s: State, payload: Payload): Datagram
    requires s.snd.nextSeqno >= 0
  {
    Datagram(Wire(s.chars, s.snd.nextSeqno), DATA_MSG, payload, s.snd.nextSeqno)
  }

  function AckFor(d: Datagram): Datagram {
    Datagram(d.num, ACK_MSG, [], d.origin)
  }

  predicate Matches(s: State, ack: Datagram) {
    ack.num == s.snd.nextSeqno && ack.kind == ACK_MSG
  }

  predicate Expected(s: State, d: Datagram) {
    d.num == s.rcv.expSeqno && d.kind == DATA_MSG
  }

  function Put(net: Network, d: Datagram): Network {
    Network(net.toReceiver + multiset{d}, net.toSender)
  }

  function TakeAck(net: Network, d: Datagram): Network {
    Network(net.toReceiver, net.toSender - multiset{d})
  }

  function TakePacket(net: Network, d: Datagram): Network {
    Network(net.toReceiver - multiset{d}, net.toSender)
  }

  function Swap(net: Network, d: Datagram): Network {
    Network(net.toReceiver - multiset{d}, net.toSender + multiset{AckFor(d)})
  }

  function Lose(t: Tally): Tally { Tally(t.timeouts, t.lost + 1, t.duplicated) }

  function Copy(t: Tally): Tally { Tally(t.timeouts, t.lost, t.duplicated + 1) }

  predicate Enabled(s: State, e: Event) {
    && s.snd.nextSeqno >= 0
    && match e
       case SendCall(_) => s.snd.phase.Idle?
       case Timeout => s.snd.phase.Sending?
       case AckDropped(d) => s.snd.phase.Sending? && d in s.net.toSender
       case AckRead(d) => s.snd.phase.Sending? && d in s.net.toSender
       case RecvCall => !s.rcv.receiving
       case PacketDropped(d) => s.rcv.receiving && d in s.net.toReceiver
       case PacketRead(d) => s.rcv.receiving && d in s.net.toReceiver
       case LoseData(d) => d in s.net.toReceiver
       case LoseAck(d) => d in s.net.toSender
       case DupData(d) => d in s.net.toReceiver
       case DupAck(d) => d in s.net.toSender
  }

  function SenderAfter(s: State, e: Event): Sender
    requires Enabled(s, e)
  {
    match e
    case SendCall(buf) =>
      if buf == [] then s.snd else Sender(s.snd.nextSeqno, s.snd.lastAckno, Sending(Cut(buf)), s.snd.returned)
    case AckRead(d) =>
      if Matches(s, d) then
        Sender(s.snd.nextSeqno + 1, s.snd.nextSeqno, Idle, s.snd.returned + [s.snd.phase.payload])
      else s.snd
    case _ => s.snd
  }

  function ReceiverAfter(s: State, e: Event): Receiver
    requires Enabled(s, e)
  {
    match e
    case RecvCall => Receiver(s.rcv.expSeqno, true, s.rcv.delivered)
    case PacketRead(d) =>
      if Expected(s, d) then Receiver(s.rcv.expSeqno + 1, false, s.rcv.delivered + [d.payload]) else s.rcv
    case _ => s.rcv
  }

  /** A call, a timeout, and every acknowledgement thrown away make the sender
      transmit; every packet the receiver keeps makes it acknowledge. */
  function NetworkAfter(s: State, e: Event): Network
    requires Enabled(s, e)
  {
    match e
    case SendCall(buf) => if buf == [] then s.net else Put(s.net, Packet(s, Cut(buf)))
    case Timeout => Put(s.net, Packet(s, s.snd.phase.payload))
    case AckDropped(d) => Put(TakeAck(s.net, d), Packet(s, s.snd.phase.payload))
    case AckRead(d) =>
      if Matches(s, d) then TakeAck(s.net, d) else Put(TakeAck(s.net, d), Packet(s, s.snd.phase.payload))
    case RecvCall => s.net
    case PacketDropped(d) => TakePacket(s.net, d)
    case PacketRead(d) => Swap(s.net, d)
    case LoseData(d) => TakePacket(s.net, d)
    case LoseAck(d) => TakeAck(s.net, d)
    case DupData(d) => Put(s.net, d)
    case DupAck(d) => Network(s.net.toReceiver, s.net.toSender + multiset{d})
  }

  function TallyAfter(s: State, e: Event): Tally {
    match e
    case Timeout => Tally(s.tally.timeouts + 1, s.tally.lost, s.tally.duplicated)
    case PacketDropped(_) => Lose(s.tally)
    case LoseData(_) => Lose(s.tally)
    case LoseAck(_) => Lose(s.tally)
    case DupData(_) => Copy(s.tally)
    case DupAck(_) => Copy(s.tally)
    case _ => s.tally
  }

  function Apply(s: State, e: Event): State
    requires Enabled(s, e)
  {
    State(s.chars, SenderAfter(s, e), ReceiverAfter(s, e), NetworkAfter(s, e), TallyAfter(s, e))
  }

  predicate Runs(s: State, es: seq<Event>)
    decreases es
  {
    es == [] || (Enabled(s, es[0]) && Runs(Apply(s, es[0]), es[1..]))
  }

  function After(s: State, es: seq<Event>): State
    requires Runs(s, es)
    decreases es
  {
    if es == [] then s else After(Apply(s, es[0]), es[1..])
  }

  lemma {:induction false} RunsAppend(s: State, es: seq<Event>, fs: seq<Event>)
    requires Runs(s, es)
    ensures Runs(s, es + fs) <==> Runs(After(s, es), fs)
    ensures Runs(s, es + fs) ==> After(s, es + fs) == After(After(s, es), fs)
    decreases es
  {
    if es == [] {
      assert es + fs == fs;
    } else {
      assert (es + fs)[0] == es[0] && (es + fs)[1..] == es[1..] + fs;
      RunsAppend(Apply(s, es[0]), es[1..], fs);
    }
  }

  // ---------- the inductive invariant ----------

  /** The payload of send number `k`, for finished sends and the one in progress. */
  function Calls(s: State): seq<Payload> {
    if s.snd.phase.Sending? then s.snd.returned + [s.snd.phase.payload] else s.snd.returned
  }

  predicate GoodData(s: State, d: Datagram) {
    && d.kind == DATA_MSG
    && 1 <= d.origin <= |Calls(s)|
    && d.num == Wire(s.chars, d.origin)
    && d.payload == Calls(s)[d.origin - 1]
  }

  /** An acknowledgement in flight was earned by a delivery, or belongs to the
      one number too many, which no comparison ever matches. */
  predicate GoodAck(s: State, d: Datagram) {
    && d.kind == ACK_MSG
    && d.num == Wire(s.chars, d.origin)
    && (1 <= d.origin < s.rcv.expSeqno || d.origin == Limit(s.chars) + 1)
  }

  ghost predicate Inv(s: State) {
    && 1 <= s.snd.nextSeqno <= Limit(s.chars) + 1
    && s.snd.lastAckno == s.snd.nextSeqno - 1 == |s.snd.returned|
    && s.rcv.expSeqno == |s.rcv.delivered| + 1 <= Limit(s.chars) + 1
    && (s.rcv.delivered == s.snd.returned || (s.snd.phase.Sending? && s.rcv.delivered == Calls(s)))
    && (forall d :: d in s.net.toReceiver ==> GoodData(s, d))
    && (forall d :: d in s.net.toSender ==> GoodAck(s, d))
  }

  /** A number survives the wire exactly when it is within the limit; this is
      what bounds a session. */
  lemma {:induction false} WireFaithful(chars: CharKind, n: int)
    requires 1 <= n <= Limit(chars) + 1
    ensures Wire(chars, n) == n <==> n <= Limit(chars)
    ensures n == Limit(chars) + 1 ==> Wire(chars, n) < 1
  {
  }

  lemma {:induction false} InitInv(chars: CharKind)
    ensures Inv(Init(chars))
  {
  }

  lemma {:induction false} PutInv(s: State, s': State, payload: Payload)
    requires Inv(s) && s.snd.phase == Sending(payload)
    requires s' == State(s.chars, s.snd, s.rcv, Put(s.net, Packet(s, payload)), s'.tally)
    ensures Inv(s')
  {
  }

  /** Taking datagrams out of the network or copying them keeps the invariant. */
  lemma {:induction false} NetworkInv(s: State, s': State)
    requires Inv(s)
    requires s'.chars == s.chars && s'.snd == s.snd
    requires s'.rcv == Receiver(s.rcv.expSeqno, s'.rcv.receiving, s.rcv.delivered)
    requires forall d :: d in s'.net.toReceiver ==> d in s.net.toReceiver
    requires forall d :: d in s'.net.toSender ==> d in s.net.toSender
    ensures Inv(s')
  {
  }

  /** A matching acknowledgement is never a stale one: it belongs to the send
      in progress, whose payload has been delivered. */
  lemma {:induction false} MatchIsCurrent(s: State, d: Datagram)
    requires Inv(s) && s.snd.phase.Sending? && d in s.net.toSender && Matches(s, d)
    ensures d.origin == s.snd.nextSeqno <= Limit(s.chars)
    ensures s.rcv.delivered == Calls(s)
  {
  }

  /** An expected packet is never a stale one: it belongs to the send in
      progress, whose payload has not been delivered before. */
  lemma {:induction false} ExpectedIsCurrent(s: State, d: Datagram)
    requires Inv(s) && d in s.net.toReceiver && Expected(s, d)
    ensures s.snd.phase.Sending? && s.rcv.delivered == s.snd.returned
    ensures d.origin == s.snd.nextSeqno <= Limit(s.chars) && d.payload == s.snd.phase.payload
  {
  }

  lemma {:induction false} AckReadInv(s: State, d: Datagram)
    requires Inv(s) && Enabled(s, AckRead(d))
    ensures Inv(Apply(s, AckRead(d)))
  {
    var s' := Apply(s, AckRead(d));
    if Matches(s, d) {
      MatchIsCurrent(s, d);
      assert Calls(s') == Calls(s);
      forall x | x in s'.net.toReceiver ensures GoodData(s', x) { assert GoodData(s, x); }
      forall x | x in s'.net.toSender ensures GoodAck(s', x) { assert GoodAck(s, x); }
    } else {
      var less := State(s.chars, s.snd, s.rcv, TakeAck(s.net, d), s.tally);
      NetworkInv(s, less);
      PutInv(less, s', s.snd.phase.payload);
    }
  }

  lemma {:induction false} PacketReadInv(s: State, d: Datagram)
    requires Inv(s) && Enabled(s, PacketRead(d))
    ensures Inv(Apply(s, PacketRead(d)))
  {
    var s' := Apply(s, PacketRead(d));
    assert GoodData(s, d);
    WireFaithful(s.chars, d.origin);
    if Expected(s, d) { ExpectedIsCurrent(s, d); }
    assert GoodAck(s', AckFor(d));
    forall x | x in s'.net.toReceiver ensures GoodData(s', x) { assert GoodData(s, x); }
    forall x | x in s'.net.toSender ensures GoodAck(s', x) {
      if x != AckFor(d) { assert GoodAck(s, x); }
    }
  }

  lemma {:induction false} SendCallStepInv(s: State, buf: Payload)
    requires Inv(s) && Enabled(s, SendCall(buf))
    ensures Inv(Apply(s, SendCall(buf)))
  {
  }

  lemma {:induction false} AckDroppedInv(s: State, d: Datagram)
    requires Inv(s) && Enabled(s, AckDropped(d))
    ensures Inv(Apply(s, AckDropped(d)))
  {
    var less := State(s.chars, s.snd, s.rcv, TakeAck(s.net, d), s.tally);
    NetworkInv(s, less);
    PutInv(less, Apply(s, AckDropped(d)), s.snd.phase.payload);
  }

  lemma {:induction false} NetworkStepInv(s: State, e: Event)
    requires Inv(s) && Enabled(s, e)
    requires !e.SendCall? && !e.Timeout? && !e.AckDropped? && !e.AckRead? && !e.PacketRead?
    ensures Inv(Apply(s, e))
  {
  }

  lemma {:induction false} StepInv(s: State, e: Event)
    requires Inv(s) && Enabled(s, e)
    ensures Inv(Apply(s, e))
  {
    match e
    case SendCall(buf) => SendCallStepInv(s, buf);
    case Timeout => PutInv(s, Apply(s, e), s.snd.phase.payload);
    case AckDropped(d) => AckDroppedInv(s, d);
    case AckRead(d) => AckReadInv(s, d);
    case PacketRead(d) => PacketReadInv(s, d);
    case _ => NetworkStepInv(s, e);
  }

  lemma {:induction false} RunInv(s: State, es: seq<Event>)
    requires Inv(s) && Runs(s, es)
    ensures Inv(After(s, es))
    decreases es
  {
    if es != [] {
      StepInv(s, es[0]);
      RunInv(Apply(s, es[0]), es[1..]);
    }
  }

  // ---------- prefix safety ----------

  /** The payloads a run hands to the network, read off its send calls alone. */
  function CallsOf(es: seq<Event>): seq<Payload> {
    if es == [] then []
    else if es[0].SendCall? && |es[0].buf| > 512 then [es[0].buf[..512]] + CallsOf(es[1..])
    else if es[0].SendCall? && |es[0].buf| > 0 then [es[0].buf] + CallsOf(es[1..])
    else CallsOf(es[1..])
  }

  lemma {:induction false} CallsFollowRun(s: State, es: seq<Event>)
    requires Runs(s, es)
    ensures Calls(After(s, es)) == Calls(s) + CallsOf(es)
    decreases es
  {
    if es != [] {
      CallsFollowRun(Apply(s, es[0]), es[1..]);
      assert Calls(Apply(s, es[0])) == Calls(s) + CallsOf(es[..1]) by {
        assert es[..1][1..] == [];
      }
    }
  }

  /** Over every behaviour of the network, what has been delivered is what has
      been sent, in order and once, up to the send in progress; and the `char`
      on the wire caps the session. */
  lemma {:induction false} PrefixSafety(chars: CharKind, es: seq<Event>)
    requires Runs(Init(chars), es)
    ensures var s := After(Init(chars), es);
      && s.snd.returned <= s.rcv.delivered <= CallsOf(es)
      && |CallsOf(es)| - 1 <= |s.snd.returned| <= |CallsOf(es)|
      && (s.snd.phase.Idle? ==> s.snd.returned == s.rcv.delivered == CallsOf(es))
      && |s.rcv.delivered| <= (if chars.SignedChar? then 127 else 255)
  {
    InitInv(chars);
    RunInv(Init(chars), es);
    CallsFollowRun(Init(chars), es);
    CharsFixed(Init(chars), es);
    assert Calls(Init(chars)) + CallsOf(es) == CallsOf(es);
  }

  lemma {:induction false} CharsFixed(s: State, es: seq<Event>)
    requires Runs(s, es)
    ensures After(s, es).chars == s.chars
    decreases es
  {
    if es != [] { CharsFixed(Apply(s, es[0]), es[1..]); }
  }

  /** In every reachable state, a packet the receiver delivers and an
      acknowledgement the sender accepts both belong to the send in progress,
      however many old copies are still in flight. */
  lemma {:induction false} NoStaleDatagram(chars: CharKind, es: seq<Event>, d: Datagram)
    requires Runs(Init(chars), es)
    ensures var s := After(Init(chars), es);
      && (Enabled(s, PacketRead(d)) && Apply(s, PacketRead(d)).rcv.delivered != s.rcv.delivered ==>
            s.snd.phase.Sending? && d.origin == s.snd.nextSeqno && d.payload == s.snd.phase.payload)
      && (Enabled(s, AckRead(d)) && Apply(s, AckRead(d)).snd.phase.Idle? ==>
            d.origin == s.snd.nextSeqno && s.rcv.delivered == s.snd.returned + [s.snd.phase.payload])
  {
    InitInv(chars);
    RunInv(Init(chars), es);
    var s := After(Init(chars), es);
    if Enabled(s, PacketRead(d)) && Expected(s, d) { ExpectedIsCurrent(s, d); }
    if Enabled(s, AckRead(d)) && Matches(s, d) { MatchIsCurrent(s, d); }
  }

  /** Once the limit is used up, the next send hangs: whatever happens, it is
      neither delivered nor returned. */
  lemma {:induction false} LimitHangs(s: State, es: seq<Event>)
    requires Inv(s) && s.snd.nextSeqno == Limit(s.chars) + 1 && Runs(s, es)
    ensures After(s, es).snd.returned == s.snd.returned
    ensures After(s, es).rcv.delivered == s.rcv.delivered
    ensures s.snd.phase.Sending? ==> After(s, es).snd.phase == s.snd.phase
  {
    RunInv(s, es);
    CharsFixed(s, es);
    HistoryGrows(s, es);
    CallsFollowRun(s, es);
    var t := After(s, es);
    if s.snd.phase.Sending? {
      assert t.snd.phase.Sending?;
      assert Calls(t)[|s.snd.returned|] == Calls(s)[|s.snd.returned|];
    }
  }

  lemma {:induction false} HistoryGrows(s: State, es: seq<Event>)
    requires Runs(s, es)
    ensures s.snd.returned <= After(s, es).snd.returned && s.rcv.delivered <= After(s, es).rcv.delivered
    ensures s.snd.phase.Sending? && After(s, es).snd.returned == s.snd.returned ==>
              After(s, es).snd.phase == s.snd.phase
    decreases es
  {
    if es != [] { HistoryGrows(Apply(s, es[0]), es[1..]); }
  }

  // ---------- how far a session can go ----------

  /** One more transmission, delivered and acknowledged. */
  function Rescue(s: State): seq<Event>
    requires s.snd.phase.Sending? && s.snd.nextSeqno >= 0
  {
    var pkt := Packet(s, s.snd.phase.payload);
    [Timeout] + (if s.rcv.receiving then [] else [RecvCall]) + [PacketRead(pkt), AckRead(AckFor(pkt))]
  }

  /** The run `es`, then the event `e`. */
  lemma {:induction false} RunThen(s: State, es: seq<Event>, e: Event)
    requires Runs(s, es) && Enabled(After(s, es), e)
    ensures Runs(s, es + [e]) && After(s, es + [e]) == Apply(After(s, es), e)
  {
    RunsAppend(s, es, [e]);
    assert [e][1..] == [];
  }

  lemma {:induction false} RescueReturns(s: State)
    requires Inv(s) && s.snd.phase.Sending? && s.snd.nextSeqno <= Limit(s.chars)
    ensures Runs(s, Rescue(s))
    ensures var t := After(s, Rescue(s));
      t.snd.phase.Idle? && t.snd.returned == s.snd.returned + [s.snd.phase.payload]
  {
    hide Inv, Runs, After;
    assert s.snd.nextSeqno >= 1 by { InvNumbers(s); }
    var pkt := Packet(s, s.snd.phase.payload);
    WireFaithful(s.chars, s.snd.nextSeqno);
    RunNone(s);
    RunThen(s, [], Timeout);
    var es, s1 := [] + [Timeout], Apply(s, Timeout);
    if !s1.rcv.receiving {
      RunThen(s, es, RecvCall);
      es, s1 := es + [RecvCall], Apply(s1, RecvCall);
    }
    RunThen(s, es, PacketRead(pkt));
    var s2 := Apply(s1, PacketRead(pkt));
    assert AckFor(pkt) in s2.net.toSender && Matches(s2, AckFor(pkt));
    RunThen(s, es + [PacketRead(pkt)], AckRead(AckFor(pkt)));
    assert es + [PacketRead(pkt)] + [AckRead(AckFor(pkt))] == Rescue(s);
  }

  lemma {:induction false} InvNumbers(s: State)
    requires Inv(s)
    ensures 1 <= s.snd.nextSeqno == |s.snd.returned| + 1 <= Limit(s.chars) + 1
  {
  }

  lemma {:induction false} RunNone(s: State)
    ensures Runs(s, []) && After(s, []) == s
  {
  }

  ghost predicate CanReturn(s: State) {
    exists fs :: Runs(s, fs) && After(s, fs).snd.phase.Idle?
  }

  /** In every reachable state, the send in progress can still return exactly
      when fewer than 127 (or 255) have returned, which is when its number
      survives the `char`. */
  lemma {:induction false} ReturnsWithinLimit(chars: CharKind, es: seq<Event>)
    requires Runs(Init(chars), es) && After(Init(chars), es).snd.phase.Sending?
    ensures CanReturn(After(Init(chars), es))
       <==> |After(Init(chars), es).snd.returned| < if chars.SignedChar? then 127 else 255
  {
    InitInv(chars);
    RunInv(Init(chars), es);
    CharsFixed(Init(chars), es);
    var s := After(Init(chars), es);
    hide Runs, After, Inv;
    InvNumbers(s);
    if s.snd.nextSeqno <= Limit(chars) {
      RescueReturns(s);
    } else {
      forall fs | Runs(s, fs) ensures After(s, fs).snd.phase.Sending? { LimitHangs(s, fs); }
    }
  }

  /** Some run in which the sends of exactly `ms` return. */
  ghost predicate CanSend(chars: CharKind, ms: seq<Payload>) {
    exists es :: Runs(Init(chars), es) && After(Init(chars), es).snd.phase.Idle?
                 && After(Init(chars), es).snd.returned == ms
  }

  lemma {:induction false} SendsOneByOne(chars: CharKind, ms: seq<Payload>)
    requires |ms| <= Limit(chars) && forall m :: m in ms ==> 1 <= |m| <= MAX_DATA_SIZE
    ensures CanSend(chars, ms)
    decreases |ms|
  {
    if ms == [] {
      RunNone(Init(chars));
    } else {
      var front, last := ms[..|ms| - 1], ms[|ms| - 1];
      SendsOneByOne(chars, front);
      var es :| Runs(Init(chars), es) && After(Init(chars), es).snd.phase.Idle?
                && After(Init(chars), es).snd.returned == front;
      SendsOneMore(chars, es, last);
      assert front + [last] == ms;
    }
  }

  lemma {:induction false} SendsOneMore(chars: CharKind, es: seq<Event>, m: Payload)
    requires Runs(Init(chars), es) && After(Init(chars), es).snd.phase.Idle?
    requires |After(Init(chars), es).snd.returned| < Limit(chars) && 1 <= |m| <= MAX_DATA_SIZE
    ensures CanSend(chars, After(Init(chars), es).snd.returned + [m])
  {
    InitInv(chars);
    RunInv(Init(chars), es);
    CharsFixed(Init(chars), es);
    var s := After(Init(chars), es);
    hide Runs, After, Inv, Rescue;
    InvNumbers(s);
    StepInv(s, SendCall(m));
    RunThen(Init(chars), es, SendCall(m));
    var called := Apply(s, SendCall(m));
    RescueReturns(called);
    RunsAppend(Init(chars), es + [SendCall(m)], Rescue(called));
    assert Runs(Init(chars), es + [SendCall(m)] + Rescue(called));
  }

  /** A session can carry a list of messages exactly when it is no longer than
      the limit. */
  lemma {:induction false} SessionLength(chars: CharKind, ms: seq<Payload>)
    requires forall m :: m in ms ==> 1 <= |m| <= 512
    ensures CanSend(chars, ms) <==> |ms| <= if chars.SignedChar? then 127 else 255
  {
    if |ms| <= Limit(chars) { SendsOneByOne(chars, ms); }
    forall es | Runs(Init(chars), es) ensures |After(Init(chars), es).snd.returned| <= Limit(chars) {
      PrefixSafety(chars, es);
    }
  }

  ghost predicate Hangs(chars: CharKind, es: seq<Event>, ms: seq<Payload>, m: Payload) {
    && Runs(Init(chars), es) && After(Init(chars), es).snd.returned == ms
    && After(Init(chars), es).snd.phase == Sending(m) && !CanReturn(After(Init(chars), es))
  }

  /** The limit is reached: whatever messages used it up, the next send hangs. */
  lemma {:induction false} NextSendHangs(chars: CharKind, ms: seq<Payload>, m: Payload)
    requires |ms| == if chars.SignedChar? then 127 else 255
    requires forall x :: x in ms + [m] ==> 1 <= |x| <= 512
    ensures exists es :: Hangs(chars, es, ms, m)
  {
    assert m in ms + [m] && forall x :: x in ms ==> x in ms + [m];
    SendsOneByOne(chars, ms);
    var es :| Runs(Init(chars), es) && After(Init(chars), es).snd.phase.Idle?
              && After(Init(chars), es).snd.returned == ms;
    InitInv(chars);
    RunInv(Init(chars), es);
    InvNumbers(After(Init(chars), es));
    RunThen(Init(chars), es, SendCall(m));
    CharsFixed(Init(chars), es);
    ReturnsWithinLimit(chars, es + [SendCall(m)]);
    assert Hangs(chars, es + [SendCall(m)], ms, m);
  }

  // ---------- conservation of datagrams ----------

  function InFlight(s: State): nat { |s.net.toReceiver| + |s.net.toSender| }

  predicate Conserved(s: State) {
    InFlight(s) == (if s.snd.phase.Sending? then 1 else 0) + s.tally.timeouts + s.tally.duplicated - s.tally.lost
  }

  lemma {:induction false} ConservedRun(s: State, es: seq<Event>)
    requires Conserved(s) && Runs(s, es)
    ensures Conserved(After(s, es))
    decreases es
  {
    if es != [] {
      assert Conserved(Apply(s, es[0]));
      ConservedRun(Apply(s, es[0]), es[1..]);
    }
  }

  function CountOf(es: seq<Event>, p: Event -> bool): nat {
    if es == [] then 0 else (if p(es[0]) then 1 else 0) + CountOf(es[1..], p)
  }

  const IS_TIMEOUT := (e: Event) => e.Timeout?
  const IS_LOSS := (e: Event) => e.LoseData? || e.LoseAck? || e.PacketDropped?
  const IS_DUP := (e: Event) => e.DupData? || e.DupAck?

  lemma {:induction false} CountersFollowRun(s: State, es: seq<Event>)
    requires Runs(s, es)
    ensures After(s, es).tally.timeouts == s.tally.timeouts + CountOf(es, IS_TIMEOUT)
    ensures After(s, es).tally.lost == s.tally.lost + CountOf(es, IS_LOSS)
    ensures After(s, es).tally.duplicated == s.tally.duplicated + CountOf(es, IS_DUP)
    decreases es
  {
    if es != [] { CountersFollowRun(Apply(s, es[0]), es[1..]); }
  }

  /** Acknowledgements replace packets one for one, and the sender repays every
      acknowledgement it throws away, so only timeouts and copies add datagrams
      and only losses remove them. */
  lemma {:induction false} Conservation(chars: CharKind, es: seq<Event>)
    requires Runs(Init(chars), es)
    ensures var s := After(Init(chars), es);
      InFlight(s) == (if s.snd.phase.Sending? then 1 else 0)
                     + CountOf(es, IS_TIMEOUT) + CountOf(es, IS_DUP) - CountOf(es, IS_LOSS)
  {
    ConservedRun(Init(chars), es);
    CountersFollowRun(Init(chars), es);
  }
}
