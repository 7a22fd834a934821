/** A send in progress once the network has become quiet: channels that keep
    order, no more losses or timeouts, and a receiver that keeps calling
    `k_recvfrom`. */
module KtpFifo {
  import opened KtpProtocol

  /** A protocol state with the order of its datagrams in flight. */
  datatype Queued = Queued(s: State, data: seq<Datagram>, acks: seq<Datagram>)

  /** `Serve`: the receiver reads its oldest packet, calling first if need be.
      `Read`: the sender reads its oldest acknowledgement. */
  datatype Move = Serve | Read

  ghost predicate Ordered(q: Queued) {
    multiset(q.data) == q.s.net.toReceiver && multiset(q.acks) == q.s.net.toSender
  }

  predicate CanMove(q: Queued, m: Move) {
    && q.s.snd.phase.Sending? && q.s.snd.nextSeqno >= 0
    && match m
       case Serve => q.data != []
       case Read => q.acks != []
  }

  /** A move as events of the protocol. */
  function EventsOf(q: Queued, m: Move): seq<Event>
    requires CanMove(q, m)
  {
    match m
    case Serve => (if q.s.rcv.receiving then [] else [RecvCall]) + [PacketRead(q.data[0])]
    case Read => [AckRead(q.acks[0])]
  }

  function StateAfter(q: Queued, m: Move): State
    requires CanMove(q, m)
  {
    match m
    case Serve =>
      var rcv := Receiver(q.s.rcv.expSeqno, true, q.s.rcv.delivered);
      var d := q.data[0];
      var s := State(q.s.chars, q.s.snd, rcv, q.s.net, q.s.tally);
      State(s.chars, s.snd,
            if Expected(s, d) then Receiver(rcv.expSeqno + 1, false, rcv.delivered + [d.payload]) else rcv,
            Swap(s.net, d), s.tally)
    case Read =>
      State(q.s.chars, SenderAfterRead(q.s, q.acks[0]), q.s.rcv, NetworkAfterRead(q.s, q.acks[0]), q.s.tally)
  }

  function SenderAfterRead(s: State, ack: Datagram): Sender
    requires s.snd.phase.Sending?
  {
    if Matches(s, ack)
    then Sender(s.snd.nextSeqno + 1, s.snd.nextSeqno, Idle, s.snd.returned + [s.snd.phase.payload])
    else s.snd
  }

  function NetworkAfterRead(s: State, ack: Datagram): Network
    requires s.snd.phase.Sending? && s.snd.nextSeqno >= 0
  {
    if Matches(s, ack) then TakeAck(s.net, ack) else Put(TakeAck(s.net, ack), Packet(s, s.snd.phase.payload))
  }

  /** Channels that keep order: what is put in goes to the end. */
  function MoveAfter(q: Queued, m: Move): Queued
    requires CanMove(q, m)
  {
    match m
    case Serve => Queued(StateAfter(q, m), q.data[1..], q.acks + [AckFor(q.data[0])])
    case Read =>
      Queued(StateAfter(q, m),
             if Matches(q.s, q.acks[0]) then q.data else q.data + [Packet(q.s, q.s.snd.phase.payload)],
             q.acks[1..])
  }

  predicate Moves(q: Queued, ms: seq<Move>)
    decreases ms
  {
    ms == [] || (CanMove(q, ms[0]) && Moves(MoveAfter(q, ms[0]), ms[1..]))
  }

  function Moved(q: Queued, ms: seq<Move>): Queued
    requires Moves(q, ms)
    decreases ms
  {
    if ms == [] then q else Moved(MoveAfter(q, ms[0]), ms[1..])
  }

  function RunOf(q: Queued, ms: seq<Move>): seq<Event>
    requires Moves(q, ms)
    decreases ms
  {
    if ms == [] then [] else EventsOf(q, ms[0]) + RunOf(MoveAfter(q, ms[0]), ms[1..])
  }

  function Reads(ms: seq<Move>): nat {
    if ms == [] then 0 else (if ms[0].Read? then 1 else 0) + Reads(ms[1..])
  }

  /** Nothing is lost, copied, dropped or retransmitted on a timer. */
  predicate Quiet(e: Event) { e.RecvCall? || e.PacketRead? || e.AckRead? }

  lemma {:induction false} HeadOf(ds: seq<Datagram>)
    requires ds != []
    ensures multiset(ds[1..]) == multiset(ds) - multiset{ds[0]} && ds[0] in multiset(ds)
  {
    assert ds == [ds[0]] + ds[1..];
  }

  lemma {:induction false} OneRun(s: State, e: Event)
    requires Enabled(s, e)
    ensures Runs(s, [e]) && After(s, [e]) == Apply(s, e)
  {
  }

  /** A quiet move is a run of the protocol. */
  lemma {:induction false} QuietStep(q: Queued, m: Move)
    requires Ordered(q) && CanMove(q, m)
    ensures Runs(q.s, EventsOf(q, m)) && After(q.s, EventsOf(q, m)) == MoveAfter(q, m).s
    ensures Ordered(MoveAfter(q, m))
  {
    match m
    case Serve =>
      HeadOf(q.data);
      var s := if q.s.rcv.receiving then q.s else Apply(q.s, RecvCall);
      OneRun(s, PacketRead(q.data[0]));
      if !q.s.rcv.receiving { RunsAppend(q.s, [RecvCall], [PacketRead(q.data[0])]); OneRun(q.s, RecvCall); }
    case Read =>
      HeadOf(q.acks);
      OneRun(q.s, AckRead(q.acks[0]));
  }

  /** The quiet system refines the protocol over the lossy network. */
  lemma {:induction false} QuietRefines(q: Queued, ms: seq<Move>)
    requires Ordered(q) && Moves(q, ms)
    ensures Runs(q.s, RunOf(q, ms)) && After(q.s, RunOf(q, ms)) == Moved(q, ms).s
    ensures Ordered(Moved(q, ms))
    ensures forall e :: e in RunOf(q, ms) ==> Quiet(e)
    decreases ms
  {
    if ms != [] {
      var q' := MoveAfter(q, ms[0]);
      QuietStep(q, ms[0]);
      QuietRefines(q', ms[1..]);
      hide Runs, After, Apply, Enabled, MoveAfter;
      RunsAppend(q.s, EventsOf(q, ms[0]), RunOf(q', ms[1..]));
    }
  }

  // ---------- the datagrams ahead of the first current one ----------

  /** Which datagrams in flight carry the number the sender waits for, in the
      order their acknowledgements will be read. */
  function Line(q: Queued): seq<bool> {
    seq(|q.acks|, i requires 0 <= i < |q.acks| => Matches(q.s, q.acks[i]))
    + seq(|q.data|, i requires 0 <= i < |q.data| => q.data[i].num == q.s.snd.nextSeqno)
  }

  function Ahead(line: seq<bool>): (n: nat)
    ensures n <= |line|
    ensures n < |line| ==> line[n]
    ensures forall i :: 0 <= i < n ==> !line[i]
  {
    if line == [] || line[0] then 0 else 1 + Ahead(line[1..])
  }

  lemma {:induction false} AheadIs(line: seq<bool>, n: nat)
    requires n <= |line| && (n < |line| ==> line[n]) && forall i :: 0 <= i < n ==> !line[i]
    ensures Ahead(line) == n
  {
  }

  /** Serving a packet turns it into its acknowledgement in the same place. */
  lemma {:induction false} ServeKeepsLine(q: Queued)
    requires CanMove(q, Serve)
    ensures Line(MoveAfter(q, Serve)) == Line(q)
  {
  }

  /** Reading a stale acknowledgement brings a current packet in at the end. */
  lemma {:induction false} StaleMovesUp(q: Queued)
    requires CanMove(q, Read) && !Matches(q.s, q.acks[0])
    requires 1 <= q.s.snd.nextSeqno <= Limit(q.s.chars)
    ensures Line(MoveAfter(q, Read)) == Line(q)[1..] + [true]
  {
  }

  lemma {:induction false} AheadMovesUp(line: seq<bool>)
    requires line != [] && !line[0]
    ensures Ahead(line[1..] + [true]) == Ahead(line) - 1
  {
    AheadIs(line[1..] + [true], Ahead(line) - 1);
  }

  ghost predicate Waiting(q: Queued) {
    q.s.snd.phase.Sending? && 1 <= q.s.snd.nextSeqno <= Limit(q.s.chars) && Line(q) != []
  }

  /** The send returns on reading the acknowledgement with nothing ahead of it;
      until then one move leaves the in-flight count alone, and reading shortens
      the queue ahead by one. */
  lemma {:induction false} QuietProgress(q: Queued, m: Move)
    requires Waiting(q) && CanMove(q, m)
    ensures var q' := MoveAfter(q, m);
      if m.Read? && Ahead(Line(q)) == 0
      then q'.s.snd.phase.Idle? && q'.s.snd.returned == q.s.snd.returned + [q.s.snd.phase.payload]
      else Waiting(q') && q'.s.snd == q.s.snd && |Line(q')| == |Line(q)|
           && Ahead(Line(q')) == Ahead(Line(q)) - (if m.Read? then 1 else 0)
           && |q'.data| == |q.data| + (if m.Read? then 1 else -1)
  {
    if m.Serve? {
      ServeKeepsLine(q);
    } else {
      assert Line(q)[0] == Matches(q.s, q.acks[0]);
      if !Matches(q.s, q.acks[0]) {
        StaleMovesUp(q);
        AheadMovesUp(Line(q));
      }
    }
  }

  /** While the send has not returned, reads and queue ahead add up to the queue
      there was; it returns on exactly the read after those. */
  lemma {:induction false} QuietRunCounts(q: Queued, ms: seq<Move>)
    requires Waiting(q) && Moves(q, ms)
    ensures var q' := Moved(q, ms);
      if q'.s.snd.phase.Sending?
      then Waiting(q') && q'.s.snd == q.s.snd && |Line(q')| == |Line(q)|
           && Reads(ms) + Ahead(Line(q')) == Ahead(Line(q))
           && |q'.data| + |ms| == |q.data| + 2 * Reads(ms)
      else Reads(ms) == Ahead(Line(q)) + 1 && |ms| <= |q.data| + 2 * Reads(ms)
           && q'.s.snd.returned == q.s.snd.returned + [q.s.snd.phase.payload]
    decreases ms
  {
    if ms != [] {
      hide Line, Ahead, CanMove, MoveAfter;
      QuietProgress(q, ms[0]);
      var q', rest := MoveAfter(q, ms[0]), ms[1..];
      if q'.s.snd.phase.Sending? {
        QuietRunCounts(q', rest);
      } else {
        NoMoreMoves(q', rest);
      }
    }
  }

  lemma {:induction false} NoMoreMoves(q: Queued, ms: seq<Move>)
    requires Moves(q, ms) && q.s.snd.phase.Idle?
    ensures ms == []
  {
  }

  /** From any reachable state with a send in progress, `k` datagrams in flight
      in whatever order, and a number within the limit: a quiet network stops
      only with the send returned and its payload delivered, after at most
      3k + 2 moves and exactly one read more than there are stale datagrams
      ahead of the first current one, which is at most k + 1. */
  lemma {:induction false} RetransmissionTerminates(chars: CharKind, es: seq<Event>, q: Queued, ms: seq<Move>)
    requires Runs(Init(chars), es) && q.s == After(Init(chars), es) && Ordered(q)
    requires q.s.snd.phase.Sending? && q.s.snd.nextSeqno <= Limit(chars) && InFlight(q.s) >= 1
    requires Moves(q, ms)
    ensures Reads(ms) <= Ahead(Line(q)) + 1 <= InFlight(q.s) + 1
    ensures |ms| <= 3 * InFlight(q.s) + 2
    ensures var q' := Moved(q, ms);
      if q'.s.snd.phase.Sending? then CanMove(q', Serve) || CanMove(q', Read)
      else Reads(ms) == Ahead(Line(q)) + 1
           && q'.s.snd.returned == q'.s.rcv.delivered == q.s.snd.returned + [q.s.snd.phase.payload]
  {
    InitInv(chars);
    RunInv(Init(chars), es);
    CharsFixed(Init(chars), es);
    LineLength(q);
    QuietRunCounts(q, ms);
    QuietReturns(q, ms);
  }

  lemma {:induction false} LineLength(q: Queued)
    requires Ordered(q)
    ensures |Line(q)| == |q.acks| + |q.data| == InFlight(q.s)
  {
  }

  /** A returned send has been delivered, here as over the lossy network. */
  lemma {:induction false} QuietReturns(q: Queued, ms: seq<Move>)
    requires Inv(q.s) && Ordered(q) && Moves(q, ms)
    ensures var s := Moved(q, ms).s;
      Inv(s) && (s.snd.phase.Idle? ==> s.snd.returned == s.rcv.delivered)
  {
    QuietRefines(q, ms);
    RunInv(q.s, RunOf(q, ms));
  }
}
