/** `k_sendto` and `k_recvfrom` as the retry loops they are, over one pair of
    sockets and the datagrams between them. What the network and the other end
    do meanwhile is a schedule of protocol events; each loop runs until it
    returns or the schedule is used up. A system call may fail at any point of a
    schedule and ends the loop there: a failed retransmission leaves what a lost
    acknowledgement leaves, a failed acknowledgement what a dropped packet leaves. */
module KtpSession {
  import opened Options
  import opened KtpProtocol
  import SocketTable

  /** What `find_sock` and the `bound` flag say about the descriptor used. */
  datatype Socket = Unknown | Unbound | Bound

  datatype Returned<T> = Done(value: T) | Failed(errno: SocketTable.Errno) | Waiting

  lemma {:induction false} RunsPrefix(s: State, es: seq<Event>, i: nat)
    requires Runs(s, es) && i <= |es|
    ensures Runs(s, es[..i])
    decreases es
  {
    if i > 0 {
      RunsPrefix(Apply(s, es[0]), es[1..], i - 1);
      assert es[..i][1..] == es[1..][..i - 1];
    }
  }

  lemma {:induction false} RunPoint(s: State, es: seq<Event>, i: nat)
    requires Runs(s, es) && i <= |es|
    ensures Runs(s, es[..i])
    ensures i < |es| ==> Enabled(After(s, es[..i]), es[i]) && Runs(s, es[..i + 1])
    ensures i < |es| ==> After(s, es[..i + 1]) == Apply(After(s, es[..i]), es[i])
  {
    assert es == es[..i] + es[i..];
    RunsPrefix(s, es, i);
    RunsAppend(s, es[..i], es[i..]);
    if i < |es| {
      assert es[..i + 1] == es[..i] + [es[i]];
      assert Runs(After(s, es[..i]), [es[i]]);
      RunsAppend(s, es[..i], [es[i]]);
      assert After(After(s, es[..i]), [es[i]]) == Apply(After(s, es[..i]), es[i]);
    }
  }

  /** From `s0`, the event `first` and `n` events of the schedule make a run of
      the protocol to `s`. */
  ghost predicate Along(s0: State, first: Event, schedule: seq<Event>, n: nat, s: State) {
    n <= |schedule| && Runs(s0, [first] + schedule[..n]) && s == After(s0, [first] + schedule[..n])
  }

  lemma {:induction false} AlongStart(s0: State, first: Event, schedule: seq<Event>)
    requires Runs(s0, [first] + schedule)
    ensures Enabled(s0, first) && Along(s0, first, schedule, 0, Apply(s0, first))
  {
  }

  lemma {:induction false} AlongStep(s0: State, first: Event, schedule: seq<Event>, n: nat, s: State)
    requires Runs(s0, [first] + schedule) && Along(s0, first, schedule, n, s) && n < |schedule|
    ensures Enabled(s, schedule[n]) && Along(s0, first, schedule, n + 1, Apply(s, schedule[n]))
  {
    hide Runs, After, Apply, Enabled;
    var full := [first] + schedule;
    assert full[..n + 1] == [first] + schedule[..n] && full[..n + 2] == [first] + schedule[..n + 1];
    RunPoint(s0, full, n + 1);
  }

  predicate SenderReads(e: Event) { e.Timeout? || e.AckDropped? || e.AckRead? }

  predicate ReceiverReads(e: Event) { e.PacketDropped? || e.PacketRead? }

  class Session {
    const chars: CharKind
    const sndSocket: Socket
    const rcvSocket: Socket
    var snd: Sender     // the sending program's socket record and position
    var rcv: Receiver   // the receiving program's socket record and position
    var net: Network
    ghost var tally: Tally

    ghost function View(): State
      reads this
    {
      State(chars, snd, rcv, net, tally)
    }

    constructor (chars: CharKind, sndSocket: Socket, rcvSocket: Socket)
      ensures View() == Init(chars) && this.sndSocket == sndSocket && this.rcvSocket == rcvSocket
    {
      this.chars, this.sndSocket, this.rcvSocket := chars, sndSocket, rcvSocket;
      snd, rcv := Sender(1, 0, Idle, []), Receiver(1, false, []);
      net, tally := Network(multiset{}, multiset{}), Tally(0, 0, 0);
    }

    // ----- the network -----

    method LosePacket(d: Datagram)
      requires Enabled(View(), LoseData(d))
      modifies this`net, this`tally
      ensures View() == Apply(old(View()), LoseData(d))
    {
      net := net.(toReceiver := net.toReceiver - multiset{d});
      tally := tally.(lost := tally.lost + 1);
    }

    method LoseReply(d: Datagram)
      requires Enabled(View(), LoseAck(d))
      modifies this`net, this`tally
      ensures View() == Apply(old(View()), LoseAck(d))
    {
      net := net.(toSender := net.toSender - multiset{d});
      tally := tally.(lost := tally.lost + 1);
    }

    method CopyPacket(d: Datagram)
      requires Enabled(View(), DupData(d))
      modifies this`net, this`tally
      ensures View() == Apply(old(View()), DupData(d))
    {
      net := net.(toReceiver := net.toReceiver + multiset{d});
      tally := tally.(duplicated := tally.duplicated + 1);
    }

    method CopyReply(d: Datagram)
      requires Enabled(View(), DupAck(d))
      modifies this`net, this`tally
      ensures View() == Apply(old(View()), DupAck(d))
    {
      net := net.(toSender := net.toSender + multiset{d});
      tally := tally.(duplicated := tally.duplicated + 1);
    }

    // ----- one pass of the receiving loop -----

    method StartReceive()
      requires Enabled(View(), RecvCall)
      modifies this`rcv
      ensures View() == Apply(old(View()), RecvCall)
    {
      rcv := rcv.(receiving := true);
    }

    method DropPacket(pkt: Datagram)
      requires Enabled(View(), PacketDropped(pkt))
      modifies this`net, this`tally
      ensures View() == Apply(old(View()), PacketDropped(pkt))
    {
      net := net.(toReceiver := net.toReceiver - multiset{pkt});
      tally := tally.(lost := tally.lost + 1);
    }

    method ReadPacket(pkt: Datagram) returns (buf: Option<Payload>)
      requires Enabled(View(), PacketRead(pkt))
      modifies this`net, this`rcv
      ensures View() == Apply(old(View()), PacketRead(pkt))
      ensures buf.None? ==> rcv == old(rcv)
      ensures buf.Some? ==> !rcv.receiving && rcv.delivered == old(rcv.delivered) + [buf.value]
    {
      var ack := Datagram(pkt.num, ACK_MSG, [], pkt.origin);
      net := Network(net.toReceiver - multiset{pkt}, net.toSender + multiset{ack});
      if pkt.num == rcv.expSeqno && pkt.kind == DATA_MSG {
        rcv := Receiver(rcv.expSeqno + 1, false, rcv.delivered + [pkt.payload]);
        return Some(pkt.payload);
      }
      return None;
    }

    // ----- one pass of the sending loop -----

    method Transmit(pkt: Datagram)
      modifies this`net
      ensures net == Put(old(net), pkt)
    {
      net := net.(toReceiver := net.toReceiver + multiset{pkt});
    }

    method StartSend(buf: Payload)
      requires Enabled(View(), SendCall(buf)) && buf != []
      modifies this`snd, this`net
      ensures View() == Apply(old(View()), SendCall(buf))
    {
      snd := snd.(phase := Sending(Cut(buf)));
      Transmit(Datagram(Wire(chars, snd.nextSeqno), DATA_MSG, Cut(buf), snd.nextSeqno));
    }

    method Retransmit()
      requires Enabled(View(), Timeout)
      modifies this`net, this`tally
      ensures View() == Apply(old(View()), Timeout)
    {
      tally := tally.(timeouts := tally.timeouts + 1);
      Transmit(Datagram(Wire(chars, snd.nextSeqno), DATA_MSG, snd.phase.payload, snd.nextSeqno));
    }

    method DropAck(ack: Datagram)
      requires Enabled(View(), AckDropped(ack))
      modifies this`net
      ensures View() == Apply(old(View()), AckDropped(ack))
    {
      net := net.(toSender := net.toSender - multiset{ack});
      Transmit(Datagram(Wire(chars, snd.nextSeqno), DATA_MSG, snd.phase.payload, snd.nextSeqno));
    }

    method ReadAck(ack: Datagram) returns (done: bool)
      requires Enabled(View(), AckRead(ack))
      modifies this`net, this`snd
      ensures View() == Apply(old(View()), AckRead(ack))
      ensures done == snd.phase.Idle?
      ensures !done ==> snd == old(snd)
      ensures done ==> snd.returned == old(snd.returned) + [old(snd.phase.payload)]
    {
      net := net.(toSender := net.toSender - multiset{ack});
      if ack.num == snd.nextSeqno && ack.kind == ACK_MSG {
        snd := Sender(snd.nextSeqno + 1, snd.nextSeqno, Idle, snd.returned + [snd.phase.payload]);
        return true;
      }
      Transmit(Datagram(Wire(chars, snd.nextSeqno), DATA_MSG, snd.phase.payload, snd.nextSeqno));
      return false;
    }

    /** Everything but the sending loop, while the sender waits. */
    method ReceiverSide(e: Event)
      requires Enabled(View(), e) && !SenderReads(e) && !e.SendCall?
      modifies this`net, this`rcv, this`tally
      ensures View() == Apply(old(View()), e)
    {
      match e
      case RecvCall => StartReceive();
      case PacketDropped(d) => DropPacket(d);
      case PacketRead(d) => var _ := ReadPacket(d);
      case LoseData(d) => LosePacket(d);
      case LoseAck(d) => LoseReply(d);
      case DupData(d) => CopyPacket(d);
      case DupAck(d) => CopyReply(d);
    }

    /** Everything but the receiving loop, while the receiver waits. */
    method SenderSide(e: Event)
      requires Enabled(View(), e) && !ReceiverReads(e) && !e.RecvCall?
      modifies this`net, this`snd, this`tally
      ensures View() == Apply(old(View()), e)
    {
      match e
      case SendCall(buf) => if |buf| > 0 { StartSend(buf); }
      case Timeout => Retransmit();
      case AckDropped(d) => DropAck(d);
      case AckRead(d) => var _ := ReadAck(d);
      case LoseData(d) => LosePacket(d);
      case LoseAck(d) => LoseReply(d);
      case DupData(d) => CopyPacket(d);
      case DupAck(d) => CopyReply(d);
    }

    /** `k_sendto`: after its checks, transmit, wait, retransmit until the
        matching acknowledgement is read. `failure` is 0 if the first
        transmission fails and `k + 1` if a call fails after `k` events. */
    method KSendto(buf: Option<Payload>, schedule: seq<Event>, failure: Option<nat>)
      returns (result: Returned<int>, used: nat)
      requires buf.Some? && sndSocket.Bound? ==> Runs(View(), [SendCall(buf.value)] + schedule)
      modifies this
      ensures used <= |schedule|
      ensures result == Failed(SocketTable.EINVAL) <==> buf.None?
      ensures result == Failed(SocketTable.ENOTSOCK) <==> buf.Some? && sndSocket.Unknown?
      ensures result == Failed(SocketTable.ENOTBOUND) <==> buf.Some? && sndSocket.Unbound?
      ensures if buf.None? || !sndSocket.Bound? then View() == old(View())
        else if buf.value == [] then View() == old(View()) && result == Done(0)
        else if failure == Some(0) then View() == old(View()) && result == Failed(SocketTable.SYSTEM)
        else
          var sent := if |buf.value| > 512 then buf.value[..512] else buf.value;
          && Along(old(View()), SendCall(buf.value), schedule, used, View())
          && result == (if snd.phase.Idle? then Done(|sent|)
                        else if failure == Some(used + 1) then Failed(SocketTable.SYSTEM)
                        else Waiting)
          && snd.returned == old(snd.returned) + (if result.Done? then [sent] else [])
          && (result.Waiting? ==> used == |schedule|)
    {
      used := 0;
      if buf.None? { return Failed(SocketTable.EINVAL), 0; }
      if sndSocket.Unknown? { return Failed(SocketTable.ENOTSOCK), 0; }
      if sndSocket.Unbound? { return Failed(SocketTable.ENOTBOUND), 0; }
      if |buf.value| == 0 { return Done(0), 0; }
      if failure == Some(0) { return Failed(SocketTable.SYSTEM), 0; }
      ghost var s0, call := View(), SendCall(buf.value);
      AlongStart(s0, call, schedule);
      var data := Cut(buf.value);
      StartSend(buf.value);
      hide Apply, Enabled, Along, Runs, Cut;
      while used < |schedule| && failure != Some(used + 1)
        invariant used <= |schedule| && Along(s0, call, schedule, used, View())
        invariant snd.phase == Sending(data) && snd.returned == s0.snd.returned
      {
        var e := schedule[used];
        AlongStep(s0, call, schedule, used, View());
        used := used + 1;
        if e.Timeout? {
          Retransmit();
        } else if e.AckDropped? {
          DropAck(e.d);
        } else if e.AckRead? {
          var done := ReadAck(e.d);
          if done { return Done(|data|), used; }
        } else {
          ReceiverSide(e);
        }
      }
      result := if failure == Some(used + 1) then Failed(SocketTable.SYSTEM) else Waiting;
    }

    /** `k_recvfrom`: after its checks, acknowledge whatever arrives until the
        expected packet is read. The sender's calls and reads are part of the
        schedule. A call fails after `failure` events. */
    method KRecvfrom(given: bool, len: nat, schedule: seq<Event>, failure: Option<nat>)
      returns (result: Returned<Payload>, used: nat)
      requires given && rcvSocket.Bound? && len > 0 ==> Runs(View(), [RecvCall] + schedule)
      modifies this
      ensures used <= |schedule|
      ensures result == Failed(SocketTable.EINVAL) <==> !given
      ensures result == Failed(SocketTable.ENOTSOCK) <==> given && rcvSocket.Unknown?
      ensures result == Failed(SocketTable.ENOTBOUND) <==> given && rcvSocket.Unbound?
      ensures if !given || !rcvSocket.Bound? then View() == old(View())
        else if len == 0 then View() == old(View()) && result == Done("")
        else
          && Along(old(View()), RecvCall, schedule, used, View())
          && rcv.receiving == !result.Done?
          && rcv.delivered == old(rcv.delivered) + (if result.Done? then [result.value] else [])
          && (result.Failed? ==> result == Failed(SocketTable.SYSTEM) && failure == Some(used))
          && (result.Waiting? ==> used == |schedule| && failure != Some(used))
    {
      used := 0;
      if !given { return Failed(SocketTable.EINVAL), 0; }
      if rcvSocket.Unknown? { return Failed(SocketTable.ENOTSOCK), 0; }
      if rcvSocket.Unbound? { return Failed(SocketTable.ENOTBOUND), 0; }
      if len == 0 { return Done(""), 0; }
      ghost var s0 := View();
      AlongStart(s0, RecvCall, schedule);
      StartReceive();
      hide Apply, Enabled, Along, Runs;
      while used < |schedule| && failure != Some(used)
        invariant used <= |schedule| && Along(s0, RecvCall, schedule, used, View())
        invariant rcv == Receiver(s0.rcv.expSeqno, true, s0.rcv.delivered)
      {
        var e := schedule[used];
        AlongStep(s0, RecvCall, schedule, used, View());
        used := used + 1;
        if e.PacketDropped? {
          DropPacket(e.d);
        } else if e.PacketRead? {
          var buf := ReadPacket(e.d);
          if buf.Some? { return Done(buf.value), used; }
        } else {
          SenderSide(e);
        }
      }
      result := if failure == Some(used) then Failed(SocketTable.SYSTEM) else Waiting;
    }
  }
}
