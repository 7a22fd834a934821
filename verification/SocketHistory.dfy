/** What a program can observe of its sockets, read off the calls it made and
    their answers and not off the table. */
module SocketHistory {
  import opened Options
  import opened SocketTable

  // ---------- the calls, last one first ----------

  lemma {:induction false} RunLength(m: Table, ops: seq<Op>)
    ensures |MapRun(m, ops).1| == |ops|
    decreases ops
  {
    if ops != [] { RunLength(MapCall(m, ops[0]).0, ops[1..]); }
  }

  /** A run is the run before its last call, then that call. */
  lemma {:induction false} RunSnoc(m: Table, ops: seq<Op>)
    requires ops != [] && HonestRun(m, ops)
    ensures var before, op := ops[..|ops| - 1], ops[|ops| - 1];
      var (m1, rs) := MapRun(m, before);
      && HonestRun(m, before) && Honest(m1, op)
      && MapRun(m, ops) == (MapCall(m1, op).0, rs + [MapCall(m1, op).1])
    decreases ops
  {
    hide MapCall, Honest;
    var (m1, r) := MapCall(m, ops[0]);
    if |ops| == 1 {
      assert ops[1..] == [] && ops[..0] == [] && MapRun(m1, []) == (m1, []);
      assert MapRun(m, ops) == (m1, [r] + []) && [r] + [] == [] + [r];
    } else {
      RunSnoc(m1, ops[1..]);
      var before := ops[..|ops| - 1];
      assert ops[1..][..|ops| - 2] == before[1..] && before[0] == ops[0];
      var (m2, rs) := MapRun(m1, before[1..]);
      var last := MapCall(m2, ops[|ops| - 1]).1;
      assert MapRun(m, before) == (m2, [r] + rs);
      assert [r] + (rs + [last]) == ([r] + rs) + [last];
    }
  }

  // ---------- what the calls say ----------

  predicate Opens(op: Op, r: Result, fd: int) { op.Open? && r == Ok(fd) }

  predicate Closes(op: Op, r: Result, fd: int) { op.Close? && op.sock == fd && r.Ok? }

  predicate Binds(op: Op, r: Result, fd: int) { op.Bind? && op.sock == fd && r.Ok? }

  /** A bind that got past the checks of its arguments. */
  predicate Addresses(op: Op, r: Result, fd: int) {
    op.Bind? && op.sock == fd && (r.Ok? || r == Err(SYSTEM))
  }

  predicate Moves(op: Op, r: Result, fd: int, sends: bool) {
    (if sends then op.Send? else op.Receive?) && op.sock == fd && op.len > 0 && r.Ok?
  }

  /** Opened, and not closed since. */
  ghost predicate IsOpen(ops: seq<Op>, rs: seq<Result>, fd: int)
    requires |rs| == |ops|
  {
    exists j :: OpenedAt(ops, rs, j, fd)
  }

  predicate OpenedAt(ops: seq<Op>, rs: seq<Result>, j: int, fd: int)
    requires |rs| == |ops|
  {
    0 <= j < |ops| && Opens(ops[j], rs[j], fd) && forall c :: j < c < |ops| ==> !Closes(ops[c], rs[c], fd)
  }

  /** Bound, and not closed or opened since. */
  ghost predicate IsBound(ops: seq<Op>, rs: seq<Result>, fd: int)
    requires |rs| == |ops|
  {
    exists j :: BoundAt(ops, rs, j, fd)
  }

  predicate BoundAt(ops: seq<Op>, rs: seq<Result>, j: int, fd: int)
    requires |rs| == |ops|
  {
    0 <= j < |ops| && Binds(ops[j], rs[j], fd)
    && forall c :: j < c < |ops| ==> !Closes(ops[c], rs[c], fd) && !Opens(ops[c], rs[c], fd)
  }

  /** The latest bind past its checks since the socket was opened. */
  predicate AddressedAt(ops: seq<Op>, rs: seq<Result>, j: int, fd: int)
    requires |rs| == |ops|
  {
    0 <= j < |ops| && Addresses(ops[j], rs[j], fd)
    && forall c :: j < c < |ops| ==> !Addresses(ops[c], rs[c], fd) && !Opens(ops[c], rs[c], fd)
  }

  /** Sends (or receives) of data answered since the socket was opened. */
  function CountSince(ops: seq<Op>, rs: seq<Result>, fd: int, sends: bool): nat
    requires |rs| == |ops|
    decreases |ops|
  {
    if ops == [] then 0
    else
      var n := |ops| - 1;
      if Opens(ops[n], rs[n], fd) then 0
      else CountSince(ops[..n], rs[..n], fd, sends) + if Moves(ops[n], rs[n], fd, sends) then 1 else 0
  }

  lemma {:induction false} OpenSnoc(ops: seq<Op>, rs: seq<Result>, fd: int)
    requires |rs| == |ops| > 0
    ensures var n := |ops| - 1;
      IsOpen(ops, rs, fd)
      <==> Opens(ops[n], rs[n], fd) || (IsOpen(ops[..n], rs[..n], fd) && !Closes(ops[n], rs[n], fd))
  {
    var n := |ops| - 1;
    var ps, qs := ops[..n], rs[..n];
    assert forall c :: 0 <= c < n ==> ps[c] == ops[c] && qs[c] == rs[c];
    forall j | OpenedAt(ps, qs, j, fd) && !Closes(ops[n], rs[n], fd) ensures OpenedAt(ops, rs, j, fd) {}
    forall j | OpenedAt(ops, rs, j, fd) && j < n ensures OpenedAt(ps, qs, j, fd) {}
    if Opens(ops[n], rs[n], fd) { assert OpenedAt(ops, rs, n, fd); }
  }

  lemma {:induction false} BoundSnoc(ops: seq<Op>, rs: seq<Result>, fd: int)
    requires |rs| == |ops| > 0
    ensures var n := |ops| - 1;
      IsBound(ops, rs, fd)
      <==> Binds(ops[n], rs[n], fd)
           || (IsBound(ops[..n], rs[..n], fd) && !Closes(ops[n], rs[n], fd) && !Opens(ops[n], rs[n], fd))
  {
    var n := |ops| - 1;
    var ps, qs := ops[..n], rs[..n];
    assert forall c :: 0 <= c < n ==> ps[c] == ops[c] && qs[c] == rs[c];
    forall j | BoundAt(ps, qs, j, fd) && !Closes(ops[n], rs[n], fd) && !Opens(ops[n], rs[n], fd)
      ensures BoundAt(ops, rs, j, fd)
    {
    }
    forall j | BoundAt(ops, rs, j, fd) && j < n ensures BoundAt(ps, qs, j, fd) {}
    if Binds(ops[n], rs[n], fd) { assert BoundAt(ops, rs, n, fd); }
  }

  // ---------- what the table says is what the calls say ----------

  /** One record against the history. */
  ghost predicate Reflects(m: Table, ops: seq<Op>, rs: seq<Result>, fd: int)
    requires |rs| == |ops|
  {
    && (fd in m <==> IsOpen(ops, rs, fd))
    && (fd in m ==>
          var r := m[fd];
          && r.sockfd == fd && (r.bound <==> IsBound(ops, rs, fd))
          && r.nextSeqno == 1 + CountSince(ops, rs, fd, true)
          && r.lastAckno == CountSince(ops, rs, fd, true)
          && r.expSeqno == 1 + CountSince(ops, rs, fd, false)
          && forall j :: AddressedAt(ops, rs, j, fd) ==> ops[j].src == Some(r.src) && ops[j].dest == Some(r.dest))
  }

  /** How one call moves one record, by its answer. */
  lemma {:induction false} CallMoves(m: Table, op: Op, fd: int)
    requires Honest(m, op) && (fd in m ==> m[fd].sockfd == fd)
    ensures var (m', r) := MapCall(m, op);
      && (fd in m' <==> Opens(op, r, fd) || (fd in m && !Closes(op, r, fd)))
      && (Opens(op, r, fd) ==> fd !in m && m'[fd] == Sock(fd, UNSET, UNSET, false, 1, 0, 1))
      && (Binds(op, r, fd) || Addresses(op, r, fd) || Moves(op, r, fd, true) || Moves(op, r, fd, false) ==> fd in m)
      && (fd in m && fd in m' && !Opens(op, r, fd) ==>
            && m'[fd].sockfd == fd
            && (m'[fd].bound <==> m[fd].bound || Binds(op, r, fd))
            && m'[fd].nextSeqno == m[fd].nextSeqno + (if Moves(op, r, fd, true) then 1 else 0)
            && m'[fd].lastAckno == (if Moves(op, r, fd, true) then m[fd].nextSeqno else m[fd].lastAckno)
            && m'[fd].expSeqno == m[fd].expSeqno + (if Moves(op, r, fd, false) then 1 else 0)
            && (if Addresses(op, r, fd) then op.src == Some(m'[fd].src) && op.dest == Some(m'[fd].dest)
                else m'[fd].src == m[fd].src && m'[fd].dest == m[fd].dest))
  {
  }

  /** After any calls, every record of the table says what the calls and their
      answers say: whether the socket is open and bound, its addresses, and how
      much has been exchanged on it since it was opened. */
  lemma {:induction false} TableIsHistory(ops: seq<Op>, fd: int)
    requires HonestRun(map[], ops)
    ensures |MapRun(map[], ops).1| == |ops|
    ensures Reflects(MapRun(map[], ops).0, ops, MapRun(map[], ops).1, fd)
    decreases |ops|
  {
    RunLength(map[], ops);
    if ops != [] {
      var n := |ops| - 1;
      var before, op := ops[..n], ops[n];
      var (m1, qs) := MapRun(map[], before);
      var (m, rs) := MapRun(map[], ops);
      RunSnoc(map[], ops);
      TableIsHistory(before, fd);
      hide MapCall, MapRun, HonestRun;
      assert rs[..n] == qs && rs[n] == MapCall(m1, op).1;
      CallMoves(m1, op, fd);
      ReflectsSnoc(m1, m, ops, rs, fd);
    }
  }

  lemma {:induction false} ReflectsSnoc(m1: Table, m: Table, ops: seq<Op>, rs: seq<Result>, fd: int)
    requires |rs| == |ops| > 0 && Honest(m1, ops[|ops| - 1])
    requires (m, rs[|ops| - 1]) == MapCall(m1, ops[|ops| - 1])
    requires Reflects(m1, ops[..|ops| - 1], rs[..|ops| - 1], fd)
    ensures Reflects(m, ops, rs, fd)
  {
    hide MapCall, IsOpen, IsBound, Opens, Binds, Closes, Moves;
    var n := |ops| - 1;
    CallMoves(m1, ops[n], fd);
    OpenSnoc(ops, rs, fd);
    BoundSnoc(ops, rs, fd);
    OneKind(ops[n], rs[n], fd);
    if Opens(ops[n], rs[n], fd) { NotBoundOnOpen(ops, rs, fd); }
    forall j | AddressedAt(ops, rs, j, fd) && fd in m
      ensures ops[j].src == Some(m[fd].src) && ops[j].dest == Some(m[fd].dest)
    {
      if j < n {
        assert forall c :: 0 <= c < n ==> ops[..n][c] == ops[c] && rs[..n][c] == rs[c];
        assert AddressedAt(ops[..n], rs[..n], j, fd);
      }
    }
  }

  lemma {:induction false} OneKind(op: Op, r: Result, fd: int)
    ensures Opens(op, r, fd) ==> !Closes(op, r, fd) && !Binds(op, r, fd) && !Addresses(op, r, fd)
    ensures Opens(op, r, fd) ==> !Moves(op, r, fd, true) && !Moves(op, r, fd, false)
    ensures Closes(op, r, fd) ==> !Binds(op, r, fd)
  {
  }

  lemma {:induction false} NotBoundOnOpen(ops: seq<Op>, rs: seq<Result>, fd: int)
    requires |rs| == |ops| > 0 && Opens(ops[|ops| - 1], rs[|ops| - 1], fd)
    ensures !IsBound(ops, rs, fd)
  {
    BoundSnoc(ops, rs, fd);
  }

  // ---------- what each call is answered ----------

  /** What the next call is answered, by the calls so far and their answers. */
  ghost predicate RightAnswer(ops: seq<Op>, rs: seq<Result>, used: nat, op: Op, r: Result)
    requires |rs| == |ops|
  {
    match op
    case Open(domain, kind, protocol, fd) =>
      if domain != 2 || kind != 2 || protocol != 0 then r == Err(EINVAL)
      else if used >= 10 then r == Err(ENOSPACE)
      else if fd.None? then r == Err(SYSTEM)
      else r == Ok(fd.value)
    case Bind(sock, src, dest, accepted) =>
      if src.None? || dest.None? || src.value.family != 2 || dest.value.family != 2 then r == Err(EINVAL)
      else if !IsOpen(ops, rs, sock) then r == Err(ENOTSOCK)
      else if accepted then r == Ok(0)
      else r == Err(SYSTEM)
    case Send(sock, len, given, succeeded) =>
      if !given then r == Err(EINVAL)
      else if !IsOpen(ops, rs, sock) then r == Err(ENOTSOCK)
      else if !IsBound(ops, rs, sock) then r == Err(ENOTBOUND)
      else if len > 0 && !succeeded then r == Err(SYSTEM)
      else r == Ok(if len > 512 then 512 else len)
    case Receive(sock, len, arrived, given, succeeded) =>
      if !given then r == Err(EINVAL)
      else if !IsOpen(ops, rs, sock) then r == Err(ENOTSOCK)
      else if !IsBound(ops, rs, sock) then r == Err(ENOTBOUND)
      else if len > 0 && !succeeded then r == Err(SYSTEM)
      else r == Ok(if len > 0 then arrived else 0)
    case Close(sock, accepted) =>
      if !IsOpen(ops, rs, sock) then r == Err(ENOTSOCK)
      else if accepted then r == Ok(0)
      else r == Err(SYSTEM)
  }

  /** The set of sockets open by the history. */
  ghost predicate OpenSet(ops: seq<Op>, rs: seq<Result>, open: set<int>)
    requires |rs| == |ops|
  {
    forall fd :: fd in open <==> IsOpen(ops, rs, fd)
  }

  /** Every call, after any calls on an empty table, is answered by the history:
      bad arguments first, then `ENOTSOCK` for what is not open, then `ENOTBOUND`
      for what is not bound; a table of ten open sockets takes no more. */
  lemma {:induction false} AnsweredByHistory(ops: seq<Op>, op: Op, open: set<int>)
    requires HonestRun(map[], ops) && |MapRun(map[], ops).1| == |ops|
    requires OpenSet(ops, MapRun(map[], ops).1, open)
    ensures RightAnswer(ops, MapRun(map[], ops).1, |open|, op, MapCall(MapRun(map[], ops).0, op).1)
  {
    var (m, rs) := MapRun(map[], ops);
    forall fd ensures fd in m <==> fd in open { TableIsHistory(ops, fd); }
    assert m.Keys == open;
    assert |m| == |m.Keys|;
    if !op.Open? { TableIsHistory(ops, op.sock); }
    hide IsOpen, IsBound, HonestRun, MapRun;
  }
}
