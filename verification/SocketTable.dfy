/** The table of KTP sockets: an array of records, of which the first `count`
    are in use, with deletion by shifting left. It stands for a finite map from
    descriptor to record. */
module SocketTable {
  import opened Options
  import KtpProtocol

  const N := 10
  const AF_INET := 2
  const SOCK_KTP := 2
  const MAX_DATA_SIZE := KtpProtocol.MAX_DATA_SIZE

  datatype Addr = Addr(family: int, host: int, port: int)

  datatype Sock = Sock(
    sockfd: int, src: Addr, dest: Addr, bound: bool, nextSeqno: int, lastAckno: int, expSeqno: int)

  datatype Errno = EINVAL | ENOSPACE | ENOTSOCK | ENOTBOUND | SYSTEM

  datatype Result = Ok(value: int) | Err(errno: Errno)

  /** One library call, with what the operating system answers: a fresh
      descriptor for `socket`, success or failure for `bind`, `close` and the
      calls inside an exchange. `given` says that no argument is NULL. */
  datatype Op =
    | Open(domain: int, kind: int, protocol: int, fd: Option<int>)
    | Bind(sock: int, src: Option<Addr>, dest: Option<Addr>, accepted: bool)
    | Send(sock: int, len: nat, given: bool, succeeded: bool)
    | Receive(sock: int, len: nat, arrived: nat, given: bool, succeeded: bool)
    | Close(sock: int, accepted: bool)

  type Table = map<int, Sock>

  const UNSET := Addr(0, 0, 0)

  function Fresh(fd: int): Sock { Sock(fd, UNSET, UNSET, false, 1, 0, 1) }

  // ---------- the calls on a finite map ----------

  function MapOpen(m: Table, domain: int, kind: int, protocol: int, fd: Option<int>): (Table, Result) {
    if domain != AF_INET || kind != SOCK_KTP || protocol != 0 then (m, Err(EINVAL))
    else if |m| >= N then (m, Err(ENOSPACE))
    else if fd.None? then (m, Err(SYSTEM))
    else (m[fd.value := Fresh(fd.value)], Ok(fd.value))
  }

  function MapBind(m: Table, sock: int, src: Option<Addr>, dest: Option<Addr>, accepted: bool): (Table, Result) {
    if src.None? || dest.None? then (m, Err(EINVAL))
    else if src.value.family != AF_INET || dest.value.family != AF_INET then (m, Err(EINVAL))
    else if sock !in m then (m, Err(ENOTSOCK))
    else
      var r := m[sock];
      (m[sock := Sock(r.sockfd, src.value, dest.value, accepted || r.bound, r.nextSeqno, r.lastAckno, r.expSeqno)],
       if accepted then Ok(0) else Err(SYSTEM))
  }

  function MapSend(m: Table, sock: int, len: nat, given: bool, succeeded: bool): (Table, Result) {
    if !given then (m, Err(EINVAL))
    else if sock !in m then (m, Err(ENOTSOCK))
    else if !m[sock].bound then (m, Err(ENOTBOUND))
    else if len == 0 then (m, Ok(0))
    else if !succeeded then (m, Err(SYSTEM))
    else
      var r := m[sock];
      (m[sock := Sock(r.sockfd, r.src, r.dest, r.bound, r.nextSeqno + 1, r.nextSeqno, r.expSeqno)],
       Ok(if len > MAX_DATA_SIZE then MAX_DATA_SIZE else len))
  }

  function MapReceive(m: Table, sock: int, len: nat, arrived: nat, given: bool, succeeded: bool): (Table, Result) {
    if !given then (m, Err(EINVAL))
    else if sock !in m then (m, Err(ENOTSOCK))
    else if !m[sock].bound then (m, Err(ENOTBOUND))
    else if len == 0 then (m, Ok(0))
    else if !succeeded then (m, Err(SYSTEM))
    else
      var r := m[sock];
      (m[sock := Sock(r.sockfd, r.src, r.dest, r.bound, r.nextSeqno, r.lastAckno, r.expSeqno + 1)], Ok(arrived))
  }

  function MapClose(m: Table, sock: int, accepted: bool): (Table, Result) {
    if sock !in m then (m, Err(ENOTSOCK))
    else if !accepted then (m, Err(SYSTEM))
    else (m - {sock}, Ok(0))
  }

  function MapCall(m: Table, op: Op): (Table, Result) {
    match op
    case Open(domain, kind, protocol, fd) => MapOpen(m, domain, kind, protocol, fd)
    case Bind(sock, src, dest, accepted) => MapBind(m, sock, src, dest, accepted)
    case Send(sock, len, given, succeeded) => MapSend(m, sock, len, given, succeeded)
    case Receive(sock, len, arrived, given, succeeded) => MapReceive(m, sock, len, arrived, given, succeeded)
    case Close(sock, accepted) => MapClose(m, sock, accepted)
  }

  /** The operating system never hands out a descriptor that is still open. */
  predicate Honest(m: Table, op: Op) {
    op.Open? && op.fd.Some? ==> op.fd.value !in m
  }

  predicate HonestRun(m: Table, ops: seq<Op>)
    decreases ops
  {
    ops == [] || (Honest(m, ops[0]) && HonestRun(MapCall(m, ops[0]).0, ops[1..]))
  }

  function MapRun(m: Table, ops: seq<Op>): (Table, seq<Result>)
    decreases ops
  {
    if ops == [] then (m, [])
    else
      var (m1, r) := MapCall(m, ops[0]);
      var (m2, rs) := MapRun(m1, ops[1..]);
      (m2, [r] + rs)
  }

  predicate Named(m: Table) { forall fd :: fd in m ==> m[fd].sockfd == fd }

  predicate Targets(op: Op, fd: int) {
    if op.Open? then op.fd == Some(fd) else op.sock == fd
  }

  /** Over any run of calls, a socket no call names keeps its whole record, and
      the table never outgrows its capacity. */
  lemma {:induction false} OthersUntouched(m: Table, ops: seq<Op>, fd: int)
    requires Named(m) && |m| <= N && HonestRun(m, ops)
    requires forall i :: 0 <= i < |ops| ==> !Targets(ops[i], fd)
    ensures var m' := MapRun(m, ops).0;
      && Named(m') && |m'| <= N
      && (fd in m' <==> fd in m) && (fd in m ==> m'[fd] == m[fd])
    decreases ops
  {
    hide MapCall, Named, Honest, Targets;
    if ops != [] {
      assert !Targets(ops[0], fd);
      OneCall(m, ops[0]);
      OneCallOthers(m, ops[0], fd);
      OthersUntouched(MapCall(m, ops[0]).0, ops[1..], fd);
    }
  }

  lemma {:induction false} OneCallOthers(m: Table, op: Op, fd: int)
    requires !Targets(op, fd)
    ensures var m' := MapCall(m, op).0;
      (fd in m' <==> fd in m) && (fd in m ==> m'[fd] == m[fd])
  {
  }

  predicate Answered(op: Op, r: Result, fd: int, sends: bool) {
    && r.Ok? && (if sends then op.Send? else op.Receive?)
    && op.sock == fd && op.len > 0
  }

  /** How many sends (or receives) of data on `fd` were answered. */
  function Exchanges(ops: seq<Op>, rs: seq<Result>, fd: int, sends: bool): nat
    requires |rs| == |ops|
  {
    if ops == [] then 0
    else (if Answered(ops[0], rs[0], fd, sends) then 1 else 0) + Exchanges(ops[1..], rs[1..], fd, sends)
  }

  predicate Reopens(op: Op, fd: int) {
    (op.Open? && op.fd == Some(fd)) || (op.Close? && op.sock == fd && op.accepted)
  }

  /** While a socket stays open, its counters are the exchanges answered on it,
      whatever is opened, closed and shifted meanwhile. */
  lemma {:induction false} OwnCounters(m: Table, ops: seq<Op>, fd: int)
    requires fd in m && m[fd].lastAckno == m[fd].nextSeqno - 1
    requires forall i :: 0 <= i < |ops| ==> !Reopens(ops[i], fd)
    ensures |MapRun(m, ops).1| == |ops|
    ensures var (m', rs) := MapRun(m, ops);
      && fd in m' && m'[fd].lastAckno == m'[fd].nextSeqno - 1
      && m'[fd].nextSeqno == m[fd].nextSeqno + Exchanges(ops, rs, fd, true)
      && m'[fd].expSeqno == m[fd].expSeqno + Exchanges(ops, rs, fd, false)
    decreases ops
  {
    if ops != [] {
      assert !Reopens(ops[0], fd);
      var (m1, r) := MapCall(m, ops[0]);
      OwnCounters(m1, ops[1..], fd);
      assert MapRun(m, ops).1 == [r] + MapRun(m1, ops[1..]).1;
    }
  }

  lemma {:induction false} OneCall(m: Table, op: Op)
    requires Named(m) && |m| <= N && Honest(m, op)
    ensures Named(MapCall(m, op).0) && |MapCall(m, op).0| <= N
  {
  }

  // ---------- the array as a map ----------

  predicate Distinct(s: seq<Sock>) {
    forall i, j :: 0 <= i < j < |s| ==> s[i].sockfd != s[j].sockfd
  }

  function IndexOf(s: seq<Sock>, fd: int): (k: nat)
    ensures k <= |s|
    ensures k < |s| ==> s[k].sockfd == fd
    ensures forall i :: 0 <= i < k ==> s[i].sockfd != fd
  {
    if s == [] || s[0].sockfd == fd then 0 else 1 + IndexOf(s[1..], fd)
  }

  lemma {:induction false} IndexUnique(s: seq<Sock>, fd: int, k: nat)
    requires k <= |s|
    requires k < |s| ==> s[k].sockfd == fd
    requires forall i :: 0 <= i < k ==> s[i].sockfd != fd
    ensures IndexOf(s, fd) == k
  {
  }

  predicate Holds(s: seq<Sock>, m: Table, fd: int) {
    var k := IndexOf(s, fd);
    (fd in m <==> k < |s|) && (fd in m ==> m[fd] == s[k])
  }

  /** The records stand for the map: same descriptors, same contents, and
      exactly one array slot for each. */
  ghost predicate Agrees(s: seq<Sock>, m: Table) {
    Distinct(s) && |m| == |s| && forall fd :: Holds(s, m, fd)
  }

  lemma {:induction false} AgreesAppend(s: seq<Sock>, m: Table, r: Sock)
    requires Agrees(s, m) && r.sockfd !in m
    ensures Agrees(s + [r], m[r.sockfd := r])
  {
    assert Holds(s, m, r.sockfd);
    var t, m' := s + [r], m[r.sockfd := r];
    forall fd ensures Holds(t, m', fd) {
      assert Holds(s, m, fd);
      var k := IndexOf(s, fd);
      IndexUnique(t, fd, if k < |s| then k else if fd == r.sockfd then |s| else |s| + 1);
    }
  }

  lemma {:induction false} AgreesUpdate(s: seq<Sock>, m: Table, k: nat, r: Sock)
    requires Agrees(s, m) && k < |s| && s[k].sockfd == r.sockfd
    ensures Agrees(s[k := r], m[r.sockfd := r])
  {
    IndexUnique(s, r.sockfd, k);
    assert Holds(s, m, r.sockfd);
    var t, m' := s[k := r], m[r.sockfd := r];
    assert m'.Keys == m.Keys;
    assert |m'| == |m'.Keys| == |m|;
    forall fd ensures Holds(t, m', fd) {
      assert Holds(s, m, fd);
      IndexUnique(t, fd, IndexOf(s, fd));
    }
  }

  /** Shifting the tail left over position `k` deletes exactly that socket. */
  lemma {:induction false} ShiftDeletes(s: seq<Sock>, m: Table, k: nat)
    requires Agrees(s, m) && k < |s|
    ensures Agrees(s[..k] + s[k + 1..], m - {s[k].sockfd})
  {
    var gone := s[k].sockfd;
    var t := s[..k] + s[k + 1..];
    IndexUnique(s, gone, k);
    assert Holds(s, m, gone);
    assert (m - {gone}).Keys == m.Keys - {gone};
    assert |m - {gone}| == |(m - {gone}).Keys| == |m| - 1;
    assert forall i :: 0 <= i < |t| ==> t[i] == if i < k then s[i] else s[i + 1];
    forall fd ensures Holds(t, m - {gone}, fd) {
      assert Holds(s, m, fd);
      var i := IndexOf(s, fd);
      IndexUnique(t, fd, if i < k then i else if i == k then |t| else i - 1);
    }
  }

  class SocketArray {
    const socks: array<Sock>
    var count: nat
    ghost var table: Table

    ghost predicate Valid()
      reads this, socks
    {
      socks.Length == N && count <= N && Agrees(socks[..count], table)
    }

    constructor ()
      ensures Valid() && table == map[] && fresh(socks)
    {
      socks := new Sock[N](_ => Fresh(0));
      count := 0;
      table := map[];
    }

    method FindSock(fd: int) returns (found: Option<nat>)
      requires Valid()
      ensures found.None? <==> fd !in table
      ensures found.Some? ==> found.value < count && socks[found.value].sockfd == fd
                              && socks[found.value] == table[fd]
    {
      assert Holds(socks[..count], table, fd);
      var i := 0;
      while i < count
        invariant 0 <= i <= count
        invariant forall j :: 0 <= j < i ==> socks[j].sockfd != fd
      {
        if socks[i].sockfd == fd {
          IndexUnique(socks[..count], fd, i);
          return Some(i);
        }
        i := i + 1;
      }
      IndexUnique(socks[..count], fd, count);
      return None;
    }

    method Store(k: nat, r: Sock)
      requires Valid() && k < count && socks[k].sockfd == r.sockfd
      modifies socks, this`table
      ensures Valid() && table == old(table)[r.sockfd := r] && socks[k] == r
    {
      AgreesUpdate(socks[..count], table, k, r);
      ghost var before := socks[..count];
      socks[k] := r;
      assert socks[..count] == before[k := r];
      table := table[r.sockfd := r];
    }

    method KSocket(domain: int, kind: int, protocol: int, fd: Option<int>) returns (r: Result)
      requires Valid() && Honest(table, Open(domain, kind, protocol, fd))
      modifies this`count, this`table, socks
      ensures Valid() && (table, r) == MapOpen(old(table), domain, kind, protocol, fd)
    {
      if domain != AF_INET || kind != SOCK_KTP || protocol != 0 { return Err(EINVAL); }
      if count >= N { return Err(ENOSPACE); }
      if fd.None? { return Err(SYSTEM); }
      AgreesAppend(socks[..count], table, Fresh(fd.value));
      ghost var before := socks[..count];
      socks[count] := Sock(fd.value, UNSET, UNSET, false, 1, 0, 1);
      count := count + 1;
      assert socks[..count] == before + [Fresh(fd.value)];
      table := table[fd.value := Fresh(fd.value)];
      return Ok(fd.value);
    }

    method KBind(fd: int, src: Option<Addr>, dest: Option<Addr>, accepted: bool) returns (r: Result)
      requires Valid()
      modifies socks, this`table
      ensures Valid() && (table, r) == MapBind(old(table), fd, src, dest, accepted)
    {
      if src.None? || dest.None? { return Err(EINVAL); }
      if src.value.family != AF_INET || dest.value.family != AF_INET { return Err(EINVAL); }
      var i := FindSock(fd);
      if i.None? { return Err(ENOTSOCK); }
      var sock := socks[i.value];
      Store(i.value,
            Sock(sock.sockfd, src.value, dest.value, sock.bound, sock.nextSeqno, sock.lastAckno, sock.expSeqno));
      if !accepted { return Err(SYSTEM); }
      sock := socks[i.value];
      Store(i.value, Sock(sock.sockfd, sock.src, sock.dest, true, sock.nextSeqno, sock.lastAckno, sock.expSeqno));
      assert table == old(table)[fd := table[fd]];
      return Ok(0);
    }

    /** What a `k_sendto` that returns does to the record it found; its loop is
        in `KtpSession`. */
    method KSend(fd: int, len: nat, given: bool, succeeded: bool) returns (r: Result)
      requires Valid()
      modifies socks, this`table
      ensures Valid() && (table, r) == MapSend(old(table), fd, len, given, succeeded)
    {
      if !given { return Err(EINVAL); }
      var i := FindSock(fd);
      if i.None? { return Err(ENOTSOCK); }
      var s := socks[i.value];
      if !s.bound { return Err(ENOTBOUND); }
      if len == 0 { return Ok(0); }
      if !succeeded { return Err(SYSTEM); }
      Store(i.value, Sock(s.sockfd, s.src, s.dest, s.bound, s.nextSeqno + 1, s.nextSeqno, s.expSeqno));
      return Ok(if len > MAX_DATA_SIZE then MAX_DATA_SIZE else len);
    }

    /** What a `k_recvfrom` that returns does to the record it found. */
    method KReceive(fd: int, len: nat, arrived: nat, given: bool, succeeded: bool) returns (r: Result)
      requires Valid()
      modifies socks, this`table
      ensures Valid() && (table, r) == MapReceive(old(table), fd, len, arrived, given, succeeded)
    {
      if !given { return Err(EINVAL); }
      var i := FindSock(fd);
      if i.None? { return Err(ENOTSOCK); }
      var s := socks[i.value];
      if !s.bound { return Err(ENOTBOUND); }
      if len == 0 { return Ok(0); }
      if !succeeded { return Err(SYSTEM); }
      Store(i.value, Sock(s.sockfd, s.src, s.dest, s.bound, s.nextSeqno, s.lastAckno, s.expSeqno + 1));
      return Ok(arrived);
    }

    method KClose(fd: int, accepted: bool) returns (r: Result)
      requires Valid()
      modifies this`count, this`table, socks
      ensures Valid() && (table, r) == MapClose(old(table), fd, accepted)
    {
      var found := FindSock(fd);
      if found.None? { return Err(ENOTSOCK); }
      if !accepted { return Err(SYSTEM); }
      var i := 0;
      while i < count && socks[i].sockfd != fd
        invariant 0 <= i <= found.value
      {
        i := i + 1;
      }
      var k := i;
      ghost var before := socks[..count];
      assert before[k].sockfd == fd;
      ShiftDeletes(before, table, k);
      assert socks[..k] + socks[k + 1..count] == before[..k] + before[k + 1..];
      ShiftLeft(k);
      count := count - 1;
      table := table - {fd};
      return Ok(0);
    }

    method ShiftLeft(k: nat)
      requires count <= socks.Length && k < count
      modifies socks
      ensures socks[..count - 1] == old(socks[..k] + socks[k + 1..count])
    {
      var i := k;
      while i < count - 1
        invariant k <= i <= count - 1
        invariant socks[..k] == old(socks[..k])
        invariant socks[k..i] == old(socks[k + 1..i + 1])
        invariant socks[i..count] == old(socks[i..count])
      {
        assert socks[i..count][1] == old(socks[i..count])[1];
        socks[i] := socks[i + 1];
        i := i + 1;
        assert socks[k..i] == socks[k..i - 1] + [socks[i - 1]];
        assert socks[i..count] == socks[i - 1..count][1..];
      }
      assert socks[..count - 1] == socks[..k] + socks[k..i];
    }

    method Call(op: Op) returns (r: Result)
      requires Valid() && Honest(table, op)
      modifies this`count, this`table, socks
      ensures Valid() && (table, r) == MapCall(old(table), op)
    {
      match op
      case Open(domain, kind, protocol, fd) => r := KSocket(domain, kind, protocol, fd);
      case Bind(sock, src, dest, accepted) => r := KBind(sock, src, dest, accepted);
      case Send(sock, len, given, succeeded) => r := KSend(sock, len, given, succeeded);
      case Receive(sock, len, arrived, given, succeeded) => r := KReceive(sock, len, arrived, given, succeeded);
      case Close(sock, accepted) => r := KClose(sock, accepted);
    }

    /** Any sequence of calls answers, and leaves the table, as the map does. */
    method Run(ops: seq<Op>) returns (rs: seq<Result>)
      requires Valid() && HonestRun(table, ops)
      modifies this`count, this`table, socks
      ensures Valid() && (table, rs) == MapRun(old(table), ops)
      decreases ops
    {
      if ops == [] { return []; }
      var r := Call(ops[0]);
      var rest := Run(ops[1..]);
      return [r] + rest;
    }
  }
}
