/** The discovery client's server list: an array with in-place deletion, kept up
    to date by HELLO messages and pruned by query rounds. */
module CldpClient {
  import opened Options
  import CldpPacket

  const MAX_SERVERS := 64
  const SERVER_TIMEOUT := 30
  const RESPONSE_TIMEOUT := 5

  datatype Server = Server(addr: int, lastSeen: int, active: bool)

  datatype Kind = Hello | Query | Response | Unknown

  /** A received datagram. */
  datatype Message = Message(protocol: int, source: int, kind: Kind, transId: int)

  /** One pass of a receive loop: the clock at the loop test, what arrived (if
      anything), and the clock when it is dealt with. */
  datatype Pass = Pass(tested: int, arrived: Option<Message>, now: int)

  // ---------- the list as a sequence ----------

  function Addrs(l: seq<Server>): seq<int> {
    seq(|l|, i requires 0 <= i < |l| => l[i].addr)
  }

  predicate Distinct(l: seq<Server>) {
    forall i, j :: 0 <= i < j < |l| ==> l[i].addr != l[j].addr
  }

  function IndexOf(l: seq<Server>, addr: int): (k: nat)
    ensures k <= |l|
    ensures k < |l| ==> l[k].addr == addr
    ensures forall i :: 0 <= i < k ==> l[i].addr != addr
  {
    if l == [] || l[0].addr == addr then 0 else 1 + IndexOf(l[1..], addr)
  }

  function Touch(l: seq<Server>, k: nat, now: int): seq<Server>
    requires k < |l|
  {
    l[k := Server(l[k].addr, now, true)]
  }

  function Update(l: seq<Server>, addr: int, now: int): seq<Server> {
    var k := IndexOf(l, addr);
    if k < |l| then Touch(l, k, now)
    else if |l| < MAX_SERVERS then l + [Server(addr, now, true)]
    else l
  }

  predicate Keep(s: Server, now: int) { s.active && now - s.lastSeen <= SERVER_TIMEOUT }

  function Kept(l: seq<Server>, now: int): seq<Server> {
    if l == [] then []
    else Kept(l[..|l| - 1], now) + if Keep(l[|l| - 1], now) then [l[|l| - 1]] else []
  }

  function Silence(l: seq<Server>): seq<Server> {
    seq(|l|, i requires 0 <= i < |l| => Server(l[i].addr, l[i].lastSeen, false))
  }

  predicate Answers(m: Message, transId: int) {
    m.protocol == CldpPacket.PROTOCOL_NUM && m.kind.Response? && m.transId == transId
  }

  predicate Greets(m: Message) { m.protocol == CldpPacket.PROTOCOL_NUM && m.kind.Hello? }

  /** One pass of the round's loop: the new list and whether a response counted. */
  function Step(l: seq<Server>, p: Pass, transId: int): (seq<Server>, bool) {
    if p.arrived.None? then (l, false)
    else
      var m := p.arrived.value;
      if Answers(m, transId) then
        var k := IndexOf(l, m.source);
        if k < |l| then (Touch(l, k, p.now), true) else (l, false)
      else if Greets(m) then (Update(l, m.source, p.now), false)
      else (l, false)
  }

  datatype Round = Round(list: seq<Server>, responses: nat)

  function Passes(l: seq<Server>, ps: seq<Pass>, transId: int): Round
    decreases |ps|
  {
    if ps == [] then Round(l, 0)
    else
      var r := Passes(l, ps[..|ps| - 1], transId);
      var (l', counted) := Step(r.list, ps[|ps| - 1], transId);
      Round(l', if counted then r.responses + 1 else r.responses)
  }

  /** The loop test before pass `p`. */
  predicate GoesOn(r: Round, start: int, p: Pass) {
    p.tested - start < RESPONSE_TIMEOUT && r.responses < |r.list|
  }

  /** How many of the passes the loop takes. */
  ghost predicate Takes(l: seq<Server>, start: int, ps: seq<Pass>, transId: int, n: nat) {
    && n <= |ps|
    && (forall k :: 0 <= k < n ==> GoesOn(Passes(l, ps[..k], transId), start, ps[k]))
    && (n < |ps| ==> !GoesOn(Passes(l, ps[..n], transId), start, ps[n]))
  }

  // ---------- what a round does, by the messages alone ----------

  /** A CLDP message of the kind the round counts. */
  predicate Responds(p: Pass, transId: int) {
    p.arrived.Some? && p.arrived.value.protocol == 253
    && p.arrived.value.kind.Response? && p.arrived.value.transId == transId
  }

  predicate SaysHello(p: Pass) {
    p.arrived.Some? && p.arrived.value.protocol == 253 && p.arrived.value.kind.Hello?
  }

  predicate HeardIn(p: Pass, transId: int, addr: int) {
    (Responds(p, transId) || SaysHello(p)) && p.arrived.value.source == addr
  }

  /** When server `addr` was last heard in the passes. */
  function LastHeard(ps: seq<Pass>, transId: int, addr: int): Option<int>
    decreases |ps|
  {
    if ps == [] then None
    else if HeardIn(ps[|ps| - 1], transId, addr) then Some(ps[|ps| - 1].now)
    else LastHeard(ps[..|ps| - 1], transId, addr)
  }

  /** The greeters not listed before, in order of their first greeting, while
      room remains. */
  function Newcomers(known: seq<int>, ps: seq<Pass>): (ns: seq<int>)
    decreases |ps|
  {
    if ps == [] then []
    else
      var ns, p := Newcomers(known, ps[..|ps| - 1]), ps[|ps| - 1];
      if SaysHello(p) && p.arrived.value.source !in known + ns && |known| + |ns| < 64
      then ns + [p.arrived.value.source]
      else ns
  }

  /** The responses that count: from a server listed when they arrive. */
  function Responses(known: seq<int>, ps: seq<Pass>, transId: int): nat
    decreases |ps|
  {
    if ps == [] then 0
    else
      var before, p := ps[..|ps| - 1], ps[|ps| - 1];
      Responses(known, before, transId)
      + if Responds(p, transId) && p.arrived.value.source in known + Newcomers(known, before) then 1 else 0
  }

  predicate Recently(ps: seq<Pass>, transId: int, end: int, addr: int) {
    var t := LastHeard(ps, transId, addr); t.Some? && end - t.value <= 30
  }

  /** Those of some servers that were heard in the 30 s before `end`, in order. */
  function Recent(addrs: seq<int>, ps: seq<Pass>, transId: int, end: int): seq<int> {
    if addrs == [] then []
    else
      var a := addrs[|addrs| - 1];
      Recent(addrs[..|addrs| - 1], ps, transId, end) + if Recently(ps, transId, end, a) then [a] else []
  }

  /** Those that were heard at all, in order. */
  function Survivors(known: seq<int>, ps: seq<Pass>, transId: int): seq<int> {
    if known == [] then []
    else
      var a := known[|known| - 1];
      Survivors(known[..|known| - 1], ps, transId) + if LastHeard(ps, transId, a).Some? then [a] else []
  }

  /** The list during the round: the old servers then the newcomers, each active
      exactly when it has been heard, and then with the time it was last heard. */
  ghost predicate RoundInv(l0: seq<Server>, ps: seq<Pass>, transId: int, l: seq<Server>) {
    && Addrs(l) == Addrs(l0) + Newcomers(Addrs(l0), ps)
    && |l| <= 64 && Distinct(l)
    && forall i :: 0 <= i < |l| ==> Marked(l[i], LastHeard(ps, transId, l[i].addr))
  }

  predicate Marked(s: Server, heard: Option<int>) { heard == if s.active then Some(s.lastSeen) else None }

  lemma {:induction false} HeardMore(ps: seq<Pass>, p: Pass, transId: int, addr: int)
    ensures LastHeard(ps + [p], transId, addr)
         == if HeardIn(p, transId, addr) then Some(p.now) else LastHeard(ps, transId, addr)
  {
    assert (ps + [p])[..|ps|] == ps;
  }

  lemma {:induction false} AddrsIn(l: seq<Server>, addr: int)
    ensures addr in Addrs(l) <==> IndexOf(l, addr) < |l|
  {
    if IndexOf(l, addr) < |l| { assert Addrs(l)[IndexOf(l, addr)] == addr; }
  }

  /** A listed server is heard again. */
  lemma {:induction false} RoundTouch(
    l0: seq<Server>, ps: seq<Pass>, p: Pass, transId: int, l: seq<Server>, k: nat)
    requires RoundInv(l0, ps, transId, l)
    requires k < |l| && HeardIn(p, transId, l[k].addr)
    ensures RoundInv(l0, ps + [p], transId, Touch(l, k, p.now))
  {
    hide LastHeard;
    var l' := Touch(l, k, p.now);
    assert Addrs(l') == Addrs(l);
    assert (ps + [p])[..|ps|] == ps;
    assert l[k].addr in Addrs(l) by { assert Addrs(l)[k] == l[k].addr; }
    forall i | 0 <= i < |l'| ensures Marked(l'[i], LastHeard(ps + [p], transId, l'[i].addr)) {
      HeardMore(ps, p, transId, l[i].addr);
    }
  }

  /** A message that changes nothing: of no interest, or no room for its sender. */
  lemma {:induction false} RoundSkip(l0: seq<Server>, ps: seq<Pass>, p: Pass, transId: int, l: seq<Server>)
    requires RoundInv(l0, ps, transId, l)
    requires forall i :: 0 <= i < |l| ==> !HeardIn(p, transId, l[i].addr)
    requires SaysHello(p) ==> |l| == 64
    ensures RoundInv(l0, ps + [p], transId, l)
  {
    hide LastHeard;
    assert (ps + [p])[..|ps|] == ps;
    assert |Addrs(l)| == |l|;
    forall i | 0 <= i < |l| ensures Marked(l[i], LastHeard(ps + [p], transId, l[i].addr)) {
      HeardMore(ps, p, transId, l[i].addr);
    }
  }

  /** A new greeter is listed last. */
  lemma {:induction false} RoundAdd(l0: seq<Server>, ps: seq<Pass>, p: Pass, transId: int, l: seq<Server>)
    requires RoundInv(l0, ps, transId, l) && SaysHello(p)
    requires IndexOf(l, p.arrived.value.source) == |l| < 64
    ensures RoundInv(l0, ps + [p], transId, l + [Server(p.arrived.value.source, p.now, true)])
  {
    hide LastHeard;
    var a := p.arrived.value.source;
    var l' := l + [Server(a, p.now, true)];
    AddrsIn(l, a);
    assert (ps + [p])[..|ps|] == ps;
    assert |Addrs(l)| == |l|;
    assert Addrs(l') == Addrs(l) + [a];
    assert Newcomers(Addrs(l0), ps + [p]) == Newcomers(Addrs(l0), ps) + [a];
    forall i | 0 <= i < |l'| ensures Marked(l'[i], LastHeard(ps + [p], transId, l'[i].addr)) {
      HeardMore(ps, p, transId, l'[i].addr);
    }
  }

  lemma {:induction false} RoundStep(l0: seq<Server>, ps: seq<Pass>, p: Pass, transId: int, l: seq<Server>)
    requires RoundInv(l0, ps, transId, l)
    ensures RoundInv(l0, ps + [p], transId, Step(l, p, transId).0)
    ensures Step(l, p, transId).1
       <==> Responds(p, transId) && p.arrived.value.source in Addrs(l0) + Newcomers(Addrs(l0), ps)
  {
    hide RoundInv, Newcomers;
    RoundFacts(l0, ps, transId, l);
    if Responds(p, transId) || SaysHello(p) {
      AddrsIn(l, p.arrived.value.source);
      if IndexOf(l, p.arrived.value.source) < |l| {
        RoundTouch(l0, ps, p, transId, l, IndexOf(l, p.arrived.value.source));
      } else if SaysHello(p) && |l| < 64 {
        RoundAdd(l0, ps, p, transId, l);
      } else {
        RoundSkip(l0, ps, p, transId, l);
      }
    } else {
      RoundSkip(l0, ps, p, transId, l);
    }
  }

  lemma {:induction false} RoundFacts(l0: seq<Server>, ps: seq<Pass>, transId: int, l: seq<Server>)
    requires RoundInv(l0, ps, transId, l)
    ensures |l| <= 64 && Addrs(l) == Addrs(l0) + Newcomers(Addrs(l0), ps)
  {
  }

  /** During a round: what the list is, and how many responses have counted. */
  lemma {:induction false} RoundPasses(l0: seq<Server>, ps: seq<Pass>, transId: int)
    requires |l0| <= 64 && Distinct(l0)
    ensures RoundInv(l0, ps, transId, Passes(Silence(l0), ps, transId).list)
    ensures Passes(Silence(l0), ps, transId).responses == Responses(Addrs(l0), ps, transId)
    decreases |ps|
  {
    if ps == [] {
      assert Addrs(Silence(l0)) == Addrs(l0) && Newcomers(Addrs(l0), []) == [];
      assert Addrs(l0) + [] == Addrs(l0);
    } else {
      var before := ps[..|ps| - 1];
      RoundPasses(l0, before, transId);
      assert ps == before + [ps[|ps| - 1]];
      hide RoundInv, Step, Newcomers;
      RoundStep(l0, before, ps[|ps| - 1], transId, Passes(Silence(l0), before, transId).list);
    }
  }

  /** The loop goes on before pass `k`: 5 s are not over, and fewer responses
      have counted than there are servers listed. */
  predicate Continues(known: seq<int>, start: int, ps: seq<Pass>, transId: int, k: int)
    requires 0 <= k < |ps|
  {
    && ps[k].tested - start < 5
    && Responses(known, ps[..k], transId) < |known| + |Newcomers(known, ps[..k])|
  }

  /** How many passes the loop takes, by the messages alone. */
  lemma {:induction false} TakesExactly(l0: seq<Server>, start: int, ps: seq<Pass>, transId: int, n: nat)
    requires |l0| <= 64 && Distinct(l0) && n <= |ps|
    ensures Takes(Silence(l0), start, ps, transId, n)
       <==> (forall k :: 0 <= k < n ==> Continues(Addrs(l0), start, ps, transId, k))
            && (n < |ps| ==> !Continues(Addrs(l0), start, ps, transId, n))
  {
    forall k | 0 <= k < |ps|
      ensures Continues(Addrs(l0), start, ps, transId, k)
         <==> GoesOn(Passes(Silence(l0), ps[..k], transId), start, ps[k])
    {
      var r := Passes(Silence(l0), ps[..k], transId);
      RoundPasses(l0, ps[..k], transId);
      assert |Addrs(r.list)| == |r.list|;
    }
  }

  /** The loop has gone on for `n` passes and `r` is what they made. */
  ghost predicate Taken(l: seq<Server>, start: int, ps: seq<Pass>, transId: int, n: nat, r: Round) {
    && n <= |ps| && r == Passes(l, ps[..n], transId)
    && forall k :: 0 <= k < n ==> GoesOn(Passes(l, ps[..k], transId), start, ps[k])
  }

  lemma {:induction false} TakenNone(l: seq<Server>, start: int, ps: seq<Pass>, transId: int)
    ensures Taken(l, start, ps, transId, 0, Round(l, 0))
  {
  }

  lemma {:induction false} TakenStep(l: seq<Server>, start: int, ps: seq<Pass>, transId: int, n: nat, r: Round)
    requires Taken(l, start, ps, transId, n, r) && n < |ps| && GoesOn(r, start, ps[n])
    ensures var after := Step(r.list, ps[n], transId);
      Taken(l, start, ps, transId, n + 1, Round(after.0, if after.1 then r.responses + 1 else r.responses))
  {
    assert ps[..n + 1][..n] == ps[..n];
  }

  lemma {:induction false} TakenAll(l: seq<Server>, start: int, ps: seq<Pass>, transId: int, n: nat, r: Round)
    requires Taken(l, start, ps, transId, n, r) && (n < |ps| ==> !GoesOn(r, start, ps[n]))
    ensures Takes(l, start, ps, transId, n) && r == Passes(l, ps[..n], transId)
  {
  }

  function DropAt(l: seq<Server>, i: nat): seq<Server>
    requires i < |l|
  {
    l[..i] + l[i + 1..]
  }

  /** Cleaning under way: `k` servers of `before` are decided, the first `i` of
      `l` are those kept, the rest of `l` is still to be decided. */
  ghost predicate Cleaning(l: seq<Server>, before: seq<Server>, k: nat, i: nat, now: int) {
    k <= |before| && l == Kept(before[..k], now) + before[k..] && i == |Kept(before[..k], now)|
  }

  lemma {:induction false} CleaningStarts(before: seq<Server>, now: int)
    ensures Cleaning(before, before, 0, 0, now)
  {
  }

  /** Keeping moves on, dropping closes the gap; either decides one more. */
  lemma {:induction false} CleaningStep(l: seq<Server>, before: seq<Server>, k: nat, i: nat, now: int)
    requires Cleaning(l, before, k, i, now) && i < |l|
    ensures l[i].active && now - l[i].lastSeen <= SERVER_TIMEOUT ==> Cleaning(l, before, k + 1, i + 1, now)
    ensures !l[i].active || now - l[i].lastSeen > SERVER_TIMEOUT ==> Cleaning(DropAt(l, i), before, k + 1, i, now)
  {
    assert k < |before| && l[i] == before[k];
    assert before[..k + 1][..k] == before[..k];
  }

  lemma {:induction false} CleaningEnds(l: seq<Server>, before: seq<Server>, k: nat, now: int)
    requires Cleaning(l, before, k, |l|, now)
    ensures l == Kept(before, now)
  {
    assert before[..k] == before;
  }

  lemma {:induction false} RecentJoin(a: seq<int>, b: seq<int>, ps: seq<Pass>, transId: int, end: int)
    ensures Recent(a + b, ps, transId, end) == Recent(a, ps, transId, end) + Recent(b, ps, transId, end)
  {
    if b == [] {
      assert a + b == a;
    } else {
      assert (a + b)[..|a + b| - 1] == a + b[..|b| - 1];
      RecentJoin(a, b[..|b| - 1], ps, transId, end);
    }
  }

  lemma {:induction false} KeptRecent(l: seq<Server>, ps: seq<Pass>, transId: int, end: int)
    requires forall i :: 0 <= i < |l| ==> Marked(l[i], LastHeard(ps, transId, l[i].addr))
    ensures Addrs(Kept(l, end)) == Recent(Addrs(l), ps, transId, end)
  {
    if l != [] {
      var front, last := l[..|l| - 1], l[|l| - 1];
      KeptRecent(front, ps, transId, end);
      assert Addrs(l)[..|l| - 1] == Addrs(front);
      var rest := if Keep(last, end) then [last] else [];
      assert Addrs(Kept(front, end) + rest) == Addrs(Kept(front, end)) + Addrs(rest);
    }
  }

  /** After a round, whenever it is cleaned up, the list is the old servers, then
      the newcomers, in order, that were heard in it in the 30 s before. */
  lemma {:induction false} RoundExactly(l0: seq<Server>, ps: seq<Pass>, transId: int, end: int)
    requires |l0| <= 64 && Distinct(l0)
    ensures Addrs(Kept(Passes(Silence(l0), ps, transId).list, end))
         == Recent(Addrs(l0), ps, transId, end) + Recent(Newcomers(Addrs(l0), ps), ps, transId, end)
  {
    RoundPasses(l0, ps, transId);
    KeptRecent(Passes(Silence(l0), ps, transId).list, ps, transId, end);
    RecentJoin(Addrs(l0), Newcomers(Addrs(l0), ps), ps, transId, end);
  }

  lemma {:induction false} HeardAfter(ps: seq<Pass>, transId: int, start: int, addr: int)
    requires forall i :: 0 <= i < |ps| ==> start <= ps[i].now
    ensures LastHeard(ps, transId, addr).Some? ==> start <= LastHeard(ps, transId, addr).value
    decreases |ps|
  {
    if ps != [] { HeardAfter(ps[..|ps| - 1], transId, start, addr); }
  }

  lemma {:induction false} RecentSurvivors(known: seq<int>, ps: seq<Pass>, transId: int, start: int, end: int)
    requires (forall i :: 0 <= i < |ps| ==> start <= ps[i].now) && end <= start + 30
    ensures Recent(known, ps, transId, end) == Survivors(known, ps, transId)
  {
    if known != [] {
      HeardAfter(ps, transId, start, known[|known| - 1]);
      RecentSurvivors(known[..|known| - 1], ps, transId, start, end);
    }
  }

  lemma {:induction false} NewcomersHeard(known: seq<int>, ps: seq<Pass>, transId: int)
    ensures forall a :: a in Newcomers(known, ps) ==> LastHeard(ps, transId, a).Some?
    decreases |ps|
  {
    if ps != [] { NewcomersHeard(known, ps[..|ps| - 1], transId); }
  }

  lemma {:induction false} SurvivorsAll(known: seq<int>, ps: seq<Pass>, transId: int)
    requires forall a :: a in known ==> LastHeard(ps, transId, a).Some?
    ensures Survivors(known, ps, transId) == known
  {
    if known != [] { SurvivorsAll(known[..|known| - 1], ps, transId); }
  }

  /** After a round cleaned up within 30 s of its start, the list is the old
      servers heard from, in their order, then the newcomers. */
  lemma {:induction false} RoundResult(l0: seq<Server>, ps: seq<Pass>, transId: int, start: int, end: int)
    requires |l0| <= 64 && Distinct(l0)
    requires forall i :: 0 <= i < |ps| ==> start <= ps[i].now
    requires end <= start + 30
    ensures Addrs(Kept(Passes(Silence(l0), ps, transId).list, end))
         == Survivors(Addrs(l0), ps, transId) + Newcomers(Addrs(l0), ps)
  {
    var known, ns := Addrs(l0), Newcomers(Addrs(l0), ps);
    RoundExactly(l0, ps, transId, end);
    RecentSurvivors(known, ps, transId, start, end);
    RecentSurvivors(ns, ps, transId, start, end);
    NewcomersHeard(known, ps, transId);
    SurvivorsAll(ns, ps, transId);
  }

  lemma {:induction false} KeptJoin(a: seq<Server>, b: seq<Server>, now: int)
    ensures Kept(a + b, now) == Kept(a, now) + Kept(b, now)
  {
    if b == [] {
      assert a + b == a;
    } else {
      assert (a + b)[..|a + b| - 1] == a + b[..|b| - 1];
      KeptJoin(a, b[..|b| - 1], now);
    }
  }

  /** A greeter is left out of the newcomers only if it was listed before or the
      list is full. */
  lemma {:induction false} NewcomersComplete(known: seq<int>, ps: seq<Pass>, k: nat)
    requires k < |ps| && SaysHello(ps[k])
    ensures ps[k].arrived.value.source in known + Newcomers(known, ps)
            || |known| + |Newcomers(known, ps)| >= 64
    decreases |ps|
  {
    var before := ps[..|ps| - 1];
    if k < |before| {
      assert before[k] == ps[k];
      NewcomersComplete(known, before, k);
    }
  }

  lemma {:induction false} KeptFacts(l: seq<Server>, now: int)
    requires Distinct(l)
    ensures Distinct(Kept(l, now)) && |Kept(l, now)| <= |l|
    ensures forall s :: s in Kept(l, now) <==> s in l && s.active && now - s.lastSeen <= 30
  {
    if l != [] {
      var front, last := l[..|l| - 1], l[|l| - 1];
      KeptFacts(front, now);
      assert l == front + [last];
      forall s | s in Kept(front, now) ensures s.addr != last.addr {
        var i :| 0 <= i < |front| && front[i] == s;
        assert l[i].addr != l[|l| - 1].addr;
      }
    }
  }

  lemma {:induction false} KeptDistinct(l: seq<Server>, now: int)
    requires Distinct(l)
    ensures Distinct(Kept(l, now))
  {
    KeptFacts(l, now);
  }

  // ---------- in place ----------

  class Client {
    const servers: array<Server>
    var count: nat

    ghost predicate Valid()
      reads this, servers
    {
      servers.Length == MAX_SERVERS && count <= MAX_SERVERS && Distinct(servers[..count])
    }

    ghost function List(): seq<Server>
      requires Valid()
      reads this, servers
    {
      servers[..count]
    }

    constructor ()
      ensures Valid() && List() == [] && fresh(servers)
    {
      servers := new Server[MAX_SERVERS](_ => Server(0, 0, false));
      count := 0;
    }

    method Find(addr: int) returns (k: nat)
      requires Valid()
      ensures k == IndexOf(List(), addr)
    {
      k := 0;
      while k < count
        invariant k <= count && forall j :: 0 <= j < k ==> servers[j].addr != addr
      {
        if servers[k].addr == addr { break; }
        k := k + 1;
      }
      IndexIs(servers[..count], addr, k);
    }

    method UpdateServerList(addr: int, now: int)
      requires Valid()
      modifies this`count, servers
      ensures Valid() && List() == Update(old(List()), addr, now)
    {
      var i := Find(addr);
      ghost var before := servers[..count];
      if i < count {
        servers[i] := Server(servers[i].addr, now, true);
        assert servers[..count] == Touch(before, i, now);
      } else if count < MAX_SERVERS {
        servers[count] := Server(addr, now, true);
        count := count + 1;
        assert servers[..count] == before + [Server(addr, now, true)];
      }
    }

    /** The `memmove` that closes the gap at `i`. */
    method RemoveAt(i: nat)
      requires servers.Length == MAX_SERVERS && i < count <= MAX_SERVERS
      modifies this`count, servers
      ensures count == old(count) - 1 && servers[..count] == DropAt(old(servers[..count]), i)
    {
      forall j | i <= j < count - 1 { servers[j] := servers[j + 1]; }
      count := count - 1;
    }

    method CleanupServerList(now: int)
      requires Valid()
      modifies this`count, servers
      ensures Valid() && List() == Kept(old(List()), now)
    {
      ghost var before := servers[..count];
      KeptDistinct(before, now);
      ghost var k := 0;
      var i := 0;
      CleaningStarts(before, now);
      hide Kept, Keep, Cleaning, DropAt, Distinct;
      while i < count
        invariant i <= count <= MAX_SERVERS && Cleaning(servers[..count], before, k, i, now)
        decreases count - i
      {
        CleaningStep(servers[..count], before, k, i, now);
        if !servers[i].active || now - servers[i].lastSeen > SERVER_TIMEOUT {
          RemoveAt(i);
        } else {
          i := i + 1;
        }
        k := k + 1;
      }
      CleaningEnds(servers[..count], before, k, now);
    }

    method MarkInactive()
      requires Valid()
      modifies servers
      ensures Valid() && List() == Silence(old(List()))
    {
      var i := 0;
      while i < count
        invariant 0 <= i <= count
        invariant forall j :: 0 <= j < i ==> servers[j] == Server(old(servers[j].addr), old(servers[j].lastSeen), false)
        invariant forall j :: i <= j < servers.Length ==> servers[j] == old(servers[j])
      {
        servers[i] := servers[i].(active := false);
        i := i + 1;
      }
    }

    /** One received message during a round; tells whether a response counted. */
    method Receive(p: Pass, transId: int) returns (counted: bool)
      requires Valid()
      modifies this`count, servers
      ensures Valid() && (List(), counted) == Step(old(List()), p, transId)
    {
      if p.arrived.None? { return false; }
      var m := p.arrived.value;
      if m.protocol != CldpPacket.PROTOCOL_NUM { return false; }
      if m.kind == Response && m.transId == transId {
        var i := Find(m.source);
        if i == count { return false; }
        ghost var before := servers[..count];
        servers[i] := servers[i].(active := true);
        servers[i] := servers[i].(lastSeen := p.now);
        assert servers[..count] == Touch(before, i, p.now);
        return true;
      } else if m.kind == Hello {
        UpdateServerList(m.source, p.now);
      }
      return false;
    }

    /** The waiting loop: until 5 s are over or as many responses have come as
        there are servers. */
    method AwaitResponses(start: int, transId: int, ps: seq<Pass>) returns (used: nat, responses: nat)
      requires Valid()
      modifies this`count, servers
      ensures Valid() && Takes(old(List()), start, ps, transId, used)
      ensures Round(List(), responses) == Passes(old(List()), ps[..used], transId)
    {
      hide Step, Passes, Distinct, Taken;
      ghost var l1 := servers[..count];
      used, responses := 0, 0;
      TakenNone(l1, start, ps, transId);
      while used < |ps| && ps[used].tested - start < RESPONSE_TIMEOUT && responses < count
        invariant Valid() && used <= |ps|
        invariant Taken(l1, start, ps, transId, used, Round(servers[..count], responses))
      {
        TakenStep(l1, start, ps, transId, used, Round(servers[..count], responses));
        var counted := Receive(ps[used], transId);
        if counted { responses := responses + 1; }
        used := used + 1;
      }
      TakenAll(l1, start, ps, transId, used, Round(servers[..count], responses));
    }

    /** A query round. `queried` lists where queries went; `used` is how many of
        the offered passes the waiting loop took; `end` is the clock at cleanup.
        An empty list is not queried and nothing is received. */
    method QueryAllServers(start: int, transId: int, ps: seq<Pass>, end: int)
      returns (queried: seq<int>, used: nat, responses: nat)
      requires Valid()
      modifies this`count, servers
      ensures Valid() && queried == Addrs(old(List())) && used <= |ps|
      ensures old(List()) == [] ==> List() == [] && used == 0
      ensures var known := Addrs(old(List()));
        known != [] ==>
        && (forall k :: 0 <= k < used ==> Continues(known, start, ps, transId, k))
        && (used < |ps| ==> !Continues(known, start, ps, transId, used))
        && responses == Responses(known, ps[..used], transId)
        && Addrs(List()) == Recent(known, ps[..used], transId, end)
                            + Recent(Newcomers(known, ps[..used]), ps[..used], transId, end)
        && ((forall i :: 0 <= i < used ==> start <= ps[i].now) && end <= start + 30 ==>
              Addrs(List()) == Survivors(known, ps[..used], transId) + Newcomers(known, ps[..used]))
    {
      queried, used, responses := [], 0, 0;
      if count == 0 { return; }
      hide Kept, Survivors, Newcomers, Passes, GoesOn, Recent, Takes, Continues, Responses;
      ghost var l0 := servers[..count];
      MarkInactive();
      ghost var l1 := servers[..count];
      var i := 0;
      while i < count
        invariant 0 <= i <= count && queried == Addrs(l0[..i])
      {
        assert servers[i] == l1[i];
        assert Addrs(l0[..i + 1]) == Addrs(l0[..i]) + [l0[i].addr];
        queried := queried + [servers[i].addr];
        i := i + 1;
      }
      assert l0[..i] == l0;
      used, responses := AwaitResponses(start, transId, ps);
      CleanupServerList(end);
      assert Addrs(l0) == queried && |Addrs(l0)| == |l0|;
      TakesExactly(l0, start, ps, transId, used);
      RoundPasses(l0, ps[..used], transId);
      RoundExactly(l0, ps[..used], transId, end);
      if (forall i :: 0 <= i < used ==> start <= ps[i].now) && end <= start + 30 {
        RoundResult(l0, ps[..used], transId, start, end);
      }
    }
  }

  lemma {:induction false} IndexIs(l: seq<Server>, addr: int, k: nat)
    requires k <= |l| && (k < |l| ==> l[k].addr == addr) && forall i :: 0 <= i < k ==> l[i].addr != addr
    ensures IndexOf(l, addr) == k
  {
  }
}
