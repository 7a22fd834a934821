/** The command loop of one client over the shared mailboxes, and any number of
    clients interleaved. */
module MailSession {
  import opened Options
  import opened MailText
  import opened Mailbox
  import opened MailAnswers

  /** One received buffer and what the world adds to it: `stale` is what an
      earlier buffer left behind byte 5, read only for a bare DATA without a
      newline; `date` the formatted clock; `opens` whether the mailbox file can
      be opened for appending. */
  datatype Input = Input(raw: string, stale: string, date: string, opens: bool)

  datatype Session = Session(state: int, sender: string, recipient: string, domain: string, open: bool)

  type Files = map<string, string>

  /** What a command did, as far as the order of commands goes. */
  datatype Effect =
    | Greeted(domain: string)
    | MailParsed(sender: string, accepted: bool)
    | RecipientSet(recipient: string)
    | Stored(recipient: string, mail: Mail)
    | Nothing

  datatype Outcome = Outcome(session: Session, files: Files, reply: Reply, effect: Effect)

  const FRESH := Session(0, "", "", "", true)

  // ---------- parsing ----------

  /** The C string at the front of some memory. */
  function CString(memory: string): (s: string)
    ensures s <= memory && NUL !in s
  {
    if memory == "" || memory[0] == NUL then "" else [memory[0]] + CString(memory[1..])
  }

  /** The buffer up to its first newline or NUL. */
  function CutLine(raw: string): (l: string)
    ensures l <= raw && '\n' !in l && NUL !in l
  {
    if raw == "" || raw[0] == '\n' || raw[0] == NUL then "" else [raw[0]] + CutLine(raw[1..])
  }

  /** `buffer + 5` once the first newline has become a NUL. */
  function Message(raw: string, stale: string): (m: string)
    ensures NUL !in m
  {
    var line := CutLine(raw);
    if |line| >= 5 then line[5..]
    else if |line| == 4 && |raw| > 4 then CString(raw[5..])
    else CString(stale)
  }

  /** Whether a scanned word fits the array of 100 bytes it is written to. */
  predicate FitsArg(w: string) { |w| <= ARG_MAX }

  /** The part after the first '@'. */
  function AfterAt(sender: string): Option<string> {
    if sender == "" then None
    else if sender[0] == '@' then Some(sender[1..])
    else AfterAt(sender[1..])
  }

  // ---------- the commands ----------

  function Fail(s: Session, fs: Files, code: string, message: string): Outcome {
    Outcome(s, fs, Text(Respond(code, message)), Nothing)
  }

  /** A word was written beyond its array: nothing is said of what follows. */
  function Broken(s: Session, fs: Files): Outcome {
    Outcome(Session(s.state, s.sender, s.recipient, s.domain, false), fs, Undefined, Nothing)
  }

  function Helo(s: Session, fs: Files, args: string): Outcome {
    match Word(args)
    case None => Fail(s, fs, "400", "Invalid syntax")
    case Some(d) =>
      if !FitsArg(d) then Broken(s, fs)
      else Outcome(Session(1, s.sender, s.recipient, d, s.open), fs, Text(Respond("200", "OK")), Greeted(d))
  }

  function MailFrom(s: Session, fs: Files, args: string): Outcome {
    if s.state < 1 then Fail(s, fs, "403", "Send HELO first")
    else
      match Word(args)
      case None => Fail(s, fs, "400", "Invalid syntax")
      case Some(from) =>
        if !FitsArg(from) then Broken(s, fs)
        else
          var accepted := AfterAt(from) == Some(s.domain);
          Outcome(Session(if accepted then 2 else s.state, from, s.recipient, s.domain, s.open), fs,
                  Text(Judgement(from, accepted)), MailParsed(from, accepted))
  }

  function Judgement(from: string, accepted: bool): string {
    if accepted then Respond("200", "OK")
    else if AfterAt(from).Some? then Respond("400", WRONG_DOMAIN)
    else Respond("400", "Invalid email format, missing @")
  }

  const WRONG_DOMAIN :=
    "Sender domain does not match HELO domain, you may set the sender domain again with HELO"

  function RcptTo(s: Session, fs: Files, args: string): Outcome {
    if s.state < 2 then Fail(s, fs, "403", "Send MAIL FROM first")
    else
      match Word(args)
      case None => Fail(s, fs, "400", "Invalid syntax")
      case Some(to) =>
        if !FitsArg(to) then Broken(s, fs)
        else Outcome(Session(3, s.sender, to, s.domain, s.open), fs, Text(Respond("200", "OK")), RecipientSet(to))
  }

  function Append(fs: Files, box: string, m: Mail): Files {
    fs[box := (if box in fs then fs[box] else "") + Frame(m)]
  }

  function Data(s: Session, fs: Files, i: Input): Outcome {
    if s.state < 3 then Fail(s, fs, "403", "Send RCPT TO first")
    else
      var s' := Session(0, s.sender, s.recipient, s.domain, s.open);
      if !i.opens then Fail(s', fs, "500", "Failed to store message")
      else
        var m := Mail(s.sender, i.date, Message(i.raw, i.stale));
        Outcome(s', Append(fs, s.recipient, m), Text(Respond("200", "Message stored successfully")),
                Stored(s.recipient, m))
  }

  function ListReply(fs: Files, box: string): Reply {
    if box !in fs then Text(Respond("401", "Requested email does not exist")) else ListAnswer(fs[box])
  }

  function GetReply(fs: Files, box: string, id: int): Reply {
    if box !in fs then Text(Respond("401", "Requested email does not exist")) else GetAnswer(fs[box], id)
  }

  /** The reply to a command that stores nothing. */
  function Answer(fs: Files, line: string): Reply {
    if StartsWith(line, "LIST ") then
      match Word(line[4..])
      case None => Text(Respond("400", "Invalid syntax"))
      case Some(box) => if FitsArg(box) then ListReply(fs, box) else Undefined
    else if StartsWith(line, "GET_MAIL ") then
      if !FitsArg(Token(SkipSpace(line[8..]))) then Undefined
      else
        match WordAndNumber(line[8..])
        case None => Text(Respond("400", "Invalid syntax"))
        case Some(request) => GetReply(fs, request.0, request.1)
    else if line == "QUIT" then Text(Respond("200", "Goodbye"))
    else Text(Respond("400", "Unknown command"))
  }

  function Handle(s: Session, fs: Files, i: Input): Outcome {
    var line := CutLine(i.raw);
    if StartsWith(line, "HELO ") then Helo(s, fs, line[4..])
    else if StartsWith(line, "MAIL FROM: ") then MailFrom(s, fs, line[10..])
    else if StartsWith(line, "RCPT TO: ") then RcptTo(s, fs, line[8..])
    else if StartsWith(line, "DATA") then Data(s, fs, i)
    else
      var reply := Answer(fs, line);
      var open := s.open && line != "QUIT" && reply != Undefined;
      Outcome(Session(s.state, s.sender, s.recipient, s.domain, open), fs, reply, Nothing)
  }

  // ---------- one client ----------

  datatype Trace = Trace(session: Session, files: Files, effects: seq<Effect>, replies: seq<Reply>)

  /** The session after some inputs; nothing is read after QUIT, and nothing is
      said after an undefined reply. */
  function Talk(s: Session, fs: Files, inputs: seq<Input>): Trace
    decreases |inputs|
  {
    if inputs == [] then Trace(s, fs, [], [])
    else
      var t := Talk(s, fs, inputs[..|inputs| - 1]);
      if !t.session.open then t
      else
        var o := Handle(t.session, t.files, inputs[|inputs| - 1]);
        Trace(o.session, o.files, t.effects + [o.effect], t.replies + [o.reply])
  }

  /** Position of the last effect satisfying `p`, or -1. */
  function Last(es: seq<Effect>, p: Effect -> bool): (k: int)
    ensures -1 <= k < |es|
    ensures k >= 0 ==> p(es[k])
    ensures forall i :: k < i < |es| ==> !p(es[i])
  {
    if es == [] then -1
    else if p(es[|es| - 1]) then |es| - 1
    else Last(es[..|es| - 1], p)
  }

  const IS_GREETING := (e: Effect) => e.Greeted?
  const IS_MAIL := (e: Effect) => e.MailParsed?
  const IS_ACCEPTED_MAIL := (e: Effect) => e.MailParsed? && e.accepted
  const IS_RECIPIENT := (e: Effect) => e.RecipientSet?
  const IS_STORE := (e: Effect) => e.Stored?

  /** The sender of the latest MAIL FROM that parsed, read off the trace. */
  ghost predicate InOrder(es: seq<Effect>, s: Session) {
    var hello, parsed, mail, rcpt, store :=
      Last(es, IS_GREETING), Last(es, IS_MAIL), Last(es, IS_ACCEPTED_MAIL), Last(es, IS_RECIPIENT), Last(es, IS_STORE);
    && 0 <= s.state <= 3
    && (s.state >= 1 ==> hello > store && s.domain == es[hello].domain)
    && (s.state >= 2 ==> mail > hello && s.sender == es[parsed].sender
                         && (AfterAt(s.sender) == Some(s.domain) <==> parsed == mail))
    && (s.state >= 3 ==> rcpt > mail && s.recipient == es[rcpt].recipient)
  }

  lemma {:induction false} LastOfOne(es: seq<Effect>, e: Effect, p: Effect -> bool)
    ensures Last(es + [e], p) == if p(e) then |es| else Last(es, p)
  {
  }

  /** How each effect moves the session. */
  predicate Moves(s: Session, e: Effect, s': Session) {
    match e
    case Greeted(d) => s' == Session(1, s.sender, s.recipient, d, s.open)
    case MailParsed(from, accepted) =>
      && s.state >= 1 && (accepted <==> AfterAt(from) == Some(s.domain))
      && s' == Session(if accepted then 2 else s.state, from, s.recipient, s.domain, s.open)
    case RecipientSet(to) => s.state >= 2 && s' == Session(3, s.sender, to, s.domain, s.open)
    case Stored(to, m) =>
      && s.state >= 3 && to == s.recipient && m.sender == s.sender
      && s' == Session(0, s.sender, s.recipient, s.domain, s.open)
    case Nothing =>
      s'.state in {0, s.state} && s' == Session(s'.state, s.sender, s.recipient, s.domain, s'.open)
  }

  /** What one command does to session and files. */
  predicate Sane(s: Session, fs: Files, o: Outcome) {
    && Moves(s, o.effect, o.session)
    && o.files == if o.effect.Stored? then Append(fs, o.effect.recipient, o.effect.mail) else fs
  }

  lemma {:induction false} HeloSane(s: Session, fs: Files, args: string)
    ensures Sane(s, fs, Helo(s, fs, args))
  {
  }

  lemma {:induction false} MailFromSane(s: Session, fs: Files, args: string)
    ensures Sane(s, fs, MailFrom(s, fs, args))
  {
  }

  lemma {:induction false} RcptToSane(s: Session, fs: Files, args: string)
    ensures Sane(s, fs, RcptTo(s, fs, args))
  {
  }

  lemma {:induction false} DataSane(s: Session, fs: Files, i: Input)
    ensures Sane(s, fs, Data(s, fs, i))
  {
  }

  lemma {:induction false} QuerySane(s: Session, fs: Files, reply: Reply, open: bool)
    ensures Sane(s, fs, Outcome(Session(s.state, s.sender, s.recipient, s.domain, open), fs, reply, Nothing))
  {
  }

  lemma {:induction false} HandleSane(s: Session, fs: Files, i: Input)
    ensures Sane(s, fs, Handle(s, fs, i))
  {
    hide Sane, Helo, MailFrom, RcptTo, Data, Answer, CutLine, StartsWith;
    var line := CutLine(i.raw);
    if StartsWith(line, "HELO ") { PrefixLength(line, "HELO "); HeloSane(s, fs, line[4..]); }
    else if StartsWith(line, "MAIL FROM: ") { PrefixLength(line, "MAIL FROM: "); MailFromSane(s, fs, line[10..]); }
    else if StartsWith(line, "RCPT TO: ") { PrefixLength(line, "RCPT TO: "); RcptToSane(s, fs, line[8..]); }
    else if StartsWith(line, "DATA") { DataSane(s, fs, i); }
    else {
      var reply := Answer(fs, line);
      QuerySane(s, fs, reply, s.open && line != "QUIT" && reply != Undefined);
    }
  }

  lemma {:induction false} PrefixLength(s: string, p: string)
    requires StartsWith(s, p)
    ensures |s| >= |p|
  {
  }

  lemma {:induction false} HandleMoves(s: Session, fs: Files, i: Input)
    ensures Moves(s, Handle(s, fs, i).effect, Handle(s, fs, i).session)
  {
    hide Handle, Moves;
    HandleSane(s, fs, i);
  }

  lemma {:induction false} OrderStep(es: seq<Effect>, s: Session, e: Effect, s': Session)
    requires InOrder(es, s) && Moves(s, e, s')
    ensures InOrder(es + [e], s')
  {
    hide AfterAt, Last;
    LastOfOne(es, e, IS_GREETING);
    LastOfOne(es, e, IS_MAIL);
    LastOfOne(es, e, IS_ACCEPTED_MAIL);
    LastOfOne(es, e, IS_RECIPIENT);
    LastOfOne(es, e, IS_STORE);
  }

  lemma {:induction false} OrderKept(fs: Files, inputs: seq<Input>)
    ensures InOrder(Talk(FRESH, fs, inputs).effects, Talk(FRESH, fs, inputs).session)
    decreases |inputs|
  {
    if inputs != [] {
      var before := inputs[..|inputs| - 1];
      OrderKept(fs, before);
      var t := Talk(FRESH, fs, before);
      var o := Handle(t.session, t.files, inputs[|inputs| - 1]);
      hide Handle;
      HandleMoves(t.session, t.files, inputs[|inputs| - 1]);
      OrderStep(t.effects, t.session, o.effect, o.session);
    }
  }

  /** Whenever a mail is stored, there were since the previous store, in this
      order, an accepted HELO, MAIL FROM and RCPT TO, each the latest of its
      kind. The mail goes to that recipient; its sender is the one of the latest
      MAIL FROM that parsed, and has the domain of the HELO if and only if that
      MAIL FROM was accepted. */
  lemma {:induction false} StoresInOrder(fs: Files, inputs: seq<Input>, i: Input)
    ensures var t := Talk(FRESH, fs, inputs);
      var o := Handle(t.session, t.files, i);
      o.effect.Stored? ==>
        var hello, parsed, mail, rcpt, store := Last(t.effects, IS_GREETING), Last(t.effects, IS_MAIL),
          Last(t.effects, IS_ACCEPTED_MAIL), Last(t.effects, IS_RECIPIENT), Last(t.effects, IS_STORE);
        && store < hello < mail < rcpt
        && o.effect.recipient == t.effects[rcpt].recipient
        && o.effect.mail.sender == t.effects[parsed].sender
        && (AfterAt(o.effect.mail.sender) == Some(t.effects[hello].domain) <==> parsed == mail)
        && o.session.state == 0
  {
    hide Handle, Talk, AfterAt;
    OrderKept(fs, inputs);
    HandleMoves(Talk(FRESH, fs, inputs).session, Talk(FRESH, fs, inputs).files, i);
  }

  // ---------- any number of clients ----------

  /** `broken` says that some reply was undefined; nothing happens after that. */
  datatype World = World(files: Files, sessions: map<nat, Session>, broken: bool)

  datatype Act = Connect(id: nat) | Command(id: nat, input: Input)

  /** The session that reads the command of `a`, if one does. */
  predicate Reads(w: World, a: Act) {
    !w.broken && a.Command? && a.id in w.sessions && w.sessions[a.id].open
  }

  function WorldStep(w: World, a: Act): World {
    if w.broken then w
    else
      match a
      case Connect(id) => World(w.files, w.sessions[id := FRESH], false)
      case Command(id, input) =>
        if !Reads(w, a) then w
        else
          var o := Handle(w.sessions[id], w.files, input);
          World(o.files, w.sessions[id := o.session], o.reply == Undefined)
  }

  function WorldAfter(acts: seq<Act>): World
    decreases |acts|
  {
    if acts == [] then World(map[], map[], false)
    else WorldStep(WorldAfter(acts[..|acts| - 1]), acts[|acts| - 1])
  }

  /** The mails the run stores for one recipient, whichever client sent them. */
  function StoredFor(acts: seq<Act>, box: string): seq<Mail>
    decreases |acts|
  {
    if acts == [] then []
    else
      var w, a := WorldAfter(acts[..|acts| - 1]), acts[|acts| - 1];
      StoredFor(acts[..|acts| - 1], box) + NewMail(w, a, box)
  }

  function NewMail(w: World, a: Act, box: string): seq<Mail> {
    if !Reads(w, a) then []
    else
      var e := Handle(w.sessions[a.id], w.files, a.input).effect;
      if e.Stored? && e.recipient == box then [e.mail] else []
  }

  /** What the commands of client `id` did since it connected. */
  function EffectsOf(acts: seq<Act>, id: nat): seq<Effect>
    decreases |acts|
  {
    if acts == [] then []
    else
      var before, a := acts[..|acts| - 1], acts[|acts| - 1];
      var w := WorldAfter(before);
      if a.id != id || w.broken then EffectsOf(before, id)
      else if a.Connect? then []
      else if Reads(w, a) then EffectsOf(before, id) + [Handle(w.sessions[id], w.files, a.input).effect]
      else EffectsOf(before, id)
  }

  /** Under any interleaving the commands of each client are in order, whatever
      the others do. */
  lemma {:induction false} ClientsInOrder(acts: seq<Act>, id: nat)
    requires id in WorldAfter(acts).sessions
    ensures InOrder(EffectsOf(acts, id), WorldAfter(acts).sessions[id])
    decreases |acts|
  {
    hide Handle, InOrder;
    if acts != [] {
      var before, a := acts[..|acts| - 1], acts[|acts| - 1];
      var w := WorldAfter(before);
      if a == Connect(id) && !w.broken {
        FreshInOrder();
      } else {
        ClientsInOrder(before, id);
        if Reads(w, a) && a.id == id {
          HandleMoves(w.sessions[id], w.files, a.input);
          var o := Handle(w.sessions[id], w.files, a.input);
          OrderStep(EffectsOf(before, id), w.sessions[id], o.effect, o.session);
        }
      }
    }
  }

  lemma {:induction false} FreshInOrder()
    ensures InOrder([], FRESH)
  {
  }

  /** So each mail a client stores follows, since the last one it stored, its own
      HELO, MAIL FROM and RCPT TO, and goes where they say. */
  lemma {:induction false} ClientStoresInOrder(acts: seq<Act>, id: nat, i: Input)
    requires Reads(WorldAfter(acts), Command(id, i))
    ensures var w, es := WorldAfter(acts), EffectsOf(acts, id);
      var e := Handle(w.sessions[id], w.files, i).effect;
      e.Stored? ==>
        var hello, parsed, mail, rcpt, store := Last(es, IS_GREETING), Last(es, IS_MAIL),
          Last(es, IS_ACCEPTED_MAIL), Last(es, IS_RECIPIENT), Last(es, IS_STORE);
        && store < hello < mail < rcpt
        && e.recipient == es[rcpt].recipient && e.mail.sender == es[parsed].sender
        && (AfterAt(e.mail.sender) == Some(es[hello].domain) <==> parsed == mail)
  {
    hide Handle, AfterAt, Last, WorldAfter, EffectsOf;
    ClientsInOrder(acts, id);
    HandleMoves(WorldAfter(acts).sessions[id], WorldAfter(acts).files, i);
  }

  /** Only storing touches the files, and it appends one frame to one of them. */
  lemma {:induction false} HandleAppends(s: Session, fs: Files, i: Input)
    ensures var o := Handle(s, fs, i);
      o.files == if o.effect.Stored? then Append(fs, o.effect.recipient, o.effect.mail) else fs
  {
    hide Handle, Append;
    HandleSane(s, fs, i);
  }

  lemma {:induction false} FileGrows(ms: seq<Mail>, m: Mail)
    ensures File(ms + [m]) == File(ms) + Frame(m)
  {
  }

  predicate Spells(fs: Files, box: string, ms: seq<Mail>) {
    (box in fs <==> ms != []) && (box in fs ==> fs[box] == File(ms))
  }

  lemma {:induction false} SpellsStep(w: World, a: Act, box: string, ms: seq<Mail>)
    requires Spells(w.files, box, ms)
    ensures Spells(WorldStep(w, a).files, box, ms + NewMail(w, a, box))
  {
    hide Handle, Frame, File;
    assert ms + [] == ms;
    if Reads(w, a) {
      HandleAppends(w.sessions[a.id], w.files, a.input);
      var e := Handle(w.sessions[a.id], w.files, a.input).effect;
      if e.Stored? && e.recipient == box {
        FileGrows(ms, e.mail);
        if ms == [] { EmptyFile(e.mail); }
      }
    }
  }

  lemma {:induction false} EmptyFile(m: Mail)
    ensures File([]) + Frame(m) == "" + Frame(m)
  {
  }

  /** Each mailbox file is the text of the mails stored for it, in order. */
  lemma {:induction false} FilesSpellMails(acts: seq<Act>, box: string)
    ensures Spells(WorldAfter(acts).files, box, StoredFor(acts, box))
    decreases |acts|
  {
    hide Spells, WorldStep, NewMail;
    if acts == [] {
      NothingSpelled(box);
    } else {
      FilesSpellMails(acts[..|acts| - 1], box);
      SpellsStep(WorldAfter(acts[..|acts| - 1]), acts[|acts| - 1], box, StoredFor(acts[..|acts| - 1], box));
    }
  }

  lemma {:induction false} NothingSpelled(box: string)
    ensures Spells(map[], box, [])
  {
  }

  lemma {:induction false} StoredGrows(acts: seq<Act>, k: nat, box: string)
    requires k <= |acts|
    ensures StoredFor(acts[..k], box) <= StoredFor(acts, box)
    decreases |acts|
  {
    if k == |acts| {
      assert acts[..k] == acts;
    } else {
      StoredGrows(acts[..|acts| - 1], k, box);
      assert acts[..|acts| - 1][..k] == acts[..k];
    }
  }

  // ---------- what is stored fits ----------

  /** What one `recv` and `strftime` can deliver. */
  predicate Received(i: Input) {
    && |i.raw| <= BODY_MAX + 5 && |i.stale| <= BODY_MAX
    && IsWord(i.date) && |i.date| <= DATE_MAX && NUL !in i.date
  }

  predicate AllReceived(acts: seq<Act>) {
    forall k :: 0 <= k < |acts| && acts[k].Command? ==> Received(acts[k].input)
  }

  predicate GoodSender(s: Session) { s.state >= 2 ==> IsArg(s.sender) }

  lemma {:induction false} WordHasNoNul(s: string)
    requires NUL !in s
    ensures Word(s).Some? ==> NUL !in Word(s).value
  {
    SkipSpaceKeeps(s);
  }

  lemma {:induction false} SkipSpaceKeeps(s: string)
    requires NUL !in s
    ensures NUL !in SkipSpace(s)
  {
    if s != "" && IsSpace(s[0]) { SkipSpaceKeeps(s[1..]); }
  }

  predicate Safe(o: Outcome) {
    GoodSender(o.session) && (o.effect.Stored? ==> Storable(o.effect.mail))
  }

  lemma {:induction false} MailFromSafe(s: Session, fs: Files, args: string)
    requires GoodSender(s) && NUL !in args
    ensures Safe(MailFrom(s, fs, args))
  {
    hide Judgement, Respond, Word, AfterAt;
    WordHasNoNul(args);
  }

  lemma {:induction false} DataSafe(s: Session, fs: Files, i: Input)
    requires GoodSender(s) && Received(i)
    ensures Safe(Data(s, fs, i))
  {
  }

  lemma {:induction false} RcptToSafe(s: Session, fs: Files, args: string)
    requires GoodSender(s)
    ensures Safe(RcptTo(s, fs, args))
  {
  }

  lemma {:induction false} HeloSafe(s: Session, fs: Files, args: string)
    requires GoodSender(s)
    ensures Safe(Helo(s, fs, args))
  {
  }

  /** A session scans its sender into an array that holds it, so what it stores
      is what the mailbox theorems are about. */
  lemma {:induction false} StoredIsStorable(s: Session, fs: Files, i: Input)
    requires GoodSender(s) && Received(i)
    ensures GoodSender(Handle(s, fs, i).session)
    ensures Handle(s, fs, i).effect.Stored? ==> Storable(Handle(s, fs, i).effect.mail)
  {
    hide Helo, MailFrom, RcptTo, Data, Answer, CutLine, StartsWith, Storable;
    var line := CutLine(i.raw);
    if StartsWith(line, "HELO ") { PrefixLength(line, "HELO "); HeloSafe(s, fs, line[4..]); }
    else if StartsWith(line, "MAIL FROM: ") { PrefixLength(line, "MAIL FROM: "); MailFromSafe(s, fs, line[10..]); }
    else if StartsWith(line, "RCPT TO: ") { PrefixLength(line, "RCPT TO: "); RcptToSafe(s, fs, line[8..]); }
    else if StartsWith(line, "DATA") { DataSafe(s, fs, i); }
  }

  lemma {:induction false} WorldIsGood(acts: seq<Act>, box: string)
    requires AllReceived(acts)
    ensures forall id :: id in WorldAfter(acts).sessions ==> GoodSender(WorldAfter(acts).sessions[id])
    ensures forall m :: m in StoredFor(acts, box) ==> Storable(m)
    decreases |acts|
  {
    hide Handle, Received, GoodSender, Storable;
    if acts != [] {
      var before, a := acts[..|acts| - 1], acts[|acts| - 1];
      WorldIsGood(before, box);
      FreshIsGood();
      var w := WorldAfter(before);
      if Reads(w, a) { StoredIsStorable(w.sessions[a.id], w.files, a.input); }
    }
  }

  lemma {:induction false} FreshIsGood()
    ensures GoodSender(FRESH)
  {
  }

  /** Under any interleaving of clients, behind innocent bodies: mail `id` is
      answered whole exactly when it is retrievable and fits the reply, and then
      it is answered so ever after. */
  lemma {:induction false} MailNumbersAreForever(acts: seq<Act>, k: nat, box: string, id: nat)
    requires k <= |acts| && AllReceived(acts)
    requires 1 <= id <= |StoredFor(acts[..k], box)|
    requires forall i :: 0 <= i < id - 1 ==> Innocent(StoredFor(acts[..k], box)[i])
    ensures var m := StoredFor(acts[..k], box)[id - 1];
      && (GetReply(WorldAfter(acts[..k]).files, box, id) == WholeMail(m)
          <==> Retrievable(m) && Fits(Content(m)))
      && (GetReply(WorldAfter(acts).files, box, id) == WholeMail(m)
          <==> GetReply(WorldAfter(acts[..k]).files, box, id) == WholeMail(m))
  {
    hide Respond, GetAnswer, WorldAfter, StoredFor, WholeMail, Content, Storable, Innocent, Retrievable, Fits, File;
    hide AllReceived;
    FilesSpellMails(acts[..k], box);
    FilesSpellMails(acts, box);
    StoredGrows(acts, k, box);
    WorldIsGood(acts, box);
    var ms, all := StoredFor(acts[..k], box), StoredFor(acts, box);
    assert all == ms + all[|ms|..];
    NumberIsStable(ms, all[|ms|..], id);
  }
}
