/** What each command a client can send is answered, word for word, and what it
    changes. */
module MailCommands {
  import opened Options
  import opened MailText
  import opened Mailbox
  import opened MailAnswers
  import opened MailSession

  // ---------- lines and words ----------

  /** The command the buffer holds: all of it, or what precedes a newline or NUL. */
  predicate IsLine(i: Input, line: string) {
    && line <= i.raw && '\n' !in line && NUL !in line
    && (|line| < |i.raw| ==> i.raw[|line|] == '\n' || i.raw[|line|] == NUL)
  }

  lemma {:induction false} LineIs(i: Input, line: string)
    requires IsLine(i, line)
    ensures CutLine(i.raw) == line
  {
    CutIs(i.raw, |line|);
  }

  lemma {:induction false} CutIs(raw: string, n: nat)
    requires n <= |raw| && '\n' !in raw[..n] && NUL !in raw[..n]
    requires n < |raw| ==> raw[n] == '\n' || raw[n] == NUL
    ensures CutLine(raw) == raw[..n]
  {
    if n > 0 {
      assert raw[..n][0] == raw[0] && raw[..n] == [raw[0]] + raw[1..][..n - 1];
      CutIs(raw[1..], n - 1);
    }
  }

  /** White space within a line. */
  predicate Blank(c: char) { c == ' ' || c == '\t' || c == '\r' || c == '\U{0B}' || c == '\U{0C}' }

  predicate Spaces(s: string) { forall i :: 0 <= i < |s| ==> Blank(s[i]) }

  /** What may stand behind a word: nothing, or white space and anything. */
  predicate Ends(s: string) { s == "" || Blank(s[0]) }

  lemma {:induction false} SkipSpaces(pre: string, s: string)
    requires Spaces(pre) && (s == "" || !IsSpace(s[0]))
    ensures SkipSpace(pre + s) == s
  {
    if pre == "" {
      assert pre + s == s;
    } else {
      assert (pre + s)[1..] == pre[1..] + s;
      SkipSpaces(pre[1..], s);
    }
  }

  /** The first word, whatever spaces precede it and whatever follows it. */
  lemma {:induction false} WordIs(pre: string, w: string, post: string)
    requires Spaces(pre) && IsWord(w) && Ends(post)
    ensures Word(pre + (w + post)) == Some(w)
    ensures SkipSpace(pre + (w + post)) == w + post && Token(w + post) == w
  {
    assert (w + post)[0] == w[0] && w[0] in w;
    SkipSpaces(pre, w + post);
    TokenOfWord(w, post);
  }

  lemma {:induction false} NoWord(pre: string)
    requires Spaces(pre)
    ensures Word(pre) == None
  {
    SkipSpaces(pre, "");
    assert pre + "" == pre;
  }

  /** A number as a client writes it. */
  function Numeral(k: int): string { if k < 0 then "-" + Decimal(-k) else Decimal(k) }

  lemma {:induction false} DigitsOf(ds: string, post: string)
    requires (forall c :: c in ds ==> IsDigit(c)) && Ends(post)
    ensures Digits(ds + post) == ds
  {
    if ds == "" {
      assert ds + post == post;
    } else {
      assert (ds + post)[1..] == ds[1..] + post && ds == [ds[0]] + ds[1..];
      DigitsOf(ds[1..], post);
    }
  }

  lemma {:induction false} NumberIs(pre: string, k: int, post: string)
    requires Spaces(pre) && Ends(post)
    ensures Number(pre + (Numeral(k) + post)) == Some(k)
  {
    var n := if k < 0 then -k else k;
    DecimalValue(n);
    hide Decimal, Number, Value;
    if k < 0 { NegativeIs(pre, Decimal(n), post); } else { PositiveIs(pre, Decimal(n), post); }
  }

  lemma {:induction false} PositiveIs(pre: string, ds: string, post: string)
    requires Spaces(pre) && Ends(post) && ds != "" && forall c :: c in ds ==> IsDigit(c)
    ensures Number(pre + (ds + post)) == Some(Value(ds))
  {
    hide Digits, Value, SkipSpace;
    DigitsOf(ds, post);
    assert (ds + post)[0] == ds[0] && ds[0] in ds;
    SkipSpaces(pre, ds + post);
  }

  lemma {:induction false} NegativeIs(pre: string, ds: string, post: string)
    requires Spaces(pre) && Ends(post) && ds != "" && forall c :: c in ds ==> IsDigit(c)
    ensures Number(pre + ("-" + ds + post)) == Some(-Value(ds))
  {
    hide Digits, Value, SkipSpace;
    DigitsOf(ds, post);
    assert ("-" + ds + post)[0] == '-' && ("-" + ds + post)[1..] == ds + post;
    SkipSpaces(pre, "-" + ds + post);
  }

  lemma {:induction false} WordAndNumberIs(pre: string, w: string, mid: string, k: int, post: string)
    requires Spaces(pre) && IsWord(w) && Spaces(mid) && mid != "" && Ends(post)
    ensures WordAndNumber(pre + (w + (mid + (Numeral(k) + post)))) == Some((w, k))
    ensures Token(SkipSpace(pre + (w + (mid + (Numeral(k) + post))))) == w
  {
    var rest := mid + (Numeral(k) + post);
    assert rest[0] == mid[0];
    WordIs(pre, w, rest);
    NumberIs(mid, k, post);
    assert (w + rest)[|w|..] == rest;
  }

  lemma {:induction false} Behind(tag: string, n: nat, args: string)
    requires n <= |tag|
    ensures StartsWith(tag + args, tag) && (tag + args)[n..] == tag[n..] + args
  {
  }

  /** The first letter tells the commands apart. */
  lemma {:induction false} Tags(line: string)
    requires line != ""
    ensures line[0] != 'H' ==> !StartsWith(line, "HELO ")
    ensures line[0] != 'M' ==> !StartsWith(line, "MAIL FROM: ")
    ensures line[0] != 'R' ==> !StartsWith(line, "RCPT TO: ")
    ensures line[0] != 'D' ==> !StartsWith(line, "DATA")
    ensures line[0] != 'L' ==> !StartsWith(line, "LIST ")
    ensures line[0] != 'G' ==> !StartsWith(line, "GET_MAIL ")
  {
    assert "HELO "[0] == 'H' && "MAIL FROM: "[0] == 'M' && "RCPT TO: "[0] == 'R' && "DATA"[0] == 'D';
    assert "LIST "[0] == 'L' && "GET_MAIL "[0] == 'G';
  }

  // ---------- the words of the server ----------

  lemma {:induction false} RespondShort(code: string, message: string)
    requires |code| + |message| < 4095
    ensures Respond(code, message) == code + " " + message
  {
  }

  lemma {:induction false} OkReply()
    ensures Respond("200", "OK") == "200 OK"
    ensures Respond("400", "Invalid syntax") == "400 Invalid syntax"
  {
    RespondShort("200", "OK");
    RespondShort("400", "Invalid syntax");
  }

  lemma {:induction false} OrderReplies()
    ensures Respond("403", "Send HELO first") == "403 Send HELO first"
    ensures Respond("403", "Send MAIL FROM first") == "403 Send MAIL FROM first"
  {
    RespondShort("403", "Send HELO first");
    RespondShort("403", "Send MAIL FROM first");
  }

  lemma {:induction false} DataReplies()
    ensures Respond("403", "Send RCPT TO first") == "403 Send RCPT TO first"
    ensures Respond("500", "Failed to store message") == "500 Failed to store message"
  {
    RespondShort("403", "Send RCPT TO first");
    RespondShort("500", "Failed to store message");
  }

  lemma {:induction false} StoredReply()
    ensures Respond("200", "Message stored successfully") == "200 Message stored successfully"
  {
    RespondShort("200", "Message stored successfully");
  }

  lemma {:induction false} NoAtReply()
    ensures Respond("400", "Invalid email format, missing @") == "400 Invalid email format, missing @"
  {
    RespondShort("400", "Invalid email format, missing @");
  }

  lemma {:induction false} DomainReply()
    ensures Respond("400", WRONG_DOMAIN)
         == "400 " + "Sender domain does not match HELO domain, you may set the sender domain again with HELO"
  {
    RespondShort("400", WRONG_DOMAIN);
    assert "400" + " " == "400 ";
  }

  lemma {:induction false} NoMailReply()
    ensures Respond("401", "Requested email does not exist") == "401 Requested email does not exist"
  {
    RespondShort("401", "Requested email does not exist");
  }

  lemma {:induction false} QuitReplies()
    ensures Respond("200", "Goodbye") == "200 Goodbye"
    ensures Respond("400", "Unknown command") == "400 Unknown command"
  {
    RespondShort("200", "Goodbye");
    RespondShort("400", "Unknown command");
  }

  /** A reply that leaves session and files alone. */
  function Only(s: Session, fs: Files, reply: string): Outcome { Outcome(s, fs, Text(reply), Nothing) }

  /** A word too long for its array. */
  function Overlong(s: Session, fs: Files): Outcome {
    Outcome(Session(s.state, s.sender, s.recipient, s.domain, false), fs, Undefined, Nothing)
  }

  // ---------- HELO ----------

  lemma {:induction false} OneSpace(pre: string, s: string)
    requires Spaces(pre)
    ensures " " + (pre + s) == (" " + pre) + s && Spaces(" " + pre)
    ensures "HELO "[4..] == "MAIL FROM: "[10..] == "RCPT TO: "[8..] == "LIST "[4..] == "GET_MAIL "[8..] == " "
  {
  }

  /** HELO with a domain is always taken; only its first word counts. */
  lemma {:induction false} HeloCommand(s: Session, fs: Files, i: Input, pre: string, d: string, post: string)
    requires IsLine(i, "HELO " + (pre + (d + post))) && Spaces(pre) && IsWord(d) && Ends(post)
    ensures Handle(s, fs, i)
         == if |d| <= 99
            then Outcome(Session(1, s.sender, s.recipient, d, s.open), fs, Text("200 OK"), Greeted(d))
            else Overlong(s, fs)
  {
    hide Respond, Word, CutLine, StartsWith;
    var args := pre + (d + post);
    LineIs(i, "HELO " + args);
    Behind("HELO ", 4, args);
    OneSpace(pre, d + post);
    WordIs(" " + pre, d, post);
    OkReply();
  }

  lemma {:induction false} HeloWithout(s: Session, fs: Files, i: Input, pre: string)
    requires IsLine(i, "HELO " + pre) && Spaces(pre)
    ensures Handle(s, fs, i) == Only(s, fs, "400 Invalid syntax")
  {
    hide Respond, Word, CutLine, StartsWith;
    LineIs(i, "HELO " + pre);
    Behind("HELO ", 4, pre);
    OneSpace(pre, "");
    assert " " + pre == " " + (pre + "") && (" " + pre) + "" == " " + pre;
    NoWord(" " + pre);
    OkReply();
  }

  // ---------- MAIL FROM ----------

  lemma {:induction false} AtIs(user: string, d: string)
    requires '@' !in user
    ensures AfterAt(user + ("@" + d)) == Some(d)
  {
    if user == "" {
      assert user + ("@" + d) == "@" + d && ("@" + d)[1..] == d;
    } else {
      assert (user + ("@" + d))[1..] == user[1..] + ("@" + d) && user == [user[0]] + user[1..];
      AtIs(user[1..], d);
    }
  }

  lemma {:induction false} NoAt(w: string)
    requires '@' !in w
    ensures AfterAt(w) == None
  {
    if w != "" {
      assert w == [w[0]] + w[1..];
      NoAt(w[1..]);
    }
  }

  lemma {:induction false} MailFromLine(s: Session, fs: Files, i: Input, args: string)
    requires IsLine(i, "MAIL FROM: " + args)
    ensures Handle(s, fs, i) == MailFrom(s, fs, " " + args)
  {
    hide MailFrom, CutLine, StartsWith;
    var line := "MAIL FROM: " + args;
    LineIs(i, line);
    Behind("MAIL FROM: ", 10, args);
    OneSpace("", "");
    assert line[0] == 'M';
    Tags(line);
  }

  /** Before any HELO, MAIL FROM is refused whatever it says. */
  lemma {:induction false} MailFromTooSoon(s: Session, fs: Files, i: Input, args: string)
    requires IsLine(i, "MAIL FROM: " + args) && s.state < 1
    ensures Handle(s, fs, i) == Only(s, fs, "403 Send HELO first")
  {
    MailFromLine(s, fs, i, args);
    OrderReplies();
    hide Handle;
  }

  lemma {:induction false} MailFromWithout(s: Session, fs: Files, i: Input, pre: string)
    requires IsLine(i, "MAIL FROM: " + pre) && Spaces(pre) && s.state >= 1
    ensures Handle(s, fs, i) == Only(s, fs, "400 Invalid syntax")
  {
    hide Handle, Respond;
    MailFromLine(s, fs, i, pre);
    OneSpace(pre, "");
    NoWord(" " + pre);
    OkReply();
  }

  /** After HELO: a sender `user@d` is accepted exactly when `d` is the greeted
      domain, and is the sender from then on in either case. */
  lemma {:induction false} MailFromCommand(
    s: Session, fs: Files, i: Input, pre: string, user: string, d: string, post: string)
    requires IsLine(i, "MAIL FROM: " + (pre + (user + ("@" + d) + post))) && Spaces(pre) && Ends(post)
    requires IsWord(user + ("@" + d)) && '@' !in user && s.state >= 1
    ensures var from := user + ("@" + d);
      Handle(s, fs, i)
      == if |from| > 99 then Overlong(s, fs)
         else if d == s.domain then
           Outcome(Session(2, from, s.recipient, s.domain, s.open), fs, Text("200 OK"), MailParsed(from, true))
         else
           Outcome(Session(s.state, from, s.recipient, s.domain, s.open), fs,
             Text("400 " + "Sender domain does not match HELO domain, you may set the sender domain again with HELO"),
             MailParsed(from, false))
  {
    hide Handle, Respond, Word, AfterAt;
    var from := user + ("@" + d);
    MailFromLine(s, fs, i, pre + (from + post));
    OneSpace(pre, from + post);
    WordIs(" " + pre, from, post);
    AtIs(user, d);
    OkReply();
    DomainReply();
  }

  /** A sender without '@' is refused, and is the sender from then on. */
  lemma {:induction false} MailFromNobody(s: Session, fs: Files, i: Input, pre: string, from: string, post: string)
    requires IsLine(i, "MAIL FROM: " + (pre + (from + post))) && Spaces(pre) && Ends(post)
    requires IsWord(from) && '@' !in from && s.state >= 1
    ensures Handle(s, fs, i)
         == if |from| > 99 then Overlong(s, fs)
            else Outcome(Session(s.state, from, s.recipient, s.domain, s.open), fs,
                         Text("400 Invalid email format, missing @"), MailParsed(from, false))
  {
    hide Handle, Respond, Word, AfterAt;
    MailFromLine(s, fs, i, pre + (from + post));
    OneSpace(pre, from + post);
    WordIs(" " + pre, from, post);
    NoAt(from);
    NoAtReply();
  }

  // ---------- RCPT TO ----------

  lemma {:induction false} RcptToLine(s: Session, fs: Files, i: Input, args: string)
    requires IsLine(i, "RCPT TO: " + args)
    ensures Handle(s, fs, i) == RcptTo(s, fs, " " + args)
  {
    hide RcptTo, CutLine, StartsWith;
    var line := "RCPT TO: " + args;
    LineIs(i, line);
    Behind("RCPT TO: ", 8, args);
    OneSpace("", "");
    assert line[0] == 'R';
    Tags(line);
  }

  /** RCPT TO waits for an accepted MAIL FROM. */
  lemma {:induction false} RcptToTooSoon(s: Session, fs: Files, i: Input, args: string)
    requires IsLine(i, "RCPT TO: " + args) && s.state < 2
    ensures Handle(s, fs, i) == Only(s, fs, "403 Send MAIL FROM first")
  {
    hide Handle, Respond;
    RcptToLine(s, fs, i, args);
    OrderReplies();
  }

  lemma {:induction false} RcptToWithout(s: Session, fs: Files, i: Input, pre: string)
    requires IsLine(i, "RCPT TO: " + pre) && Spaces(pre) && s.state >= 2
    ensures Handle(s, fs, i) == Only(s, fs, "400 Invalid syntax")
  {
    hide Handle, Respond;
    RcptToLine(s, fs, i, pre);
    OneSpace(pre, "");
    NoWord(" " + pre);
    OkReply();
  }

  /** After an accepted MAIL FROM any word is a recipient. */
  lemma {:induction false} RcptToCommand(s: Session, fs: Files, i: Input, pre: string, to: string, post: string)
    requires IsLine(i, "RCPT TO: " + (pre + (to + post))) && Spaces(pre) && Ends(post)
    requires IsWord(to) && s.state >= 2
    ensures Handle(s, fs, i)
         == if |to| > 99 then Overlong(s, fs)
            else Outcome(Session(3, s.sender, to, s.domain, s.open), fs, Text("200 OK"), RecipientSet(to))
  {
    hide Handle, Respond, Word;
    RcptToLine(s, fs, i, pre + (to + post));
    OneSpace(pre, to + post);
    WordIs(" " + pre, to, post);
    OkReply();
  }

  // ---------- DATA ----------

  lemma {:induction false} DataLine(s: Session, fs: Files, i: Input, more: string)
    requires IsLine(i, "DATA" + more)
    ensures Handle(s, fs, i) == Data(s, fs, i)
  {
    hide Data, CutLine, StartsWith;
    var line := "DATA" + more;
    LineIs(i, line);
    Behind("DATA", 4, more);
    assert line[0] == 'D';
    Tags(line);
  }

  lemma {:induction false} DataTooSoon(s: Session, fs: Files, i: Input, more: string)
    requires IsLine(i, "DATA" + more) && s.state < 3
    ensures Handle(s, fs, i) == Only(s, fs, "403 Send RCPT TO first")
  {
    hide Handle, Respond, Message;
    DataLine(s, fs, i, more);
    DataReplies();
  }

  lemma {:induction false} WholeString(s: string, rest: string)
    requires NUL !in s && (rest == "" || rest[0] == NUL)
    ensures CString(s + rest) == s
  {
    if s == "" {
      assert s + rest == rest;
    } else {
      assert s == [s[0]] + s[1..] && (s + rest)[1..] == s[1..] + rest;
      WholeString(s[1..], rest);
    }
  }

  /** "DATA" on a line of its own: the rest of the buffer is the body, to its end
      or its first NUL. */
  lemma {:induction false} BodyIs(raw: string, stale: string, body: string, rest: string)
    requires raw == "DATA\n" + (body + rest) && NUL !in body && (rest == "" || rest[0] == NUL)
    ensures Message(raw, stale) == body
  {
    assert raw[..4] == "DATA" && raw[4] == '\n' && raw[5..] == body + rest;
    CutIs(raw, 4);
    WholeString(body, rest);
  }

  /** Text behind "DATA" on the same line: one character is skipped and the rest of
      the line is the body. */
  lemma {:induction false} BodyOnLine(i: Input, c: char, body: string)
    requires IsLine(i, "DATA" + ([c] + body))
    ensures Message(i.raw, i.stale) == body
  {
    LineIs(i, "DATA" + ([c] + body));
    assert ("DATA" + ([c] + body))[5..] == body;
  }

  /** The text a store appends to the recipient's file. */
  function Framed(m: Mail): string {
    "===START_EMAIL===\nFrom: " + m.sender + "\nDate: " + m.date + "\n" + m.body + "===END_EMAIL===\n\n"
  }

  lemma {:induction false} FramedIs(m: Mail)
    ensures Framed(m) == Frame(m)
  {
    assert "===START_EMAIL===\nFrom: " == "===START_EMAIL===" + "\n" + "From: ";
    assert "\nDate: " == "\n" + "Date: " && "===END_EMAIL===\n\n" == "===END_EMAIL===" + "\n" + "\n";
    assert Frame(m) == "===START_EMAIL===" + "\n" + "From: " + m.sender + ("\n" + "Date: ") + m.date + "\n" + m.body
                       + ("===END_EMAIL===" + "\n" + "\n");
  }

  /** After RCPT TO the mail is stored as it came, under the sender and recipient
      last named, or refused when the file cannot be opened; either way the
      session starts over. */
  lemma {:induction false} DataCommand(s: Session, fs: Files, i: Input, more: string, body: string)
    requires IsLine(i, "DATA" + more) && Message(i.raw, i.stale) == body && s.state >= 3
    ensures var after := Session(0, s.sender, s.recipient, s.domain, s.open);
      var m := Mail(s.sender, i.date, body);
      var old_ := if s.recipient in fs then fs[s.recipient] else "";
      Handle(s, fs, i)
      == if i.opens
         then Outcome(after, fs[s.recipient := old_ + Framed(m)], Text("200 Message stored successfully"),
                      Stored(s.recipient, m))
         else Outcome(after, fs, Text("500 Failed to store message"), Nothing)
  {
    hide Handle, Respond, Message, Frame, Framed;
    DataLine(s, fs, i, more);
    FramedIs(Mail(s.sender, i.date, body));
    DataReplies();
    StoredReply();
  }

  // ---------- LIST, GET_MAIL, QUIT ----------

  lemma {:induction false} QueryLine(s: Session, fs: Files, i: Input, line: string)
    requires IsLine(i, line) && line != "" && line[0] !in {'H', 'M', 'R', 'D'}
    ensures var reply := Answer(fs, line);
      var open := s.open && line != "QUIT" && reply != Undefined;
      Handle(s, fs, i) == Outcome(Session(s.state, s.sender, s.recipient, s.domain, open), fs, reply, Nothing)
  {
    hide CutLine, StartsWith, Answer;
    LineIs(i, line);
    Tags(line);
  }

  lemma {:induction false} ListLine(fs: Files, pre: string, box: string, post: string)
    requires Spaces(pre) && IsWord(box) && Ends(post)
    ensures Answer(fs, "LIST " + (pre + (box + post))) == if |box| <= 99 then ListReply(fs, box) else Undefined
  {
    hide Word, StartsWith, ListReply, Respond;
    var args := pre + (box + post);
    Behind("LIST ", 4, args);
    OneSpace(pre, box + post);
    WordIs(" " + pre, box, post);
  }

  lemma {:induction false} GetLine(fs: Files, pre: string, box: string, mid: string, k: int, post: string)
    requires Spaces(pre) && IsWord(box) && Spaces(mid) && mid != "" && Ends(post)
    ensures Answer(fs, "GET_MAIL " + (pre + (box + (mid + (Numeral(k) + post)))))
         == if |box| <= 99 then GetReply(fs, box, k) else Undefined
  {
    hide WordAndNumber, Token, SkipSpace, StartsWith, GetReply, Respond, Numeral;
    var rest := mid + (Numeral(k) + post);
    var line := "GET_MAIL " + (pre + (box + rest));
    Behind("GET_MAIL ", 8, pre + (box + rest));
    OneSpace(pre, box + rest);
    WordAndNumberIs(" " + pre, box, mid, k, post);
    assert line[0] == 'G';
    Tags(line);
  }

  lemma {:induction false} AnswerWithout(fs: Files, pre: string)
    requires Spaces(pre)
    ensures Answer(fs, "LIST " + pre) == Text("400 Invalid syntax") == Answer(fs, "GET_MAIL " + pre)
  {
    hide Word, StartsWith, Respond, Token, SkipSpace, WordAndNumber;
    Behind("LIST ", 4, pre);
    Behind("GET_MAIL ", 8, pre);
    OneSpace(pre, "");
    NoWord(" " + pre);
    NoWordNoNumber(" " + pre);
    assert ("GET_MAIL " + pre)[0] == 'G';
    Tags("GET_MAIL " + pre);
    OkReply();
  }

  lemma {:induction false} NoWordNoNumber(pre: string)
    requires Spaces(pre)
    ensures WordAndNumber(pre) == None && Token(SkipSpace(pre)) == ""
  {
    SkipSpaces(pre, "");
    assert pre + "" == pre;
  }

  /** A mailbox but no number. */
  lemma {:induction false} WordNoNumber(pre: string, w: string, post: string)
    requires Spaces(pre) && IsWord(w) && Spaces(post)
    ensures WordAndNumber(pre + (w + post)) == None && Token(SkipSpace(pre + (w + post))) == w
  {
    WordIs(pre, w, post);
    assert (w + post)[|w|..] == post;
    SkipSpaces(post, "");
    assert post + "" == post;
  }

  /** Requests that lack their words are refused and change nothing. */
  lemma {:induction false} QueryWithout(s: Session, fs: Files, i: Input, j: Input, pre: string)
    requires IsLine(i, "LIST " + pre) && IsLine(j, "GET_MAIL " + pre) && Spaces(pre)
    ensures Handle(s, fs, i) == Handle(s, fs, j) == Only(s, fs, "400 Invalid syntax")
  {
    hide Handle, Answer, IsLine;
    AnswerWithout(fs, pre);
    assert ("LIST " + pre)[0] == 'L' && ("GET_MAIL " + pre)[0] == 'G' && "QUIT"[0] == 'Q';
    QueryLine(s, fs, i, "LIST " + pre);
    QueryLine(s, fs, j, "GET_MAIL " + pre);
  }

  lemma {:induction false} GetMailWithoutNumber(s: Session, fs: Files, i: Input, pre: string, box: string, post: string)
    requires IsLine(i, "GET_MAIL " + (pre + (box + post))) && Spaces(pre) && IsWord(box) && Spaces(post)
    ensures Handle(s, fs, i) == if |box| <= 99 then Only(s, fs, "400 Invalid syntax") else Overlong(s, fs)
  {
    hide Handle, Respond, WordAndNumber, Token, SkipSpace, StartsWith, IsLine;
    var line := "GET_MAIL " + (pre + (box + post));
    Behind("GET_MAIL ", 8, pre + (box + post));
    OneSpace(pre, box + post);
    WordNoNumber(" " + pre, box, post);
    assert line[0] == 'G' && "QUIT"[0] == 'Q';
    Tags(line);
    QueryLine(s, fs, i, line);
    OkReply();
  }

  /** `fs` keeps the mails `ms` for `box`. */
  predicate Keeps(fs: Files, box: string, ms: seq<Mail>) {
    (forall m :: m in ms ==> Storable(m)) && Spells(fs, box, ms)
  }

  /** GET_MAIL, at any time in a session: without a mailbox nothing is there; with
      sound mails in it, the mail of that number is sent whole, or none is found;
      and mail `k` behind innocent ones is sent whole exactly when it is
      retrievable and fits. */
  lemma {:induction false} GetMailCommand(
    s: Session, fs: Files, i: Input, pre: string, box: string, mid: string, k: int, post: string, ms: seq<Mail>)
    requires IsLine(i, "GET_MAIL " + (pre + (box + (mid + (Numeral(k) + post)))))
    requires Spaces(pre) && IsWord(box) && Spaces(mid) && mid != "" && Ends(post)
    requires Keeps(fs, box, ms)
    ensures var o := Handle(s, fs, i);
      if |box| > 99 then o == Overlong(s, fs) else
      && o.files == fs && o.effect == Nothing && (o.reply != Undefined ==> o.session == s)
      && (ms == [] ==> o.reply == Text("401 Requested email does not exist"))
      && (ms != [] && (forall j :: 0 <= j < |ms| ==> Sound(ms[j])) ==>
            o.reply == if 1 <= k <= |ms| then WholeMail(ms[k - 1]) else Text("401 Email not found"))
      && (1 <= k <= |ms| && (forall j :: 0 <= j < k - 1 ==> Innocent(ms[j])) ==>
            (o.reply == WholeMail(ms[k - 1]) <==> Retrievable(ms[k - 1]) && Fits(Content(ms[k - 1]))))
  {
    hide Handle, Respond, GetAnswer, WholeMail, Storable, Innocent, Retrievable, Content, Numeral, Fits, File, IsLine;
    var line := "GET_MAIL " + (pre + (box + (mid + (Numeral(k) + post))));
    assert line[0] == 'G';
    QueryLine(s, fs, i, line);
    GetLine(fs, pre, box, mid, k, post);
    NoMailReply();
    assert line != "QUIT" by { assert "QUIT"[0] == 'Q'; }
    if forall j :: 0 <= j < |ms| ==> Sound(ms[j]) { SoundRoundTrips(ms); }
    if 1 <= k <= |ms| && (forall j :: 0 <= j < k - 1 ==> Innocent(ms[j])) { KthAnswer(ms, k); }
  }

  /** LIST, at any time in a session: without a mailbox nothing is there; otherwise
      the whole list is sent exactly when all bodies are innocent and it fits. */
  lemma {:induction false} ListCommand(
    s: Session, fs: Files, i: Input, pre: string, box: string, post: string, ms: seq<Mail>)
    requires IsLine(i, "LIST " + (pre + (box + post)))
    requires Spaces(pre) && IsWord(box) && Ends(post)
    requires Keeps(fs, box, ms)
    ensures var o := Handle(s, fs, i);
      if |box| > 99 then o == Overlong(s, fs) else
      && o.files == fs && o.effect == Nothing && (o.reply != Undefined ==> o.session == s)
      && (ms == [] ==> o.reply == Text("401 Requested email does not exist"))
      && (ms != [] ==>
            (o.reply == WholeList(ms) <==> (forall m :: m in ms ==> Innocent(m)) && Fits(Shown(ms))))
  {
    hide Handle, Respond, ListAnswer, WholeList, Storable, Innocent, Fits, File, Shown, IsLine;
    var line := "LIST " + (pre + (box + post));
    assert line[0] == 'L';
    QueryLine(s, fs, i, line);
    ListLine(fs, pre, box, post);
    NoMailReply();
    assert line != "QUIT" by { assert "QUIT"[0] == 'Q'; }
    if ms != [] { ListingAgrees(ms); }
  }

  /** QUIT ends the session. */
  lemma {:induction false} QuitCommand(s: Session, fs: Files, i: Input)
    requires IsLine(i, "QUIT")
    ensures Handle(s, fs, i)
         == Outcome(Session(s.state, s.sender, s.recipient, s.domain, false), fs, Text("200 Goodbye"), Nothing)
  {
    hide Handle, Respond, StartsWith;
    assert "QUIT"[0] == 'Q';
    QueryLine(s, fs, i, "QUIT");
    Tags("QUIT");
    QuitReplies();
  }

  /** Anything else is not understood and changes nothing. */
  lemma {:induction false} UnknownCommand(s: Session, fs: Files, i: Input, line: string)
    requires IsLine(i, line) && line != "QUIT"
    requires !("HELO " <= line) && !("MAIL FROM: " <= line) && !("RCPT TO: " <= line) && !("DATA" <= line)
    requires !("LIST " <= line) && !("GET_MAIL " <= line)
    ensures Handle(s, fs, i) == Only(s, fs, "400 Unknown command")
  {
    hide Respond, CutLine;
    LineIs(i, line);
    QuitReplies();
  }

  // ---------- a rejected MAIL FROM still names the sender ----------

  /** The buffer says `tag` and a word, spaced in any way, and perhaps more. */
  ghost predicate Says(i: Input, tag: string, w: string) {
    exists pre, post :: SaysWith(i, tag, pre, w, post)
  }

  predicate SaysWith(i: Input, tag: string, pre: string, w: string, post: string) {
    IsLine(i, tag + (pre + (w + post))) && Spaces(pre) && Ends(post)
  }

  lemma {:induction false} TalkMore(fs: Files, inputs: seq<Input>, i: Input)
    requires Talk(FRESH, fs, inputs).session.open
    ensures var t := Talk(FRESH, fs, inputs);
      var o := Handle(t.session, t.files, i);
      Talk(FRESH, fs, inputs + [i])
        == Trace(o.session, o.files, t.effects + [o.effect], t.replies + [o.reply])
  {
    assert (inputs + [i])[..|inputs|] == inputs;
  }

  /** A sender of the domain `d`, and one that is not. */
  predicate FromDomain(w: string, user: string, d: string) {
    IsArg(w) && '@' !in user && w == user + ("@" + d)
  }

  predicate Foreign(w: string, user: string, other: string, d: string) {
    IsArg(w) && '@' !in user && (w == user || (w == user + ("@" + other) && other != d))
  }

  lemma {:induction false} HeloSays(s: Session, fs: Files, i: Input, d: string)
    requires Says(i, "HELO ", d) && IsArg(d)
    ensures Handle(s, fs, i).session == Session(1, s.sender, s.recipient, d, s.open) && Handle(s, fs, i).files == fs
  {
    hide Handle, IsLine;
    var pre, post :| SaysWith(i, "HELO ", pre, d, post);
    HeloCommand(s, fs, i, pre, d, post);
  }

  lemma {:induction false} MailFromSays(s: Session, fs: Files, i: Input, w: string, user: string, d: string)
    requires Says(i, "MAIL FROM: ", w) && s.state >= 1
    requires FromDomain(w, user, d) || Foreign(w, user, d, s.domain)
    ensures Handle(s, fs, i).files == fs
    ensures Handle(s, fs, i).session
         == Session(if w == user + ("@" + d) && d == s.domain then 2 else s.state, w, s.recipient, s.domain, s.open)
  {
    hide Handle, IsLine;
    var pre, post :| SaysWith(i, "MAIL FROM: ", pre, w, post);
    if w == user + ("@" + d) {
      MailFromCommand(s, fs, i, pre, user, d, post);
    } else {
      MailFromNobody(s, fs, i, pre, w, post);
    }
  }

  lemma {:induction false} RcptToSays(s: Session, fs: Files, i: Input, to: string)
    requires Says(i, "RCPT TO: ", to) && IsArg(to) && s.state >= 2
    ensures Handle(s, fs, i).session == Session(3, s.sender, to, s.domain, s.open) && Handle(s, fs, i).files == fs
  {
    hide Handle, IsLine;
    var pre, post :| SaysWith(i, "RCPT TO: ", pre, to, post);
    RcptToCommand(s, fs, i, pre, to, post);
  }

  /** Whatever the domain `d` greeted with: after a proper MAIL FROM and RCPT TO,
      a second MAIL FROM with a foreign sender is refused, and the mail is
      nevertheless stored as coming from that sender. */
  lemma {:induction false} RefusedSenderIsStored(
    fs: Files, i1: Input, i2: Input, i3: Input, i4: Input, i5: Input,
    d: string, from: string, to: string, foreign: string, user: string, user2: string, other: string, more: string)
    requires IsArg(d) && IsArg(to) && FromDomain(from, user, d) && Foreign(foreign, user2, other, d)
    requires Says(i1, "HELO ", d) && Says(i2, "MAIL FROM: ", from) && Says(i3, "RCPT TO: ", to)
    requires Says(i4, "MAIL FROM: ", foreign) && IsLine(i5, "DATA" + more) && i5.opens
    ensures var t := Talk(FRESH, fs, [i1] + [i2] + [i3] + [i4]);
      Handle(t.session, t.files, i5).effect == Stored(to, Mail(foreign, i5.date, Message(i5.raw, i5.stale)))
  {
    hide Handle, IsLine, Says, FromDomain, Foreign, Message;
    assert [] + [i1] == [i1];
    TalkMore(fs, [], i1);
    HeloSays(FRESH, fs, i1, d);
    TalkMore(fs, [i1], i2);
    NotForeign(from, user, d);
    MailFromSays(Session(1, "", "", d, true), fs, i2, from, user, d);
    TalkMore(fs, [i1] + [i2], i3);
    RcptToSays(Session(2, from, "", d, true), fs, i3, to);
    TalkMore(fs, [i1] + [i2] + [i3], i4);
    NotOwn(foreign, user2, other, d);
    MailFromSays(Session(3, from, to, d, true), fs, i4, foreign, user2, other);
    DataCommand(Session(3, foreign, to, d, true), fs, i5, more, Message(i5.raw, i5.stale));
  }

  lemma {:induction false} NotForeign(w: string, user: string, d: string)
    requires FromDomain(w, user, d)
    ensures w == user + ("@" + d)
  {
  }

  lemma {:induction false} NotOwn(w: string, user: string, other: string, d: string)
    requires Foreign(w, user, other, d)
    ensures w == user + ("@" + other) ==> other != d
  {
    assert |user + ("@" + other)| > |user|;
  }
}
