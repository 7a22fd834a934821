/** The mail server with its files and per-client variables changed in place,
    and the line-scanning loops over a mailbox file. */
module MailServer {
  import opened Options
  import opened MailText
  import opened Mailbox
  import opened MailListing
  import opened MailAnswers
  import opened MailSession

  /** A file open for reading: its text and how much has been read. */
  class Reader {
    const text: string
    var pos: nat

    ghost predicate Valid()
      reads this
    {
      pos <= |text|
    }

    ghost function Unread(): seq<string>
      requires Valid()
      reads this
    {
      Lines(text[pos..])
    }

    constructor (text: string)
      ensures Valid() && pos == 0 && this.text == text && Unread() == Lines(text)
    {
      this.text := text;
      pos := 0;
      new;
      assert text[0..] == text;
    }

    /** `fgets(line, sizeof(line), file)`: at the end of the file `line` keeps
        its old value. */
    method Fgets(line: string) returns (got: string, ok: bool)
      requires Valid()
      modifies this
      ensures Valid() && pos >= old(pos)
      ensures ok == (old(Unread()) != []) && (ok ==> pos > old(pos))
      ensures got == Next(old(Unread()), line)
      ensures Unread() == Rest(old(Unread()))
    {
      if pos == |text| { return line, false; }
      got := Gets(text[pos..]);
      assert text[pos..][|got|..] == text[pos + |got|..];
      pos := pos + |got|;
      return got, true;
    }
  }

  /** The scan of `get_email`. */
  method FetchContent(file: string, id: int) returns (content: Fetched)
    ensures content == Collected(GetFrom(Lines(file), id, 0))
  {
    hide Collected;
    var reader := new Reader(file);
    var currentId := 0;
    var line, ok := reader.Fgets("");
    while ok
      invariant reader.Valid()
      invariant GetFrom(Lines(file), id, 0)
             == if ok then GetFrom([line] + reader.Unread(), id, currentId) else None
      decreases |reader.text| - reader.pos, ok
    {
      assert ([line] + reader.Unread())[1..] == reader.Unread();
      if StartsWith(line, START) {
        currentId := currentId + 1;
        if currentId == id {
          content := CollectContent(reader, line);
          return;
        }
      }
      ghost var ls := reader.Unread();
      line, ok := reader.Fgets(line);
      assert ok ==> ls == [line] + reader.Unread();
    }
    content := Missing;
    assert Collected(None) == Missing by { CollectedNone(); }
  }

  lemma {:induction false} CollectedNone()
    ensures Collected(None) == Missing
  {
  }

  /** From line, Date line, and the body up to the end marker, each added to
      `email_content`. */
  method CollectContent(reader: Reader, start: string) returns (content: Fetched)
    requires reader.Valid()
    modifies reader
    ensures content == Collected(Some(ContentOf(start, old(reader.Unread()))))
  {
    hide Lines;
    var from, _ := reader.Fgets(start);
    var date, _ := reader.Fgets(from);
    var emailContent := from + date;
    if |emailContent| > CONTENT_MAX { return Overrun; }
    content := CollectBody(reader, date, emailContent);
  }

  method CollectBody(reader: Reader, last: string, emailContent: string) returns (content: Fetched)
    requires reader.Valid() && |emailContent| <= CONTENT_MAX
    modifies reader
    ensures content == Collected(Some(emailContent + BodyOf(old(reader.Unread()))))
  {
    hide Lines;
    var text := emailContent;
    ghost var whole := emailContent + BodyOf(reader.Unread());
    var line, ok := reader.Fgets(last);
    assert ok ==> old(reader.Unread()) == [line] + reader.Unread();
    while ok && !StartsWith(line, END)
      invariant reader.Valid() && |text| <= CONTENT_MAX
      invariant whole == text + if ok then BodyOf([line] + reader.Unread()) else ""
      decreases |reader.text| - reader.pos, ok
    {
      ghost var ls := reader.Unread();
      BodyOfMore(text, line, ls);
      text := text + line;
      if |text| > CONTENT_MAX { return Overrun; }
      line, ok := reader.Fgets(line);
      assert ok ==> ls == [line] + reader.Unread();
    }
    assert whole == text;
    content := Found(text);
  }

  lemma {:induction false} BodyOfMore(text: string, line: string, ls: seq<string>)
    requires !StartsWith(line, END)
    ensures text + BodyOf([line] + ls) == text + line + BodyOf(ls)
  {
  }

  /** Listing under way: `done` items are printed in `list`, the rest is to come
      from the lines `ls`. */
  ghost predicate Between(all: seq<Item>, done: seq<Item>, list: string, ls: seq<string>) {
    && all == done + Items(ls)
    && list == Print(done, 1) && |list| <= CONTENT_MAX
    && forall i :: 0 <= i < |done| ==> Holds(done[i])
  }

  /** The same with `line` read already, if there was one. */
  ghost predicate Listing(all: seq<Item>, done: seq<Item>, list: string, ok: bool, line: string, ls: seq<string>) {
    Between(all, done, list, if ok then [line] + ls else [])
  }

  lemma {:induction false} ListingStarts(ls: seq<string>, ok: bool, line: string, rest: seq<string>)
    requires if ok then ls == [line] + rest else ls == []
    ensures Listing(Items(ls), [], "", ok, line, rest)
  {
  }

  /** A line that starts no mail. */
  lemma {:induction false} ListingSkips(all: seq<Item>, done: seq<Item>, list: string, line: string, ls: seq<string>)
    requires Listing(all, done, list, true, line, ls) && !StartsWith(line, START)
    ensures Between(all, done, list, ls)
  {
  }

  /** One entry printed: it goes on, or an array was too short for it. */
  lemma {:induction false} ListingPrints(all: seq<Item>, done: seq<Item>, list: string, line: string, ls: seq<string>)
    requires Listing(all, done, list, true, line, ls) && StartsWith(line, START)
    ensures var from := Next(ls, line);
      var item := Item(Scanned("From:", from), Scanned("Date:", Next(Rest(ls), from)));
      var list' := list + Entry(|done| + 1, item.from, item.date);
      if Holds(item) && |list'| <= CONTENT_MAX then Between(all, done + [item], list', Rest(Rest(ls)))
      else Listed(all) == Overrun
  {
    hide Entry, Scanned, Holds;
    assert ([line] + ls)[1..] == ls;
    var from := Next(ls, line);
    var item := Item(Scanned("From:", from), Scanned("Date:", Next(Rest(ls), from)));
    var rest := Items(Rest(Rest(ls)));
    assert all == done + [item] + rest;
    PrintJoin(done, [item], 1);
    PrintOne(item, |done| + 1);
    PrintJoin(done + [item], rest, 1);
    assert all[|done|] == item;
  }

  lemma {:induction false} PrintOne(item: Item, id: nat)
    ensures Print([item], id) == Entry(id, item.from, item.date)
  {
  }

  /** The next read, after the items of `ls` have been left to do. */
  lemma {:induction false} ListingReads(
    all: seq<Item>, done: seq<Item>, list: string, ls: seq<string>, ok: bool, line: string, rest: seq<string>)
    requires Between(all, done, list, ls) && (if ok then ls == [line] + rest else ls == [])
    ensures Listing(all, done, list, ok, line, rest)
  {
  }

  lemma {:induction false} ListingEnds(all: seq<Item>, done: seq<Item>, list: string, line: string, ls: seq<string>)
    requires Listing(all, done, list, false, line, ls)
    ensures Listed(all) == Found(list)
  {
    assert done + [] == done;
  }

  /** The scan of `list_emails`, each entry added to `email_list`. */
  method CollectList(file: string) returns (list: Fetched)
    ensures list == Listed(Items(Lines(file)))
  {
    var reader := new Reader(file);
    ghost var unread := reader.Unread();
    var emailList, id := "", 1;
    var line, ok := reader.Fgets("");
    hide Lines, Entry, Scanned, Items, Print, Listed, Holds, StartsWith, Between, Listing;
    ListingStarts(unread, ok, line, reader.Unread());
    ghost var all, done := Items(unread), [];
    while ok
      invariant reader.Valid() && id == |done| + 1
      invariant Listing(all, done, emailList, ok, line, reader.Unread())
      decreases |reader.text| - reader.pos, ok
    {
      unread := reader.Unread();
      if StartsWith(line, START) {
        ListingPrints(all, done, emailList, line, unread);
        var fromLine, _ := reader.Fgets(line);
        var from := Scanned("From:", fromLine);
        var dateLine, _ := reader.Fgets(fromLine);
        var date := Scanned("Date:", dateLine);
        emailList := emailList + Entry(id, from, date);
        if !Holds(Item(from, date)) || |emailList| > CONTENT_MAX { return Overrun; }
        done := done + [Item(from, date)];
        id := id + 1;
        line := dateLine;
        unread := reader.Unread();
      } else {
        ListingSkips(all, done, emailList, line, unread);
      }
      line, ok := reader.Fgets(line);
      ListingReads(all, done, emailList, unread, ok, line, reader.Unread());
    }
    ListingEnds(all, done, emailList, line, reader.Unread());
    list := Found(emailList);
  }

  class MailStore {
    var files: Files

    constructor ()
      ensures files == map[]
    {
      files := map[];
    }

    /** Opens the recipient's file for appending and prints the mail, piece by piece. */
    method StoreEmail(recipient: string, sender: string, message: string, date: string, opens: bool) returns (ok: bool)
      modifies this
      ensures ok == opens
      ensures files == if opens then Append(old(files), recipient, Mail(sender, date, message)) else old(files)
    {
      if !opens { return false; }
      var file := if recipient in files then files[recipient] else "";
      ghost var before := file;
      file := file + "===START_EMAIL===\n";
      file := file + ("From: " + sender + "\n");
      file := file + ("Date: " + date + "\n");
      file := file + message;
      file := file + "===END_EMAIL===\n\n";
      assert END_LINE + "\n" == "===END_EMAIL===\n\n";
      assert file == before + Frame(Mail(sender, date, message));
      files := files[recipient := file];
      return true;
    }

    method ListEmails(recipient: string) returns (reply: Reply)
      ensures reply == ListReply(files, recipient)
    {
      if recipient !in files { return Text(Respond("401", "Requested email does not exist")); }
      var list := CollectList(files[recipient]);
      if list.Missing? || list.Overrun? || list.text == "" { return Undefined; }
      return Text(Respond("200", "OK\n" + DropLast(list.text)));
    }

    method GetEmail(recipient: string, id: int) returns (reply: Reply)
      ensures reply == GetReply(files, recipient, id)
    {
      if recipient !in files { return Text(Respond("401", "Requested email does not exist")); }
      var content := FetchContent(files[recipient], id);
      if content.Missing? { return Text(Respond("401", "Email not found")); }
      if content.Overrun? { return Undefined; }
      return Text(Respond("200", "OK\n" + DropLast(content.text)));
    }
  }

  /** The variables of one `handle_client`. */
  class Client {
    const store: MailStore
    var state: int
    var sender: string
    var recipient: string
    var emailDomain: string
    var open: bool
    ghost var lastEffect: Effect

    ghost function View(): Session
      reads this
    {
      Session(state, sender, recipient, emailDomain, open)
    }

    constructor (store: MailStore)
      ensures View() == FRESH && this.store == store
    {
      this.store := store;
      state, sender, recipient, emailDomain, open := 0, "", "", "", true;
      lastEffect := Nothing;
    }

    ghost predicate Did(s: Session, fs: Files, o: Outcome, reply: Reply)
      reads this, store
    {
      Outcome(View(), store.files, reply, lastEffect) == o
    }

    /** A word was written beyond its array. */
    method Overran() returns (reply: Reply)
      modifies this
      ensures Did(old(View()), old(store.files), Broken(old(View()), old(store.files)), reply)
    {
      lastEffect := Nothing;
      open := false;
      return Undefined;
    }

    method DoHelo(args: string) returns (reply: Reply)
      modifies this
      ensures Did(old(View()), old(store.files), Helo(old(View()), old(store.files), args), reply)
    {
      lastEffect := Nothing;
      var domain := Word(args);
      if domain.None? { return Text(Respond("400", "Invalid syntax")); }
      if !FitsArg(domain.value) { reply := Overran(); return; }
      emailDomain := domain.value;
      reply := Text(Respond("200", "OK"));
      state := 1;
      lastEffect := Greeted(domain.value);
    }

    /** A parsed sender overwrites the variable before it is judged. */
    method DoMailFrom(args: string) returns (reply: Reply)
      modifies this
      ensures Did(old(View()), old(store.files), MailFrom(old(View()), old(store.files), args), reply)
    {
      hide Respond, AfterAt, Word;
      lastEffect := Nothing;
      if state < 1 { return Text(Respond("403", "Send HELO first")); }
      var from := Word(args);
      if from.None? { return Text(Respond("400", "Invalid syntax")); }
      if !FitsArg(from.value) { reply := Overran(); return; }
      sender := from.value;
      lastEffect := MailParsed(sender, false);
      var senderDomain := AfterAt(sender);
      if senderDomain.None? { return Text(Respond("400", "Invalid email format, missing @")); }
      if senderDomain.value != emailDomain {
        return Text(Respond("400", WRONG_DOMAIN));
      }
      state := 2;
      lastEffect := MailParsed(sender, true);
      return Text(Respond("200", "OK"));
    }

    method DoRcptTo(args: string) returns (reply: Reply)
      modifies this
      ensures Did(old(View()), old(store.files), RcptTo(old(View()), old(store.files), args), reply)
    {
      lastEffect := Nothing;
      if state < 2 { return Text(Respond("403", "Send MAIL FROM first")); }
      var to := Word(args);
      if to.None? { return Text(Respond("400", "Invalid syntax")); }
      if !FitsArg(to.value) { reply := Overran(); return; }
      recipient := to.value;
      state := 3;
      lastEffect := RecipientSet(recipient);
      return Text(Respond("200", "OK"));
    }

    method DoData(i: Input) returns (reply: Reply)
      modifies this, store
      ensures Did(old(View()), old(store.files), Data(old(View()), old(store.files), i), reply)
    {
      lastEffect := Nothing;
      if state < 3 { return Text(Respond("403", "Send RCPT TO first")); }
      var message := Message(i.raw, i.stale);
      var ok := store.StoreEmail(recipient, sender, message, i.date, i.opens);
      if ok {
        reply := Text(Respond("200", "Message stored successfully"));
        lastEffect := Stored(recipient, Mail(sender, i.date, message));
      } else {
        reply := Text(Respond("500", "Failed to store message"));
      }
      state := 0;
    }

    /** One received buffer. */
    method HandleInput(i: Input) returns (reply: Reply)
      modifies this, store
      ensures Did(old(View()), old(store.files), Handle(old(View()), old(store.files), i), reply)
    {
      var line := CutLine(i.raw);
      if StartsWith(line, "HELO ") {
        reply := DoHelo(line[4..]);
      } else if StartsWith(line, "MAIL FROM: ") {
        reply := DoMailFrom(line[10..]);
      } else if StartsWith(line, "RCPT TO: ") {
        reply := DoRcptTo(line[8..]);
      } else if StartsWith(line, "DATA") {
        reply := DoData(i);
      } else {
        reply := HandleQuery(line);
      }
    }

    /** The commands that store nothing. */
    method HandleQuery(line: string) returns (reply: Reply)
      modifies this
      ensures state == old(state) && sender == old(sender) && recipient == old(recipient)
      ensures emailDomain == old(emailDomain) && lastEffect == Nothing
      ensures reply == Answer(store.files, line)
      ensures open == (old(open) && line != "QUIT" && reply != Undefined)
    {
      lastEffect := Nothing;
      if StartsWith(line, "LIST ") {
        var box := Word(line[4..]);
        if box.None? { return Text(Respond("400", "Invalid syntax")); }
        if FitsArg(box.value) { reply := store.ListEmails(box.value); } else { reply := Undefined; }
      } else if StartsWith(line, "GET_MAIL ") {
        if FitsArg(Token(SkipSpace(line[8..]))) {
          var request := WordAndNumber(line[8..]);
          if request.None? { return Text(Respond("400", "Invalid syntax")); }
          reply := store.GetEmail(request.value.0, request.value.1);
        } else {
          reply := Undefined;
        }
      } else if line == "QUIT" {
        reply := Text(Respond("200", "Goodbye"));
        open := false;
      } else {
        reply := Text(Respond("400", "Unknown command"));
      }
      if reply == Undefined { open := false; }
    }

    /** The receive loop: one reply per buffer, until QUIT, an undefined reply
        or the end of the inputs. */
    method HandleClient(inputs: seq<Input>) returns (replies: seq<Reply>)
      requires View() == FRESH
      modifies this, store
      ensures View() == Talk(FRESH, old(store.files), inputs).session
      ensures store.files == Talk(FRESH, old(store.files), inputs).files
      ensures replies == Talk(FRESH, old(store.files), inputs).replies
    {
      replies := [];
      ghost var fs := store.files;
      var k := 0;
      while k < |inputs| && open
        invariant k <= |inputs|
        invariant var t := Talk(FRESH, fs, inputs[..k]);
          View() == t.session && store.files == t.files && replies == t.replies
      {
        assert inputs[..k + 1][..k] == inputs[..k];
        var reply := HandleInput(inputs[k]);
        replies := replies + [reply];
        k := k + 1;
      }
      TalkClosed(fs, inputs, k);
    }
  }

  /** Nothing is read once the session is closed. */
  lemma {:induction false} TalkClosed(fs: Files, inputs: seq<Input>, k: nat)
    requires k <= |inputs| && (k < |inputs| ==> !Talk(FRESH, fs, inputs[..k]).session.open)
    ensures Talk(FRESH, fs, inputs) == Talk(FRESH, fs, inputs[..k])
    decreases |inputs|
  {
    if k < |inputs| {
      var before := inputs[..|inputs| - 1];
      assert before[..k] == inputs[..k];
      TalkClosed(fs, before, k);
    } else {
      assert inputs[..k] == inputs;
    }
  }
}
