/** What a client gets for `GET_MAIL` and `LIST`: the text scanned from a file,
    through the arrays it is collected in and the reply buffer that cuts it. */
module MailAnswers {
  import opened Options
  import opened MailText
  import opened Mailbox
  import opened MailListing

  const REPLY_MAX := 4095

  /** The text sent, or the consequences of writing beyond an array. */
  datatype Reply = Text(text: string) | Undefined

  function Respond(code: string, message: string): string {
    var s := code + " " + message;
    if |s| > REPLY_MAX then s[..REPLY_MAX] else s
  }

  function GetAnswer(file: string, id: int): Reply {
    match Get(file, id)
    case Missing => Text(Respond("401", "Email not found"))
    case Overrun => Undefined
    case Found(content) => Text(Respond("200", "OK\n" + content))
  }

  function ListAnswer(file: string): Reply {
    match List(file)
    case Missing => Undefined
    case Overrun => Undefined
    case Found(list) => Text(Respond("200", "OK\n" + list))
  }

  // ---------- what the answers should be ----------

  const NOT_FOUND := Text("401 Email not found")

  function WholeMail(m: Mail): Reply {
    var text := "200 OK\nFrom: " + m.sender + "\nDate: " + m.date + "\n" + m.body;
    Text(text[..|text| - 1])
  }

  /** The list of the mails: number, sender and date of each, a line each. */
  function Shown(ms: seq<Mail>): string {
    if ms == [] then ""
    else
      var n := |ms| - 1;
      Shown(ms[..n]) + (Decimal(n + 1) + ": Email from " + ms[n].sender + " (" + ms[n].date + ")\n")
  }

  function WholeList(ms: seq<Mail>): Reply {
    var text := "200 OK\n" + Shown(ms);
    Text(text[..|text| - 1])
  }

  /** The collected text, one character less, fits the reply behind "200 OK\n". */
  predicate Fits(s: string) { |s| <= 4089 }

  lemma {:induction false} ButLast(head: string, s: string)
    requires s != ""
    ensures (head + s)[..|head + s| - 1] == head + DropLast(s)
  {
  }

  lemma {:induction false} WholeMailIs(m: Mail)
    ensures WholeMail(m) == Text("200 OK\n" + DropLast(Content(m)))
  {
    var text := "200 OK\nFrom: " + m.sender + "\nDate: " + m.date + "\n" + m.body;
    var content := "From: " + m.sender + "\nDate: " + m.date + "\n" + m.body;
    assert "200 OK\nFrom: " == "200 OK\n" + "From: ";
    assert text == "200 OK\n" + content;
    ContentIs(m);
    ButLast("200 OK\n", content);
  }

  lemma {:induction false} ContentIs(m: Mail)
    ensures Content(m) == "From: " + m.sender + "\nDate: " + m.date + "\n" + m.body
  {
    assert "\n" + "Date: " == "\nDate: ";
    assert Content(m) == "From: " + m.sender + ("\n" + "Date: ") + m.date + "\n" + m.body;
  }

  lemma {:induction false} ShownIs(ms: seq<Mail>)
    ensures Shown(ms) == Entries(ms)
  {
    if ms != [] {
      var n := |ms| - 1;
      ShownIs(ms[..n]);
      assert ItemsOf(ms) == ItemsOf(ms[..n]) + [Item(ms[n].sender, ms[n].date)];
      PrintJoin(ItemsOf(ms[..n]), [Item(ms[n].sender, ms[n].date)], 1);
      PrintLast(Item(ms[n].sender, ms[n].date), n + 1);
    }
  }

  lemma {:induction false} PrintLast(item: Item, id: nat)
    ensures Print([item], id) == Decimal(id) + ": Email from " + item.from + " (" + item.date + ")\n"
  {
    assert [item][1..] == [];
  }

  /** When a reply is the wanted text: nothing is cut, or exactly what follows it. */
  lemma {:induction false} RespondIs(x: string, y: string)
    requires x != "" && y != ""
    ensures Respond("200", "OK\n" + DropLast(x)) == "200 OK\n" + DropLast(y)
       <==> Fits(y) && (DropLast(x) == DropLast(y)
                        || (|y| == 4089 && |y| < |x| && x[..|y| - 1] == DropLast(y)))
  {
    var dx, dy, head := DropLast(x), DropLast(y), "200 OK\n";
    var s, r := "200" + " " + ("OK\n" + dx), Respond("200", "OK\n" + dx);
    assert s == head + dx;
    if |s| > REPLY_MAX {
      assert r == head + dx[..REPLY_MAX - 7];
      assert r[7..] == dx[..REPLY_MAX - 7] && (head + dy)[7..] == dy;
      assert |y| <= |x| ==> x[..|y| - 1] == dx[..|y| - 1];
    } else {
      assert r[7..] == dx && (head + dy)[7..] == dy;
    }
  }

  lemma {:induction false} NotFoundText()
    ensures Respond("401", "Email not found") == "401 Email not found"
  {
  }

  lemma {:induction false} FoundIsNotMissing(x: string)
    ensures Text(Respond("200", "OK\n" + x)) != NOT_FOUND
    ensures Respond("401", "Email not found") == "401 Email not found"
  {
    var r, s := Respond("200", "OK\n" + x), "200" + " " + ("OK\n" + x);
    assert |r| > 0 && r[0] == s[0] == '2' && NOT_FOUND.text[0] == '4';
    NotFoundText();
  }

  // ---------- one mail ----------

  lemma {:induction false} DropLastInjective(a: string, b: string)
    requires a != "" && b != "" && DropLast(a) == DropLast(b)
    ensures |a| == |b|
  {
  }

  /** Behind innocent bodies, a mail is answered whole exactly when its body is
      retrievable and its content fits the reply. */
  lemma {:induction false} KthAnswer(ms: seq<Mail>, k: nat)
    requires forall m :: m in ms ==> Storable(m)
    requires 1 <= k <= |ms| && forall i :: 0 <= i < k - 1 ==> Innocent(ms[i])
    ensures GetAnswer(File(ms), k) == WholeMail(ms[k - 1])
       <==> Retrievable(ms[k - 1]) && Fits(Content(ms[k - 1]))
  {
    var back, content := Back(ms, k), Content(ms[k - 1]);
    assert back != "" && content != "";
    hide Lines, File, FileLines, GetFrom, Innocent, Storable, Retrievable, Back, Content, Respond;
    hide WholeMail;
    GetKthOfFile(ms, k);
    BackIff(ms, k);
    WholeMailIs(ms[k - 1]);
    RespondIs(back, content);
    if |back| <= CONTENT_MAX && DropLast(back) == DropLast(content) { DropLastInjective(back, content); }
  }

  /** A body of 4066 characters is received and stored, and its mail is never
      answered whole. */
  lemma {:induction false} LongMailIsCut(m: Mail)
    requires m.sender == "a@b" && m.date == "01-01-2025" && |m.body| == 4066 && NUL !in m.body
    ensures Storable(m) && GetAnswer(File([m]), 1) != WholeMail(m)
  {
    hide GetAnswer, WholeMail, File, Innocent, Retrievable, Content;
    assert Storable(m);
    hide Storable;
    ContentIs(m);
    KthAnswer([m], 1);
  }

  // ---------- the mailbox round trip ----------

  ghost predicate RoundTrips(ms: seq<Mail>) {
    forall id: int :: GetAnswer(File(ms), id) == if 1 <= id <= |ms| then WholeMail(ms[id - 1]) else NOT_FOUND
  }

  predicate Sound(m: Mail) { Innocent(m) && Retrievable(m) && Fits(Content(m)) }

  lemma {:induction false} NotFoundOutside(ms: seq<Mail>, id: int)
    requires forall m :: m in ms ==> Storable(m)
    ensures GetAnswer(File(ms), id) == NOT_FOUND <==> !(1 <= id <= Starts(FileLines(ms)))
  {
    hide Lines, File, FileLines, GetFrom, Starts, Storable, Respond;
    GetOutside(ms, id);
    var g := Get(File(ms), id);
    FoundIsNotMissing(if g.Found? then g.text else "");
  }

  lemma {:induction false} SoundRoundTrips(ms: seq<Mail>)
    requires forall m :: m in ms ==> Storable(m)
    requires forall i :: 0 <= i < |ms| ==> Sound(ms[i])
    ensures RoundTrips(ms)
  {
    hide Lines, File, FileLines, GetAnswer, Starts, Storable, Innocent, Retrievable, Content, WholeMail;
    FileStarts(ms);
    forall id: int
      ensures GetAnswer(File(ms), id) == if 1 <= id <= |ms| then WholeMail(ms[id - 1]) else NOT_FOUND
    {
      NotFoundOutside(ms, id);
      if 1 <= id <= |ms| { KthAnswer(ms, id); }
    }
  }

  lemma {:induction false} RoundTripsSound(ms: seq<Mail>)
    requires (forall m :: m in ms ==> Storable(m)) && RoundTrips(ms)
    ensures forall i :: 0 <= i < |ms| ==> Sound(ms[i])
  {
    hide Lines, File, FileLines, GetAnswer, Starts, Storable, Innocent, Retrievable, Content, WholeMail;
    FileStarts(ms);
    NotFoundOutside(ms, |ms| + 1);
    assert GetAnswer(File(ms), |ms| + 1) == NOT_FOUND;
    forall i | 0 <= i < |ms| ensures Sound(ms[i]) {
      assert GetAnswer(File(ms), i + 1) == WholeMail(ms[i]);
      KthAnswer(ms, i + 1);
    }
  }

  /** Every stored mail is answered whole under its number, less its last
      character, and "not found" under every other, if and only if every body is
      innocent and retrievable and every content fits the reply. */
  lemma {:induction false} MailboxRoundTrip(ms: seq<Mail>)
    requires forall m :: m in ms ==> Storable(m)
    ensures RoundTrips(ms)
       <==> forall i :: 0 <= i < |ms| ==> Innocent(ms[i]) && Retrievable(ms[i]) && Fits(Content(ms[i]))
  {
    hide RoundTrips, Storable, Innocent, Retrievable, Content, Fits;
    if RoundTrips(ms) { RoundTripsSound(ms); }
    if forall i :: 0 <= i < |ms| ==> Sound(ms[i]) { SoundRoundTrips(ms); }
  }

  /** Appending mails, of whatever kind, leaves a mail that is answered whole
      under its number. */
  lemma {:induction false} NumberIsStable(ms: seq<Mail>, more: seq<Mail>, k: nat)
    requires forall m :: m in ms + more ==> Storable(m)
    requires 1 <= k <= |ms| && (forall i :: 0 <= i < k - 1 ==> Innocent(ms[i]))
    ensures GetAnswer(File(ms + more), k) == WholeMail(ms[k - 1])
       <==> GetAnswer(File(ms), k) == WholeMail(ms[k - 1])
    ensures GetAnswer(File(ms), k) == WholeMail(ms[k - 1])
       <==> Retrievable(ms[k - 1]) && Fits(Content(ms[k - 1]))
  {
    assert forall m :: m in ms ==> m in ms + more;
    KthAnswer(ms, k);
    KthAnswer(ms + more, k);
  }

  // ---------- the listing ----------

  lemma {:induction false} ItemsOfWords(ms: seq<Mail>)
    requires forall m :: m in ms ==> Storable(m)
    ensures Words(ItemsOf(ms)) && Named(ItemsOf(ms)) && forall i :: 0 <= i < |ms| ==> Holds(ItemsOf(ms)[i])
  {
    forall i | 0 <= i < |ms|
      ensures Spaceless(ms[i].sender) && Spaceless(ms[i].date) && ms[i].sender != "" && Holds(ItemsOf(ms)[i])
    {
      assert ms[i] in ms;
    }
  }

  lemma {:induction false} WholeListIs(ms: seq<Mail>)
    requires ms != []
    ensures Shown(ms) == Entries(ms) && WholeList(ms) == Text("200 OK\n" + DropLast(Entries(ms)))
  {
    ShownIs(ms);
    ButLast("200 OK\n", Shown(ms));
  }

  lemma {:induction false} ListedIs(items: seq<Item>)
    requires |Print(items, 1)| <= CONTENT_MAX && forall i :: 0 <= i < |items| ==> Holds(items[i])
    ensures Listed(items) == Found(Print(items, 1))
  {
  }

  lemma {:induction false} WholeListed(ms: seq<Mail>)
    requires ms != [] && forall m :: m in ms ==> Storable(m) && Innocent(m)
    requires Fits(Shown(ms))
    ensures ListAnswer(File(ms)) == WholeList(ms)
  {
    hide Lines, File, FileLines, Items, Storable, Innocent, Respond, Holds, Shown, WholeList, Print, Listed, DropLast;
    WholeListIs(ms);
    LinesOfFile(ms);
    ItemsFile(ms);
    ItemsOfWords(ms);
    PrintLong(ItemsOf(ms), 1);
    ListedIs(ItemsOf(ms));
    assert List(File(ms)) == Found(DropLast(Entries(ms)));
    RespondIs(Entries(ms), Entries(ms));
  }

  lemma {:induction false} AgreeOnReply(x: string, y: string)
    requires x != "" && y != "" && |x| <= CONTENT_MAX
    requires Respond("200", "OK\n" + DropLast(x)) == "200 OK\n" + DropLast(y)
    ensures Fits(y) && Agree(x, y)
  {
    RespondIs(x, y);
    assert DropLast(x) == DropLast(y) ==> x[..|x| - 1] == y[..|y| - 1];
  }

  lemma {:induction false} ListedWhole(ms: seq<Mail>)
    requires ms != [] && forall m :: m in ms ==> Storable(m)
    requires ListAnswer(File(ms)) == WholeList(ms)
    ensures Fits(Shown(ms)) && forall m :: m in ms ==> Innocent(m)
  {
    WholeListIs(ms);
    hide Lines, File, FileLines, Items, Storable, Innocent, Respond, Holds, Print, Fits, Agree, Shown, WholeList;
    LinesOfFile(ms);
    ItemsOfWords(ms);
    PrintLong(ItemsOf(ms), 1);
    var items := Items(FileLines(ms));
    ItemsAreWords(FileLines(ms));
    AgreeOnReply(Print(items, 1), Entries(ms));
    SameCount(items, ItemsOf(ms), 1);
    CountItems(ms);
  }

  /** The list shown is that of the stored mails, numbers 1 to n in order with
      their senders and dates, if and only if every body is innocent and the list
      fits the reply; the numbers that can be fetched are 1 to n if and only if
      every body is innocent. */
  lemma {:induction false} ListingAgrees(ms: seq<Mail>)
    requires ms != [] && forall m :: m in ms ==> Storable(m)
    ensures ListAnswer(File(ms)) == WholeList(ms) <==> (forall m :: m in ms ==> Innocent(m)) && Fits(Shown(ms))
    ensures (forall m :: m in ms ==> Innocent(m))
       <==> forall id: int :: GetAnswer(File(ms), id) != NOT_FOUND <==> 1 <= id <= |ms|
  {
    hide Lines, FileLines, GetAnswer, ListAnswer, Starts, File, Shown, Innocent, Storable, Fits, WholeList;
    if ListAnswer(File(ms)) == WholeList(ms) { ListedWhole(ms); }
    if (forall m :: m in ms ==> Innocent(m)) && Fits(Shown(ms)) { WholeListed(ms); }
    FileStarts(ms);
    NotFoundOutside(ms, |ms| + 1);
    forall id: int ensures GetAnswer(File(ms), id) != NOT_FOUND <==> 1 <= id <= Starts(FileLines(ms)) {
      NotFoundOutside(ms, id);
    }
  }
}
