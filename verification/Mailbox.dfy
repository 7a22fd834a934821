/** The mailbox file: framed text appended by `store_email` and read back, line
    by line, by `get_email` and `list_emails`. */
module Mailbox {
  import opened Options
  import opened MailText

  const START := "===START_EMAIL==="
  const END := "===END_EMAIL==="
  const BODY_MAX := 4090 // a received buffer of 4095 bytes less "DATA\n"
  const ARG_MAX := 99 // what an array of 100 bytes holds
  const DATE_MAX := 19
  const CONTENT_MAX := 4095 // what `email_content` and `email_list` hold

  datatype Mail = Mail(sender: string, date: string, body: string)

  // ---------- printing ----------

  function FromLine(m: Mail): string { "From: " + m.sender + "\n" }

  function DateLine(m: Mail): string { "Date: " + m.date + "\n" }

  const START_LINE := START + "\n"
  const END_LINE := END + "\n"

  /** The body and the end marker, which the file does not keep apart. */
  function Tail(m: Mail): string { m.body + END_LINE }

  function Frame(m: Mail): string {
    START_LINE + FromLine(m) + DateLine(m) + Tail(m) + "\n"
  }

  function File(ms: seq<Mail>): string {
    if ms == [] then "" else File(ms[..|ms| - 1]) + Frame(ms[|ms| - 1])
  }

  /** A word scanned from a command into an array that holds it. */
  predicate IsArg(w: string) { IsWord(w) && |w| <= 99 && NUL !in w }

  /** What the server stores: the session keeps to this (`StoredIsStorable`). */
  predicate Storable(m: Mail) {
    && IsArg(m.sender)
    && IsWord(m.date) && |m.date| <= 19 && NUL !in m.date
    && |m.body| <= 4090 && NUL !in m.body
  }

  // ---------- reading ----------

  /** `fgets` into a variable that keeps its old value at the end of the file. */
  function Next(ls: seq<string>, old_: string): string { if ls == [] then old_ else ls[0] }

  function Rest(ls: seq<string>): seq<string> { if ls == [] then [] else ls[1..] }

  function BodyOf(ls: seq<string>): string {
    if ls == [] || StartsWith(ls[0], END) then "" else ls[0] + BodyOf(ls[1..])
  }

  /** The content `get_email` collects once it has read start line `line`. */
  function ContentOf(line: string, ls: seq<string>): string {
    var from := Next(ls, line);
    var date := Next(Rest(ls), from);
    from + date + BodyOf(Rest(Rest(ls)))
  }

  /** `get_email` on the lines of the file, `current` start lines having passed. */
  function GetFrom(ls: seq<string>, id: int, current: nat): Option<string> {
    if ls == [] then None
    else if !StartsWith(ls[0], START) then GetFrom(ls[1..], id, current)
    else if current + 1 == id then Some(ContentOf(ls[0], ls[1..]))
    else GetFrom(ls[1..], id, current + 1)
  }

  /** What a scan of a file yields; `Overrun` is text written beyond the end of
      its array, after which C promises nothing. */
  datatype Fetched = Missing | Found(text: string) | Overrun

  /** Text collected in `email_content`, which may not hold it. */
  function Collected(content: Option<string>): Fetched {
    if content.None? then Missing
    else if |content.value| > CONTENT_MAX then Overrun
    else Found(content.value)
  }

  /** The content `get_email` sends: all it collected but the last character. */
  function Get(file: string, id: int): Fetched {
    var c := Collected(GetFrom(Lines(file), id, 0));
    if c.Found? then Found(DropLast(c.text)) else c
  }

  function DropLast(s: string): string { if s == "" then "" else s[..|s| - 1] }

  function Scanned(tag: string, line: string): string {
    if StartsWith(line, tag) then Word(line[|tag|..]).GetOr("") else ""
  }

  function Entry(id: nat, from: string, date: string): string {
    Decimal(id) + ": Email from " + from + " (" + date + ")\n"
  }

  datatype Item = Item(from: string, date: string)

  /** What `list_emails` scans from the lines of the file, one item a start line
      it stops at; the two lines after that one are not looked at again. */
  function Items(ls: seq<string>): seq<Item>
    decreases |ls|
  {
    if ls == [] then []
    else if !StartsWith(ls[0], START) then Items(ls[1..])
    else
      var from := Next(ls[1..], ls[0]);
      var date := Next(Rest(ls[1..]), from);
      [Item(Scanned("From:", from), Scanned("Date:", date))] + Items(Rest(Rest(ls[1..])))
  }

  function Print(items: seq<Item>, id: nat): string {
    if items == [] then "" else Entry(id, items[0].from, items[0].date) + Print(items[1..], id + 1)
  }

  predicate Holds(item: Item) { |item.from| <= ARG_MAX && |item.date| <= DATE_MAX }

  /** The items printed into `email_list`. With items of these lengths an entry
      never fills its own buffer of 200 bytes. */
  function Listed(items: seq<Item>): Fetched {
    if |Print(items, 1)| > CONTENT_MAX || exists i :: 0 <= i < |items| && !Holds(items[i]) then Overrun
    else Found(Print(items, 1))
  }

  /** The list `list_emails` sends: all but the last character, which an empty
      list does not have. */
  function List(file: string): Fetched {
    var l := Listed(Items(Lines(file)));
    if l.Found? && l.text == "" then Overrun
    else if l.Found? then Found(DropLast(l.text))
    else l
  }

  // ---------- when a body survives ----------

  /** No line of the body, nor its last line run together with the end marker,
      looks like a start marker. */
  predicate Innocent(m: Mail) {
    forall i :: 0 <= i < |Lines(Tail(m))| ==> !StartsWith(Lines(Tail(m))[i], START)
  }

  /** The body ends its last line, and none of its lines looks like an end marker. */
  predicate Retrievable(m: Mail) {
    Closed(m.body) && forall i :: 0 <= i < |Lines(m.body)| ==> !StartsWith(Lines(m.body)[i], END)
  }

  function Content(m: Mail): string { FromLine(m) + DateLine(m) + m.body }

  // ---------- the lines of a file ----------

  function FrameLines(m: Mail): seq<string> {
    [START_LINE] + [FromLine(m)] + [DateLine(m)] + Lines(Tail(m)) + ["\n"]
  }

  function Flat(fs: seq<seq<string>>): seq<string> {
    if fs == [] then [] else Flat(fs[..|fs| - 1]) + fs[|fs| - 1]
  }

  function Frames(ms: seq<Mail>): seq<seq<string>> {
    seq(|ms|, i requires 0 <= i < |ms| => FrameLines(ms[i]))
  }

  function FileLines(ms: seq<Mail>): seq<string> { Flat(Frames(ms)) }

  lemma {:induction false} FlatJoin(a: seq<seq<string>>, b: seq<seq<string>>)
    ensures Flat(a + b) == Flat(a) + Flat(b)
  {
    if b == [] {
      assert a + b == a;
    } else {
      assert (a + b)[..|a + b| - 1] == a + b[..|b| - 1];
      FlatJoin(a, b[..|b| - 1]);
    }
  }

  lemma {:induction false} FileLinesJoin(a: seq<Mail>, b: seq<Mail>)
    ensures FileLines(a + b) == FileLines(a) + FileLines(b)
  {
    assert Frames(a + b) == Frames(a) + Frames(b);
    FlatJoin(Frames(a), Frames(b));
  }

  lemma {:induction false} FileLinesLast(ms: seq<Mail>)
    requires ms != []
    ensures FileLines(ms) == FileLines(ms[..|ms| - 1]) + FrameLines(ms[|ms| - 1])
  {
    assert Frames(ms)[..|ms| - 1] == Frames(ms[..|ms| - 1]);
  }

  lemma {:induction false} FileLinesNone()
    ensures FileLines([]) == []
  {
  }

  lemma {:induction false} FileLinesOne(m: Mail)
    ensures FileLines([m]) == FrameLines(m)
  {
    assert Frames([m])[..0] == [] && Frames([m])[0] == FrameLines(m);
    assert Flat([]) + FrameLines(m) == FrameLines(m);
  }

  lemma {:induction false} HeaderLine(tag: string, w: string)
    requires IsWord(w) && '\n' !in tag && |tag| + |w| < LINE_MAX
    ensures Closed(tag + w + "\n") && Lines(tag + w + "\n") == [tag + w + "\n"]
  {
    var l := tag + w + "\n";
    forall i | 0 <= i < |l| - 1 ensures l[i] != '\n' {
      if i < |tag| {
        assert l[i] == tag[i] && tag[i] in tag;
      } else {
        assert l[i] == w[i - |tag|] && w[i - |tag|] in w;
      }
    }
    OneLine(l);
  }

  lemma {:induction false} MarkerLines()
    ensures Lines(START_LINE) == [START_LINE] && Lines(END_LINE) == [END_LINE] && Lines("\n") == ["\n"]
  {
    OneLine(START_LINE);
    OneLine(END_LINE);
    OneLine("\n");
  }

  lemma {:induction false} LinesOfFrame(m: Mail)
    requires Storable(m)
    ensures Closed(Frame(m)) && Lines(Frame(m)) == FrameLines(m)
  {
    HeaderLine("From: ", m.sender);
    HeaderLine("Date: ", m.date);
    MarkerLines();
    LinesOfFive(START_LINE, FromLine(m), DateLine(m), Tail(m), "\n");
  }

  lemma {:induction false} LinesOfFile(ms: seq<Mail>)
    requires forall m :: m in ms ==> Storable(m)
    ensures Closed(File(ms)) && Lines(File(ms)) == FileLines(ms)
  {
    if ms != [] {
      var front, last := ms[..|ms| - 1], ms[|ms| - 1];
      LinesOfFile(front);
      LinesOfFrame(last);
      LinesAppend(File(front), Frame(last));
      ClosedJoin(File(front), Frame(last));
      FileLinesLast(ms);
    }
  }

  // ---------- counting start lines ----------

  function Starts(ls: seq<string>): nat {
    if ls == [] then 0 else (if StartsWith(ls[0], START) then 1 else 0) + Starts(ls[1..])
  }

  lemma {:induction false} StartsAppend(a: seq<string>, b: seq<string>)
    ensures Starts(a + b) == Starts(a) + Starts(b)
  {
    if a == [] {
      assert a + b == b;
    } else {
      assert (a + b)[1..] == a[1..] + b;
      StartsAppend(a[1..], b);
    }
  }

  /** Mail `id` is found exactly when the file has that many start lines. */
  lemma {:induction false} FoundIffCounted(ls: seq<string>, id: int, current: nat)
    ensures GetFrom(ls, id, current).Some? <==> current < id <= current + Starts(ls)
  {
    if ls != [] {
      FoundIffCounted(ls[1..], id, if StartsWith(ls[0], START) then current + 1 else current);
    }
  }

  lemma {:induction false} NoStarts(ls: seq<string>)
    ensures Starts(ls) == 0 <==> forall i :: 0 <= i < |ls| ==> !StartsWith(ls[i], START)
  {
    if ls != [] {
      NoStarts(ls[1..]);
      assert Starts(ls) == 0 ==> forall i :: 0 <= i < |ls| ==> i == 0 || ls[i] == ls[1..][i - 1];
      if forall i :: 0 <= i < |ls| ==> !StartsWith(ls[i], START) {
        assert forall i :: 0 <= i < |ls[1..]| ==> ls[1..][i] == ls[i + 1];
      }
    }
  }

  lemma {:induction false} Marked()
    ensures StartsWith(START_LINE, START) && StartsWith(END_LINE, END)
    ensures !StartsWith(END_LINE, START) && !StartsWith("\n", START)
  {
  }

  lemma {:induction false} HeadersUnmarked(m: Mail)
    ensures !StartsWith(FromLine(m), START) && !StartsWith(DateLine(m), START)
  {
    assert FromLine(m)[0] == 'F' && DateLine(m)[0] == 'D' && START[0] == '=';
  }

  lemma {:induction false} StartsOfOne(l: string)
    ensures Starts([l]) == if StartsWith(l, START) then 1 else 0
  {
  }

  lemma {:induction false} FrameStarts(m: Mail)
    ensures Starts(FrameLines(m)) == 1 + Starts(Lines(Tail(m)))
    ensures Innocent(m) <==> Starts(FrameLines(m)) == 1
  {
    Marked();
    HeadersUnmarked(m);
    var f, d, t := FromLine(m), DateLine(m), Lines(Tail(m));
    StartsOfOne(START_LINE);
    StartsOfOne(f);
    StartsOfOne(d);
    StartsOfOne("\n");
    StartsAppend([START_LINE], [f]);
    StartsAppend([START_LINE] + [f], [d]);
    StartsAppend([START_LINE] + [f] + [d], t);
    StartsAppend([START_LINE] + [f] + [d] + t, ["\n"]);
    NoStarts(t);
  }

  lemma {:induction false} FileStarts(ms: seq<Mail>)
    ensures Starts(FileLines(ms)) >= |ms|
    ensures Starts(FileLines(ms)) == |ms| <==> forall m :: m in ms ==> Innocent(m)
  {
    hide Lines, FrameLines, FileLines, Innocent, StartsWith;
    if ms == [] {
      FileLinesNone();
    } else {
      var front, last := ms[..|ms| - 1], ms[|ms| - 1];
      FileStarts(front);
      FileLinesLast(ms);
      StartsAppend(FileLines(front), FrameLines(last));
      FrameStarts(last);
      assert ms == front + [last];
    }
  }

  // ---------- reading back one mail ----------

  lemma {:induction false} GetSkips(a: seq<string>, b: seq<string>, id: int, current: nat)
    requires !(current < id <= current + Starts(a))
    ensures GetFrom(a + b, id, current) == GetFrom(b, id, current + Starts(a))
  {
    if a == [] {
      assert a + b == b;
    } else {
      assert (a + b)[1..] == a[1..] + b;
      GetSkips(a[1..], b, id, if StartsWith(a[0], START) then current + 1 else current);
    }
  }

  /** The body as read back when `after` follows the mail's own lines. */
  function ReadBack(m: Mail, after: seq<string>): string { BodyOf(Lines(Tail(m)) + after) }

  lemma {:induction false} FrameThen(m: Mail, rest: seq<string>)
    ensures FrameLines(m) + rest
         == [START_LINE] + ([FromLine(m)] + ([DateLine(m)] + (Lines(Tail(m)) + (["\n"] + rest))))
  {
  }

  lemma {:induction false} GetAtFrame(m: Mail, rest: seq<string>, current: nat)
    ensures GetFrom(FrameLines(m) + rest, current + 1, current)
         == Some(FromLine(m) + DateLine(m) + ReadBack(m, ["\n"] + rest))
  {
    FrameThen(m, rest);
    Marked();
    var ls := Lines(Tail(m)) + (["\n"] + rest);
    var l1 := [DateLine(m)] + ls;
    var l2 := [FromLine(m)] + l1;
    assert l1[1..] == ls && l2[1..] == l1;
    assert ContentOf(START_LINE, l2) == FromLine(m) + DateLine(m) + BodyOf(ls);
    assert ([START_LINE] + l2)[1..] == l2;
  }

  /** With well-behaved mails before it, the k-th request finds the k-th mail. */
  lemma {:induction false} GetKth(ms: seq<Mail>, k: nat)
    requires 1 <= k <= |ms| && forall i :: 0 <= i < k - 1 ==> Innocent(ms[i])
    ensures GetFrom(FileLines(ms), k, 0)
         == Some(FromLine(ms[k - 1]) + DateLine(ms[k - 1])
                 + ReadBack(ms[k - 1], ["\n"] + FileLines(ms[k..])))
  {
    var front, m, back := ms[..k - 1], ms[k - 1], ms[k..];
    assert ms == front + ([m] + back);
    FileLinesJoin(front, [m] + back);
    FileLinesJoin([m], back);
    FileLinesOne(m);
    FileStarts(front);
    GetSkips(FileLines(front), FrameLines(m) + FileLines(back), k, 0);
    GetAtFrame(m, FileLines(back), k - 1);
  }

  lemma {:induction false} BodyOfPrefix(ls: seq<string>)
    ensures BodyOf(ls) <= Join(ls)
  {
    if ls != [] { BodyOfPrefix(ls[1..]); }
  }

  lemma {:induction false} BodyOfStops(a: seq<string>, b: seq<string>)
    requires forall i :: 0 <= i < |a| ==> !StartsWith(a[i], END)
    requires b != [] && StartsWith(b[0], END)
    ensures BodyOf(a + b) == Join(a)
  {
    if a == [] {
      assert a + b == b;
    } else {
      assert (a + b)[1..] == a[1..] + b;
      BodyOfStops(a[1..], b);
    }
  }

  lemma {:induction false} BodyOfStopsEarly(ls: seq<string>, i: nat)
    requires i < |ls| && StartsWith(ls[i], END)
    ensures |BodyOf(ls)| < |Join(ls)|
  {
    if !StartsWith(ls[0], END) { BodyOfStopsEarly(ls[1..], i - 1); }
  }

  lemma {:induction false} BodyOfWithin(a: seq<string>, b: seq<string>, i: nat)
    requires i < |a| && StartsWith(a[i], END)
    ensures BodyOf(a + b) == BodyOf(a)
  {
    assert (a + b)[1..] == a[1..] + b;
    if !StartsWith(a[0], END) { BodyOfWithin(a[1..], b, i - 1); }
  }

  /** What is read ends a line, or a read filled its buffer. */
  lemma {:induction false} BodyOfShape(ls: seq<string>)
    requires forall i :: 0 <= i < |ls| ==> ls[i] != "" && (Closed(ls[i]) || |ls[i]| == LINE_MAX)
    ensures Closed(BodyOf(ls)) || |BodyOf(ls)| >= LINE_MAX
  {
    if ls != [] && !StartsWith(ls[0], END) {
      assert forall i :: 0 <= i < |ls[1..]| ==> ls[1..][i] == ls[i + 1];
      BodyOfShape(ls[1..]);
      var b := BodyOf(ls[1..]);
      if b != "" { assert (ls[0] + b)[|ls[0] + b| - 1] == b[|b| - 1]; }
    }
  }

  /** A body that ends its last line: an inner end marker cuts it short. */
  lemma {:induction false} ReadBackClosed(m: Mail, after: string)
    requires Closed(m.body)
    ensures ReadBack(m, Lines(after)) == m.body <==> Retrievable(m)
    ensures |ReadBack(m, Lines(after))| >= |m.body| ==> ReadBack(m, Lines(after)) == m.body
  {
    hide Lines, BodyOf, Join;
    var ls, more := Lines(m.body), [END_LINE] + Lines(after);
    LinesAppend(m.body, END_LINE);
    MarkerLines();
    Marked();
    LinesJoin(m.body);
    assert Lines(Tail(m)) + Lines(after) == ls + more;
    if Retrievable(m) {
      BodyOfStops(ls, more);
    } else {
      var i :| 0 <= i < |ls| && StartsWith(ls[i], END);
      BodyOfStopsEarly(ls, i);
      BodyOfWithin(ls, more, i);
    }
  }

  /** What is read back ends a line, or a read of it filled the line buffer. */
  lemma {:induction false} ReadBackShape(m: Mail, after: string)
    requires Closed(after)
    ensures Closed(ReadBack(m, Lines(after))) || |ReadBack(m, Lines(after))| >= LINE_MAX
  {
    assert Closed(Tail(m)) by { ClosedEnd(m.body); }
    LinesAppend(Tail(m), after);
    ClosedJoin(Tail(m), after);
    var ls := Lines(Tail(m)) + Lines(after);
    forall i | 0 <= i < |ls| ensures ls[i] != "" && (Closed(ls[i]) || |ls[i]| == LINE_MAX) {
      LinesShape(Tail(m) + after, i);
    }
    BodyOfShape(ls);
  }

  lemma {:induction false} ClosedEnd(body: string)
    ensures Closed(body + END_LINE)
  {
  }

  /** What is read back starts like the text the body starts. */
  lemma {:induction false} ReadBackPrefix(m: Mail, after: string)
    ensures ReadBack(m, Lines(after)) <= m.body + (END_LINE + after)
  {
    hide Lines, BodyOf, Join;
    ClosedEnd(m.body);
    LinesAppend(Tail(m), after);
    LinesJoin(Tail(m) + after);
    BodyOfPrefix(Lines(Tail(m) + after));
    assert Tail(m) + after == m.body + (END_LINE + after);
  }

  /** A body is read back as it was stored exactly when it is retrievable; and
      nothing is read back that is a few characters longer and still fits. */
  lemma {:induction false} ReadBackIff(m: Mail, after: string)
    requires Storable(m) && Closed(after)
    ensures ReadBack(m, Lines(after)) == m.body <==> Retrievable(m)
    ensures |m.body| <= |ReadBack(m, Lines(after))| <= |m.body| + 6 && |ReadBack(m, Lines(after))| < LINE_MAX
            ==> ReadBack(m, Lines(after)) == m.body
  {
    hide ReadBack, Lines, Storable, Retrievable;
    var rb := ReadBack(m, Lines(after));
    ReadBackPrefix(m, after);
    ReadBackShape(m, after);
    if Closed(m.body) { ReadBackClosed(m, after); } else { NotRetrievable(m); BodyFits(m); }
    if |m.body| <= |rb| <= |m.body| + 6 {
      assert rb == (m.body + (END_LINE + after))[..|rb|];
      if |rb| == |m.body| { SamePrefix(rb, m.body, END_LINE + after); }
      else { assert rb[|rb| - 1] == END_LINE[|rb| - |m.body| - 1] != '\n'; }
    }
  }

  lemma {:induction false} BodyFits(m: Mail)
    requires Storable(m)
    ensures |m.body| < LINE_MAX
  {
  }

  lemma {:induction false} NotRetrievable(m: Mail)
    requires !Closed(m.body)
    ensures !Retrievable(m)
  {
  }

  lemma {:induction false} SamePrefix(a: string, b: string, c: string)
    requires a <= b + c && |a| == |b|
    ensures a == b
  {
  }

  // ---------- one request ----------

  lemma {:induction false} AfterLines(ms: seq<Mail>)
    requires forall m :: m in ms ==> Storable(m)
    ensures Closed("\n" + File(ms)) && Lines("\n" + File(ms)) == ["\n"] + FileLines(ms)
  {
    LinesOfFile(ms);
    MarkerLines();
    LinesAppend("\n", File(ms));
    ClosedJoin("\n", File(ms));
  }

  /** What is collected for mail `k` of the file. */
  function Back(ms: seq<Mail>, k: nat): string
    requires 1 <= k <= |ms|
  {
    FromLine(ms[k - 1]) + DateLine(ms[k - 1]) + ReadBack(ms[k - 1], Lines("\n" + File(ms[k..])))
  }

  lemma {:induction false} GetKthOfFile(ms: seq<Mail>, k: nat)
    requires forall m :: m in ms ==> Storable(m)
    requires 1 <= k <= |ms| && forall i :: 0 <= i < k - 1 ==> Innocent(ms[i])
    ensures GetFrom(Lines(File(ms)), k, 0) == Some(Back(ms, k))
  {
    hide Lines, File, FileLines, GetFrom, Innocent, Storable;
    LinesOfFile(ms);
    GetKth(ms, k);
    AfterLines(ms[k..]);
  }

  /** What is collected for mail `k` is its content exactly when its body is
      retrievable, also if it may be a few characters longer. */
  lemma {:induction false} BackIff(ms: seq<Mail>, k: nat)
    requires forall m :: m in ms ==> Storable(m)
    requires 1 <= k <= |ms|
    ensures Back(ms, k) == Content(ms[k - 1]) <==> Retrievable(ms[k - 1])
    ensures |Content(ms[k - 1])| <= |Back(ms, k)| <= |Content(ms[k - 1])| + 6 && |Back(ms, k)| <= CONTENT_MAX
            ==> Back(ms, k) == Content(ms[k - 1])
  {
    hide Lines, File, ReadBack, Retrievable, Storable;
    AfterLines(ms[k..]);
    ReadBackIff(ms[k - 1], "\n" + File(ms[k..]));
    var head := FromLine(ms[k - 1]) + DateLine(ms[k - 1]);
    SameRest(head, ReadBack(ms[k - 1], Lines("\n" + File(ms[k..]))), ms[k - 1].body);
  }

  lemma {:induction false} SameRest(head: string, a: string, b: string)
    ensures head + a == head + b <==> a == b
  {
    assert (head + a)[|head|..] == a && (head + b)[|head|..] == b;
  }

  lemma {:induction false} GetOutside(ms: seq<Mail>, id: int)
    requires forall m :: m in ms ==> Storable(m)
    ensures !Get(File(ms), id).Missing? <==> 1 <= id <= Starts(FileLines(ms))
  {
    hide Lines, File, FileLines, GetFrom, Starts, Storable;
    LinesOfFile(ms);
    FoundIffCounted(FileLines(ms), id, 0);
  }

  const MERGING := "===START_EMAIL"

  /** A body can be guilty although its only line is no start marker: unfinished,
      it runs into the end marker and makes one. */
  lemma {:induction false} MergedStartMarker(m: Mail)
    requires m.body == MERGING
    ensures Lines(m.body) == [m.body] && !StartsWith(m.body, START) && !Innocent(m)
  {
    MergedLine(m);
    assert m.body[|m.body|..] == "";
    WholeLine(m.body);
  }

  lemma {:induction false} MergedLine(m: Mail)
    requires m.body == MERGING
    ensures !Innocent(m)
  {
    hide Lines;
    var l := Tail(m);
    OneLine(l);
    assert l[..17] == START;
    assert StartsWith(Lines(l)[0], START);
  }

  lemma {:induction false} WholeLine(s: string)
    requires 0 < |s| < LINE_MAX && forall i :: 0 <= i < |s| ==> s[i] != '\n'
    ensures Gets(s) == s
  {
  }
}
