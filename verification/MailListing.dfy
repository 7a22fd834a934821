/** The list `list_emails` prints: what it shows of the mails in a file, and what
    can be read off it. */
module MailListing {
  import opened Options
  import opened MailText
  import opened Mailbox

  // ---------- the listing ----------

  function ItemsOf(ms: seq<Mail>): seq<Item> {
    seq(|ms|, i requires 0 <= i < |ms| => Item(ms[i].sender, ms[i].date))
  }

  /** The list that belongs to the mails. */
  function Entries(ms: seq<Mail>): string { Print(ItemsOf(ms), 1) }

  lemma {:induction false} ItemsSkip(a: seq<string>, b: seq<string>)
    requires forall i :: 0 <= i < |a| ==> !StartsWith(a[i], START)
    ensures Items(a + b) == Items(b)
  {
    if a == [] {
      assert a + b == b;
    } else {
      assert (a + b)[1..] == a[1..] + b;
      ItemsSkip(a[1..], b);
    }
  }

  lemma {:induction false} ScannedBack(tag: string, w: string)
    requires IsWord(w)
    ensures Scanned(tag, tag + (" " + w + "\n")) == w
  {
    var line := tag + (" " + w + "\n");
    assert line[|tag|..] == " " + w + "\n" && line[..|tag|] == tag;
    WordBack(w);
  }

  lemma {:induction false} HeadersScanned(m: Mail)
    requires Storable(m)
    ensures Scanned("From:", FromLine(m)) == m.sender && Scanned("Date:", DateLine(m)) == m.date
  {
    ScannedBack("From:", m.sender);
    ScannedBack("Date:", m.date);
    assert FromLine(m) == "From:" + (" " + m.sender + "\n");
    assert DateLine(m) == "Date:" + (" " + m.date + "\n");
  }

  lemma {:induction false} ItemsHead(start: string, from: string, date: string, rest: seq<string>)
    requires StartsWith(start, START)
    ensures Items([start] + ([from] + ([date] + rest)))
         == [Item(Scanned("From:", from), Scanned("Date:", date))] + Items(rest)
  {
  }

  lemma {:induction false} ItemsFrame(m: Mail, rest: seq<string>)
    requires Storable(m)
    ensures Items(FrameLines(m) + rest)
         == [Item(m.sender, m.date)] + Items(Lines(Tail(m)) + (["\n"] + rest))
  {
    hide Items, Scanned, Storable, Lines;
    FrameThen(m, rest);
    Marked();
    HeadersScanned(m);
    ItemsHead(START_LINE, FromLine(m), DateLine(m), Lines(Tail(m)) + (["\n"] + rest));
  }

  lemma {:induction false} InnocentTail(m: Mail, rest: seq<string>)
    requires Innocent(m)
    ensures Items(Lines(Tail(m)) + (["\n"] + rest)) == Items(rest)
  {
    Marked();
    ItemsSkip(Lines(Tail(m)), ["\n"] + rest);
    ItemsSkip(["\n"], rest);
  }

  lemma {:induction false} FirstFrame(ms: seq<Mail>)
    requires ms != []
    ensures FileLines(ms) == FrameLines(ms[0]) + FileLines(ms[1..])
  {
    assert ms == [ms[0]] + ms[1..];
    FileLinesJoin([ms[0]], ms[1..]);
    FileLinesOne(ms[0]);
  }

  lemma {:induction false} ItemsFile(ms: seq<Mail>)
    requires forall m :: m in ms ==> Storable(m) && Innocent(m)
    ensures Items(FileLines(ms)) == ItemsOf(ms)
  {
    hide FileLines, FrameLines, Innocent, Storable, Lines;
    if ms == [] {
      FileLinesNone();
    } else {
      FirstFrame(ms);
      ItemsFrame(ms[0], FileLines(ms[1..]));
      InnocentTail(ms[0], FileLines(ms[1..]));
      ItemsFile(ms[1..]);
      assert [Item(ms[0].sender, ms[0].date)] + ItemsOf(ms[1..]) == ItemsOf(ms);
    }
  }

  /** No item lacks its sender. */
  predicate Named(items: seq<Item>) { forall i :: 0 <= i < |items| ==> items[i].from != "" }

  lemma {:induction false} NamedJoin(a: seq<Item>, b: seq<Item>)
    ensures Named(a + b) <==> Named(a) && Named(b)
  {
    assert Named(a + b) ==> forall i :: 0 <= i < |b| ==> (a + b)[|a| + i] == b[i];
    assert Named(a + b) ==> forall i :: 0 <= i < |a| ==> (a + b)[i] == a[i];
  }

  /** The lines of a body up to the empty line behind them: each start line makes
      an item, which has no sender if the scan then runs into the next frame. */
  lemma {:induction false} TailItems(t: seq<string>, rest: seq<string>)
    ensures Named(Items(t + (["\n"] + rest))) ==>
              && Named(Items(rest))
              && |Items(t + (["\n"] + rest))| >= |Items(rest)| + if Starts(t) > 0 then 1 else 0
    decreases |t|
  {
    Marked();
    var all := t + (["\n"] + rest);
    if t == [] {
      assert all == ["\n"] + rest && all[1..] == rest;
    } else if !StartsWith(t[0], START) {
      assert all[1..] == t[1..] + (["\n"] + rest);
      TailItems(t[1..], rest);
    } else {
      StartTail(t, rest);
      if |t| >= 3 { TailItems(t[3..], rest); }
    }
  }

  lemma {:induction false} StartTail(t: seq<string>, rest: seq<string>)
    requires t != [] && StartsWith(t[0], START)
    ensures var items := Items(t + (["\n"] + rest));
      && (|t| == 1 ==> !Named(items))
      && (|t| == 2 && Named(items) ==> Named(Items(rest)) && |items| == 1 + |Items(rest)|)
      && (|t| >= 3 && Named(items) ==>
            var more := Items(t[3..] + (["\n"] + rest)); Named(more) && |items| == 1 + |more|)
  {
    var all := t + (["\n"] + rest);
    var from := Next(all[1..], t[0]);
    var item := Item(Scanned("From:", from), Scanned("Date:", Next(Rest(all[1..]), from)));
    var left := Rest(Rest(all[1..]));
    assert Items(all) == [item] + Items(left);
    NamedJoin([item], Items(left));
    if |t| == 1 {
      assert from == "\n" && "From:"[0] == 'F';
      assert [item][0].from == "";
    } else if |t| == 2 {
      assert left == rest;
    } else {
      assert left == t[3..] + (["\n"] + rest);
    }
  }

  lemma {:induction false} CountItems(ms: seq<Mail>)
    requires forall m :: m in ms ==> Storable(m)
    ensures Named(Items(FileLines(ms))) ==> |Items(FileLines(ms))| >= |ms|
    ensures Named(Items(FileLines(ms))) && |Items(FileLines(ms))| == |ms| ==> forall m :: m in ms ==> Innocent(m)
  {
    hide FileLines, FrameLines, Innocent, Storable, Lines, Items, Starts;
    if ms == [] {
      FileLinesNone();
    } else {
      var m, back := ms[0], ms[1..];
      FirstFrame(ms);
      ItemsFrame(m, FileLines(back));
      NamedJoin([Item(m.sender, m.date)], Items(Lines(Tail(m)) + (["\n"] + FileLines(back))));
      TailItems(Lines(Tail(m)), FileLines(back));
      InnocentStarts(m);
      CountItems(back);
      assert ms == [m] + back;
    }
  }

  lemma {:induction false} InnocentStarts(m: Mail)
    ensures Innocent(m) <==> Starts(Lines(Tail(m))) == 0
  {
    NoStarts(Lines(Tail(m)));
  }

  // ---------- reading a printed list ----------

  lemma {:induction false} PrintJoin(a: seq<Item>, b: seq<Item>, id: nat)
    ensures Print(a + b, id) == Print(a, id) + Print(b, id + |a|)
  {
    if a == [] {
      assert a + b == b;
    } else {
      assert (a + b)[1..] == a[1..] + b;
      PrintJoin(a[1..], b, id + 1);
      Regroup(Entry(id, a[0].from, a[0].date), Print(a[1..], id + 1), Print(b, id + |a|));
    }
  }

  lemma {:induction false} Regroup<T>(a: seq<T>, b: seq<T>, c: seq<T>)
    ensures (a + b) + c == a + (b + c)
  {
  }

  predicate Spaceless(s: string) { forall i :: 0 <= i < |s| ==> !IsSpace(s[i]) }

  predicate Words(items: seq<Item>) {
    forall i :: 0 <= i < |items| ==> Spaceless(items[i].from) && Spaceless(items[i].date)
  }

  lemma {:induction false} ItemsAreWords(ls: seq<string>)
    ensures Words(Items(ls))
    decreases |ls|
  {
    hide Scanned, StartsWith;
    if ls != [] {
      if StartsWith(ls[0], START) {
        var from := Next(ls[1..], ls[0]);
        ScannedIsWord("From:", from);
        ScannedIsWord("Date:", Next(Rest(ls[1..]), from));
        ItemsAreWords(Rest(Rest(ls[1..])));
      } else {
        ItemsAreWords(ls[1..]);
      }
    }
  }

  lemma {:induction false} ScannedIsWord(tag: string, line: string)
    ensures Spaceless(Scanned(tag, line))
  {
  }

  function EntryHead(id: nat): string { Decimal(id) + ": Email from " }

  /** An entry is one line. */
  lemma {:induction false} EntryIsLine(id: nat, item: Item)
    requires Spaceless(item.from) && Spaceless(item.date)
    ensures var e := Entry(id, item.from, item.date);
      && |e| >= 17 && e[|e| - 1] == '\n' && (forall i :: 0 <= i < |e| - 1 ==> e[i] != '\n')
      && e == EntryHead(id) + (item.from + (" (" + item.date + ")\n"))
  {
    var e, h := Entry(id, item.from, item.date), EntryHead(id);
    var rest := " (" + item.date + ")\n";
    assert e == h + (item.from + rest);
    forall i | 0 <= i < |e| - 1 ensures e[i] != '\n' {
      DecimalValue(id);
      if i < |Decimal(id)| {
        assert e[i] == Decimal(id)[i] && Decimal(id)[i] in Decimal(id);
      } else if i >= |h| && i < |h| + |item.from| {
        assert e[i] == item.from[i - |h|];
      } else if |h| + |item.from| + 2 <= i < |e| - 2 {
        assert e[i] == item.date[i - |h| - |item.from| - 2];
      }
    }
  }

  /** Two lines that start the same text are the same line. */
  lemma {:induction false} SameLine(a: string, b: string, text: string)
    requires a != "" && a[|a| - 1] == '\n' && forall i :: 0 <= i < |a| - 1 ==> a[i] != '\n'
    requires b != "" && b[|b| - 1] == '\n' && forall i :: 0 <= i < |b| - 1 ==> b[i] != '\n'
    requires a <= text && b <= text
    ensures a == b
  {
  }

  /** The sender is read off an entry, or off one that lacks only its newline. */
  lemma {:induction false} SameSender(head: string, a: Item, b: Item, n: nat, text: string)
    requires Spaceless(a.from) && Spaceless(b.from)
    requires head + (a.from + (" (" + a.date + ")\n")) <= text
    requires n == |head| + |b.from| + |b.date| + 3
    requires n <= |text| && text[..n] == (head + (b.from + (" (" + b.date + ")\n")))[..n]
    ensures a.from == b.from
  {
    var x, y := " (" + a.date + ")\n", " (" + b.date + ")\n";
    var ea, eb := head + (a.from + x), head + (b.from + y);
    var i, j, h := |a.from|, |b.from|, |head|;
    assert text[h + i] == ea[h + i] == ' ';
    assert text[..n][h + j] == eb[h + j] == ' ';
    forall k | 0 <= k < i ensures text[h + k] == a.from[k] { assert text[h + k] == ea[h + k]; }
    forall k | 0 <= k < j ensures text[h + k] == b.from[k] { assert text[..n][h + k] == eb[h + k]; }
    assert i >= j ==> a.from[..j] == b.from[..j];
  }

  /** A printed list that agrees with the list of `b` up to its last character,
      and goes on for at most six more, has as many items and the same senders. */
  lemma {:induction false} SameCount(a: seq<Item>, b: seq<Item>, id: nat)
    requires Words(a) && Words(b) && Named(b) && b != []
    requires Agree(Print(a, id), Print(b, id))
    ensures |a| == |b| && Named(a)
  {
    hide Entry, Words, Spaceless, Named, EntryHead;
    WordsHead(b);
    EntryIsLine(id, b[0]);
    PrintHead(b, id);
    PrintLong(a, id);
    WordsHead(a);
    EntryIsLine(id, a[0]);
    PrintHead(a, id);
    var ea, eb := Entry(id, a[0].from, a[0].date), Entry(id, b[0].from, b[0].date);
    var ra, rb := Print(a[1..], id + 1), Print(b[1..], id + 1);
    SameFirst(EntryHead(id), a[0], b[0], ea, eb, ra, rb);
    NamedHead(a);
    NamedHead(b);
    if |b| == 1 {
      assert b[1..] == [] && rb == "";
      PrintLong(a[1..], id + 1);
      NamedNone([]);
    } else {
      PrintLong(b[1..], id + 1);
      SameCount(a[1..], b[1..], id + 1);
    }
  }

  /** `a` is `b` but perhaps for its last character and at most six more. */
  predicate Agree(a: string, b: string) {
    b != "" && |b| <= |a| + 1 && |a| <= |b| + 6 && a[..|b| - 1] == b[..|b| - 1]
  }

  lemma {:induction false} SameFirst(
    head: string, a: Item, b: Item, ea: string, eb: string, ra: string, rb: string)
    requires Spaceless(a.from) && Spaceless(b.from) && Agree(ea + ra, eb + rb)
    requires ea == head + (a.from + (" (" + a.date + ")\n")) && eb == head + (b.from + (" (" + b.date + ")\n"))
    requires ea != "" && ea[|ea| - 1] == '\n' && forall i :: 0 <= i < |ea| - 1 ==> ea[i] != '\n'
    requires eb != "" && eb[|eb| - 1] == '\n' && forall i :: 0 <= i < |eb| - 1 ==> eb[i] != '\n'
    ensures a.from == b.from && |ea| >= |eb|
    ensures rb != "" ==> ea == eb && Agree(ra, rb)
  {
    hide Spaceless;
    var ta, tb, n := ea + ra, eb + rb, |eb| - 1;
    assert ta[..n] == ta[..|tb| - 1][..n] == tb[..|tb| - 1][..n] == eb[..n];
    SameSender(head, a, b, n, ta);
    assert forall i :: 0 <= i < n ==> ta[i] == ta[..n][i] == eb[i];
    assert ta[|ea| - 1] == '\n';
    if rb != "" {
      assert eb == tb[..|tb| - 1][..|eb|] == ta[..|tb| - 1][..|eb|];
      SameLine(ea, eb, ta);
      assert ra[..|rb| - 1] == ta[..|tb| - 1][|ea|..] == tb[..|tb| - 1][|eb|..] == rb[..|rb| - 1];
    }
  }

  lemma {:induction false} PrintHead(items: seq<Item>, id: nat)
    requires items != []
    ensures Print(items, id) == Entry(id, items[0].from, items[0].date) + Print(items[1..], id + 1)
  {
  }

  lemma {:induction false} PrintLong(items: seq<Item>, id: nat)
    requires Words(items)
    ensures if items == [] then Print(items, id) == "" else |Print(items, id)| >= 17
  {
  }

  lemma {:induction false} WordsHead(items: seq<Item>)
    requires Words(items) && items != []
    ensures Spaceless(items[0].from) && Spaceless(items[0].date) && Words(items[1..])
  {
  }

  lemma {:induction false} NamedHead(items: seq<Item>)
    requires items != []
    ensures Named(items) <==> items[0].from != "" && Named(items[1..])
  {
  }

  lemma {:induction false} NamedNone(items: seq<Item>)
    requires items == []
    ensures Named(items)
  {
  }
}
