/** Text as the mail server reads it: `fgets` with a buffer of 4096 bytes, the
    prefix test of `strncmp`, and the `%s` and `%d` conversions of `sscanf`. */
module MailText {
  import opened Options

  const LINE_MAX := 4095
  const NUL := '\0'

  /** What one `fgets` returns from text `s`: up to and including a newline, at
      most `limit` characters. */
  function FirstLine(s: string, limit: nat): (l: string)
    ensures l <= s && |l| <= limit
    ensures s != "" && limit > 0 ==> l != ""
    ensures l != "" ==> l[|l| - 1] == '\n' || |l| == limit || l == s
    ensures forall i :: 0 <= i < |l| - 1 ==> l[i] != '\n'
  {
    if s == "" || limit == 0 then ""
    else if s[0] == '\n' then ['\n']
    else [s[0]] + FirstLine(s[1..], limit - 1)
  }

  /** One `fgets`. */
  function Gets(s: string): (l: string)
    ensures l <= s && (s != "" ==> l != "")
  {
    FirstLine(s, LINE_MAX)
  }

  function Lines(s: string): seq<string>
    decreases |s|
  {
    if s == "" then []
    else
      var l := Gets(s);
      [l] + Lines(s[|l|..])
  }

  function Join(ls: seq<string>): string {
    if ls == [] then "" else ls[0] + Join(ls[1..])
  }

  predicate Closed(s: string) { s == "" || s[|s| - 1] == '\n' }

  lemma {:induction false} JoinAppend(a: seq<string>, b: seq<string>)
    ensures Join(a + b) == Join(a) + Join(b)
  {
    if a == [] {
      assert a + b == b;
    } else {
      assert (a + b)[1..] == a[1..] + b;
      JoinAppend(a[1..], b);
    }
  }

  lemma {:induction false} LinesJoin(s: string)
    ensures Join(Lines(s)) == s
    decreases |s|
  {
    if s != "" { LinesJoin(s[|Gets(s)|..]); }
  }

  lemma {:induction false} FirstLineLocal(a: string, b: string, limit: nat)
    requires a != "" && Closed(a)
    ensures FirstLine(a + b, limit) == FirstLine(a, limit)
  {
    if limit > 0 && a[0] != '\n' {
      assert (a + b)[1..] == a[1..] + b;
      FirstLineLocal(a[1..], b, limit - 1);
    }
  }

  lemma {:induction false} LinesOfSplit(g: string, rest: string)
    requires g != "" && Gets(g + rest) == g
    ensures Lines(g + rest) == [g] + Lines(rest)
  {
  }

  lemma {:induction false} LastStays(g: string, rest: string)
    requires Closed(g + rest)
    ensures Closed(rest)
  {
  }

  lemma {:induction false} SplitAppend(g: string, rest: string, b: string)
    requires g != "" && Closed(g + rest) && Gets(g + rest) == g
    ensures g + rest + b == g + (rest + b) && Gets(g + (rest + b)) == g
  {
    FirstLineLocal(g + rest, b, LINE_MAX);
    assert g + rest + b == g + (rest + b);
  }

  lemma {:induction false} LinesAppendStep(g: string, rest: string, b: string)
    requires g != "" && Closed(g + rest) && Gets(g + rest) == g
    requires Lines(rest + b) == Lines(rest) + Lines(b)
    ensures Lines(g + rest + b) == Lines(g + rest) + Lines(b)
  {
    hide Lines;
    SplitAppend(g, rest, b);
    LinesOfSplit(g, rest);
    LinesOfSplit(g, rest + b);
    assert [g] + Lines(rest) + Lines(b) == [g] + (Lines(rest) + Lines(b));
  }

  /** Text that ends a line is read the same whatever follows it. */
  lemma {:induction false} LinesAppend(a: string, b: string)
    requires Closed(a)
    ensures Lines(a + b) == Lines(a) + Lines(b)
    decreases |a|
  {
    if a == "" {
      assert a + b == b;
    } else {
      var g := Gets(a);
      var rest := a[|g|..];
      assert a == g + rest;
      LastStays(g, rest);
      LinesAppend(rest, b);
      LinesAppendStep(g, rest, b);
    }
  }

  lemma {:induction false} ClosedJoin(a: string, b: string)
    requires Closed(a) && Closed(b)
    ensures Closed(a + b)
  {
  }

  lemma {:induction false} LinesOfFive(a: string, b: string, c: string, d: string, e: string)
    requires Closed(a) && Closed(b) && Closed(c) && Closed(d) && Closed(e)
    ensures Closed(a + b + c + d + e)
    ensures Lines(a + b + c + d + e) == Lines(a) + Lines(b) + Lines(c) + Lines(d) + Lines(e)
  {
    ClosedJoin(a, b);
    ClosedJoin(a + b, c);
    ClosedJoin(a + b + c, d);
    ClosedJoin(a + b + c + d, e);
    LinesAppend(a, b);
    LinesAppend(a + b, c);
    LinesAppend(a + b + c, d);
    LinesAppend(a + b + c + d, e);
  }

  lemma {:induction false} OneLine(l: string)
    requires l != "" && Closed(l) && |l| <= LINE_MAX
    requires forall i :: 0 <= i < |l| - 1 ==> l[i] != '\n'
    ensures Lines(l) == [l]
  {
    var f := Gets(l);
    assert f == l;
    assert l[|f|..] == "";
  }

  /** In text that ends with a newline, a read without one has filled the buffer. */
  lemma {:induction false} LinesShape(s: string, i: nat)
    requires Closed(s) && i < |Lines(s)|
    ensures Lines(s)[i] != "" && (Closed(Lines(s)[i]) || |Lines(s)[i]| == 4095)
    decreases |s|
  {
    var k := |Gets(s)|;
    if i > 0 { LinesShape(s[k..], i - 1); }
  }

  predicate StartsWith(s: string, p: string) { p <= s }

  // ---------- scanning ----------

  predicate IsSpace(c: char) {
    c == ' ' || c == '\t' || c == '\n' || c == '\r' || c == '\U{0B}' || c == '\U{0C}'
  }

  function SkipSpace(s: string): string {
    if s != "" && IsSpace(s[0]) then SkipSpace(s[1..]) else s
  }

  function Token(s: string): (t: string)
    ensures t <= s && forall c :: c in t ==> !IsSpace(c)
  {
    if s == "" || IsSpace(s[0]) then "" else [s[0]] + Token(s[1..])
  }

  /** `%s`: the next word, if there is one. */
  function Word(s: string): (w: Option<string>)
    ensures w.Some? ==> IsWord(w.value)
  {
    var t := Token(SkipSpace(s));
    if t == "" then None else Some(t)
  }

  predicate IsWord(w: string) { w != "" && forall c :: c in w ==> !IsSpace(c) }

  predicate IsDigit(c: char) { '0' <= c <= '9' }

  function Digits(s: string): (t: string)
    ensures t <= s && forall c :: c in t ==> IsDigit(c)
  {
    if s == "" || !IsDigit(s[0]) then "" else [s[0]] + Digits(s[1..])
  }

  function Value(ds: string): int {
    if ds == "" then 0
    else 10 * Value(ds[..|ds| - 1]) + (ds[|ds| - 1] as int - '0' as int)
  }

  /** `%d`: optional sign and digits. */
  function Number(s: string): Option<int> {
    var t := SkipSpace(s);
    var signed := t != "" && (t[0] == '-' || t[0] == '+');
    var ds := Digits(if signed then t[1..] else t);
    if ds == "" then None
    else Some(if signed && t[0] == '-' then -Value(ds) else Value(ds))
  }

  /** `%s %d`. */
  function WordAndNumber(s: string): Option<(string, int)> {
    var t := SkipSpace(s);
    var w := Token(t);
    if w == "" then None
    else
      var n := Number(t[|w|..]);
      if n.None? then None else Some((w, n.value))
  }

  lemma {:induction false} TokenOfWord(w: string, rest: string)
    requires forall c :: c in w ==> !IsSpace(c)
    requires rest == "" || IsSpace(rest[0])
    ensures Token(w + rest) == w
  {
    if w == "" {
      assert w + rest == rest;
    } else {
      assert (w + rest)[1..] == w[1..] + rest;
      assert w == [w[0]] + w[1..];
      TokenOfWord(w[1..], rest);
    }
  }

  /** A word printed after a space and before a newline is scanned back. */
  lemma {:induction false} WordBack(w: string)
    requires IsWord(w)
    ensures Word(" " + w + "\n") == Some(w)
  {
    assert (" " + w + "\n")[1..] == w + "\n";
    assert (w + "\n")[0] == w[0];
    assert SkipSpace(" " + w + "\n") == SkipSpace(w + "\n") == w + "\n";
    TokenOfWord(w, "\n");
  }

  function Decimal(n: nat): string {
    if n < 10 then [('0' as int + n) as char] else Decimal(n / 10) + [('0' as int + n % 10) as char]
  }

  lemma {:induction false} DecimalValue(n: nat)
    ensures forall c :: c in Decimal(n) ==> IsDigit(c)
    ensures Value(Decimal(n)) == n && Decimal(n) != ""
    ensures Decimal(n)[0] == '0' ==> n == 0 && Decimal(n) == "0"
  {
    var d := Decimal(n);
    if n >= 10 {
      DecimalValue(n / 10);
      assert d[..|d| - 1] == Decimal(n / 10);
    } else {
      assert d[..|d| - 1] == "";
    }
  }
}
