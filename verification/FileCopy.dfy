/** The file copy over KTP: one program cuts a file into 512-byte messages and
    ends with the message "#"; the other writes what it receives up to the
    first '#'.

    The receiver looks for '#' with `strstr` on its whole buffer, which does
    not stop at the end of the message: it runs on through what earlier
    messages (or nothing at all) left in the buffer and through the memory
    after it, up to a NUL. `after` is that memory, cut at its first NUL. */
module FileCopy {
  import opened KtpProtocol
  import opened Options

  const BUF_SIZE := 512
  const MARK := '#'
  const NUL := '\0'

  // ---------- the sending program ----------

  function Chunks(file: string): (cs: seq<Payload>)
    decreases |file|
  {
    if |file| <= BUF_SIZE then (if file == "" then [] else [file])
    else [file[..BUF_SIZE]] + Chunks(file[BUF_SIZE..])
  }

  function Messages(file: string): seq<Payload> { Chunks(file) + ["#"] }

  function Flatten(ms: seq<Payload>): string {
    if ms == [] then "" else ms[0] + Flatten(ms[1..])
  }

  lemma {:induction false} FlattenAppend(a: seq<Payload>, b: seq<Payload>)
    ensures Flatten(a + b) == Flatten(a) + Flatten(b)
  {
    if a == [] {
      assert a + b == b;
    } else {
      assert (a + b)[1..] == a[1..] + b;
      FlattenAppend(a[1..], b);
    }
  }

  ghost predicate WellShaped(ms: seq<Payload>) {
    && (forall i :: 0 <= i < |ms| ==> 1 <= |ms[i]| <= BUF_SIZE)
    && (forall i, j :: 0 <= i < j < |ms| ==> |ms[i]| >= |ms[j]|)
  }

  lemma {:induction false} ChunksCover(file: string)
    ensures Flatten(Chunks(file)) == file && WellShaped(Chunks(file))
    ensures forall i :: 0 <= i < |Chunks(file)| ==> forall c :: c in Chunks(file)[i] ==> c in file
    ensures forall i :: 0 <= i < |Chunks(file)| - 1 ==> |Chunks(file)[i]| == 512
    ensures |Chunks(file)| == (|file| + 511) / 512
    decreases |file|
  {
    if |file| > BUF_SIZE {
      ChunksCover(file[BUF_SIZE..]);
      assert file == file[..BUF_SIZE] + file[BUF_SIZE..];
      assert Chunks(file)[1..] == Chunks(file[BUF_SIZE..]);
    } else if file != "" {
      assert Chunks(file)[1..] == [];
    }
  }

  /** The messages spell the file followed by the marker, none is empty or
      longer than a packet, and none is longer than one before it. */
  lemma {:induction false} MessagesSpellFile(file: string)
    ensures Flatten(Messages(file)) == file + "#" && WellShaped(Messages(file))
    ensures forall i :: 0 <= i < |Messages(file)| - 2 ==> |Messages(file)[i]| == 512
    ensures |Messages(file)| == (|file| + 511) / 512 + 1
    ensures forall m :: m in Messages(file) ==> Cut(m) == m && (NUL !in file ==> NUL !in m)
  {
    ChunksCover(file);
    FlattenAppend(Chunks(file), ["#"]);
    assert ["#"][1..] == [];
  }

  /** The read-and-send loop over one reused buffer. Each entry of `calls` is
      the data of one `k_sendto`. */
  method SendFile(file: string) returns (calls: seq<Payload>, totTransferred: nat, totPkts: nat)
    ensures calls == Messages(file)
    ensures totTransferred == |file| && totPkts == (|file| + 511) / 512
  {
    var buf := new char[BUF_SIZE];
    var pos := 0;
    calls, totTransferred, totPkts := [], 0, 0;
    while pos < |file|
      invariant pos <= |file| && totTransferred == pos && totPkts == |calls|
      invariant calls + Chunks(file[pos..]) == Chunks(file)
    {
      var len := if |file| - pos < BUF_SIZE then |file| - pos else BUF_SIZE;
      forall k | 0 <= k < len { buf[k] := file[pos + k]; }
      ghost var rest := file[pos..];
      assert buf[..len] == rest[..len];
      assert rest[len..] == file[pos + len..];
      assert Chunks(rest) == [buf[..len]] + Chunks(file[pos + len..]) by {
        if len == |rest| { assert rest[..len] == rest; assert Chunks(file[pos + len..]) == []; }
      }
      calls := calls + [buf[..len]];
      totTransferred := totTransferred + len;
      totPkts := totPkts + 1;
      pos := pos + len;
    }
    assert Chunks(file[pos..]) == [];
    forall k | 0 <= k < BUF_SIZE { buf[k] := NUL; }
    buf[0] := MARK;
    assert buf[..1] == "#";
    calls := calls + [buf[..1]];
    ChunkCount(file);
  }

  lemma {:induction false} ChunkCount(file: string)
    ensures |Chunks(file)| == (|file| + 511) / 512
  {
    ChunksCover(file);
  }

  // ---------- the receiving program ----------

  /** Where `strstr(s, "#")` finds its mark. */
  function StrStr(s: string): (p: Option<nat>)
    ensures p.Some? ==> p.value < |s| && s[p.value] == MARK && MARK !in s[..p.value] && NUL !in s[..p.value]
    ensures p.None? ==> forall k :: 0 <= k < |s| && s[k] == MARK ==> NUL in s[..k]
  {
    if s == "" || s[0] == NUL then None
    else if s[0] == MARK then Some(0)
    else
      var p := StrStr(s[1..]);
      if p.None? then None
      else assert s[..p.value + 1] == [s[0]] + s[1..][..p.value]; Some(p.value + 1)
  }

  datatype Copy = Copy(output: string, used: nat, stopped: bool)

  /** The buffer once message `m` has been copied over its front. */
  function Overwrite(buf: string, m: Payload): string
    requires |m| <= |buf|
  {
    m + buf[|m|..]
  }

  function Receive(buf: string, after: string, ms: seq<Payload>): Copy
    requires |buf| == BUF_SIZE && forall m :: m in ms ==> |m| <= BUF_SIZE
    decreases ms
  {
    if ms == [] then Copy("", 0, false)
    else if ms[0] == "" then Copy("", 1, true)
    else
      var memory := Overwrite(buf, ms[0]) + after;
      var p := StrStr(memory);
      if p.Some? then Copy(memory[..p.value], 1, true)
      else
        var rest := Receive(Overwrite(buf, ms[0]), after, ms[1..]);
        Copy(ms[0] + rest.output, 1 + rest.used, rest.stopped)
  }

  /** The receive loop: `ms` lists what successive `k_recvfrom` calls return. */
  method ReceiveFile(buf: array<char>, after: string, ms: seq<Payload>)
    returns (output: string, used: nat, stopped: bool, totReceived: nat, totPkts: nat)
    requires buf.Length == BUF_SIZE && forall m :: m in ms ==> |m| <= BUF_SIZE
    modifies buf
    ensures Copy(output, used, stopped) == Receive(old(buf[..]), after, ms)
    ensures totReceived == |output| && used <= |ms| && forall i :: 0 <= i < used - 1 ==> ms[i] != ""
    ensures if !stopped then used == |ms| == totPkts && "" !in ms && output == Flatten(ms)
            else used > 0 && Flatten(ms[..used - 1]) <= output
                 && totPkts == used - (if output == Flatten(ms[..used - 1]) then 1 else 0)
                 && (ms[used - 1] == "" ==> output == Flatten(ms[..used - 1]))
  {
    output, used, stopped, totReceived, totPkts := "", 0, false, 0, 0;
    ghost var start := buf[..];
    ReceiveStart(start, after, ms);
    assert ms[..0] == [] && Flatten([]) == "";
    hide Receive, StrStr, Flatten, Progress;
    while used < |ms|
      invariant used <= |ms| && !stopped && totReceived == |output| && totPkts == used
      invariant output == Flatten(ms[..used]) && forall i :: 0 <= i < used ==> ms[i] != ""
      invariant Progress(start, after, ms, buf[..], used, output)
    {
      ReceiveStep(start, after, ms, buf[..], used, output);
      var m := ms[used];
      used := used + 1;
      if |m| == 0 {
        return output, used, true, totReceived, totPkts;
      }
      ghost var before := buf[..];
      forall k | 0 <= k < |m| { buf[k] := m[k]; }
      assert buf[..] == Overwrite(before, m);
      var pkt := StrStr(buf[..] + after);
      var len := if pkt.Some? then pkt.value else |m|;
      output := output + (buf[..] + after)[..len];
      if len > 0 {
        totReceived := totReceived + len;
        totPkts := totPkts + 1;
      }
      if pkt.Some? {
        return output, used, true, totReceived, totPkts;
      }
      assert (buf[..] + after)[..len] == m;
      FlattenLast(ms, used - 1);
    }
    assert ms[..used] == ms;
    ReceiveEnd(start, after, ms, buf[..], output);
  }

  lemma {:induction false} FlattenLast(ms: seq<Payload>, n: nat)
    requires n < |ms|
    ensures Flatten(ms[..n + 1]) == Flatten(ms[..n]) + ms[n]
  {
    assert ms[..n + 1] == ms[..n] + [ms[n]] && [ms[n]][1..] == [];
    FlattenAppend(ms[..n], [ms[n]]);
  }

  /** The loop has taken `n` messages without stopping and the buffer is `buf`. */
  ghost predicate Progress(start: string, after: string, ms: seq<Payload>, buf: string, n: nat, output: string)
    requires |start| == |buf| == BUF_SIZE && n <= |ms| && forall m :: m in ms ==> |m| <= BUF_SIZE
  {
    var rest := Receive(buf, after, ms[n..]);
    Receive(start, after, ms) == Copy(output + rest.output, n + rest.used, rest.stopped)
  }

  lemma {:induction false} ReceiveStart(start: string, after: string, ms: seq<Payload>)
    requires |start| == BUF_SIZE && forall m :: m in ms ==> |m| <= BUF_SIZE
    ensures Progress(start, after, ms, start, 0, "")
  {
  }

  lemma {:induction false} ReceiveEnd(start: string, after: string, ms: seq<Payload>, buf: string, output: string)
    requires |start| == |buf| == BUF_SIZE && forall m :: m in ms ==> |m| <= BUF_SIZE
    requires Progress(start, after, ms, buf, |ms|, output)
    ensures Receive(start, after, ms) == Copy(output, |ms|, false)
  {
  }

  lemma {:induction false} ReceiveStep(
    start: string, after: string, ms: seq<Payload>, buf: string, n: nat, output: string)
    requires |start| == |buf| == BUF_SIZE && n < |ms| && forall m :: m in ms ==> |m| <= BUF_SIZE
    requires Progress(start, after, ms, buf, n, output)
    ensures var memory := Overwrite(buf, ms[n]) + after;
      if ms[n] == "" then Receive(start, after, ms) == Copy(output, n + 1, true)
      else if StrStr(memory).Some?
        then Receive(start, after, ms) == Copy(output + memory[..StrStr(memory).value], n + 1, true)
        else Progress(start, after, ms, Overwrite(buf, ms[n]), n + 1, output + ms[n])
  {
  }

  // ---------- what the copy should be ----------

  /** The part of `s` before its first '#'. */
  function Before(s: string): (r: string)
    ensures r <= s && MARK !in r
  {
    if s == "" || s[0] == MARK then "" else [s[0]] + Before(s[1..])
  }

  lemma {:induction false} BeforeJoin(a: string, b: string)
    ensures Before(a + b) == if MARK in a then Before(a) else a + Before(b)
  {
    if a == "" {
      assert a + b == b;
    } else {
      assert (a + b)[1..] == a[1..] + b;
      assert a == [a[0]] + a[1..];
      if a[0] != MARK { BeforeJoin(a[1..], b); }
    }
  }

  /** Number of the first message holding the marker. */
  function MarkIndex(ms: seq<Payload>): (k: nat)
    ensures k <= |ms|
    ensures k < |ms| ==> MARK in ms[k]
    ensures forall i :: 0 <= i < k ==> MARK !in ms[i]
  {
    if ms == [] || MARK in ms[0] then 0 else 1 + MarkIndex(ms[1..])
  }

  /** The receiver's search stays harmless: the first message holds the marker
      itself, or no stray '#' follows it before the first NUL. */
  predicate Clean(buf: string, after: string, first: Payload) {
    MARK in first || (|first| <= |buf| && StrStr(buf[|first|..] + after).None?)
  }

  /** Text without marker or NUL is skipped by the search. */
  lemma {:induction false} StrStrSkip(a: string, b: string)
    requires NUL !in a
    ensures MARK !in a ==>
              StrStr(a + b) == (var p := StrStr(b); if p.None? then None else Some(|a| + p.value))
    ensures MARK in a ==> StrStr(a + b) == Some(|Before(a)|)
  {
    if a == "" {
      assert a + b == b;
    } else {
      assert (a + b)[1..] == a[1..] + b;
      assert a == [a[0]] + a[1..];
      if a[0] != MARK { StrStrSkip(a[1..], b); }
    }
  }

  /** One message without a marker: the next search is as harmless as this one. */
  lemma {:induction false} CleanCarries(buf: string, after: string, m: Payload, next: Payload)
    requires |next| <= |m| <= |buf| && NUL !in m && MARK !in m && Clean(buf, after, m)
    ensures Clean(Overwrite(buf, m), after, next)
  {
    assert Overwrite(buf, m)[|next|..] + after == m[|next|..] + (buf[|m|..] + after);
    StrStrSkip(m[|next|..], buf[|m|..] + after);
  }

  lemma {:induction false} ReceiveClean(buf: string, after: string, ms: seq<Payload>)
    requires |buf| == BUF_SIZE && WellShaped(ms) && forall m :: m in ms ==> NUL !in m
    requires ms != [] ==> Clean(buf, after, ms[0])
    ensures forall m :: m in ms ==> |m| <= BUF_SIZE
    ensures var c := Receive(buf, after, ms);
      && c.output == Before(Flatten(ms))
      && c.stopped == (MarkIndex(ms) < |ms|)
      && c.used == if c.stopped then MarkIndex(ms) + 1 else |ms|
    decreases ms
  {
    if ms != [] {
      var m := ms[0];
      assert Overwrite(buf, m) + after == m + (buf[|m|..] + after);
      StrStrSkip(m, buf[|m|..] + after);
      BeforeJoin(m, Flatten(ms[1..]));
      if MARK !in m {
        if |ms| > 1 { CleanCarries(buf, after, m, ms[1]); }
        assert WellShaped(ms[1..]) by {
          assert forall i :: 0 <= i < |ms[1..]| ==> ms[1..][i] == ms[i + 1];
        }
        ReceiveClean(Overwrite(buf, m), after, ms[1..]);
      } else {
        assert (Overwrite(buf, m) + after)[..|Before(m)|] == Before(m);
      }
    }
  }

  lemma {:induction false} BeforeMessages(file: string)
    requires NUL !in file
    ensures Before(Flatten(Messages(file))) == Before(file)
    ensures MarkIndex(Messages(file)) < |Messages(file)|
  {
    MessagesSpellFile(file);
    BeforeJoin(file, [MARK]);
    BeforeJoin(file, "");
    assert file + "" == file;
    assert MARK in Messages(file)[|Messages(file)| - 1];
  }

  /** What the search finds behind the first message, up to a stray '#'. */
  function Stray(buf: string, after: string, first: Payload): (s: string)
    requires |first| <= |buf| && !Clean(buf, after, first)
  {
    var rest := buf[|first|..] + after;
    rest[..StrStr(rest).value]
  }

  lemma {:induction false} DirtyOutput(buf: string, after: string, ms: seq<Payload>)
    requires |buf| == BUF_SIZE && forall m :: m in ms ==> 1 <= |m| <= BUF_SIZE
    requires ms != [] && NUL !in ms[0] && !Clean(buf, after, ms[0])
    ensures Receive(buf, after, ms) == Copy(ms[0] + Stray(buf, after, ms[0]), 1, true)
  {
    var m := ms[0];
    var rest := buf[|m|..] + after;
    assert Overwrite(buf, m) + after == m + rest;
    StrStrSkip(m, rest);
    var q := StrStr(rest).value;
    assert (m + rest)[..|m| + q] == m + rest[..q];
  }

  /** The receiver reads up to the message with the first marker and writes
      exactly what precedes it, if and only if its search stays harmless on the
      first message. */
  lemma {:induction false} CopyExactlyWhenClean(buf: string, after: string, file: string)
    requires |buf| == BUF_SIZE && NUL !in file
    ensures forall m :: m in Messages(file) ==> 1 <= |m| <= BUF_SIZE
    ensures Receive(buf, after, Messages(file))
              == Copy(Before(file), MarkIndex(Messages(file)) + 1, true)
            <==> Clean(buf, after, Messages(file)[0])
  {
    MessagesSpellFile(file);
    BeforeMessages(file);
    if Clean(buf, after, Messages(file)[0]) {
      ReceiveClean(buf, after, Messages(file));
    } else {
      DirtyOutput(buf, after, Messages(file));
    }
  }

  /** The receiver always stops. What it has written is what precedes the first
      '#' if and only if its search stays harmless on the first message, or that
      message and the stray text behind it happen to spell the same. */
  lemma {:induction false} OutputExact(buf: string, after: string, file: string)
    requires |buf| == BUF_SIZE && NUL !in file
    ensures forall m :: m in Messages(file) ==> 1 <= |m| <= BUF_SIZE
    ensures Receive(buf, after, Messages(file)).stopped
    ensures var first := Messages(file)[0];
      Receive(buf, after, Messages(file)).output == Before(file)
      <==> Clean(buf, after, first) || first + Stray(buf, after, first) == Before(file)
  {
    CopyExactlyWhenClean(buf, after, file);
    MessagesSpellFile(file);
    if !Clean(buf, after, Messages(file)[0]) { DirtyOutput(buf, after, Messages(file)); }
  }

  /** A buffer never written before can spoil a copy of the one-byte file "a". */
  lemma {:induction false} DirtyBufferSpoilsCopy(buf: string, after: string)
    requires |buf| == BUF_SIZE && buf[1] == 'x' && buf[2] == MARK
    ensures Messages("a") == ["a", "#"]
    ensures Receive(buf, after, Messages("a")).output == "ax" != Before("a")
  {
    var memory := Overwrite(buf, "a") + after;
    assert memory[0] == 'a' && memory[1..][0] == 'x' && memory[1..][1..][0] == MARK;
    assert StrStr(memory[1..][1..]) == Some(0);
    assert StrStr(memory[1..]) == Some(1);
    assert StrStr(memory) == Some(2);
    assert memory[..2] == "ax";
  }

  // ---------- the two programs over the protocol ----------

  lemma {:induction false} MarkIndexPrefix(ms: seq<Payload>, k: nat)
    requires k <= |ms|
    ensures MarkIndex(ms[..k]) == if MarkIndex(ms) < k then MarkIndex(ms) else k
  {
  }

  lemma {:induction false} BeforePrefix(a: string, b: string)
    ensures Before(a) <= Before(a + b)
    ensures MARK in a ==> Before(a) == Before(a + b)
  {
    BeforeJoin(a, b);
    if MARK !in a { BeforeJoin(a, ""); assert a + "" == a; }
  }

  /** What the receiver makes of the first messages of a file. */
  lemma {:induction false} ReceiveSome(buf: string, after: string, file: string, got: seq<Payload>)
    requires NUL !in file && |buf| == BUF_SIZE && got <= Messages(file)
    requires Clean(buf, after, Messages(file)[0])
    ensures forall m :: m in got ==> |m| <= BUF_SIZE
    ensures var c := Receive(buf, after, got);
      && c.output <= Before(file)
      && (c.stopped <==> MarkIndex(Messages(file)) < |got|)
      && (c.stopped ==> c.output == Before(file))
  {
    MessagesSpellFile(file);
    BeforeMessages(file);
    var ms := Messages(file);
    assert got == ms[..|got|] && ms == got + ms[|got|..];
    FlattenAppend(got, ms[|got|..]);
    BeforePrefix(Flatten(got), Flatten(ms[|got|..]));
    MarkIndexPrefix(ms, |got|);
    ReceiveClean(buf, after, got);
    if MarkIndex(ms) < |got| { MarkInFlat(got, MarkIndex(ms)); }
  }

  /** Under every behaviour of the network, with the sending program working
      through a file: the output is a prefix of the file up to its first '#';
      when the receiver stops it is exactly that part; when every send has
      returned it has stopped. */
  lemma {:induction false} FileCopySafety(chars: CharKind, es: seq<Event>, file: string, buf: string, after: string)
    requires Runs(Init(chars), es) && CallsOf(es) <= Messages(file)
    requires NUL !in file && |buf| == BUF_SIZE && Clean(buf, after, Messages(file)[0])
    ensures var got := After(Init(chars), es).rcv.delivered;
      && (forall m :: m in got ==> |m| <= BUF_SIZE)
      && var c := Receive(buf, after, got);
         && c.output <= Before(file) <= file
         && (c.stopped ==> c.output == Before(file) && MarkIndex(Messages(file)) < Limit(chars))
         && (CallsOf(es) == Messages(file) && After(Init(chars), es).snd.phase.Idle? ==> c.stopped)
  {
    PrefixSafety(chars, es);
    BeforeMessages(file);
    ReceiveSome(buf, after, file, After(Init(chars), es).rcv.delivered);
  }

  lemma {:induction false} MarkInFlat(ms: seq<Payload>, k: nat)
    requires k < |ms| && MARK in ms[k]
    ensures MARK in Flatten(ms)
  {
    if k > 0 { MarkInFlat(ms[1..], k - 1); }
  }

  // ---------- and it can finish, up to the limit ----------

  /** Some run of the sending program brings the receiver to its marker. */
  ghost predicate Completes(chars: CharKind, es: seq<Event>, file: string, buf: string, after: string)
    requires |buf| == BUF_SIZE
  {
    && Runs(Init(chars), es) && CallsOf(es) <= Messages(file)
    && (forall m :: m in After(Init(chars), es).rcv.delivered ==> |m| <= BUF_SIZE)
    && Receive(buf, after, After(Init(chars), es).rcv.delivered).stopped
  }

  lemma {:induction false} CanFinish(chars: CharKind, file: string, buf: string, after: string)
    requires NUL !in file && |buf| == BUF_SIZE && Clean(buf, after, Messages(file)[0])
    requires MarkIndex(Messages(file)) < Limit(chars)
    ensures exists es :: Completes(chars, es, file, buf, after)
  {
    hide Receive, StrStr, Clean, Chunks, Runs, After;
    MessagesSpellFile(file);
    BeforeMessages(file);
    var sent := Messages(file)[..MarkIndex(Messages(file)) + 1];
    assert forall m :: m in sent ==> m in Messages(file);
    SessionLength(chars, sent);
    var es :| Runs(Init(chars), es) && After(Init(chars), es).snd.phase.Idle?
              && After(Init(chars), es).snd.returned == sent;
    PrefixSafety(chars, es);
    ReceiveSome(buf, after, file, sent);
    assert Completes(chars, es, file, buf, after);
  }

  /** A copy can be completed exactly when the first '#' of the file and its
      end marker lies within the first 127 (or 255) messages. */
  lemma {:induction false} CanFinishWithinLimit(chars: CharKind, file: string, buf: string, after: string)
    requires NUL !in file && |buf| == BUF_SIZE && Clean(buf, after, Messages(file)[0])
    ensures (exists es :: Completes(chars, es, file, buf, after))
            <==> MarkIndex(Messages(file)) < if chars.SignedChar? then 127 else 255
  {
    if MarkIndex(Messages(file)) < Limit(chars) {
      CanFinish(chars, file, buf, after);
    }
    forall es | Completes(chars, es, file, buf, after) ensures MarkIndex(Messages(file)) < Limit(chars) {
      FileCopySafety(chars, es, file, buf, after);
    }
  }
}
