/** CLDP packets: a 20-byte IPv4 header, the 8-byte CLDP header, the payload;
    and the server's answer to a query. */
module CldpPacket {
  import opened Options
  import opened Checksum

  const PROTOCOL_NUM := 253
  const BUF_SIZE := 1024
  const IP_HEADER := 20
  const HEADERS := 28
  const CHECK_WORD := 5 // the checksum is the sixth 16-bit word of the header

  const MSG_QUERY: Byte := 2
  const MSG_RESPONSE: Byte := 3

  type Bytes = seq<Byte>

  /** What `send_packet` is told, with the random identification number and the
      destination address in network order. */
  datatype Packet = Packet(dest: Bytes, ident: Word, kind: Byte, transId: Word, payload: Option<Bytes>, len: Byte)

  predicate Sendable(p: Packet) {
    |p.dest| == 4 && (p.payload.Some? ==> |p.payload.value| >= p.len)
  }

  // ---------- reading a packet ----------

  function Word16(bs: Bytes, k: nat): Word
    requires k + 1 < |bs|
  {
    WordAt(Big, bs[k], bs[k + 1])
  }

  predicate IsCldp(bs: Bytes) { |bs| >= HEADERS && bs[9] == PROTOCOL_NUM }

  function Source(bs: Bytes): Bytes
    requires |bs| >= HEADERS
  {
    bs[12..16]
  }

  function KindOf(bs: Bytes): Byte
    requires |bs| >= HEADERS
  {
    bs[20]
  }

  function LenOf(bs: Bytes): Byte
    requires |bs| >= HEADERS
  {
    bs[21]
  }

  function TransOf(bs: Bytes): Word
    requires |bs| >= HEADERS
  {
    Word16(bs, 22)
  }

  function PayloadOf(bs: Bytes): Bytes
    requires |bs| >= HEADERS
  {
    bs[HEADERS..]
  }

  /** The payload that goes out: the bytes given, or zeros when there are none. */
  function Sent(p: Packet): (r: Bytes)
    requires Sendable(p)
    ensures |r| == p.len
  {
    match p.payload
    case Some(bs) => bs[..p.len]
    case None => seq(p.len, i requires 0 <= i < p.len => 0 as Byte)
  }

  /** A packet on the wire carries `p`: every field reads back, the rest of the
      IP header is fixed, and the header checksum verifies on any host. */
  ghost predicate Carries(bs: Bytes, p: Packet)
    requires Sendable(p)
  {
    && |bs| == 28 + p.len && IsCldp(bs)
    && bs[0] == 0x45 && bs[1] == 0 && bs[6] == 0 && bs[7] == 0 && bs[8] == 64 && bs[9] == 253
    && bs[2] as int * 256 + bs[3] as int == |bs| && bs[4] as int * 256 + bs[5] as int == p.ident
    && bs[12..16] == [0, 0, 0, 0] && bs[16..20] == p.dest
    && bs[20] == p.kind && bs[21] == p.len && bs[22] as int * 256 + bs[23] as int == p.transId
    && bs[24..28] == [0, 0, 0, 0] && bs[28..] == Sent(p)
    && Source(bs) == bs[12..16] && KindOf(bs) == p.kind && LenOf(bs) == p.len && TransOf(bs) == p.transId
    && PayloadOf(bs) == Sent(p)
    && forall e: Endian :: Sum16(Words(e, bs[..IP_HEADER])) == 0
  }

  /** The IP header of a packet of `totalLen` bytes to `dest`. */
  ghost predicate IpHeader(h: Bytes, p: Packet, totalLen: int) {
    && |h| == IP_HEADER
    && h[0] == 0x45 && h[1] == 0 && h[6] == 0 && h[7] == 0 && h[8] == 64 && h[9] == PROTOCOL_NUM
    && Word16(h, 2) == totalLen && Word16(h, 4) == p.ident
    && h[12..16] == [0, 0, 0, 0] && h[16..20] == p.dest
    && forall e: Endian :: Sum16(Words(e, h)) == 0
  }

  /** Fills the buffer field by field and sends the front of it. */
  method SendPacket(host: Endian, p: Packet) returns (bs: Bytes)
    requires Sendable(p)
    ensures Carries(bs, p)
  {
    var buffer := new Byte[BUF_SIZE](_ => 0);
    var totalLen: int := HEADERS + p.len;
    BuildIpHeader(host, buffer, p, totalLen);
    ghost var h := buffer[..IP_HEADER];
    FillCldpHeader(buffer, p);
    FillPayload(buffer, p);
    assert buffer[..IP_HEADER] == buffer[..HEADERS][..IP_HEADER] == h;
    assert buffer[24..28] == buffer[..HEADERS][24..28];
    bs := buffer[..totalLen];
    Assembled(bs, h, p);
  }

  lemma {:induction false} Assembled(bs: Bytes, h: Bytes, p: Packet)
    requires Sendable(p) && |bs| == HEADERS + p.len && IpHeader(h, p, |bs|) && bs[..IP_HEADER] == h
    requires bs[20] == p.kind && bs[21] == p.len && TransOf(bs) == p.transId
    requires bs[24..28] == [0, 0, 0, 0] && bs[HEADERS..] == Sent(p)
    ensures Carries(bs, p)
  {
  }

  method BuildIpHeader(host: Endian, buffer: array<Byte>, p: Packet, totalLen: Word)
    requires buffer.Length == BUF_SIZE && Sendable(p)
    requires forall i :: 0 <= i < BUF_SIZE ==> buffer[i] == 0
    modifies buffer
    ensures IpHeader(buffer[..IP_HEADER], p, totalLen)
    ensures forall i :: IP_HEADER <= i < BUF_SIZE ==> buffer[i] == 0
  {
    hide Sum16, Words;
    FillIpHeader(buffer, p, totalLen);
    ghost var blank := buffer[..IP_HEADER];
    assert blank[16..20] == p.dest && blank[12..16] == [0, 0, 0, 0];
    var check := Compute(Words(host, buffer[..IP_HEADER]));
    var sealed := StoreWord(host, buffer[..IP_HEADER], CHECK_WORD, check);
    HostOrderOnHeader(host, blank);
    buffer[10], buffer[11] := sealed[10], sealed[11];
    assert sealed[12..16] == blank[12..16] && sealed[16..20] == blank[16..20];
    assert buffer[..IP_HEADER] == sealed;
  }

  lemma {:induction false} HostOrderOnHeader(host: Endian, blank: Bytes)
    requires |blank| == IP_HEADER && blank[10] == 0 && blank[11] == 0
    ensures forall e: Endian ::
              Sum16(Words(e, StoreWord(host, blank, CHECK_WORD, Sum16(Words(host, blank))))) == 0
  {
    forall e: Endian
      ensures Sum16(Words(e, StoreWord(host, blank, CHECK_WORD, Sum16(Words(host, blank))))) == 0
    {
      HostOrderIsNetworkOrder(host, e, blank, CHECK_WORD);
    }
  }

  method PutWord(buffer: array<Byte>, k: nat, w: Word)
    requires k + 1 < buffer.Length
    modifies buffer
    ensures buffer[..] == old(buffer[..])[k := w / 0x100][k + 1 := w % 0x100]
  {
    buffer[k] := w / 0x100;
    buffer[k + 1] := w % 0x100;
  }

  method FillIpHeader(buffer: array<Byte>, p: Packet, totalLen: Word)
    requires buffer.Length == BUF_SIZE && Sendable(p)
    requires forall i :: 0 <= i < BUF_SIZE ==> buffer[i] == 0
    modifies buffer
    ensures buffer[0] == 0x45 && buffer[1] == 0
    ensures WordAt(Big, buffer[2], buffer[3]) == totalLen && WordAt(Big, buffer[4], buffer[5]) == p.ident
    ensures buffer[6] == 0 && buffer[7] == 0 && buffer[8] == 64 && buffer[9] == PROTOCOL_NUM
    ensures forall i :: 10 <= i < 16 || 20 <= i < BUF_SIZE ==> buffer[i] == 0
    ensures buffer[16..20] == p.dest
  {
    buffer[0] := 0x45;
    PutWord(buffer, 2, totalLen);
    PutWord(buffer, 4, p.ident);
    buffer[8] := 64;
    buffer[9] := PROTOCOL_NUM;
    forall i | 0 <= i < 4 { buffer[16 + i] := p.dest[i]; }
  }

  method FillCldpHeader(buffer: array<Byte>, p: Packet)
    requires buffer.Length == BUF_SIZE
    modifies buffer
    ensures buffer[..20] == old(buffer[..20]) && buffer[HEADERS..] == old(buffer[HEADERS..])
    ensures buffer[20] == p.kind && buffer[21] == p.len && WordAt(Big, buffer[22], buffer[23]) == p.transId
    ensures buffer[24..28] == [0, 0, 0, 0]
  {
    buffer[20] := p.kind;
    buffer[21] := p.len;
    PutWord(buffer, 22, p.transId);
    forall i | 24 <= i < 28 { buffer[i] := 0; }
  }

  method FillPayload(buffer: array<Byte>, p: Packet)
    requires buffer.Length == BUF_SIZE && Sendable(p)
    requires forall i :: HEADERS <= i < BUF_SIZE ==> buffer[i] == 0
    modifies buffer
    ensures buffer[..HEADERS] == old(buffer[..HEADERS])
    ensures buffer[HEADERS..HEADERS + p.len] == Sent(p)
  {
    if p.len > 0 && p.payload.Some? {
      forall i | 0 <= i < p.len { buffer[HEADERS + i] := p.payload.value[i]; }
    }
  }

  // ---------- a query and its answer ----------

  predicate Asks(flags: Byte, bit: Byte)
    requires bit > 0
  {
    flags / bit % 2 == 1
  }

  const META_HOSTNAME: Byte := 1
  const META_TIME: Byte := 2
  const META_CPULOAD: Byte := 4

  /** The byte that asks for the hostname, the time, the load or any of them;
      `others` are bits nobody looks at. */
  function Mask(hostname: bool, time: bool, load: bool, others: nat): int {
    (if hostname then 1 else 0) + (if time then 2 else 0) + (if load then 4 else 0) + 8 * others
  }

  /** The readings asked for, in order. */
  function Chosen(hostname: bool, time: bool, load: bool, m: Metadata): Bytes {
    (if hostname then m.hostname else []) + (if time then m.time else []) + (if load then m.load else [])
  }

  /** Each bit of the mask selects its reading, whatever the other bits are. */
  lemma {:induction false} AnswerSelects(flags: Byte, hostname: bool, time: bool, load: bool, others: nat, m: Metadata)
    requires flags == Mask(hostname, time, load, others)
    ensures Answer(flags, m) == Chosen(hostname, time, load, m)
  {
    BitsOf(flags, hostname, time, load, others);
  }

  lemma {:induction false} BitsOf(flags: Byte, hostname: bool, time: bool, load: bool, others: nat)
    requires flags == Mask(hostname, time, load, others)
    ensures Asks(flags, META_HOSTNAME) == hostname
    ensures Asks(flags, META_TIME) == time && Asks(flags, META_CPULOAD) == load
  {
    var h, t, c := if hostname then 1 else 0, if time then 1 else 0, if load then 1 else 0;
    assert flags == h + 2 * (t + 2 * (c + 2 * others));
  }

  /** The lines the three readings print, within the server's local buffers. */
  datatype Metadata = Metadata(hostname: Bytes, time: Bytes, load: Bytes)

  predicate Printable(m: Metadata) { |m.hostname| <= 74 && |m.time| <= 70 && |m.load| <= 100 }

  function Answer(flags: Byte, m: Metadata): Bytes {
    (if Asks(flags, META_HOSTNAME) then m.hostname else [])
    + (if Asks(flags, META_TIME) then m.time else [])
    + (if Asks(flags, META_CPULOAD) then m.load else [])
  }

  /** The server's side: a RESPONSE under the query's transaction number. The
      mask is the byte behind the headers in the receive buffer, which is
      `leftover` when the packet ends there, and 0 when none is announced. */
  method ProcessQuery(host: Endian, query: Bytes, leftover: Byte, ident: Word, m: Metadata)
    returns (response: Bytes, p: Packet)
    requires IsCldp(query) && Printable(m)
    ensures p.kind == 3 && p.transId == query[22] as int * 256 + query[23] as int && p.dest == query[12..16]
    ensures Sendable(p)
    ensures forall h, t, c, r ::
              (if query[21] == 0 then 0 else (query + [leftover])[28]) == Mask(h, t, c, r)
              ==> Sent(p) == Chosen(h, t, c, m)
    ensures Carries(response, p)
  {
    var transId := TransOf(query);
    var buffer := query + [leftover];
    var flags: Byte := 0;
    if LenOf(query) >= 1 { flags := buffer[HEADERS]; }
    var payload: Bytes := [];
    if Asks(flags, META_HOSTNAME) { payload := payload + m.hostname; }
    if Asks(flags, META_TIME) { payload := payload + m.time; }
    if Asks(flags, META_CPULOAD) { payload := payload + m.load; }
    assert payload == Answer(flags, m);
    p := Packet(Source(query), ident, MSG_RESPONSE, transId, Some(payload), |payload|);
    response := SendPacket(host, p);
    assert payload[..|payload|] == payload;
    forall h, t, c, r | flags == Mask(h, t, c, r) ensures Sent(p) == Chosen(h, t, c, m) {
      AnswerSelects(flags, h, t, c, r, m);
    }
  }

  /** What the network does to a packet: it fills in the sender's address. */
  function From(bs: Bytes, source: Bytes): (r: Bytes)
    requires |bs| >= HEADERS && |source| == 4
    ensures |r| == |bs| && Source(r) == source && r[9] == bs[9]
    ensures KindOf(r) == KindOf(bs) && LenOf(r) == LenOf(bs) && TransOf(r) == TransOf(bs)
    ensures PayloadOf(r) == PayloadOf(bs)
  {
    bs[..12] + source + bs[16..]
  }

  /** A whole exchange, on hosts of any byte order and whatever was in the
      server's buffer before: the answer reaches the client that asked, under
      the number it used, with the readings it asked for and no others. */
  method Exchange(client: Endian, server: Endian, clientAddr: Bytes, serverAddr: Bytes,
                  transId: Word, hostname: bool, time: bool, load: bool, leftover: Byte,
                  ident1: Word, ident2: Word, m: Metadata)
    returns (response: Bytes)
    requires |clientAddr| == 4 && |serverAddr| == 4 && Printable(m)
    ensures |response| == 28 + |Chosen(hostname, time, load, m)|
    ensures response[9] == 253 && response[12..16] == serverAddr && response[16..20] == clientAddr
    ensures response[20] == 3 && response[22] as int * 256 + response[23] as int == transId
    ensures response[21] == |Chosen(hostname, time, load, m)| && response[28..] == Chosen(hostname, time, load, m)
  {
    var flags: Byte := 0;
    if hostname { flags := flags + META_HOSTNAME; }
    if time { flags := flags + META_TIME; }
    if load { flags := flags + META_CPULOAD; }
    assert flags == Mask(hostname, time, load, 0);
    var query := SendPacket(client, Packet(serverAddr, ident1, MSG_QUERY, transId, Some([flags]), 1));
    assert PayloadOf(query) == [flags];
    var arrived := From(query, clientAddr);
    assert arrived[HEADERS] == PayloadOf(arrived)[0] == flags;
    var reply, p := ProcessQuery(server, arrived, leftover, ident2, m);
    response := From(reply, serverAddr);
    assert response[16..20] == reply[16..20];
  }
}
