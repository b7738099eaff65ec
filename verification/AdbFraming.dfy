/**
  The serial packet framing of kernel/adb.c: a 24-byte little-endian header, then
  the payload guarded by its CRC.
*/
module AdbFraming {
  import opened Crc32
  import opened Prelude

  const HEADER_BYTES: nat := 24
  const MAX_DATA: nat := 2048

  datatype Header = Header(command: Word, arg0: Word, arg1: Word, dataLength: Word, dataCrc: Word, magic: Word)

  // ----- words on the wire -----

  function LeBytes(w: Word): (s: seq<Byte>)
    ensures |s| == 4
  {
    [(w & 0xFF) as Byte, ((w >> 8) & 0xFF) as Byte, ((w >> 16) & 0xFF) as Byte, ((w >> 24) & 0xFF) as Byte]
  }

  function LeWord(s: seq<Byte>): Word
    requires |s| == 4
  {
    (s[0] as Word) | ((s[1] as Word) << 8) | ((s[2] as Word) << 16) | ((s[3] as Word) << 24)
  }

  lemma LeRoundTrip(w: Word)
    ensures LeWord(LeBytes(w)) == w
  {
    var b0, b1, b2, b3 := (w & 0xFF) as Byte, ((w >> 8) & 0xFF) as Byte, ((w >> 16) & 0xFF) as Byte, ((w >> 24) & 0xFF) as Byte;
    assert (b0 as Word) == w & 0xFF;
    assert (b1 as Word) == (w >> 8) & 0xFF;
    assert (b2 as Word) == (w >> 16) & 0xFF;
    assert (b3 as Word) == (w >> 24) & 0xFF;
    Reassemble(w);
  }

  lemma Reassemble(w: Word)
    ensures (w & 0xFF) | (((w >> 8) & 0xFF) << 8) | (((w >> 16) & 0xFF) << 16) | (((w >> 24) & 0xFF) << 24) == w
  {
  }

  function AsNat(w: Word): nat {
    w as nat
  }

  lemma {:induction false} SameBytesSameWord(v: Word, w: Word)
    requires LeBytes(v) == LeBytes(w)
    ensures v == w
  {
    LeRoundTrip(v);
    LeRoundTrip(w);
  }

  /** Little-endian, so that commands read by name on the wire: "CNXN", "OPEN",
      "WRTE" and "CLSE". Data is read for the first three and no other. */
  lemma NamesOnTheWire(command: Word)
    ensures Reads(command) <==> LeBytes(command) == [0x43, 0x4E, 0x58, 0x4E] || LeBytes(command) == [0x4F, 0x50, 0x45, 0x4E] ||
                                LeBytes(command) == [0x57, 0x52, 0x54, 0x45]
    ensures LeBytes(A_CLSE) == [0x43, 0x4C, 0x53, 0x45] && !Reads(A_CLSE)
  {
    assert LeBytes(A_CNXN) == [0x43, 0x4E, 0x58, 0x4E];
    assert LeBytes(A_OPEN) == [0x4F, 0x50, 0x45, 0x4E];
    assert LeBytes(A_WRTE) == [0x57, 0x52, 0x54, 0x45];
    hide LeBytes;
    if LeBytes(command) == LeBytes(A_CNXN) { SameBytesSameWord(command, A_CNXN); }
    if LeBytes(command) == LeBytes(A_OPEN) { SameBytesSameWord(command, A_OPEN); }
    if LeBytes(command) == LeBytes(A_WRTE) { SameBytesSameWord(command, A_WRTE); }
  }

  function Encode(h: Header): (s: seq<Byte>)
    ensures |s| == HEADER_BYTES
  {
    LeBytes(h.command) + LeBytes(h.arg0) + LeBytes(h.arg1) + LeBytes(h.dataLength) + LeBytes(h.dataCrc) + LeBytes(h.magic)
  }

  function Decode(s: seq<Byte>): Header
    requires |s| == HEADER_BYTES
  {
    Header(LeWord(s[0..4]), LeWord(s[4..8]), LeWord(s[8..12]), LeWord(s[12..16]), LeWord(s[16..20]), LeWord(s[20..24]))
  }

  lemma HeaderRoundTrip(h: Header)
    ensures Decode(Encode(h)) == h
  {
    hide LeBytes, LeWord;
    LeRoundTrip(h.command);
    LeRoundTrip(h.arg0);
    LeRoundTrip(h.arg1);
    LeRoundTrip(h.dataLength);
    LeRoundTrip(h.dataCrc);
    LeRoundTrip(h.magic);
    FieldsAt(LeBytes(h.command), LeBytes(h.arg0), LeBytes(h.arg1), LeBytes(h.dataLength), LeBytes(h.dataCrc), LeBytes(h.magic));
  }

  lemma FieldsAt(a: seq<Byte>, b: seq<Byte>, c: seq<Byte>, d: seq<Byte>, e: seq<Byte>, f: seq<Byte>)
    requires |a| == |b| == |c| == |d| == |e| == |f| == 4
    ensures var s := a + b + c + d + e + f;
            s[0..4] == a && s[4..8] == b && s[8..12] == c && s[12..16] == d && s[16..20] == e && s[20..24] == f
  {
    var s := a + b + c + d + e + f;
    assert s[0..4] == a;
    assert s[4..8] == b;
    assert s[8..12] == c;
    assert s[12..16] == d;
    assert s[16..20] == e;
    assert s[20..24] == f;
  }

  // ----- packets -----

  /** `length` is the 32-bit count that goes into the header. */
  datatype Packet = Packet(command: Word, arg0: Word, arg1: Word, length: Word, payload: seq<Byte>)

  predicate Measured(p: Packet) {
    |p.payload| == AsNat(p.length)
  }

  /** The packets the other end takes. */
  predicate Sendable(p: Packet) {
    Measured(p) && |p.payload| <= MAX_DATA
  }

  function HeaderOf(p: Packet): Header {
    Header(p.command, p.arg0, p.arg1, p.length,
           if p.payload == [] then 0 else Crc(p.payload), Xor(p.command, ONES))
  }

  /** What `send_packet` puts on the wire. */
  function Wire(p: Packet): seq<Byte> {
    Encode(HeaderOf(p)) + p.payload
  }

  /** Four bytes from `at` on, as a number, least significant first. */
  function NumberAt(s: seq<Byte>, at: nat): Word
    requires at + 4 <= |s|
  {
    (s[at] as Word) + 0x100 * (s[at + 1] as Word) + 0x1_0000 * (s[at + 2] as Word) + 0x100_0000 * (s[at + 3] as Word)
  }

  lemma WordIsNumber(b0: Byte, b1: Byte, b2: Byte, b3: Byte)
    ensures LeWord([b0, b1, b2, b3]) ==
            (b0 as Word) + 0x100 * (b1 as Word) + 0x1_0000 * (b2 as Word) + 0x100_0000 * (b3 as Word)
  {
    SumOfOctets(b0 as Word, b1 as Word, b2 as Word, b3 as Word);
  }

  lemma SumOfOctets(w0: Word, w1: Word, w2: Word, w3: Word)
    requires w0 < 0x100 && w1 < 0x100 && w2 < 0x100 && w3 < 0x100
    ensures w0 | (w1 << 8) | (w2 << 16) | (w3 << 24) == w0 + 0x100 * w1 + 0x1_0000 * w2 + 0x100_0000 * w3
  {
  }

  lemma SliceIsNumber(s: seq<Byte>, at: nat)
    requires at + 4 <= |s|
    ensures LeWord(s[at..at + 4]) == NumberAt(s, at)
  {
    hide LeWord;
    WordIsNumber(s[at], s[at + 1], s[at + 2], s[at + 3]);
    assert s[at..at + 4] == [s[at], s[at + 1], s[at + 2], s[at + 3]];
  }

  /** Where everything lies in a header: command, two arguments, length, CRC, magic. */
  lemma FieldsAreNumbers(s: seq<Byte>)
    requires |s| == HEADER_BYTES
    ensures Decode(s) == Header(NumberAt(s, 0), NumberAt(s, 4), NumberAt(s, 8), NumberAt(s, 12), NumberAt(s, 16), NumberAt(s, 20))
  {
    hide LeWord, NumberAt;
    SliceIsNumber(s, 0);
    SliceIsNumber(s, 4);
    SliceIsNumber(s, 8);
    SliceIsNumber(s, 12);
    SliceIsNumber(s, 16);
    SliceIsNumber(s, 20);
  }

  /** What goes over the wire, byte by byte: the header with the length, the CRC (0
      when there is no data) and the command's complement, then the data. */
  lemma WireLayout(p: Packet)
    ensures var s := Wire(p);
            && |s| == 24 + |p.payload| && s[24..] == p.payload
            && NumberAt(s, 0) == p.command && NumberAt(s, 4) == p.arg0 && NumberAt(s, 8) == p.arg1
            && NumberAt(s, 12) == p.length
            && NumberAt(s, 16) == (if p.payload == [] then 0 else Crc(p.payload))
            && NumberAt(s, 20) == Xor(p.command, ONES)
  {
    hide LeBytes, LeWord, Crc, Xor, NumberAt, Encode, Decode;
    var e, s := Encode(HeaderOf(p)), Wire(p);
    HeaderRoundTrip(HeaderOf(p));
    FieldsAreNumbers(e);
    SameNumbers(e, s);
  }

  /** Return codes of the two receive routines. A byte that never arrives is a
      timeout, whatever the number of tries. */
  function HeaderCode(rx: seq<Byte>): (r: int)
    ensures -3 <= r <= 0 && (r != -1 ==> |rx| >= HEADER_BYTES)
  {
    if |rx| < HEADER_BYTES then -1 else
      var h := Decode(rx[..HEADER_BYTES]);
      if h.magic != Xor(h.command, ONES) then -2
      else if AsNat(h.dataLength) > MAX_DATA then -3
      else 0
  }

  function DataCode(rx: seq<Byte>, len: nat, expected: Word): (r: int)
    ensures (r == -1 || r == -4 || r == 0) && (r != -1 ==> |rx| >= len) && (len == 0 ==> r == 0)
  {
    if |rx| < len then -1
    else if len > 0 && Crc(rx[..len]) != expected then -4
    else 0
  }

  /** A header is taken exactly when 24 bytes arrive, the last word is the complement
      of the first, and the length is at most 2048; and which code refuses it. */
  lemma HeaderTakenIff(rx: seq<Byte>)
    ensures HeaderCode(rx) == -1 <==> |rx| < 24
    ensures HeaderCode(rx) == -2 <==> |rx| >= 24 && NumberAt(rx, 20) != Xor(NumberAt(rx, 0), ONES)
    ensures HeaderCode(rx) == -3 <==> |rx| >= 24 && NumberAt(rx, 20) == Xor(NumberAt(rx, 0), ONES) && AsNat(NumberAt(rx, 12)) > 2048
    ensures HeaderCode(rx) == 0 <==> |rx| >= 24 && NumberAt(rx, 20) == Xor(NumberAt(rx, 0), ONES) && AsNat(NumberAt(rx, 12)) <= 2048
  {
    hide NumberAt, Decode, AsNat, LeWord, Xor;
    if |rx| >= 24 {
      var h := rx[..24];
      FieldsAreNumbers(h);
      SameNumbers(h, rx);
    }
  }

  lemma SameNumbers(h: seq<Byte>, s: seq<Byte>)
    requires h <= s
    ensures forall at :: 0 <= at && at + 4 <= |h| ==> NumberAt(s, at) == NumberAt(h, at)
  {
  }

  /** Data is taken exactly when all of it arrives and, unless there is none, its
      CRC is the expected one. */
  lemma DataTakenIff(rx: seq<Byte>, len: nat, expected: Word)
    ensures DataCode(rx, len, expected) == 0 <==> len == 0 || (|rx| >= len && Crc(rx[..len]) == expected)
    ensures DataCode(rx, len, expected) == -1 <==> |rx| < len
  {
    hide Crc;
  }

  // ----- one poll -----

  const A_CNXN: Word := 0x4E584E43
  const A_OPEN: Word := 0x4E45504F
  const A_CLSE: Word := 0x45534C43
  const A_WRTE: Word := 0x45545257

  /** The commands whose data `adb_poll` reads. */
  predicate Reads(command: Word) {
    command == A_CNXN || command == A_OPEN || command == A_WRTE
  }

  /** What a poll makes of the input: a code below 0, or a packet with the data that
      was read. */
  datatype Outcome = Refused(code: int) | Got(packet: Packet)

  function DeclaredLength(rx: seq<Byte>): nat
    requires |rx| >= HEADER_BYTES
  {
    AsNat(Decode(rx[..HEADER_BYTES]).dataLength)
  }

  /** How much data a poll reads behind this header. */
  function ReadLength(rx: seq<Byte>): nat
    requires |rx| >= HEADER_BYTES
  {
    if Reads(Decode(rx[..HEADER_BYTES]).command) then DeclaredLength(rx) else 0
  }

  function PollCode(rx: seq<Byte>): int {
    if HeaderCode(rx) < 0 then HeaderCode(rx)
    else DataCode(rx[HEADER_BYTES..], ReadLength(rx), Decode(rx[..HEADER_BYTES]).dataCrc)
  }

  function Polled(rx: seq<Byte>): Outcome {
    if PollCode(rx) < 0 then Refused(PollCode(rx))
    else
      var h := Decode(rx[..HEADER_BYTES]);
      Got(Packet(h.command, h.arg0, h.arg1, h.dataLength, rx[HEADER_BYTES..][..ReadLength(rx)]))
  }

  function AfterPoll(rx: seq<Byte>): seq<Byte> {
    if PollCode(rx) == -1 then []
    else if HeaderCode(rx) < 0 then rx[HEADER_BYTES..]
    else rx[HEADER_BYTES..][ReadLength(rx)..]
  }

  // ----- the serial port and the routines -----

  class AdbPort {
    var rx: seq<Byte>  // bytes that will still arrive in time
    var tx: seq<Byte>  // bytes put out
    const tab: array<Word>

    ghost predicate Valid()
      reads this, tab
    {
      tab.Length == 256 && IsTable(tab[..])
    }

    /** `adb_init`. */
    constructor (incoming: seq<Byte>)
      ensures Valid() && fresh(tab) && rx == incoming && tx == []
    {
      rx := incoming;
      tx := [];
      tab := new Word[256];
      new;
      InitCrc32(tab);
    }

    /** `send_packet`. */
    method SendPacket(cmd: Word, a0: Word, a1: Word, data: seq<Byte>, dlen: Word)
      requires Valid() && |data| == AsNat(dlen)
      modifies `tx
      ensures tx == old(tx) + Wire(Packet(cmd, a0, a1, dlen, data))
    {
      hide IsTable, Crc, Xor, LeBytes;
      var crc: Word := 0;
      if |data| > 0 {
        crc := CalcCrc32(tab, data);
      }
      var hdr := Encode(Header(cmd, a0, a1, dlen, crc, Xor(cmd, ONES)));
      for i := 0 to HEADER_BYTES
        invariant tx == old(tx) + hdr[..i]
      {
        tx := tx + [hdr[i]];
      }
      assert hdr[..HEADER_BYTES] == hdr;
      for i := 0 to |data|
        invariant tx == old(tx) + hdr + data[..i]
      {
        tx := tx + [data[i]];
      }
      assert data[..|data|] == data;
    }

    /** `recv_header`. */
    method RecvHeader() returns (r: int, pkt: Header)
      modifies `rx
      ensures r == HeaderCode(old(rx))
      ensures r == -1 ==> rx == []
      ensures r != -1 ==> |old(rx)| >= HEADER_BYTES && rx == old(rx)[HEADER_BYTES..] && pkt == Decode(old(rx)[..HEADER_BYTES])
    {
      hide Xor, LeWord;
      var hdr: seq<Byte> := [];
      pkt := Header(0, 0, 0, 0, 0, 0);
      for i := 0 to HEADER_BYTES
        invariant |hdr| == i && old(rx) == hdr + rx
      {
        if rx == [] { return -1, pkt; }
        hdr := hdr + [rx[0]];
        rx := rx[1..];
      }
      assert old(rx)[..HEADER_BYTES] == hdr && old(rx)[HEADER_BYTES..] == rx;
      pkt := Decode(hdr);
      if pkt.magic != Xor(pkt.command, ONES) { return -2, pkt; }
      if AsNat(pkt.dataLength) > MAX_DATA { return -3, pkt; }
      return 0, pkt;
    }

    /** `recv_data`. */
    method RecvData(len: nat, expected: Word) returns (r: int, buf: seq<Byte>)
      requires Valid()
      modifies `rx
      ensures r == DataCode(old(rx), len, expected)
      ensures r == -1 ==> rx == []
      ensures r != -1 ==> len <= |old(rx)| && buf == old(rx)[..len] && rx == old(rx)[len..]
    {
      hide IsTable, Crc;
      buf := [];
      for i := 0 to len
        invariant |buf| == i && old(rx) == buf + rx
      {
        if rx == [] { return -1, buf; }
        buf := buf + [rx[0]];
        rx := rx[1..];
      }
      assert old(rx)[..len] == buf && old(rx)[len..] == rx;
      if len > 0 {
        var crc := CalcCrc32(tab, buf);
        if crc != expected { return -4, buf; }
      }
      return 0, buf;
    }

    /** `adb_poll`, up to what it does with a packet: only connect, open and write
        packets have their data read. */
    method Poll() returns (outcome: Outcome)
      requires Valid()
      modifies `rx
      ensures outcome == Polled(old(rx)) && rx == AfterPoll(old(rx))
    {
      hide IsTable, HeaderCode, DataCode, Decode, AsNat, Reads;
      var r, h := RecvHeader();
      if r < 0 { return Refused(r); }
      var buf: seq<Byte> := [];
      if Reads(h.command) && AsNat(h.dataLength) > 0 {
        r, buf := RecvData(AsNat(h.dataLength), h.dataCrc);
        if r < 0 { return Refused(r); }
      }
      return Got(Packet(h.command, h.arg0, h.arg1, h.dataLength, buf));
    }
  }

  // ----- a stream of packets -----

  /** The two receive routines, one after the other, take a whole packet. */
  predicate Accepts(rx: seq<Byte>) {
    && HeaderCode(rx) == 0
    && DataCode(rx[HEADER_BYTES..], DeclaredLength(rx), Decode(rx[..HEADER_BYTES]).dataCrc) == 0
  }

  function FirstPacket(rx: seq<Byte>): Packet
    requires Accepts(rx)
  {
    var h := Decode(rx[..HEADER_BYTES]);
    Packet(h.command, h.arg0, h.arg1, h.dataLength, rx[HEADER_BYTES..HEADER_BYTES + DeclaredLength(rx)])
  }

  function AfterFirst(rx: seq<Byte>): seq<Byte>
    requires Accepts(rx)
  {
    rx[HEADER_BYTES + DeclaredLength(rx)..]
  }

  function Stream(ps: seq<Packet>): seq<Byte> {
    if ps == [] then [] else Wire(ps[0]) + Stream(ps[1..])
  }

  /** Receiving until input is no longer accepted. */
  function Received(rx: seq<Byte>): seq<Packet> {
    if Accepts(rx) then [FirstPacket(rx)] + Received(AfterFirst(rx)) else []
  }

  function Leftover(rx: seq<Byte>): seq<Byte> {
    if Accepts(rx) then Leftover(AfterFirst(rx)) else rx
  }

  lemma PacketRoundTrip(p: Packet, rest: seq<Byte>)
    requires Sendable(p)
    ensures Accepts(Wire(p) + rest) && FirstPacket(Wire(p) + rest) == p && AfterFirst(Wire(p) + rest) == rest
  {
    hide Encode, Decode, Crc, Xor;
    var rx := Wire(p) + rest;
    HeaderRoundTrip(HeaderOf(p));
    assert rx[..HEADER_BYTES] == Encode(HeaderOf(p));
    assert rx[HEADER_BYTES..] == p.payload + rest;
    assert rx[HEADER_BYTES..][..|p.payload|] == p.payload;
    assert rx[HEADER_BYTES..HEADER_BYTES + |p.payload|] == p.payload;
  }

  /** Main result on framing: when header and data are received in turn, any packets
      sent back to back come out as they were sent, and every byte is consumed. */
  lemma {:induction false} StreamRoundTrip(ps: seq<Packet>)
    requires forall p :: p in ps ==> Sendable(p)
    ensures Received(Stream(ps)) == ps && Leftover(Stream(ps)) == []
  {
    hide Accepts, FirstPacket, AfterFirst, Wire;
    if ps == [] {
      NothingAccepted();
    } else {
      PacketRoundTrip(ps[0], Stream(ps[1..]));
      StreamRoundTrip(ps[1..]);
      assert ps == [ps[0]] + ps[1..];
    }
  }

  lemma NothingAccepted()
    ensures !Accepts([])
  {
  }

  /** A payload damaged inside four consecutive bytes is refused with -4. */
  lemma DamagedPayloadIsRefused(p: Packet, before: seq<Byte>, w: seq<Byte>, v: seq<Byte>, after: seq<Byte>, rest: seq<Byte>)
    requires Sendable(p) && p.payload == before + w + after && |v| == |w| <= 4 && v != w
    ensures DataCode(before + v + after + rest, |p.payload|, HeaderOf(p).dataCrc) == -4
  {
    hide Crc;
    BurstChangesCrc(before, w, v, after);
    assert (before + v + after + rest)[..|p.payload|] == before + v + after;
  }

  // ----- polling a stream -----

  /** What is left of the input after `n` polls. */
  function RestAfter(rx: seq<Byte>, n: nat): seq<Byte> {
    if n == 0 then rx else AfterPoll(RestAfter(rx, n - 1))
  }

  /** Each poll starts where a packet starts. */
  predicate InStep(ps: seq<Packet>) {
    forall i :: 0 <= i <= |ps| ==> RestAfter(Stream(ps), i) == Stream(ps[i..])
  }

  predicate DataIsRead(p: Packet) {
    Reads(p.command) || p.payload == []
  }

  lemma PollOfWire(p: Packet, rest: seq<Byte>)
    requires Sendable(p)
    ensures DataIsRead(p) ==> Polled(Wire(p) + rest) == Got(p) && AfterPoll(Wire(p) + rest) == rest
    ensures !DataIsRead(p) ==> Polled(Wire(p) + rest) == Got(p.(payload := [])) &&
                               AfterPoll(Wire(p) + rest) == p.payload + rest
  {
    hide Encode, Decode, Crc, Xor;
    var rx := Wire(p) + rest;
    HeaderRoundTrip(HeaderOf(p));
    assert rx[..HEADER_BYTES] == Encode(HeaderOf(p));
    assert rx[HEADER_BYTES..] == p.payload + rest;
    assert rx[HEADER_BYTES..][..|p.payload|] == p.payload;
    assert rx[HEADER_BYTES..][|p.payload|..] == rest;
  }

  /** A damaged payload costs its own packet and no more: the poll that refuses it
      leaves the input at the next packet. */
  lemma DamageCostsOnePacket(p: Packet, before: seq<Byte>, w: seq<Byte>, v: seq<Byte>, after: seq<Byte>, rest: seq<Byte>)
    requires Sendable(p) && Reads(p.command)
    requires p.payload == before + w + after && |v| == |w| <= 4 && v != w
    ensures var rx := Wire(p)[..24] + (before + v + after) + rest;
            Polled(rx) == Refused(-4) && AfterPoll(rx) == rest
  {
    hide Encode, Decode, Crc, Xor, Reads;
    var rx := Wire(p)[..24] + (before + v + after) + rest;
    HeaderRoundTrip(HeaderOf(p));
    DamagedPayloadIsRefused(p, before, w, v, after, rest);
    assert rx[..HEADER_BYTES] == Encode(HeaderOf(p));
    assert rx[HEADER_BYTES..] == before + v + after + rest;
    assert rx[HEADER_BYTES..][|p.payload|..] == rest;
  }

  /** A header that is refused costs its 24 bytes, one cut short all that is left. */
  lemma BadHeaderCosts(rx: seq<Byte>)
    requires HeaderCode(rx) != 0
    ensures Polled(rx).Refused?
    ensures AfterPoll(rx) == rx[Min(24, |rx|)..]
  {
    hide Decode, Xor, AsNat;
  }

  lemma StreamFrom(ps: seq<Packet>, i: nat)
    requires i < |ps|
    ensures Stream(ps[i..]) == Wire(ps[i]) + Stream(ps[i + 1..])
  {
    assert ps[i..][1..] == ps[i + 1..];
  }

  /** As long as all data is read, polling stays in step and gets every packet. */
  lemma {:induction false} StaysInStep(ps: seq<Packet>, n: nat)
    requires n <= |ps| && forall i :: 0 <= i < |ps| ==> Sendable(ps[i]) && (i < n ==> DataIsRead(ps[i]))
    ensures RestAfter(Stream(ps), n) == Stream(ps[n..])
    ensures n > 0 ==> Polled(RestAfter(Stream(ps), n - 1)) == Got(ps[n - 1])
  {
    hide Polled, AfterPoll, Wire, DataIsRead, Sendable;
    if n > 0 {
      StaysInStep(ps, n - 1);
      StreamFrom(ps, n - 1);
      PollOfWire(ps[n - 1], Stream(ps[n..]));
    } else {
      assert ps[0..] == ps;
    }
  }

  /** Main result on polling: a stream of sent packets is polled in step exactly when
      every packet of a command whose data is not read carries none. */
  lemma PollsInStepIff(ps: seq<Packet>)
    requires forall i :: 0 <= i < |ps| ==> Sendable(ps[i])
    ensures InStep(ps) <==> forall i :: 0 <= i < |ps| ==> DataIsRead(ps[i])
    ensures InStep(ps) ==> forall i :: 0 <= i < |ps| ==> Polled(RestAfter(Stream(ps), i)) == Got(ps[i])
  {
    hide Polled, AfterPoll, Wire, Sendable;
    if InStep(ps) {
      forall i | 0 <= i < |ps|
        ensures DataIsRead(ps[i])
      {
        StreamFrom(ps, i);
        PollOfWire(ps[i], Stream(ps[i + 1..]));
        assert RestAfter(Stream(ps), i + 1) == Stream(ps[i + 1..]);
      }
    }
    if forall i :: 0 <= i < |ps| ==> DataIsRead(ps[i]) {
      forall n | 0 <= n <= |ps|
        ensures RestAfter(Stream(ps), n) == Stream(ps[n..])
      {
        StaysInStep(ps, n);
      }
      forall i | 0 <= i < |ps|
        ensures Polled(RestAfter(Stream(ps), i)) == Got(ps[i])
      {
        StaysInStep(ps, i + 1);
      }
    }
  }

  /** Out of step: the data of a close packet is polled as a packet of its own, here
      any packet without data. */
  lemma DataTakenForPacket(command: Word, arg0: Word, arg1: Word, rest: seq<Byte>)
    ensures var inner := Packet(command, arg0, arg1, 0, []);
            var outer := Packet(A_CLSE, 1, 2, 24, Wire(inner));
            Sendable(outer) && Polled(RestAfter(Wire(outer) + rest, 1)) == Got(inner)
  {
    hide Polled, AfterPoll, Encode, Crc, Xor;
    var inner := Packet(command, arg0, arg1, 0, []);
    var outer := Packet(A_CLSE, 1, 2, 24, Wire(inner));
    PollOfWire(outer, rest);
    PollOfWire(inner, rest);
    assert RestAfter(Wire(outer) + rest, 1) == AfterPoll(RestAfter(Wire(outer) + rest, 0));
  }
}
