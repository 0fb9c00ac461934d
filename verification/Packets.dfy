/** The framing of the link: what a received byte stream parses to. */
module Packets {
  import opened Bytes
  import opened LinkCrc

  const HEADER_TX: byte := 0xAA
  const HEADER_RX: byte := 0x55
  const STATUS_OK: byte := 0
  const SYNC_LIMIT := 4096

  function Be16(x: u16): (s: seq<byte>)
    ensures |s| == 2
  {
    [x / 0x100, x % 0x100]
  }

  function Be32(x: u32): (s: seq<byte>)
    ensures |s| == 4
  {
    [x / 0x100 / 0x100 / 0x100, x / 0x100 / 0x100 % 0x100, x / 0x100 % 0x100, x % 0x100]
  }

  function Word(hi: byte, lo: byte): u16 { hi * 0x100 + lo }

  lemma WordBe16(x: u16)
    ensures Word(Be16(x)[0], Be16(x)[1]) == x
  {
  }

  datatype Packet = Packet(cmd: byte, status: byte, payload: seq<byte>)

  predicate Sendable(p: Packet) { |p.payload| < 0x1_0000 }

  /** All that the checksum covers. */
  function Covered(p: Packet): seq<byte>
    requires Sendable(p)
  {
    [p.cmd, p.status] + Be16(|p.payload|) + p.payload
  }

  /** A response on the wire. */
  function Encode(p: Packet): (s: seq<byte>)
    requires Sendable(p)
  {
    [HEADER_RX] + Covered(p) + [Crc8(Covered(p))]
  }

  // ---- receiving ----

  /** What a receiver makes of a stream, and the bytes it leaves for the next one. */
  datatype Parsed<+T> = Parsed(result: Result<T>, rest: seq<byte>)

  /** The bytes before the first header. */
  function Noise(q: seq<byte>): (n: nat)
    ensures n <= |q| && (n < |q| ==> q[n] == HEADER_RX) && forall i :: 0 <= i < n ==> q[i] != HEADER_RX
  {
    if q == [] || q[0] == HEADER_RX then 0 else 1 + Noise(q[1..])
  }

  /** A packet after its header byte. When bytes are missing all that came is gone. */
  function Body(q: seq<byte>): (r: Parsed<Packet>) {
    if |q| < 4 then Parsed(Err, [])
    else
      var n := Word(q[2], q[3]);
      if |q| < 4 + n + 1 then Parsed(Err, [])
      else
        var p := Packet(q[0], q[1], q[4..4 + n]);
        Parsed(if q[4 + n] == Crc8(q[..4 + n]) then Ok(p) else Err, q[4 + n + 1..])
  }

  /** The receiver that first looks for a header, in a bounded stretch. */
  function Receive(q: seq<byte>): (r: Parsed<Packet>) {
    var n := Noise(q);
    if n > SYNC_LIMIT then Parsed(Err, q[SYNC_LIMIT + 1..])
    else if n == |q| then Parsed(Err, [])
    else Body(q[n + 1..])
  }

  /** The bytes of a packet, whatever its checksum, parse to the packet exactly if the checksum is right. */
  lemma BodyExact(p: Packet, crc: byte, rest: seq<byte>)
    requires Sendable(p)
    ensures Body(Covered(p) + [crc] + rest) == Parsed(if crc == Crc8(Covered(p)) then Ok(p) else Err, rest)
  {
    hide Crc8;
    var q := Covered(p) + [crc] + rest;
    var n := |p.payload|;
    WordBe16(n);
    assert q[..4 + n] == Covered(p) && q[4..4 + n] == p.payload && q[4 + n + 1..] == rest;
    assert q[2] == Be16(n)[0] && q[3] == Be16(n)[1];
  }

  lemma {:induction false} NoiseExact(noise: seq<byte>, q: seq<byte>)
    requires HEADER_RX !in noise && q != [] && q[0] == HEADER_RX
    ensures Noise(noise + q) == |noise|
  {
    if noise == [] {
      assert noise + q == q;
    } else {
      assert (noise + q)[1..] == noise[1..] + q;
      NoiseExact(noise[1..], q);
    }
  }

  /** After up to 4096 bytes of noise a packet is received, and not a byte more or less is consumed. */
  lemma ReceiveExact(noise: seq<byte>, p: Packet, rest: seq<byte>)
    requires Sendable(p) && HEADER_RX !in noise && |noise| <= 4096
    ensures Receive(noise + Encode(p) + rest) == Parsed(Ok(p), rest)
  {
    hide Body, Covered;
    ReceiveFramed(noise, p, Crc8(Covered(p)), rest);
    assert noise + Encode(p) + rest == noise + ([HEADER_RX] + (Covered(p) + [Crc8(Covered(p))] + rest));
  }

  lemma ReceiveFramed(noise: seq<byte>, p: Packet, crc: byte, rest: seq<byte>)
    requires Sendable(p) && HEADER_RX !in noise && |noise| <= SYNC_LIMIT
    ensures Receive(noise + ([HEADER_RX] + (Covered(p) + [crc] + rest)))
         == Parsed(if crc == Crc8(Covered(p)) then Ok(p) else Err, rest)
  {
    hide Body, Covered, Crc8;
    var tail := Covered(p) + [crc] + rest;
    var q := noise + ([HEADER_RX] + tail);
    NoiseExact(noise, [HEADER_RX] + tail);
    assert q[|noise| + 1..] == tail;
    BodyExact(p, crc, rest);
  }

  /** With longer noise there is no packet, and the receiver stops after 4097 bytes of it. */
  lemma ReceiveLost(noise: seq<byte>, q: seq<byte>)
    requires HEADER_RX !in noise && |noise| > 4096 && q != [] && q[0] == HEADER_RX
    ensures Receive(noise + q) == Parsed(Err, noise[4097..] + q)
  {
    NoiseExact(noise, q);
    assert (noise + q)[SYNC_LIMIT + 1..] == noise[SYNC_LIMIT + 1..] + q;
  }

  /** Damage within eight consecutive bits of anything but the header and the length is always noticed,
      and the next packet is still found. */
  lemma DamageNoticed(noise: seq<byte>, p: Packet, p': Packet, crc': byte, at: nat, bit: nat, rest: seq<byte>)
    requires Sendable(p) && |p'.payload| == |p.payload| && HEADER_RX !in noise && |noise| <= 4096
    requires Burst(Covered(p) + [Crc8(Covered(p))], Covered(p') + [crc'], at, bit)
    requires p' != p || crc' != Crc8(Covered(p))
    ensures Receive(noise + ([HEADER_RX] + (Covered(p') + [crc'] + rest))) == Parsed(Err, rest)
  {
    hide Receive, Crc8, Burst;
    CoveredInjective(p, p');
    BurstRejected(Covered(p), Covered(p'), crc', at, bit);
    ReceiveFramed(noise, p', crc', rest);
  }

  lemma CoveredInjective(p: Packet, p': Packet)
    requires Sendable(p) && |p'.payload| == |p.payload|
    ensures Covered(p) == Covered(p') ==> p == p'
  {
    assert Covered(p)[0] == p.cmd && Covered(p)[1] == p.status && Covered(p)[4..] == p.payload;
    assert Covered(p')[0] == p'.cmd && Covered(p')[1] == p'.status && Covered(p')[4..] == p'.payload;
  }

  // ---- bursts of sectors ----

  const SECTOR := 512

  /** A sector packet, read without looking for a header. */
  function ReceiveSector(q: seq<byte>): (r: Parsed<seq<byte>>) {
    if q == [] then Parsed(Err, [])
    else if q[0] != HEADER_RX then Parsed(Err, q[1..])
    else if |q| < 5 then Parsed(Err, [])
    else if q[2] != STATUS_OK || Word(q[3], q[4]) != SECTOR then Parsed(Err, q[5..])
    else
      var b := Body(q[1..]);
      Parsed(if b.result.Ok? then Ok(b.result.value.payload) else Err, b.rest)
  }

  function ReceiveSectors(q: seq<byte>, n: nat): (r: Parsed<seq<byte>>)
    decreases n
  {
    if n == 0 then Parsed(Ok([]), q)
    else
      var s := ReceiveSector(q);
      if s.result.Err? then s else After(s.result.value, ReceiveSectors(s.rest, n - 1))
  }

  function After(data: seq<byte>, p: Parsed<seq<byte>>): Parsed<seq<byte>> {
    Parsed(if p.result.Ok? then Ok(data + p.result.value) else Err, p.rest)
  }

  /** A last packet of which only the status matters. */
  function Completed(data: seq<byte>, q: seq<byte>): (r: Parsed<seq<byte>>) {
    var c := Receive(q);
    Parsed(if c.result.Ok? && c.result.value.status == STATUS_OK then Ok(data) else Err, c.rest)
  }

  /** The reply to a read of several sectors. */
  function ReceiveMulti(q: seq<byte>, n: nat): (r: Parsed<seq<byte>>) {
    var d := ReceiveSectors(q, n);
    if d.result.Err? then d else Completed(d.result.value, d.rest)
  }

  /** The reply to a read of one sector: two packets, each found by its header. */
  function ReceiveSingle(q: seq<byte>): (r: Parsed<seq<byte>>) {
    var p := Receive(q);
    if p.result.Err? || p.result.value.status != STATUS_OK then Parsed(Err, p.rest)
    else Completed(p.result.value.payload, p.rest)
  }

  /** The reply to a read of the extended CSD. */
  function ReceiveCsd(q: seq<byte>): (r: Parsed<seq<byte>>) {
    var p := Receive(q);
    if p.result.Err? || p.result.value.status != STATUS_OK || |p.result.value.payload| < SECTOR then Parsed(Err, p.rest)
    else Completed(p.result.value.payload[..SECTOR], p.rest)
  }

  /** Packets on the wire, one after the other. */
  function EncodeAll(ps: seq<Packet>): seq<byte>
    requires forall p :: p in ps ==> Sendable(p)
  {
    if ps == [] then [] else Encode(ps[0]) + EncodeAll(ps[1..])
  }

  function SectorPackets(cmd: byte, data: seq<byte>, n: nat): (ps: seq<Packet>)
    requires |data| == n * SECTOR
    ensures |ps| == n && forall p :: p in ps ==> Sendable(p)
    decreases n
  {
    if n == 0 then []
    else [Packet(cmd, STATUS_OK, data[..SECTOR])] + SectorPackets(cmd, data[SECTOR..], n - 1)
  }

  lemma SectorExact(p: Packet, rest: seq<byte>)
    requires |p.payload| == SECTOR && p.status == STATUS_OK
    ensures ReceiveSector(Encode(p) + rest) == Parsed(Ok(p.payload), rest)
  {
    hide Crc8, Body;
    var q := Encode(p) + rest;
    WordBe16(SECTOR);
    BodyExact(p, Crc8(Covered(p)), rest);
    assert q[1..] == Covered(p) + [Crc8(Covered(p))] + rest;
  }

  /** What the multi-sector loop accepts. */
  predicate Good(p: Packet) { p.status == STATUS_OK && |p.payload| == SECTOR }

  predicate AllGood(ps: seq<Packet>)
    ensures AllGood(ps) ==> forall p :: p in ps ==> Good(p) && Sendable(p)
    ensures !AllGood(ps) ==> exists p :: p in ps && !Good(p)
  {
    ps == [] || (Good(ps[0]) && AllGood(ps[1..]))
  }

  function Payloads(ps: seq<Packet>): seq<byte> {
    if ps == [] then [] else ps[0].payload + Payloads(ps[1..])
  }

  lemma AfterThen(data: seq<byte>, more: seq<byte>, p: Parsed<seq<byte>>)
    ensures After(data, After(more, p)) == After(data + more, p)
  {
    if p.result.Ok? { assert data + (more + p.result.value) == data + more + p.result.value; }
  }

  lemma AfterEnds(p: Parsed<seq<byte>>)
    ensures After([], p) == p
    ensures p.result.Ok? ==> After(p.result.value, Parsed(Ok([]), p.rest)) == p
  {
    if p.result.Ok? { assert [] + p.result.value == p.result.value == p.result.value + []; }
  }

  /** Accepted packets, whatever they contain, are consumed exactly; the loop goes on behind them. */
  lemma {:induction false} SectorsGood(ps: seq<Packet>, q: seq<byte>, n: nat)
    requires |ps| <= n && AllGood(ps)
    ensures ReceiveSectors(EncodeAll(ps) + q, n) == After(Payloads(ps), ReceiveSectors(q, n - |ps|))
    decreases |ps|
  {
    hide Encode, ReceiveSector, After;
    if ps == [] {
      assert EncodeAll(ps) + q == q;
      AfterEnds(ReceiveSectors(q, n));
    } else {
      var tail := EncodeAll(ps[1..]);
      assert EncodeAll(ps) + q == Encode(ps[0]) + (tail + q);
      SectorExact(ps[0], tail + q);
      SectorsGood(ps[1..], q, n - 1);
      AfterThen(ps[0].payload, Payloads(ps[1..]), ReceiveSectors(q, n - |ps|));
    }
  }

  lemma FirstGood(p: Packet, ps: seq<Packet>)
    requires Good(p) && AllGood(ps)
    ensures AllGood([p] + ps) && Payloads([p] + ps) == p.payload + Payloads(ps)
  {
    hide Good;
    assert ([p] + ps)[1..] == ps;
  }

  lemma {:induction false} SectorPacketsGood(cmd: byte, data: seq<byte>, n: nat)
    requires |data| == n * SECTOR
    ensures AllGood(SectorPackets(cmd, data, n))
    ensures Payloads(SectorPackets(cmd, data, n)) == data
    decreases n
  {
    hide AllGood, Payloads;
    if n == 0 {
      NoneGood();
    } else {
      SectorPacketsGood(cmd, data[SECTOR..], n - 1);
      FirstGood(Packet(cmd, STATUS_OK, data[..SECTOR]), SectorPackets(cmd, data[SECTOR..], n - 1));
      assert data[..SECTOR] + data[SECTOR..] == data;
    }
  }

  lemma NoneGood()
    ensures AllGood([]) && Payloads([]) == []
  {
  }

  /** A packet that is not accepted ends the loop after its five header bytes. */
  lemma SectorBad(p: Packet, rest: seq<byte>)
    requires Sendable(p) && !Good(p)
    ensures ReceiveSector(Encode(p) + rest) == Parsed(Err, p.payload + [Crc8(Covered(p))] + rest)
  {
    hide Crc8, Body;
    WordBe16(|p.payload|);
    assert (Encode(p) + rest)[5..] == p.payload + [Crc8(Covered(p))] + rest;
  }

  /** A packet at the head of the stream is received as it is. */
  lemma ReceiveNext(p: Packet, rest: seq<byte>)
    requires Sendable(p)
    ensures Receive(Encode(p) + rest) == Parsed(Ok(p), rest)
  {
    hide Receive, Encode;
    ReceiveExact([], p, rest);
    assert [] + Encode(p) + rest == Encode(p) + rest;
  }

  /** A read of several sectors consumes its N + 1 packets and nothing else, whatever the sectors contain. */
  lemma MultiExact(cmd: byte, data: seq<byte>, n: nat, last: Packet, rest: seq<byte>)
    requires |data| == n * SECTOR && Sendable(last)
    ensures ReceiveMulti(EncodeAll(SectorPackets(cmd, data, n)) + (Encode(last) + rest), n)
         == Parsed(if last.status == STATUS_OK then Ok(data) else Err, rest)
  {
    hide Receive, Encode, EncodeAll, SectorPackets, Payloads;
    SectorPacketsGood(cmd, data, n);
    SectorsGood(SectorPackets(cmd, data, n), Encode(last) + rest, n);
    AfterEnds(Parsed(Ok(data), Encode(last) + rest));
    ReceiveNext(last, rest);
  }

  /** The first packet that is not accepted ends the read; its payload and checksum, and all that follows,
      stay in the stream. */
  lemma MultiAborted(ps: seq<Packet>, bad: Packet, tail: seq<byte>, n: nat)
    requires |ps| < n && AllGood(ps) && Sendable(bad) && !Good(bad)
    ensures ReceiveMulti(EncodeAll(ps) + (Encode(bad) + tail), n)
            == Parsed(Err, bad.payload + [Crc8(Covered(bad))] + tail)
  {
    hide Receive, Encode, EncodeAll, Payloads, Crc8, Covered, ReceiveSector;
    SectorsGood(ps, Encode(bad) + tail, n);
    SectorBad(bad, tail);
  }

  lemma {:induction false} EncodeSplit(ps: seq<Packet>, k: nat)
    requires k <= |ps| && forall p :: p in ps ==> Sendable(p)
    ensures EncodeAll(ps) == EncodeAll(ps[..k]) + EncodeAll(ps[k..])
    decreases k
  {
    hide Encode;
    if k == 0 {
      assert ps[..0] == [] && ps[0..] == ps;
    } else {
      EncodeSplit(ps[1..], k - 1);
      assert ps[..k][0] == ps[0] && ps[..k][1..] == ps[1..][..k - 1] && ps[1..][k - 1..] == ps[k..];
    }
  }

  /** The first packet that is not accepted, or the end. */
  function FirstBad(ps: seq<Packet>): (k: nat)
    ensures k <= |ps| && (k < |ps| ==> !Good(ps[k])) && AllGood(ps[..k])
  {
    assert ps != [] && Good(ps[0]) ==> ps[..1 + FirstBad(ps[1..])][1..] == ps[1..][..FirstBad(ps[1..])];
    if ps == [] || !Good(ps[0]) then 0 else 1 + FirstBad(ps[1..])
  }

  lemma AllInStep(ps: seq<Packet>, last: Packet, rest: seq<byte>)
    requires Sendable(last) && AllGood(ps)
    ensures ReceiveMulti(EncodeAll(ps) + (Encode(last) + rest), |ps|).rest == rest
  {
    hide Receive, Encode, EncodeAll, Payloads, ReceiveSectors, AllGood;
    SectorsGood(ps, Encode(last) + rest, |ps|);
    NoMoreSectors(Encode(last) + rest);
    ReceiveNext(last, rest);
  }

  lemma BadOutOfStep(ps: seq<Packet>, k: nat, q: seq<byte>)
    requires k < |ps| && AllGood(ps[..k]) && !Good(ps[k]) && forall p :: p in ps ==> Sendable(p)
    ensures |ReceiveMulti(EncodeAll(ps) + q, |ps|).rest| > |q|
  {
    hide Encode, EncodeAll, Crc8, Covered, ReceiveMulti, AllGood, Good;
    var tail := EncodeAll(ps[k + 1..]) + q;
    EncodeSplit(ps, k);
    EncodeHead(ps[k..]);
    assert ps[k..][0] == ps[k] && ps[k..][1..] == ps[k + 1..];
    assert EncodeAll(ps) + q == EncodeAll(ps[..k]) + (Encode(ps[k]) + tail);
    MultiAborted(ps[..k], ps[k], tail, |ps|);
  }

  /** Any reply of N + 1 packets to a read of N sectors is consumed whole if and only if the first N are accepted. */
  lemma MultiLockstep(ps: seq<Packet>, last: Packet, rest: seq<byte>)
    requires Sendable(last) && forall p :: p in ps ==> Sendable(p)
    ensures ReceiveMulti(EncodeAll(ps) + (Encode(last) + rest), |ps|).rest == rest
            <==> forall p :: p in ps ==> p.status == 0 && |p.payload| == 512
  {
    hide Encode, EncodeAll, ReceiveMulti;
    var k := FirstBad(ps);
    if k == |ps| {
      assert ps[..k] == ps;
      AllInStep(ps, last, rest);
    } else {
      assert ps[k] in ps;
      BadOutOfStep(ps, k, Encode(last) + rest);
    }
  }

  lemma NoMoreSectors(q: seq<byte>)
    ensures ReceiveSectors(q, 0) == Parsed(Ok([]), q)
  {
  }

  lemma {:induction false} SectorsCut(cmd: byte, data: seq<byte>, n: nat, k: nat)
    requires |data| == n * SECTOR && k <= n
    ensures SectorPackets(cmd, data, n)[..k] == SectorPackets(cmd, data[..k * SECTOR], k)
    ensures forall p :: p in SectorPackets(cmd, data, n) ==> p.status == STATUS_OK
    decreases n
  {
    if n > 0 {
      SectorsCut(cmd, data[SECTOR..], n - 1, if k == 0 then 0 else k - 1);
      if k > 0 {
        assert data[..k * SECTOR][SECTOR..] == data[SECTOR..][..(k - 1) * SECTOR];
        assert data[..k * SECTOR][..SECTOR] == data[..SECTOR];
      }
    }
  }

  lemma EncodeHead(ps: seq<Packet>)
    requires ps != [] && forall p :: p in ps ==> Sendable(p)
    ensures EncodeAll(ps) == Encode(ps[0]) + EncodeAll(ps[1..])
  {
  }

  /** A stray byte before the next reply, if it is not taken for a header: a response that is looked for by its
      header is still found, but a multi-sector read fails and leaves its whole reply behind. */
  lemma StrayByte(c: byte, q: seq<byte>, n: nat, p: Packet, rest: seq<byte>)
    requires c != HEADER_RX && 0 < n && Sendable(p)
    ensures ReceiveMulti([c] + q, n) == Parsed(Err, q)
    ensures Receive([c] + Encode(p) + rest) == Parsed(Ok(p), rest)
  {
    hide Receive, Encode;
    ReceiveExact([c], p, rest);
    assert ([c] + q)[1..] == q;
  }

  /** A reply of two packets is consumed whole exactly when the first one is accepted;
      otherwise the second one is left for the next command. */
  lemma CsdExact(first: Packet, last: Packet, rest: seq<byte>)
    requires Sendable(first) && Sendable(last)
    ensures var accepted := first.status == 0 && |first.payload| >= 512;
            var r := ReceiveCsd(Encode(first) + (Encode(last) + rest));
            && r.rest == (if accepted then rest else Encode(last) + rest)
            && (r.result.Ok? <==> accepted && last.status == 0)
            && (r.result.Ok? ==> r.result.value == first.payload[..512])
  {
    hide Receive, Encode;
    ReceiveNext(first, Encode(last) + rest);
    ReceiveNext(last, rest);
  }

  lemma SingleExact(first: Packet, last: Packet, rest: seq<byte>)
    requires Sendable(first) && Sendable(last)
    ensures var r := ReceiveSingle(Encode(first) + (Encode(last) + rest));
            && r.rest == (if first.status == 0 then rest else Encode(last) + rest)
            && (r.result.Ok? <==> first.status == 0 && last.status == 0)
            && (r.result.Ok? ==> r.result.value == first.payload)
  {
    hide Receive, Encode;
    ReceiveNext(first, Encode(last) + rest);
    ReceiveNext(last, rest);
  }
}
