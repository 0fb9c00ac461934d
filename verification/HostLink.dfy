/** The host's end of the link: commands, responses and the pipelined restore. */
module HostLink {
  import opened Bytes
  import opened LinkCrc
  import opened Packets
  import opened Device

  /** The fate of one transport call. A failed read may lose some of what has arrived, and a send that is reported
      as failed may have reached the controller all the same. */
  datatype Fate = Fine | Fail(lost: nat, reached: bool)

  const MAX_WRITE_CHUNK := 16

  lemma NoiseAt(q: seq<byte>, n: nat)
    requires n <= |q| && HEADER_RX !in q[..n] && (n < |q| ==> q[n] == HEADER_RX)
    ensures Noise(q) == n
  {
    if n < |q| {
      NoiseExact(q[..n], q[n..]);
      assert q[..n] + q[n..] == q;
    } else {
      assert q[..n] == q;
    }
  }

  /** The controller has received this command, if it is one, and its answer is on the way. */
  predicate Reached(dev: Dev, incoming: seq<byte>, dev': Dev, incoming': seq<byte>, c: Option<Command>) {
    if c.None? then dev' == dev && incoming' == incoming
    else var a := Respond(dev, c.value); dev' == a.dev && incoming' == incoming + EncodeAll(a.packets)
  }

  /** A command whose payload has more than 64 KiB does not arrive as one. */
  function Arriving(cmd: byte, payload: seq<byte>): Option<Command> {
    if |payload| < 0x1_0000 then Some(Command(cmd, payload)) else None
  }

  /** What a packet adds to the commands received. */
  function Got(c: Option<Command>): seq<Command> { if c.Some? then [c.value] else [] }

  /** The card has a write cache: its size, four bytes of the extended CSD, is not zero. */
  predicate HasCache(csd: seq<byte>) { |csd| == 512 && csd[249..253] != [0, 0, 0, 0] }

  /** The extended CSD can be read. */
  predicate Tells(dev: Dev) { |dev.csd| == 512 && Coming(dev).Accept? }

  /** The commands that switch a cache on: a request for the extended CSD and, if it shows a cache that is off, a write
      of register 33. */
  function CacheCommands(dev: Dev): seq<Command> {
    [Command(0x07, [])] +
    if Tells(dev) && HasCache(dev.csd) && dev.csd[33] != 1 then [Command(0x09, [33, 1])] else []
  }

  lemma HasCacheBytes(csd: seq<byte>)
    requires |csd| == 512
    ensures HasCache(csd) <==> !(csd[249] == 0 && csd[250] == 0 && csd[251] == 0 && csd[252] == 0)
  {
    assert csd[249..253] == [csd[249], csd[250], csd[251], csd[252]];
  }

  class Connection {
    var device: Dev
    /** What the controller has sent and the host has not yet read. */
    var incoming: seq<byte>
    var faults: seq<Fate>
    /** The commands that have reached the controller. */
    ghost var received: seq<Command>
    /** Writes sent and not yet answered, and the most there ever were. */
    ghost var owed: nat
    ghost var peak: nat

    method NextFate() returns (f: Fate)
      modifies this`faults
      ensures old(faults) == [] ==> f == Fine && faults == []
    {
      if faults == [] { return Fine; }
      f := faults[0];
      faults := faults[1..];
    }

    /** Sends a packet; the controller answers behind whatever it sent before. */
    method WriteAll(packet: seq<byte>) returns (r: Result<()>)
      modifies this`device, this`incoming, this`faults, this`received
      ensures r.Ok? ==> Reached(old(device), old(incoming), device, incoming, DecodeCommand(packet))
      ensures r.Err? ==> (device == old(device) && incoming == old(incoming))
                         || Reached(old(device), old(incoming), device, incoming, DecodeCommand(packet))
      ensures received == old(received) || received == old(received) + Got(DecodeCommand(packet))
      ensures r.Ok? ==> received == old(received) + Got(DecodeCommand(packet))
      ensures old(faults) == [] ==> faults == [] && r.Ok?
    {
      var f := NextFate();
      if f.Fail? && !f.reached { return Err; }
      var c := DecodeCommand(packet);
      if c.Some? {
        var a := Respond(device, c.value);
        device := a.dev;
        incoming := incoming + EncodeAll(a.packets);
        received := received + [c.value];
      }
      r := if f.Fail? then Err else Ok(());
    }

    method ReadExact(n: nat) returns (r: Result<seq<byte>>)
      modifies this`incoming, this`faults
      ensures r.Ok? ==> n <= |old(incoming)| && r.value == old(incoming)[..n] && incoming == old(incoming)[n..]
      ensures old(faults) == [] ==> faults == [] && (r.Err? <==> n > |old(incoming)|) && (r.Err? ==> incoming == [])
    {
      var f := NextFate();
      if f.Fail? {
        incoming := incoming[Min(f.lost, |incoming|)..];
        return Err;
      }
      if n > |incoming| {
        incoming := [];
        return Err;
      }
      r := Ok(incoming[..n]);
      incoming := incoming[n..];
    }

    // ---- commands and responses ----

    method SendCommandNoRecv(cmd: byte, payload: seq<byte>) returns (r: Result<()>)
      modifies this`device, this`incoming, this`faults, this`received
      ensures r.Ok? ==> Reached(old(device), old(incoming), device, incoming, Arriving(cmd, payload))
      ensures r.Err? ==> (device == old(device) && incoming == old(incoming))
                         || Reached(old(device), old(incoming), device, incoming, Arriving(cmd, payload))
      ensures received == old(received) || received == old(received) + Got(Arriving(cmd, payload))
      ensures r.Ok? ==> received == old(received) + Got(Arriving(cmd, payload))
      ensures old(faults) == [] ==> faults == [] && r.Ok?
    {
      hide Respond, EncodeAll, DecodeCommand, Crc8, Reached;
      CommandArrives(cmd, payload);
      var covered := [cmd] + Be16(|payload| % 0x1_0000) + payload;
      var checksum := ComputeCrc8(covered);
      var packet := [HEADER_TX, cmd] + Be16(|payload| % 0x1_0000) + payload + [checksum];
      assert packet == EncodeCommand(cmd, payload);
      r := WriteAll(packet);
    }

    /** The scan for a header byte. */
    method Sync() returns (r: Result<()>)
      modifies this`incoming, this`faults
      ensures r.Ok? || old(faults) == [] ==>
                var n := Noise(old(incoming));
                if n > SYNC_LIMIT then r.Err? && incoming == old(incoming)[SYNC_LIMIT + 1..]
                else if n == |old(incoming)| then r.Err? && incoming == []
                else r.Ok? && incoming == old(incoming)[n + 1..]
      ensures old(faults) == [] ==> faults == []
    {
      hide Noise;
      ghost var q := incoming;
      var attempts := 0;
      while true
        invariant 0 <= attempts <= SYNC_LIMIT && attempts <= |q| && incoming == q[attempts..]
        invariant HEADER_RX !in q[..attempts]
        invariant old(faults) == [] ==> faults == []
        decreases SYNC_LIMIT - attempts
      {
        var b := ReadExact(1);
        if b.Err? {
          if attempts == |q| { NoiseAt(q, attempts); }
          return Err;
        }
        if b.value[0] == HEADER_RX {
          NoiseAt(q, attempts);
          return Ok(());
        }
        assert q[..attempts + 1] == q[..attempts] + [q[attempts]];
        attempts := attempts + 1;
        if attempts > SYNC_LIMIT {
          NoiseBeyond(q, attempts);
          return Err;
        }
      }
    }

    lemma NoiseBeyond(q: seq<byte>, n: nat)
      requires n <= |q| && HEADER_RX !in q[..n]
      ensures Noise(q) >= n
    {
      forall i | 0 <= i < n ensures q[i] != HEADER_RX {
        assert q[i] == q[..n][i];
      }
    }

    /** A packet after its header byte. */
    method RecvBody() returns (r: Result<Packet>)
      modifies this`incoming, this`faults
      ensures r.Ok? || old(faults) == [] ==> Parsed(r, incoming) == Body(old(incoming))
      ensures old(faults) == [] ==> faults == []
    {
      hide Crc8, Word, Be16;
      ghost var q := incoming;
      var hdr :- ReadExact(4);
      var length := Word(hdr[2], hdr[3]);
      var payload: seq<byte> := [];
      if length > 0 {
        payload :- ReadExact(length);
      }
      var crcByte :- ReadExact(1);
      CoveredIs(q, length, payload);
      var covered := [hdr[0], hdr[1]] + Be16(length) + payload;
      var expected := ComputeCrc8(covered);
      if crcByte[0] != expected { return Err; }
      return Ok(Packet(hdr[0], hdr[1], payload));
    }

    /** The bytes that the receiver puts back together are those that came. */
    lemma CoveredIs(q: seq<byte>, length: nat, payload: seq<byte>)
      requires |q| >= 4 + length && length == Word(q[2], q[3])
      requires payload == if length > 0 then q[4..][..length] else []
      ensures payload == q[4..4 + length] && [q[0], q[1]] + Be16(length) + payload == q[..4 + length]
    {
      hide Word, Be16;
      WordBytes(q[2], q[3]);
    }

    lemma WordBytes(hi: byte, lo: byte)
      ensures Be16(Word(hi, lo)) == [hi, lo]
    {
    }

    method RecvResponse() returns (r: Result<Packet>)
      modifies this`incoming, this`faults
      ensures r.Ok? || old(faults) == [] ==> Parsed(r, incoming) == Receive(old(incoming))
      ensures old(faults) == [] ==> faults == []
    {
      hide Body, Noise;
      var found := Sync();
      if found.Err? { return Err; }
      r := RecvBody();
    }

    /** The final packet of an exchange, of which only the status matters. */
    method RecvCompletion(data: seq<byte>) returns (r: Result<seq<byte>>)
      modifies this`incoming, this`faults
      ensures r.Ok? || old(faults) == [] ==> Parsed(r, incoming) == Completed(data, old(incoming))
      ensures old(faults) == [] ==> faults == []
    {
      hide Receive;
      var last := RecvResponse();
      if last.Err? || last.value.status != STATUS_OK { return Err; }
      return Ok(data);
    }

    // ---- reading ----

    /** One turn of the multi-sector loop: exact byte counts, no search for a header. */
    method RecvSector() returns (r: Result<seq<byte>>)
      modifies this`incoming, this`faults
      ensures r.Ok? || old(faults) == [] ==> Parsed(r, incoming) == ReceiveSector(old(incoming))
      ensures old(faults) == [] ==> faults == []
    {
      hide Crc8;
      ghost var q := incoming;
      var hdr :- ReadExact(1);
      if hdr[0] != HEADER_RX { return Err; }
      var pktHdr :- ReadExact(4);
      var length := Word(pktHdr[2], pktHdr[3]);
      if pktHdr[1] != STATUS_OK || length != SECTOR { return Err; }
      var sectorBuf :- ReadExact(SECTOR + 1);
      WordBytes(pktHdr[2], pktHdr[3]);
      var covered := [pktHdr[0], pktHdr[1]] + Be16(length) + sectorBuf[..SECTOR];
      assert covered == q[1..][..4 + SECTOR];
      assert sectorBuf[..SECTOR] == q[1..][4..4 + SECTOR];
      var expected := ComputeCrc8(covered);
      if sectorBuf[SECTOR] != expected { return Err; }
      return Ok(sectorBuf[..SECTOR]);
    }

    method ReadSectorsMulti(lba: u32, count: u16) returns (r: Result<seq<byte>>)
      modifies this`device, this`incoming, this`faults, this`received
      ensures r.Ok? || old(faults) == [] ==>
                var a := Respond(old(device), Command(CMD_READ_SECTOR, Target(lba, count)));
                device == a.dev && Parsed(r, incoming) == ReceiveMulti(old(incoming) + EncodeAll(a.packets), count)
      ensures device == old(device) || device == Respond(old(device), Command(CMD_READ_SECTOR, Target(lba, count))).dev
      ensures r.Ok? || old(faults) == [] ==> received == old(received) + [Command(0x03, Target(lba, count))]
      ensures old(faults) == [] ==> faults == []
    {
      hide Respond, EncodeAll, ReceiveSector, Completed;
      var sent :- SendCommandNoRecv(CMD_READ_SECTOR, Target(lba, count));
      ghost var q := incoming;
      var data: seq<byte> := [];
      var i := 0;
      AfterEnds(ReceiveSectors(q, count));
      while i < count
        invariant 0 <= i <= count
        invariant ReceiveSectors(q, count) == After(data, ReceiveSectors(incoming, count - i))
        invariant device == Respond(old(device), Command(CMD_READ_SECTOR, Target(lba, count))).dev
        invariant received == old(received) + [Command(0x03, Target(lba, count))]
        invariant old(faults) == [] ==> faults == []
      {
        ghost var rest := incoming;
        var sector :- RecvSector();
        AfterThen(data, sector, ReceiveSectors(incoming, count - i - 1));
        data := data + sector;
        i := i + 1;
      }
      AfterEnds(Parsed(Ok(data), incoming));
      r := RecvCompletion(data);
    }

    /** The single-sector read, as it is used for one sector. */
    method ReadSectorsSingle(lba: u32) returns (r: Result<seq<byte>>)
      modifies this`device, this`incoming, this`faults, this`received
      ensures r.Ok? || old(faults) == [] ==>
                var a := Respond(old(device), Command(CMD_READ_SECTOR, Target(lba, 1)));
                device == a.dev && Parsed(r, incoming) == ReceiveSingle(old(incoming) + EncodeAll(a.packets))
      ensures device == old(device) || device == Respond(old(device), Command(CMD_READ_SECTOR, Target(lba, 1))).dev
      ensures r.Ok? || old(faults) == [] ==> received == old(received) + [Command(0x03, Target(lba, 1))]
      ensures old(faults) == [] ==> faults == []
    {
      hide Respond, EncodeAll, Receive;
      var sent :- SendCommandNoRecv(CMD_READ_SECTOR, Target(lba, 1));
      var first :- RecvResponse();
      if first.status != STATUS_OK { return Err; }
      r := RecvCompletion(first.payload);
    }

    /** From an idle link the reply is consumed whole, whether it has two packets or is a refusal of one. */
    method GetExtCsd() returns (r: Result<seq<byte>>)
      modifies this`device, this`incoming, this`faults, this`received
      ensures r.Ok? || old(faults) == [] ==>
                var a := Respond(old(device), Command(CMD_GET_EXT_CSD, []));
                device == a.dev && Parsed(r, incoming) == ReceiveCsd(old(incoming) + EncodeAll(a.packets))
      ensures device.card == old(device).card && device.csd == old(device).csd
      ensures old(device).verdicts == [] ==> device == old(device)
      ensures r.Ok? ==> |r.value| == SECTOR
      ensures old(incoming) == [] && r.Ok? ==> r.value == old(device).csd && incoming == []
      ensures old(incoming) == [] && old(faults) == [] ==>
                incoming == [] && (r.Ok? <==> |old(device).csd| == SECTOR && Coming(old(device)).Accept?)
      ensures r.Ok? || old(faults) == [] ==> received == old(received) + [Command(0x07, [])]
      ensures old(faults) == [] ==> faults == []
    {
      hide Respond, EncodeAll, Receive;
      CsdAnswered(device, incoming);
      var sent :- SendCommandNoRecv(CMD_GET_EXT_CSD, []);
      var first :- RecvResponse();
      if first.status != STATUS_OK || |first.payload| < SECTOR { return Err; }
      r := RecvCompletion(first.payload[..SECTOR]);
    }

    /** From an idle link a read gives the sectors exactly when it is granted. Afterwards the link is idle again,
        whatever the sectors contain, if and only if all of them were sent or there was at most one to send; otherwise
        the checksum of the packet that ended the reply is left, and nothing else. */
    method ReadSectors(lba: u32, count: u16) returns (r: Result<seq<byte>>)
      modifies this`device, this`incoming, this`faults, this`received
      ensures device.card == old(device).card && device.csd == old(device).csd
      ensures old(device).verdicts == [] ==> device == old(device)
      ensures old(incoming) == [] && count > 0 && r.Ok? ==>
                Granted(old(device), lba, count) && r.value == Sectors(device, lba, count) && incoming == []
      ensures old(incoming) == [] && count > 0 && old(faults) == [] ==>
                (r.Ok? <==> Granted(old(device), lba, count)) && incoming == LeftOver(old(device), lba, count)
      ensures old(incoming) == [] && old(faults) == [] ==>
                (incoming == [] <==> count <= 1 || Delivered(old(device), lba, count) == count)
      ensures count == 0 ==> r == Ok([]) && incoming == old(incoming) && received == old(received)
      ensures count > 0 && (r.Ok? || old(faults) == []) ==>
                received == old(received) + [Command(0x03, Target(lba, count))]
      ensures old(faults) == [] ==> faults == []
    {
      hide Respond, EncodeAll, ReceiveMulti, ReceiveSingle, SectorPackets, Crc8;
      if count == 0 { return Ok([]); }
      ReadAnswered(device, lba, count, incoming);
      if count == 1 {
        r := ReadSectorsSingle(lba);
      } else {
        r := ReadSectorsMulti(lba, count);
      }
    }

    // ---- writing ----

    /** Sends a batch without waiting for its response. */
    method SendWriteCommand(lba: u32, data: seq<byte>) returns (r: Result<nat>)
      modifies this`device, this`incoming, this`faults, this`received, this`owed, this`peak
      ensures r.Ok? ==> r.value == |data| / SECTOR && Asked(old(device), old(incoming), device, incoming, lba, data)
      ensures r.Err? ==> (device == old(device) && incoming == old(incoming))
                         || Asked(old(device), old(incoming), device, incoming, lba, data)
      ensures (r.Ok? || old(faults) == []) && |data| + 6 < 0x1_0000 ==>
                received == old(received) + [Command(0x04, Target(lba, |data| / SECTOR) + data)]
      ensures old(received) <= received
      ensures owed == old(owed) + 1 && peak == if owed > old(peak) then owed else old(peak)
      ensures old(faults) == [] ==> faults == [] && r.Ok?
    {
      hide Reached, Asked;
      owed := owed + 1;
      peak := if owed > peak then owed else peak;
      var count := |data| / SECTOR;
      var payload := Target(lba, count % 0x1_0000) + data;
      assert |payload| == |data| + 6 && (|data| < 0x1_0000 ==> count % 0x1_0000 == count);
      var sent := SendCommandNoRecv(CMD_WRITE_SECTOR, payload);
      if Reached(old(device), old(incoming), device, incoming, Arriving(CMD_WRITE_SECTOR, payload)) {
        AskedWhenReached(old(device), old(incoming), device, incoming, lba, data);
      }
      if sent.Err? { return Err; }
      return Ok(count);
    }

    method RecvWriteResponse() returns (r: Result<()>)
      modifies this`incoming, this`faults, this`owed
      ensures r.Ok? || old(faults) == [] ==>
                var p := Receive(old(incoming));
                incoming == p.rest && (r.Ok? <==> p.result.Ok? && p.result.value.status == STATUS_OK)
      ensures owed == if old(owed) == 0 then 0 else old(owed) - 1
      ensures old(faults) == [] ==> faults == []
    {
      hide Receive;
      owed := if owed == 0 then 0 else owed - 1;
      var p :- RecvResponse();
      if p.status != STATUS_OK { return Err; }
      return Ok(());
    }

    /** Writes any number of bytes, zero-padded to whole sectors, in chunks of up to sixteen sectors; each is answered
        before the next is sent. From an idle link, within 32-bit sector numbers: however it ends, what has landed is a
        prefix; on success it is everything. */
    method WriteSectors(lba: u32, data: seq<byte>) returns (r: Result<()>, ghost landed: nat)
      modifies this`device, this`incoming, this`faults, this`received, this`owed, this`peak
      ensures old(incoming) == [] && InReach(lba, data) ==>
              Landed(old(device).card, device.card, lba, Padded(data), landed)
      ensures old(incoming) == [] && InReach(lba, data) && r.Ok? ==> landed * SECTOR == |Padded(data)| && incoming == []
      ensures r.Ok? ==> |received| == |old(received)| + (|Padded(data)| / 512 + 15) / 16
      ensures old(incoming) == [] && InReach(lba, data) && old(faults) == [] && old(device).verdicts == [] ==>
                faults == [] && incoming == []
                  && (r.Ok? <==> data == [] || lba * SECTOR + |Padded(data)| <= |old(device).card|)
    {
      hide AnswerWrite, Landed, Encode, Receive, Padded, Respond;
      ghost var card, idle := device.card, incoming == [] && InReach(lba, data);
      var padded := if |data| % SECTOR != 0 then data + Zeros(SECTOR - |data| % SECTOR) else data;
      PaddedIs(data);
      landed := 0;
      NothingLanded(card, lba, padded);
      var offset, remaining := 0, |padded| / SECTOR;
      ghost var chunks := 0;
      var currentLba: u32 := lba;
      while remaining > 0
        invariant 0 <= remaining && offset + remaining * SECTOR == |padded|
        invariant |received| == |old(received)| + chunks && ChunksSent(chunks, |padded| / SECTOR, remaining)
        invariant idle ==> Written(card, incoming, device.card, lba, padded, landed) && offset == landed * SECTOR
        invariant idle && remaining > 0 ==> currentLba == lba + landed
        invariant idle && old(faults) == [] && old(device).verdicts == [] ==>
            faults == [] && device.verdicts == [] && (landed == 0 || lba * SECTOR + offset <= |card|)
      {
        var n := Min(remaining, MAX_WRITE_CHUNK);
        OneChunk(chunks, |padded| / SECTOR, remaining);
        var done;
        done, landed := WriteChunk(currentLba, padded[offset..offset + n * SECTOR], card, lba, padded, landed, n, idle);
        if done.Err? { return Err, landed; }
        currentLba := (currentLba + n) % 0x1_0000_0000;
        offset := offset + n * SECTOR;
        remaining := remaining - n;
        chunks := chunks + 1;
      }
      r := Ok(());
    }

    /** After so many chunks of sixteen sectors, of which only the last may be shorter, so many are left. */
    ghost predicate ChunksSent(chunks: nat, total: nat, remaining: nat) {
      remaining <= total && if remaining > 0 then total - remaining == 16 * chunks else chunks == (total + 15) / 16
    }

    lemma OneChunk(chunks: nat, total: nat, remaining: nat)
      requires ChunksSent(chunks, total, remaining) && remaining > 0
      ensures ChunksSent(chunks + 1, total, remaining - Min(remaining, MAX_WRITE_CHUNK))
    {
    }

    /** One chunk of a write, and its answer. */
    method WriteChunk(at: u32, chunk: seq<byte>, ghost card: seq<byte>, ghost lba: nat, ghost data: seq<byte>,
                      ghost before: nat, ghost n: nat, ghost idle: bool)
      returns (r: Result<()>, ghost landed: nat)
      requires 0 < n <= MAX_WRITE_CHUNK && |chunk| == n * SECTOR
      requires idle ==> Written(card, incoming, device.card, lba, data, before) && at == lba + before
      requires idle ==> (before + n) * SECTOR <= |data| && chunk == data[before * SECTOR..(before + n) * SECTOR]
      modifies this`device, this`incoming, this`faults, this`received, this`owed, this`peak
      ensures idle ==> Landed(card, device.card, lba, data, landed)
      ensures r.Ok? ==> |received| == |old(received)| + 1
      ensures idle && r.Ok? ==> landed == before + n && Written(card, incoming, device.card, lba, data, landed)
      ensures idle && old(faults) == [] && old(device).verdicts == [] ==>
                faults == [] && incoming == [] && device.verdicts == [] && (r.Ok? <==> (at + n) * SECTOR <= |card|)
    {
      hide AnswerWrite, Landed, Encode, Receive, Respond;
      ghost var dev := device;
      landed := before;
      ghost var part := AnswerTells(dev, at, n, chunk);
      ghost var answer := AnswerWrite(dev, at, n, chunk).packets[0];
      if idle { LandedThen(card, dev.card, AnswerWrite(dev, at, n, chunk).dev.card, lba, data, before, n, part); }
      var sent := SendWriteCommand(at, chunk);
      ReceiveOne(answer, []);
      assert [] + Encode(answer) == Encode(answer);
      landed := if sent.Err? && device == dev then before else before + part;
      if sent.Err? { return Err, landed; }
      r := RecvWriteResponse();
    }

    /** Sets one register of the extended CSD. */
    method WriteExtCsd(index: byte, value: byte) returns (r: Result<()>)
      modifies this`device, this`incoming, this`faults, this`received
      ensures device == old(device) || device == SetRegister(old(device), index, value)
      ensures r.Ok? || old(faults) == [] ==>
                && device == SetRegister(old(device), index, value)
                && received == old(received) + [Command(0x09, [index, value])]
      ensures old(faults) == [] ==> faults == []
      ensures old(incoming) == [] && (r.Ok? || old(faults) == []) ==> incoming == []
      ensures old(faults) == [] && old(incoming) == [] ==> r.Ok?
    {
      hide Encode, Receive, SetRegister;
      EncodeOne(Brief(CMD_WRITE_EXT_CSD, STATUS_OK));
      var sent :- SendCommandNoRecv(CMD_WRITE_EXT_CSD, [index, value]);
      ReceiveOne(Brief(CMD_WRITE_EXT_CSD, STATUS_OK)[0], old(incoming));
      var p :- RecvResponse();
      if p.status != STATUS_OK { return Err; }
      return Ok(());
    }

    /** Has the card write its cache out. */
    method FlushCache() returns (r: Result<()>)
      modifies this`device, this`incoming, this`faults, this`received
      ensures device == old(device) || device == SetRegister(old(device), 32, 1)
      ensures r.Ok? || old(faults) == [] ==>
                device == SetRegister(old(device), 32, 1) && received == old(received) + [Command(0x09, [32, 1])]
      ensures old(faults) == [] ==> faults == []
      ensures old(incoming) == [] && (r.Ok? || old(faults) == []) ==> incoming == []
      ensures old(faults) == [] && old(incoming) == [] ==> r.Ok?
    {
      hide SetRegister;
      r := WriteExtCsd(32, 1);
    }

    /** Switches the card's cache on, if it has one and it is off. From an idle link the result tells whether it has
        one, and then it is on; with no failing transfer the link is idle afterwards. */
    method EnableCache() returns (r: Result<bool>)
      modifies this`device, this`incoming, this`faults, this`received
      ensures device.card == old(device).card && (old(device).verdicts == [] ==> device.verdicts == [])
      ensures old(faults) == [] ==> faults == []
      ensures old(incoming) == [] && (r.Ok? || old(faults) == []) ==> incoming == []
      ensures old(incoming) == [] && r.Ok? ==>
                (r.value <==> HasCache(old(device).csd)) && (r.value ==> |device.csd| == 512 && device.csd[33] == 1)
      ensures old(incoming) == [] && old(faults) == [] ==>
                (r.Ok? <==> Tells(old(device))) && received == old(received) + CacheCommands(old(device))
      ensures old(faults) == [] ==> old(received) + [Command(0x07, [])] <= received
    {
      hide SetRegister, HasCache, Respond, Coming, EncodeAll, ReceiveCsd;
      var csd :- GetExtCsd();
      HasCacheBytes(csd);
      if csd[249] == 0 && csd[250] == 0 && csd[251] == 0 && csd[252] == 0 { return Ok(false); }
      if csd[33] == 1 { return Ok(true); }
      var written :- WriteExtCsd(33, 1);
      return Ok(true);
    }
  }

  /** The controller has received a write of these sectors, if the command is not too long, and its answer is on the
      way. */
  predicate Asked(dev: Dev, incoming: seq<byte>, dev': Dev, incoming': seq<byte>, lba: u32, data: seq<byte>) {
    if |data| + 6 < 0x1_0000 then
      var a := AnswerWrite(dev, lba, |data| / SECTOR, data);
      dev' == a.dev && incoming' == incoming + Encode(a.packets[0])
    else dev' == dev && incoming' == incoming
  }

  lemma AskedWhenReached(dev: Dev, incoming: seq<byte>, dev': Dev, incoming': seq<byte>, lba: u32, data: seq<byte>)
    requires var payload := Target(lba, |data| / SECTOR % 0x1_0000) + data;
             Reached(dev, incoming, dev', incoming', Arriving(CMD_WRITE_SECTOR, payload))
    ensures Asked(dev, incoming, dev', incoming', lba, data)
  {
    hide Encode, AnswerWrite, Target, Dword, Word, EncodeAll;
    var count := |data| / SECTOR % 0x1_0000;
    TargetReads(lba, count, data);
    EncodeOne(AnswerWrite(dev, lba, count, data).packets);
  }

  /** All sectors of the write have 32-bit numbers. */
  predicate InReach(lba: nat, data: seq<byte>) { lba * SECTOR + |data| <= SECTOR * 0x1_0000_0000 }

  /** On an idle link, the first sectors have landed. */
  predicate Written(card: seq<byte>, incoming: seq<byte>, card': seq<byte>, lba: nat, data: seq<byte>, k: nat) {
    incoming == [] && |card'| == |card| && Landed(card, card', lba, data, k)
  }

  /** The bytes, zero-padded to whole sectors. */
  function Padded(data: seq<byte>): (s: seq<byte>)
    ensures |s| % SECTOR == 0 && |data| <= |s| < |data| + SECTOR
    ensures s[..|data|] == data && forall i :: |data| <= i < |s| ==> s[i] == 0
  {
    data + Zeros((SECTOR - |data| % SECTOR) % SECTOR)
  }

  lemma PaddedIs(data: seq<byte>)
    ensures Padded(data) == if |data| % SECTOR != 0 then data + Zeros(SECTOR - |data| % SECTOR) else data
  {
  }

  lemma NothingLanded(card: seq<byte>, lba: nat, data: seq<byte>)
    ensures Landed(card, card, lba, data, 0)
  {
  }

  lemma ReceiveOne(p: Packet, before: seq<byte>)
    requires Sendable(p)
    ensures before == [] ==> Receive(before + Encode(p)) == Parsed(Ok(p), [])
  {
    hide Encode, Receive;
    ReceiveNext(p, []);
    assert Encode(p) + [] == Encode(p) == [] + Encode(p);
  }

  predicate Granted(dev: Dev, lba: nat, count: nat) { OnCard(dev, lba, count) && Coming(dev).Accept? }

  /** What a read leaves in the stream. */
  function LeftOver(dev: Dev, lba: nat, count: nat): seq<byte> {
    if count <= 1 || Delivered(dev, lba, count) == count then []
    else [Crc8(Covered(Packet(CMD_READ_SECTOR, Ending(dev, lba, count), [])))]
  }

  /** What the host makes of the controller's answer to a read of several sectors. */
  lemma MultiAnswered(dev: Dev, lba: u32, count: u16)
    requires count > 1
    ensures ReceiveMulti(EncodeAll(AnswerRead(dev, lba, count).packets), count)
         == Parsed(if Granted(dev, lba, count) then Ok(Sectors(dev, lba, count)) else Err, LeftOver(dev, lba, count))
  {
    hide Encode, ReceiveMulti, SectorPackets, Crc8, Covered;
    var k := Delivered(dev, lba, count);
    var data, last := Sectors(dev, lba, k), Packet(CMD_READ_SECTOR, Ending(dev, lba, count), []);
    var ps := SectorPackets(CMD_READ_SECTOR, data, k);
    EncodeAppend(ps, last);
    assert Encode(last) + [] == Encode(last);
    if k == count {
      MultiExact(CMD_READ_SECTOR, data, count, last, []);
    } else {
      SectorPacketsGood(CMD_READ_SECTOR, data, k);
      MultiAborted(ps, last, [], count);
      assert [] + [Crc8(Covered(last))] + [] == [Crc8(Covered(last))];
    }
  }

  /** And to a read of one sector. */
  lemma SingleAnswered(dev: Dev, lba: u32)
    ensures ReceiveSingle(EncodeAll(AnswerRead(dev, lba, 1).packets))
         == Parsed(if Granted(dev, lba, 1) then Ok(Sectors(dev, lba, 1)) else Err, [])
  {
    hide Encode, ReceiveSingle, SectorPackets, Crc8;
    var k := Delivered(dev, lba, 1);
    var last := Packet(CMD_READ_SECTOR, Ending(dev, lba, 1), []);
    EncodeAppend(SectorPackets(CMD_READ_SECTOR, Sectors(dev, lba, k), k), last);
    if k == 1 { OneSector(Sectors(dev, lba, 1), last); } else { NoSector(last); }
  }

  lemma ReadAnswered(dev: Dev, lba: u32, count: u16, before: seq<byte>)
    ensures var a := Respond(dev, Command(CMD_READ_SECTOR, Target(lba, count)));
            && a.dev.card == dev.card && a.dev.csd == dev.csd && (dev.verdicts == [] ==> a.dev == dev)
            && a.packets == AnswerRead(dev, lba, count).packets
            && (before == [] && count > 1 ==>
                  ReceiveMulti(before + EncodeAll(a.packets), count)
                  == Parsed(if Granted(dev, lba, count) then Ok(Sectors(dev, lba, count)) else Err,
                            LeftOver(dev, lba, count)))
            && (before == [] && count == 1 ==>
                  ReceiveSingle(before + EncodeAll(a.packets))
                  == Parsed(if Granted(dev, lba, count) then Ok(Sectors(dev, lba, count)) else Err, []))
  {
    hide EncodeAll, ReceiveMulti, ReceiveSingle, SectorPackets, LeftOver;
    TargetReads(lba, count, []);
    assert Target(lba, count) + [] == Target(lba, count);
    assert [] + EncodeAll(AnswerRead(dev, lba, count).packets) == EncodeAll(AnswerRead(dev, lba, count).packets);
    if count > 1 { MultiAnswered(dev, lba, count); }
    if count == 1 { SingleAnswered(dev, lba); }
  }

  lemma NoSector(last: Packet)
    requires Sendable(last) && last.status != STATUS_OK
    ensures ReceiveSingle(EncodeAll(SectorPackets(CMD_READ_SECTOR, [], 0)) + Encode(last)) == Parsed(Err, [])
  {
    hide Encode, Receive;
    ReceiveOne(last, []);
    assert EncodeAll(SectorPackets(CMD_READ_SECTOR, [], 0)) + Encode(last) == [] + Encode(last);
  }

  lemma EncodeOne(ps: seq<Packet>)
    requires |ps| == 1 && Sendable(ps[0])
    ensures EncodeAll(ps) == Encode(ps[0])
  {
    hide Encode;
    assert EncodeAll(ps[1..]) == [] && Encode(ps[0]) + [] == Encode(ps[0]);
  }

  lemma OneSector(data: seq<byte>, last: Packet)
    requires |data| == SECTOR && Sendable(last)
    ensures ReceiveSingle(EncodeAll(SectorPackets(CMD_READ_SECTOR, data, 1)) + Encode(last))
         == Parsed(if last.status == STATUS_OK then Ok(data) else Err, [])
  {
    hide Encode, ReceiveSingle;
    var first := Packet(CMD_READ_SECTOR, STATUS_OK, data);
    assert data[..SECTOR] == data;
    assert SectorPackets(CMD_READ_SECTOR, data, 1) == [first];
    EncodeOne([first]);
    SingleExact(first, last, []);
    assert Encode(last) + [] == Encode(last);
  }

  lemma {:induction false} EncodeAppend(ps: seq<Packet>, p: Packet)
    requires Sendable(p) && forall q :: q in ps ==> Sendable(q)
    ensures EncodeAll(ps + [p]) == EncodeAll(ps) + Encode(p)
  {
    hide Encode;
    if ps == [] {
      assert [] + [p] == [p];
    } else {
      assert (ps + [p])[1..] == ps[1..] + [p];
      EncodeAppend(ps[1..], p);
    }
  }

  lemma CsdAnswered(dev: Dev, before: seq<byte>)
    ensures var a := Respond(dev, Command(CMD_GET_EXT_CSD, []));
            a.dev.card == dev.card && a.dev.csd == dev.csd && (dev.verdicts == [] ==> a.dev == dev)
    ensures var a := Respond(dev, Command(CMD_GET_EXT_CSD, []));
            before == [] ==>
              ReceiveCsd(before + EncodeAll(a.packets))
              == Parsed(if |dev.csd| == SECTOR && Coming(dev).Accept? then Ok(dev.csd) else Err, [])
  {
    hide Encode, Receive;
    var a := AnswerCsd(dev);
    assert [] + EncodeAll(a.packets) == EncodeAll(a.packets);
    if |dev.csd| == SECTOR && Coming(dev).Accept? {
      var first, last := a.packets[0], a.packets[1];
      CsdExact(first, last, []);
      EncodeAppend([first], last);
      assert [first] + [last] == a.packets;
      EncodeOne([first]);
      assert EncodeAll(a.packets) == Encode(first) + (Encode(last) + []);
      assert dev.csd[..SECTOR] == dev.csd;
    } else {
      EncodeOne(a.packets);
      ReceiveOne(a.packets[0], []);
      assert [] + Encode(a.packets[0]) == Encode(a.packets[0]);
    }
  }

  // ---- out of step ----

  const OFF_CARD_CRC: byte := 0x87

  lemma OffCardCrc()
    ensures Crc8(Covered(Packet(CMD_READ_SECTOR, STATUS_ERR_EMMC, []))) == OFF_CARD_CRC
  {
    assert Covered(Packet(CMD_READ_SECTOR, STATUS_ERR_EMMC, [])) == [3, 3, 0, 0];
    CrcOfRefusal();
  }

  /** The packets of a reply, cut behind the first sectors. */
  lemma ReplyCut(dev: Dev, lba: nat, count: nat, n: nat)
    requires Granted(dev, lba, count) && 0 < n <= count
    ensures var ps := AnswerRead(dev, lba, count).packets;
            && n < |ps| && ps[n].status == STATUS_OK
            && ps[..n] == SectorPackets(CMD_READ_SECTOR, Sectors(dev, lba, n), n)
  {
    hide Crc8;
    var data := Sectors(dev, lba, count);
    SectorsCut(CMD_READ_SECTOR, data, count, n);
    assert data[..n * SECTOR] == Sectors(dev, lba, n);
  }

  /** With a whole reply left, the next multi-sector read of no more sectors succeeds, whatever it asked for,
      and gives the sectors of the reply that was left. */
  lemma WrongSectors(dev: Dev, lba: nat, count: nat, n: nat, after: seq<byte>)
    requires Granted(dev, lba, count) && 0 < n <= count
    ensures ReceiveMulti(EncodeAll(AnswerRead(dev, lba, count).packets) + after, n).result == Ok(Sectors(dev, lba, n))
  {
    hide EncodeAll, Encode, ReceiveMulti, SectorPackets, AnswerRead;
    var ps := AnswerRead(dev, lba, count).packets;
    ReplyCut(dev, lba, count, n);
    EncodeSplit(ps, n);
    EncodeHead(ps[n..]);
    var head, tail := EncodeAll(ps[..n]), EncodeAll(ps[n..][1..]);
    assert EncodeAll(ps) + after == head + (Encode(ps[n]) + (tail + after));
    MultiExact(CMD_READ_SECTOR, Sectors(dev, lba, n), n, ps[n], tail + after);
  }

  /** A read of several sectors off the card leaves one byte. The next multi-sector read, of a good range, then fails
      and leaves its whole reply; a response that is looked for by its header is still found. */
  lemma OutOfStep(dev: Dev, lba: u32, count: u16, lba': u32, count': u16, p: Packet)
    requires count > 1 && !OnCard(dev, lba, count) && count' > 0 && Sendable(p)
    ensures var left := ReceiveMulti(EncodeAll(AnswerRead(dev, lba, count).packets), count).rest;
            var reply := EncodeAll(AnswerRead(dev, lba', count').packets);
            && left == [OFF_CARD_CRC]
            && ReceiveMulti(left + reply, count') == Parsed(Err, reply)
            && Receive(left + Encode(p)) == Parsed(Ok(p), [])
  {
    hide EncodeAll, ReceiveMulti, Encode, Receive, Crc8, Covered, AnswerRead;
    MultiAnswered(dev, lba, count);
    OffCardCrc();
    var reply := EncodeAll(AnswerRead(dev, lba', count').packets);
    StrayByte(OFF_CARD_CRC, reply, count', p, []);
    assert [OFF_CARD_CRC] + Encode(p) + [] == [OFF_CARD_CRC] + Encode(p);
  }

  /** Multi-sector reads of `n` sectors, one after the other on a link that loses nothing: what each of them returns. */
  function ReadsInTurn(dev: Dev, left: seq<byte>, lbas: seq<u32>, n: u16): (rs: seq<Result<seq<byte>>>)
    ensures |rs| == |lbas|
    decreases |lbas|
  {
    hide ReceiveMulti, AnswerRead, EncodeAll;
    if lbas == [] then []
    else
      var a := AnswerRead(dev, lbas[0], n);
      var p := ReceiveMulti(left + EncodeAll(a.packets), n);
      [p.result] + ReadsInTurn(a.dev, p.rest, lbas[1..], n)
  }

  /** With the whole reply to a granted read in front, a read takes that, and leaves its own. */
  lemma ReplyTaken(dev: Dev, lba: nat, n: nat, after: seq<byte>)
    requires Granted(dev, lba, n)
    ensures ReceiveMulti(EncodeAll(AnswerRead(dev, lba, n).packets) + after, n)
            == Parsed(Ok(Sectors(dev, lba, n)), after)
  {
    hide Encode, ReceiveMulti, SectorPackets;
    var data, last := Sectors(dev, lba, n), Packet(CMD_READ_SECTOR, STATUS_OK, []);
    var ps := SectorPackets(CMD_READ_SECTOR, data, n);
    EncodeAppend(ps, last);
    assert EncodeAll(ps) + Encode(last) + after == EncodeAll(ps) + (Encode(last) + after);
    MultiExact(CMD_READ_SECTOR, data, n, last, after);
  }

  /** Each result is that of the read before: first of `last`, then of the reads themselves. */
  predicate Behind(dev: Dev, last: u32, lbas: seq<u32>, n: u16, rs: seq<Result<seq<byte>>>) {
    && OnCard(dev, last, n) && (forall l :: l in lbas ==> OnCard(dev, l, n)) && |rs| == |lbas|
    && forall k :: 0 <= k < |lbas| ==> rs[k] == Ok(Sectors(dev, if k == 0 then last else lbas[k - 1], n))
  }

  lemma BehindMore(dev: Dev, last: u32, lbas: seq<u32>, n: u16, later: seq<Result<seq<byte>>>)
    requires lbas != [] && OnCard(dev, last, n) && Behind(dev, lbas[0], lbas[1..], n, later)
    ensures Behind(dev, last, lbas, n, [Ok(Sectors(dev, last, n))] + later)
  {
    hide Sectors, OnCard;
  }

  /** Once a whole reply is left, every read returns the sectors that the one before it asked for. */
  lemma {:induction false} AlwaysBehind(dev: Dev, last: u32, lbas: seq<u32>, n: u16)
    requires dev.verdicts == [] && OnCard(dev, last, n) && forall l :: l in lbas ==> OnCard(dev, l, n)
    ensures Behind(dev, last, lbas, n, ReadsInTurn(dev, EncodeAll(AnswerRead(dev, last, n).packets), lbas, n))
    decreases |lbas|
  {
    hide EncodeAll, ReceiveMulti, AnswerRead, Behind;
    if lbas == [] {
      NoneBehind(dev, last, n);
    } else {
      ReadsKeep(dev, lbas[0], n);
      var reply := EncodeAll(AnswerRead(dev, lbas[0], n).packets);
      ReplyTaken(dev, last, n, reply);
      AlwaysBehind(dev, lbas[0], lbas[1..], n);
      BehindMore(dev, last, lbas, n, ReadsInTurn(dev, reply, lbas[1..], n));
    }
  }

  lemma NoneBehind(dev: Dev, last: u32, n: u16)
    requires OnCard(dev, last, n)
    ensures Behind(dev, last, [], n, [])
  {
  }

  lemma ReadsKeep(dev: Dev, lba: u32, n: u16)
    ensures dev.verdicts == [] ==> AnswerRead(dev, lba, n).dev == dev
    ensures AnswerRead(dev, lba, n).dev.card == dev.card
  {
  }

  /** The controller refuses one read of several, and grants all others. That read fails, the next one fails too, and
      every later one succeeds with the sectors that the read before it asked for. */
  lemma OneBehind(dev: Dev, lbas: seq<u32>, n: u16)
    requires n > 1 && dev.verdicts == [Refuse(STATUS_ERR_EMMC, 0)] && |lbas| >= 2
    requires forall l :: l in lbas ==> OnCard(dev, l, n)
    ensures var rs := ReadsInTurn(dev, [], lbas, n);
            && rs[0] == Err && rs[1] == Err
            && Behind(dev, lbas[1], lbas[2..], n, rs[2..])
  {
    hide EncodeAll, ReceiveMulti, AnswerRead, Crc8, Covered, Behind;
    var next := Refused(dev, lbas[0], n);
    var reply := EncodeAll(AnswerRead(next, lbas[1], n).packets);
    assert lbas[1..][0] == lbas[1] && lbas[1..][1..] == lbas[2..];
    ReadsKeep(next, lbas[1], n);
    StrayByte(OFF_CARD_CRC, reply, n, Packet(0, 0, []), []);
    assert OnCard(dev, lbas[1], n) && forall l :: l in lbas[2..] ==> l in lbas;
    AlwaysBehind(next, lbas[1], lbas[2..], n);
    var rs, later := ReadsInTurn(dev, [], lbas, n), ReadsInTurn(next, reply, lbas[2..], n);
    assert ReadsInTurn(next, [OFF_CARD_CRC], lbas[1..], n) == [Err] + later;
    assert rs == [Err] + ([Err] + later);
    assert rs[2..] == later;
    SameCard(dev, next, lbas[1], lbas[2..], n, later);
  }

  lemma SameCard(dev: Dev, next: Dev, last: u32, lbas: seq<u32>, n: u16, rs: seq<Result<seq<byte>>>)
    requires next.card == dev.card && Behind(next, last, lbas, n, rs)
    ensures Behind(dev, last, lbas, n, rs)
  {
    assert OnCard(next, last, n) && forall l :: l in lbas ==> OnCard(next, l, n) && OnCard(dev, l, n);
    forall k | 0 <= k < |lbas| ensures rs[k] == Ok(Sectors(dev, if k == 0 then last else lbas[k - 1], n)) {
      assert k > 0 ==> lbas[k - 1] in lbas;
      assert rs[k] == Ok(Sectors(next, if k == 0 then last else lbas[k - 1], n));
    }
  }

  lemma Refused(dev: Dev, lba: u32, n: u16) returns (next: Dev)
    requires n > 1 && dev.verdicts == [Refuse(STATUS_ERR_EMMC, 0)] && OnCard(dev, lba, n)
    ensures next == dev.(verdicts := []) && next == AnswerRead(dev, lba, n).dev
    ensures ReceiveMulti([] + EncodeAll(AnswerRead(dev, lba, n).packets), n) == Parsed(Err, [OFF_CARD_CRC])
  {
    hide EncodeAll, ReceiveMulti, Crc8, Covered;
    next := dev.(verdicts := []);
    MultiAnswered(dev, lba, n);
    OffCardCrc();
    var q := EncodeAll(AnswerRead(dev, lba, n).packets);
    assert [] + q == q;
  }
}
