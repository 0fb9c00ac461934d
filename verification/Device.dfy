/** The controller behind the link, as a deterministic responder. */
module Device {
  import opened Bytes
  import opened LinkCrc
  import opened Packets

  const CMD_READ_SECTOR: byte := 0x03
  const CMD_WRITE_SECTOR: byte := 0x04
  const CMD_GET_EXT_CSD: byte := 0x07
  const CMD_WRITE_EXT_CSD: byte := 0x09
  const STATUS_ERR_EMMC: byte := 3

  // ---- commands on the wire ----

  /** What the checksum of a command covers. The length field is cut to 16 bits. */
  function CommandBody(cmd: byte, payload: seq<byte>): seq<byte> {
    [cmd] + Be16(|payload| % 0x1_0000) + payload
  }

  function EncodeCommand(cmd: byte, payload: seq<byte>): seq<byte> {
    [HEADER_TX] + CommandBody(cmd, payload) + [Crc8(CommandBody(cmd, payload))]
  }

  /** The address and the count that start a sector command. */
  function Target(lba: u32, count: u16): (s: seq<byte>)
    ensures |s| == 6
  {
    Be32(lba) + Be16(count)
  }

  datatype Command = Command(cmd: byte, payload: seq<byte>)

  /** What a controller makes of a command: its header, length and checksum must all be right. */
  function DecodeCommand(w: seq<byte>): Option<Command> {
    if |w| < 5 || w[0] != HEADER_TX then None
    else if |w| != 5 + Word(w[2], w[3]) || w[|w| - 1] != Crc8(w[1..|w| - 1]) then None
    else Some(Command(w[1], w[4..|w| - 1]))
  }

  /** A command arrives exactly as it was sent if and only if its payload fits the 16-bit length. */
  lemma CommandArrives(cmd: byte, payload: seq<byte>)
    ensures DecodeCommand(EncodeCommand(cmd, payload)) == Some(Command(cmd, payload)) <==> |payload| < 0x1_0000
    ensures |payload| >= 0x1_0000 ==> DecodeCommand(EncodeCommand(cmd, payload)) == None
  {
    hide Crc8;
    var w := EncodeCommand(cmd, payload);
    WordBe16(|payload| % 0x1_0000);
    assert w[2] == Be16(|payload| % 0x1_0000)[0] && w[3] == Be16(|payload| % 0x1_0000)[1];
    assert w[1..|w| - 1] == CommandBody(cmd, payload);
    assert w[4..|w| - 1] == payload;
  }

  /** What a command, its address and its count look like on the wire, from the first byte to the checksum. */
  lemma CommandBytes()
    ensures EncodeCommand(0x03, Target(0x0102_0304, 0x0506)) == [0xAA, 3, 0, 6, 1, 2, 3, 4, 5, 6, 0x68]
  {
    hide Crc8;
    var t := Target(0x0102_0304, 0x0506);
    assert t == [1, 2, 3, 4, 5, 6];
    assert Be16(6) == [0, 6];
    CrcOfRead();
    assert CommandBody(0x03, t) == [3, 0, 6, 1, 2, 3, 4, 5, 6];
  }

  /** And a response. */
  lemma ResponseBytes()
    ensures Encode(Packet(0x03, STATUS_ERR_EMMC, [])) == [0x55, 3, 3, 0, 0, 0x87]
  {
    hide Crc8;
    assert Covered(Packet(0x03, STATUS_ERR_EMMC, [])) == [3, 3, 0, 0];
    CrcOfRefusal();
  }

  // ---- answers ----

  /** The fate of a command: done, or refused after a part of its sectors. */
  datatype Verdict = Accept | Refuse(status: byte, part: nat)

  datatype Dev = Dev(card: seq<byte>, csd: seq<byte>, verdicts: seq<Verdict>)

  function Coming(dev: Dev): Verdict { if dev.verdicts == [] then Accept else dev.verdicts[0] }

  function Next(dev: Dev): (d: Dev)
    ensures dev.verdicts == [] ==> d == dev
  {
    if dev.verdicts == [] then dev else dev.(verdicts := dev.verdicts[1..])
  }

  function Fault(status: byte): (s: byte)
    ensures s != STATUS_OK
  {
    if status == STATUS_OK then STATUS_ERR_EMMC else status
  }

  function Dword(s: seq<byte>): u32
    requires |s| >= 4
  {
    (((s[0] as int) * 0x100 + s[1]) * 0x100 + s[2]) * 0x100 + s[3]
  }

  lemma DwordBe32(x: u32, rest: seq<byte>)
    ensures Dword(Be32(x) + rest) == x
  {
  }

  lemma TargetReads(lba: u32, count: u16, data: seq<byte>)
    ensures var s := Target(lba, count) + data; Dword(s) == lba && Word(s[4], s[5]) == count && s[6..] == data
  {
    DwordBe32(lba, Be16(count) + data);
    WordBe16(count);
    assert Target(lba, count) + data == Be32(lba) + (Be16(count) + data);
  }

  predicate OnCard(dev: Dev, lba: nat, count: nat) { 0 < count && (lba + count) * SECTOR <= |dev.card| }

  function Sectors(dev: Dev, lba: nat, count: nat): (s: seq<byte>)
    requires count == 0 || OnCard(dev, lba, count)
    ensures |s| == count * SECTOR
  {
    if count == 0 then [] else dev.card[lba * SECTOR..(lba + count) * SECTOR]
  }

  datatype Answer = Answer(dev: Dev, packets: seq<Packet>)

  function Brief(cmd: byte, status: byte): seq<Packet> { [Packet(cmd, status, [])] }

  /** The sectors that are sent before a read is over, and the status that ends it. */
  function Delivered(dev: Dev, lba: nat, count: nat): (k: nat)
    ensures k <= count && (k == 0 || OnCard(dev, lba, k))
  {
    if !OnCard(dev, lba, count) then 0 else if Coming(dev).Accept? then count else Min(Coming(dev).part, count)
  }

  function Ending(dev: Dev, lba: nat, count: nat): byte {
    if !OnCard(dev, lba, count) then STATUS_ERR_EMMC
    else if Coming(dev).Accept? then STATUS_OK
    else Fault(Coming(dev).status)
  }

  /** Sector packets always have status OK. What ends a read, well or not, is one packet without payload. */
  function AnswerRead(dev: Dev, lba: nat, count: nat): (a: Answer)
    ensures forall p :: p in a.packets ==> Sendable(p)
  {
    var k := Delivered(dev, lba, count);
    Answer(if OnCard(dev, lba, count) then Next(dev) else dev,
           SectorPackets(CMD_READ_SECTOR, Sectors(dev, lba, k), k) + Brief(CMD_READ_SECTOR, Ending(dev, lba, count)))
  }

  function AnswerCsd(dev: Dev): (a: Answer)
    ensures forall p :: p in a.packets ==> Sendable(p)
  {
    if |dev.csd| == SECTOR && Coming(dev).Accept? then
      Answer(Next(dev), [Packet(CMD_READ_SECTOR, STATUS_OK, dev.csd), Packet(CMD_GET_EXT_CSD, STATUS_OK, [])])
    else
      Answer(Next(dev),
             Brief(CMD_GET_EXT_CSD, if Coming(dev).Accept? then STATUS_ERR_EMMC else Fault(Coming(dev).status)))
  }

  /** `card'` is `card` with the first `part` sectors of `data` written from sector `lba` on. */
  predicate Landed(card: seq<byte>, card': seq<byte>, lba: nat, data: seq<byte>, part: nat) {
    && part * SECTOR <= |data|
    && if part == 0 then card' == card
       else (lba + part) * SECTOR <= |card| && card' == Put(card, lba * SECTOR, data[..part * SECTOR])
  }

  function Write(card: seq<byte>, lba: nat, data: seq<byte>, part: nat): (card': seq<byte>)
    requires (lba + part) * SECTOR <= |card| && part * SECTOR <= |data|
    ensures Landed(card, card', lba, data, part)
  {
    if part == 0 then card else Put(card, lba * SECTOR, data[..part * SECTOR])
  }

  /** Writing the next sectors extends what has landed. */
  lemma LandedThen(c0: seq<byte>, c1: seq<byte>, c2: seq<byte>, lba: nat, data: seq<byte>, k: nat, n: nat, m: nat)
    requires Landed(c0, c1, lba, data, k) && (k + n) * SECTOR <= |data| && m <= n
    requires Landed(c1, c2, lba + k, data[k * SECTOR..(k + n) * SECTOR], m)
    ensures Landed(c0, c2, lba, data, k + m)
  {
    if m > 0 {
      var part := data[k * SECTOR..(k + n) * SECTOR];
      SliceOfSlice(data, k * SECTOR, (k + n) * SECTOR, 0, m * SECTOR);
      assert part[..m * SECTOR] == data[k * SECTOR..(k + m) * SECTOR];
      if k > 0 { PutThen(c0, lba * SECTOR, data, k * SECTOR, (k + m) * SECTOR); }
    }
  }

  lemma PutThen(c: seq<byte>, o: nat, data: seq<byte>, a: nat, b: nat)
    requires a <= b <= |data| && o + b <= |c|
    ensures Put(Put(c, o, data[..a]), o + a, data[a..b]) == Put(c, o, data[..b])
  {
  }

  function AnswerWrite(dev: Dev, lba: nat, count: nat, data: seq<byte>): (a: Answer)
    ensures |a.packets| == 1 && forall p :: p in a.packets ==> Sendable(p)
    ensures a.dev.csd == dev.csd && |a.dev.card| == |dev.card|
  {
    if !OnCard(dev, lba, count) || |data| != count * SECTOR then Answer(dev, Brief(CMD_WRITE_SECTOR, STATUS_ERR_EMMC))
    else
      match Coming(dev)
      case Accept => Answer(Next(dev).(card := Write(dev.card, lba, data, count)), Brief(CMD_WRITE_SECTOR, STATUS_OK))
      case Refuse(status, part) =>
        Answer(Next(dev).(card := Write(dev.card, lba, data, Min(part, count))), Brief(CMD_WRITE_SECTOR, Fault(status)))
  }

  /** The answer to a write tells its fate: with status OK all of it has landed, else some part. */
  lemma AnswerTells(dev: Dev, lba: nat, count: nat, data: seq<byte>) returns (part: nat)
    requires |data| == count * SECTOR
    ensures var a := AnswerWrite(dev, lba, count, data);
            && part <= count && Landed(dev.card, a.dev.card, lba, data, part)
            && (a.packets[0].status == STATUS_OK ==> part == count)
            && a.packets[0] == Packet(CMD_WRITE_SECTOR, a.packets[0].status, [])
            && (dev.verdicts == [] ==>
                a.dev.verdicts == [] && (a.packets[0].status == STATUS_OK <==> OnCard(dev, lba, count)))
  {
    if !OnCard(dev, lba, count) { return 0; }
    if dev.verdicts == [] || dev.verdicts[0].Accept? { return count; }
    return Min(dev.verdicts[0].part, count);
  }

  /** One register of the extended CSD set. */
  function SetRegister(dev: Dev, index: byte, value: byte): (d: Dev)
    ensures d.card == dev.card && d.verdicts == dev.verdicts && |d.csd| == |dev.csd|
    ensures index < |d.csd| ==> d.csd[index] == value
    ensures forall i :: 0 <= i < |d.csd| && i != index ==> d.csd[i] == dev.csd[i]
  {
    if index < |dev.csd| then dev.(csd := dev.csd[index := value]) else dev
  }

  /** N + 1 packets for a read that is granted, two for the extended CSD, one for everything else. A refused read
      ends with one packet without payload, behind the sectors sent so far. */
  function Respond(dev: Dev, c: Command): (a: Answer)
    ensures forall p :: p in a.packets ==> Sendable(p)
  {
    if c.cmd == CMD_READ_SECTOR && |c.payload| == 6 then
      AnswerRead(dev, Dword(c.payload), Word(c.payload[4], c.payload[5]))
    else if c.cmd == CMD_WRITE_SECTOR && |c.payload| >= 6 then
      AnswerWrite(dev, Dword(c.payload), Word(c.payload[4], c.payload[5]), c.payload[6..])
    else if c.cmd == CMD_GET_EXT_CSD then AnswerCsd(dev)
    else if c.cmd == CMD_WRITE_EXT_CSD && |c.payload| == 2 then
      Answer(SetRegister(dev, c.payload[0], c.payload[1]), Brief(c.cmd, STATUS_OK))
    else Answer(dev, Brief(c.cmd, STATUS_OK))
  }
}
