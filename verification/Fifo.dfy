/** The FT232H transport: a byte queue under USB packets that each carry two status bytes. */
module Fifo {
  import opened Bytes

  const PACKET := 512
  const STATUS := 2

  // ---- status bytes ----

  /** What is left of a transfer without the status bytes of each of its packets. */
  function Stripped(raw: seq<byte>): (r: seq<byte>) {
    if |raw| <= STATUS then []
    else if |raw| <= PACKET then raw[STATUS..]
    else raw[STATUS..PACKET] + Stripped(raw[PACKET..])
  }

  predicate IsStatus(i: nat) { i % PACKET < STATUS }

  /** Where the `j`-th payload byte of a transfer stands in it. */
  function Position(j: nat): nat { j / (PACKET - STATUS) * PACKET + STATUS + j % (PACKET - STATUS) }

  lemma PositionNext(j: nat)
    requires PACKET - STATUS <= j
    ensures Position(j) == PACKET + Position(j - (PACKET - STATUS))
  {
  }

  /** Every byte but the status bytes arrives, once and in order. */
  lemma {:induction false} StrippedAt(raw: seq<byte>, j: nat)
    ensures j < |Stripped(raw)| <==> Position(j) < |raw|
    ensures j < |Stripped(raw)| ==> Stripped(raw)[j] == raw[j / 510 * 512 + 2 + j % 510]
  {
    if |raw| > PACKET && j >= PACKET - STATUS {
      PositionNext(j);
      StrippedAt(raw[PACKET..], j - (PACKET - STATUS));
    }
  }

  /** Those places are all but the first two of each 512. */
  lemma PositionsExactly(i: nat)
    ensures i % 512 >= 2 <==> exists j: nat :: Position(j) == i
  {
    if !IsStatus(i) {
      assert Position(i / PACKET * (PACKET - STATUS) + i % PACKET - STATUS) == i;
    }
  }

  /** A transfer may be split at any packet boundary. */
  lemma {:induction false} StrippedSplit(raw: seq<byte>, size: nat)
    requires size <= |raw| && size % 512 == 0
    ensures Stripped(raw) == Stripped(raw[..size]) + Stripped(raw[size..])
  {
    if size == 0 {
      assert raw[size..] == raw;
    } else if size == |raw| {
      assert raw[..size] == raw;
    } else {
      StrippedSplit(raw[PACKET..], size - PACKET);
      assert raw[PACKET..][..size - PACKET] == raw[..size][PACKET..];
      assert raw[PACKET..][size - PACKET..] == raw[size..];
      if size == PACKET {
        assert Stripped(raw[PACKET..][..0]) == [];
      } else {
        assert raw[..size][STATUS..PACKET] == raw[STATUS..PACKET];
      }
    }
  }

  /** What the packet at `pos` of a transfer adds. */
  lemma StrippedNext(raw: seq<byte>, pos: nat)
    requires pos < |raw|
    ensures var end := Min(pos + PACKET, |raw|);
            Stripped(raw[pos..])
            == (if end - pos > STATUS then raw[pos + STATUS..end] else [])
               + if pos + PACKET < |raw| then Stripped(raw[pos + PACKET..]) else []
  {
    var t := raw[pos..];
    if |t| <= STATUS {
    } else if |t| <= PACKET {
      assert t[STATUS..] == raw[pos + STATUS..|raw|];
    } else {
      assert t[STATUS..PACKET] == raw[pos + STATUS..pos + PACKET];
      assert t[PACKET..] == raw[pos + PACKET..];
    }
  }

  /** The loop that drops the status bytes of each packet. */
  method Strip(raw: seq<byte>) returns (result: seq<byte>)
    ensures result == Stripped(raw)
  {
    hide Stripped;
    result := [];
    var pos := 0;
    StrippedNone();
    assert raw[0..] == raw;
    while pos < |raw|
      invariant 0 <= pos
      invariant Stripped(raw) == result + if pos < |raw| then Stripped(raw[pos..]) else []
    {
      var chunkEnd := Min(pos + PACKET, |raw|);
      StrippedNext(raw, pos);
      if chunkEnd - pos > STATUS {
        result := result + raw[pos + STATUS..chunkEnd];
      }
      pos := pos + PACKET;
    }
  }

  lemma StrippedNone()
    ensures Stripped([]) == []
  {
  }

  // ---- the transport ----

  /** What one bulk read finds: nothing in time, a failure, or data; and whether the caller's deadline is then over. */
  datatype Arrival = Quiet(late: bool) | Broken | Data(raw: seq<byte>, late: bool)

  function Payload(a: Arrival): seq<byte> { if a.Data? then Stripped(a.raw) else [] }

  /** All payload still to come from USB. */
  function Payloads(arrivals: seq<Arrival>): seq<byte> {
    if arrivals == [] then [] else Payload(arrivals[0]) + Payloads(arrivals[1..])
  }

  function Bulk(arrivals: seq<Arrival>): nat {
    if arrivals == [] then 0 else 1 + (if arrivals[0].Data? then |arrivals[0].raw| else 0) + Bulk(arrivals[1..])
  }

  function Max(a: nat, b: nat): nat { if a < b then b else a }

  /** A bulk read of this size asks for just enough packets to hold the data, and for no more than 64. */
  predicate Fitting(maxData: nat, size: nat) {
    && size % 512 == 0 && 512 <= size <= 32768
    && (size / 512 - 1) * 510 < maxData && (maxData <= size / 512 * 510 || size == 32768)
  }

  class Transport {
    var readBuf: seq<byte>
    var readPos: nat
    var arrivals: seq<Arrival>
    /** All bytes handed out so far, those of a read that then failed included. */
    ghost var delivered: seq<byte>
    /** The sizes of all bulk reads so far. */
    ghost var asked: seq<nat>
    ghost const all: seq<byte>

    ghost predicate Valid()
      reads this
    {
      && readPos <= |readBuf| && (readPos == |readBuf| ==> readBuf == [])
      && delivered + Waiting() == all
    }

    /** The abstract queue: what is buffered, then what is still to arrive. */
    ghost function Waiting(): seq<byte>
      requires readPos <= |readBuf|
      reads this
    {
      readBuf[readPos..] + Payloads(arrivals)
    }

    constructor (script: seq<Arrival>)
      ensures Valid() && all == Payloads(script) && arrivals == script && delivered == []
    {
      readBuf, readPos, arrivals := [], 0, script;
      delivered, asked, all := [], [], Payloads(script);
    }

    /** One bulk read of at most `size` bytes; what does not fit stays for the next one. */
    method ReadBulk(size: nat) returns (r: Result<seq<byte>>, late: bool)
      requires size % PACKET == 0 && 0 < size
      modifies this`arrivals, this`asked
      ensures asked == old(asked) + [size]
      ensures Payloads(old(arrivals)) == (if r.Ok? then Stripped(r.value) else []) + Payloads(arrivals)
      ensures Bulk(arrivals) < Bulk(old(arrivals)) || (arrivals == [] && late)
    {
      asked := asked + [size];
      if arrivals == [] { return Ok([]), true; }
      var a := arrivals[0];
      match a
      case Quiet(l) =>
        arrivals := arrivals[1..];
        return Ok([]), l;
      case Broken =>
        arrivals := arrivals[1..];
        return Err, true;
      case Data(raw, l) =>
        if |raw| <= size {
          arrivals := arrivals[1..];
          return Ok(raw), l;
        }
        StrippedSplit(raw, size);
        var rest := Data(raw[size..], l);
        arrivals := [rest] + arrivals[1..];
        return Ok(raw[..size]), l;
    }

    method FtdiRead(maxData: nat) returns (r: Result<seq<byte>>, late: bool)
      requires 0 < maxData
      modifies this`arrivals, this`asked
      ensures |asked| == |old(asked)| + 1 && old(asked) <= asked && Fitting(maxData, asked[|old(asked)|])
      ensures Payloads(old(arrivals)) == (if r.Ok? then r.value else []) + Payloads(arrivals)
      ensures Bulk(arrivals) < Bulk(old(arrivals)) || (arrivals == [] && late)
    {
      var dataPerPacket := PACKET - STATUS;
      var packets := (maxData + dataPerPacket - 1) / dataPerPacket;
      var usbReadSize := Min(packets * PACKET, 64 * PACKET);
      EnoughPackets(maxData, packets);
      var raw;
      raw, late := ReadBulk(usbReadSize);
      if raw.Err? { return Err, late; }
      if raw.value == [] { return Ok([]), late; }
      var result := Strip(raw.value);
      r := Ok(result);
    }

    lemma EnoughPackets(maxData: nat, packets: nat)
      requires 0 < maxData && packets == (maxData + 509) / 510
      ensures Fitting(maxData, Min(packets * 512, 32768))
    {
    }

    method ConsumeBuffered(len: nat) returns (bytes: seq<byte>)
      requires Valid()
      modifies this`readBuf, this`readPos, this`delivered
      ensures Valid() && delivered == old(delivered) + bytes
      ensures |bytes| <= len && (bytes == [] <==> len == 0 || old(readPos) >= |old(readBuf)|)
    {
      var available := |readBuf| - readPos;
      if available == 0 { return []; }
      var n := Min(len, available);
      bytes := readBuf[readPos..readPos + n];
      assert readBuf[readPos..] == bytes + readBuf[readPos + n..];
      readPos := readPos + n;
      delivered := delivered + bytes;
      if readPos == |readBuf| {
        readBuf, readPos := [], 0;
      }
    }

    method FillBuffer(hint: nat) returns (r: Result<()>, late: bool)
      requires Valid()
      modifies this`readBuf, this`readPos, this`arrivals, this`asked
      ensures Valid()
      ensures |asked| == |old(asked)| + 1 && old(asked) <= asked && Fitting(Max(hint, 64), asked[|old(asked)|])
      ensures Bulk(arrivals) < Bulk(old(arrivals)) || (arrivals == [] && late)
    {
      hide Payloads, Bulk;
      ghost var waiting, before := Waiting(), Payloads(arrivals);
      var data;
      data, late := FtdiRead(Max(hint, 64));
      if data.Err? { return Err, late; }
      assert readBuf[readPos..] + before == readBuf[readPos..] + data.value + Payloads(arrivals);
      if data.value != [] {
        if readPos > 0 {
          readBuf, readPos := readBuf[readPos..], 0;
        }
        assert (readBuf + data.value)[readPos..] == readBuf[readPos..] + data.value;
        readBuf := readBuf + data.value;
      }
      assert Waiting() == waiting;
      r := Ok(());
    }

    /** At least one of the next bytes of the queue, or an error and none. */
    method Read(len: nat) returns (r: Result<seq<byte>>)
      requires Valid()
      modifies this`readBuf, this`readPos, this`arrivals, this`asked, this`delivered
      ensures Valid() && delivered == old(delivered) + if r.Ok? then r.value else []
      ensures r.Ok? ==> 0 < |r.value| <= len
    {
      hide Valid, Waiting, Payloads;
      var bytes := ConsumeBuffered(len);
      if bytes != [] { return Ok(bytes); }
      var late := false;
      while !late
        invariant Valid() && delivered == old(delivered)
        decreases Bulk(arrivals), !late
      {
        var filled;
        filled, late := FillBuffer(len);
        if filled.Err? { return Err; }
        bytes := ConsumeBuffered(len);
        if bytes != [] { return Ok(bytes); }
      }
      return Err;
    }

    /** Exactly the next `len` bytes of the queue; after an error, fewer of them are gone. */
    method ReadExact(len: nat) returns (r: Result<seq<byte>>)
      requires Valid()
      modifies this`readBuf, this`readPos, this`arrivals, this`asked, this`delivered
      ensures Valid()
      ensures r.Ok? ==> |r.value| == len && delivered == old(delivered) + r.value
      ensures r.Err? ==> old(delivered) <= delivered && |delivered| < |old(delivered)| + len
    {
      hide Valid, Waiting, Payloads, Bulk;
      var buf: seq<byte> := [];
      while |buf| < len
        invariant Valid() && |buf| <= len && delivered == old(delivered) + buf
        decreases len - |buf|, Bulk(arrivals)
      {
        var bytes := ConsumeBuffered(len - |buf|);
        if bytes != [] {
          buf := buf + bytes;
        } else {
          var filled, late := FillBuffer(len - |buf|);
          if filled.Err? { return Err; }
          bytes := ConsumeBuffered(len - |buf|);
          if bytes != [] {
            buf := buf + bytes;
          } else if late {
            return Err;
          }
        }
      }
      return Ok(buf);
    }
  }
}
