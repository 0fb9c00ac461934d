/** Restoring a file to the card with a one-deep pipeline of writes. */
module Restore {
  import opened Bytes
  import opened Packets
  import opened LinkCrc
  import opened Device
  import opened HostLink

  const CHUNK := 16

  function SectorsOf(file: seq<byte>): nat { (|file| + SECTOR - 1) / SECTOR }

  /** The part of the file from sector `start` on, padded with zeros to whole sectors. */
  function Image(file: seq<byte>, start: nat): (s: seq<byte>)
    requires start * SECTOR <= |file|
    ensures |s| == (SectorsOf(file) - start) * SECTOR && |s| % SECTOR == 0
    ensures |file| <= SECTOR * 0x1_0000_0000 ==> start * SECTOR + |s| <= SECTOR * 0x1_0000_0000
  {
    file[start * SECTOR..] + Zeros((SectorsOf(file)) * SECTOR - |file|)
  }

  /** What a finished restore leaves: each sector from `start` to the end of the file holds the file's bytes of
      the same position, or zeros past its end, and the rest of the card is as it was. */
  lemma RestoredBytes(file: seq<byte>, start: nat, card: seq<byte>, card': seq<byte>)
    requires start * SECTOR < |file| && Landed(card, card', start, Image(file, start), SectorsOf(file) - start)
    ensures |card'| == |card| && SectorsOf(file) * SECTOR <= |card|
    ensures forall i :: 0 <= i < |card| ==>
              card'[i] == if start * SECTOR <= i < |file| then file[i]
                          else if |file| <= i < SectorsOf(file) * SECTOR then 0
                          else card[i]
  {
    var image := Image(file, start);
    assert image[..(SectorsOf(file) - start) * SECTOR] == image;
  }

  lemma ChunkIsImage(file: seq<byte>, start: nat, from: nat, n: nat)
    requires start * SECTOR <= |file| && 0 < n && start + from + n <= SectorsOf(file)
    ensures var a := (start + from) * SECTOR;
            var b := Min(a + n * SECTOR, |file|);
            && a <= b <= |file| && b - a <= n * SECTOR
            && Put(Zeros(n * SECTOR), 0, file[a..b]) == Image(file, start)[from * SECTOR..(from + n) * SECTOR]
  {
    var a := (start + from) * SECTOR;
    var b := Min(a + n * SECTOR, |file|);
    assert a < |file|;
    var chunk, image := Put(Zeros(n * SECTOR), 0, file[a..b]), Image(file, start);
    var part := image[from * SECTOR..(from + n) * SECTOR];
    forall i | 0 <= i < n * SECTOR ensures chunk[i] == part[i] {
      assert part[i] == image[from * SECTOR + i];
      if a + i < |file| {
        assert image[from * SECTOR + i] == file[start * SECTOR..][from * SECTOR + i] == file[a + i];
      }
    }
  }

  method CutChunk(file: seq<byte>, start: nat, written: nat, n: nat) returns (chunk: seq<byte>)
    requires start * SECTOR <= |file| && 0 < n && start + written + n <= SectorsOf(file)
    ensures chunk == Image(file, start)[written * SECTOR..(written + n) * SECTOR]
  {
    hide Image, SectorsOf;
    ChunkIsImage(file, start, written, n);
    var from := start * SECTOR + written * SECTOR;
    var end := Min(from + n * SECTOR, |file|);
    chunk := Put(Zeros(n * SECTOR), 0, file[from..end]);
  }

  datatype Outcome = Rejected | Completed | Cancelled | Failed(lba: nat)

  // ---- which answer is taken for which batch ----

  /** How a restore went on a link without faults: the answers that the controller gave to its batches, and those that
      the host took for them. */
  datatype Story = Story(outcome: Outcome, dev: Dev, given: seq<Packet>, taken: seq<Packet>)

  /** The rest of a restore, with these packets on their way: the answer to the batch before, if there is one, is
      taken before the next batch is sent. */
  function Course(dev: Dev, queue: seq<Packet>, start: nat, image: seq<byte>, written: nat, pending: Option<u32>): Story
    requires written * SECTOR <= |image| && |image| % SECTOR == 0 && start * SECTOR + |image| <= SECTOR * 0x1_0000_0000
    requires pending.Some? ==> queue != []
    decreases |image| - written * SECTOR
  {
    var taken := if pending.Some? then [queue[0]] else [];
    if pending.Some? && queue[0].status != STATUS_OK then Story(Failed(pending.value), dev, [], taken)
    else if written * SECTOR == |image| then Story(Completed, dev, [], taken)
    else
      var n := Min(CHUNK, |image| / SECTOR - written);
      var a := AnswerWrite(dev, start + written, n, image[written * SECTOR..(written + n) * SECTOR]);
      var s := Course(a.dev, queue[|taken|..] + a.packets, start, image, written + n, Some(start + written));
      Story(s.outcome, s.dev, a.packets + s.given, taken + s.taken)
  }

  lemma PrefixShift<T>(a: seq<T>, b: seq<T>, c: seq<T>, more: seq<T>, t: seq<T>)
    requires t <= (b + c) + more
    ensures a + t <= (a + b) + (c + more)
  {
    assert (a + b) + (c + more) == a + ((b + c) + more);
  }

  /** The packets taken are those that were on their way and then those given, in this order. */
  lemma {:induction false} TakenInOrder(dev: Dev, queue: seq<Packet>, start: nat, image: seq<byte>, written: nat,
                                        pending: Option<u32>)
    requires written * SECTOR <= |image| && |image| % SECTOR == 0 && start * SECTOR + |image| <= SECTOR * 0x1_0000_0000
    requires pending.Some? ==> queue != []
    ensures var s := Course(dev, queue, start, image, written, pending);
            && s.taken <= queue + s.given
            && (s.outcome.Completed? ==> forall p :: p in s.taken ==> p.status == STATUS_OK)
            && (s.outcome.Completed? ==> |s.taken| == |s.given| + if pending.Some? then 1 else 0)
    decreases |image| - written * SECTOR
  {
    hide AnswerWrite;
    var taken := if pending.Some? then [queue[0]] else [];
    assert queue == taken + queue[|taken|..];
    if (pending.Some? && queue[0].status != STATUS_OK) || written * SECTOR == |image| {
    } else {
      var n := Min(CHUNK, |image| / SECTOR - written);
      var a := AnswerWrite(dev, start + written, n, image[written * SECTOR..(written + n) * SECTOR]);
      var rest := queue[|taken|..] + a.packets;
      TakenInOrder(a.dev, rest, start, image, written + n, Some(start + written));
      var s := Course(a.dev, rest, start, image, written + n, Some(start + written));
      PrefixShift(taken, queue[|taken|..], a.packets, s.given, s.taken);
      assert Course(dev, queue, start, image, written, pending)
          == Story(s.outcome, s.dev, a.packets + s.given, taken + s.taken);
    }
  }

  /** A restore that completes has sent batches of sixteen sectors, and at the end one of those that were left. */
  lemma {:induction false} BatchCount(dev: Dev, queue: seq<Packet>, start: nat, image: seq<byte>, written: nat,
                                      pending: Option<u32>)
    requires written * SECTOR <= |image| && |image| % SECTOR == 0 && start * SECTOR + |image| <= SECTOR * 0x1_0000_0000
    requires pending.Some? ==> queue != []
    ensures var s := Course(dev, queue, start, image, written, pending);
            s.outcome.Completed? ==> |s.given| == (|image| / 512 - written + 15) / 16
    decreases |image| - written * SECTOR
  {
    hide AnswerWrite;
    var taken := if pending.Some? then [queue[0]] else [];
    if (pending.None? || queue[0].status == STATUS_OK) && written * SECTOR < |image| {
      var n := Min(CHUNK, |image| / SECTOR - written);
      var a := AnswerWrite(dev, start + written, n, image[written * SECTOR..(written + n) * SECTOR]);
      BatchCount(a.dev, queue[|taken|..] + a.packets, start, image, written + n, Some(start + written));
    }
  }

  /** Each answer was taken for the batch it belongs to, and success is reported only if all batches were accepted. */
  predicate Matched(s: Story) {
    && s.taken <= s.given
    && (s.outcome.Completed? ==> forall p :: p in s.given ==> p.status == STATUS_OK)
  }

  /** A controller with room for the image that refuses, or accepts, the first batch. */
  function Contrary(first: Packet, start: nat, image: seq<byte>): Dev {
    Dev(Zeros(start * SECTOR + |image|), [],
        if first.status == STATUS_OK then [Refuse(STATUS_ERR_EMMC, 0)] else [])
  }

  lemma PrefixHead<T>(a: seq<T>, b: seq<T>)
    requires a <= b && a != []
    ensures a[0] == b[0]
  {
  }

  lemma FirstTaken(stale: seq<Packet>, start: nat, image: seq<byte>)
    requires image != [] && |image| % SECTOR == 0 && start * SECTOR + |image| <= SECTOR * 0x1_0000_0000 && stale != []
    ensures !Matched(Course(Contrary(stale[0], start, image), stale, start, image, 0, None))
  {
    var dev := Contrary(stale[0], start, image);
    var n := Min(CHUNK, |image| / SECTOR);
    var a := AnswerWrite(dev, start, n, image[0..n * SECTOR]);
    assert OnCard(dev, start, n);
    assert (a.packets[0].status == STATUS_OK) != (stale[0].status == STATUS_OK);
    var s := Course(a.dev, stale + a.packets, start, image, n, Some(start));
    assert (stale + a.packets)[0] == stale[0] && s.taken[0] == stale[0];
    var whole := Course(dev, stale, start, image, 0, None);
    assert whole.taken[0] == stale[0] && whole.given[0] == a.packets[0];
    if whole.taken <= whole.given { PrefixHead(whole.taken, whole.given); }
  }

  /** Whatever the controller does, answers match and success is true, if and only if no packet is left in the link when
      the first batch is sent. */
  lemma MatchedExactly(stale: seq<Packet>, start: nat, image: seq<byte>)
    requires image != [] && |image| % SECTOR == 0 && start * SECTOR + |image| <= SECTOR * 0x1_0000_0000
    ensures (forall dev: Dev :: Matched(Course(dev, stale, start, image, 0, None))) <==> stale == []
  {
    hide AnswerWrite, Course;
    if stale == [] {
      forall dev: Dev ensures Matched(Course(dev, stale, start, image, 0, None)) {
        TakenInOrder(dev, stale, start, image, 0, None);
        var s := Course(dev, stale, start, image, 0, None);
        assert [] + s.given == s.given;
        if s.outcome.Completed? { assert s.taken == s.given; }
      }
    } else {
      FirstTaken(stale, start, image);
    }
  }

  /** Verdicts that refuse nothing but the last of the batches of `left` sectors. */
  function LastRefused(left: nat): seq<Verdict> {
    if left <= CHUNK then [Refuse(STATUS_ERR_EMMC, 0)] else [Accept] + LastRefused(left - CHUNK)
  }

  lemma {:induction false} LastUnread(dev: Dev, queue: seq<Packet>, start: nat, image: seq<byte>, written: nat,
                                      pending: Option<u32>)
    requires written * SECTOR < |image| && |image| % SECTOR == 0 && start * SECTOR + |image| <= SECTOR * 0x1_0000_0000
    requires |queue| >= (if pending.Some? then 2 else 1) && forall p :: p in queue ==> p.status == STATUS_OK
    requires start * SECTOR + |image| <= |dev.card| && dev.verdicts == LastRefused(|image| / SECTOR - written)
    ensures var s := Course(dev, queue, start, image, written, pending);
            s.outcome.Completed? && s.given != [] && s.given[|s.given| - 1].status != STATUS_OK
    decreases |image| - written * SECTOR
  {
    hide Write;
    var taken := if pending.Some? then [queue[0]] else [];
    var n := Min(CHUNK, |image| / SECTOR - written);
    var a := AnswerWrite(dev, start + written, n, image[written * SECTOR..(written + n) * SECTOR]);
    var rest := queue[|taken|..] + a.packets;
    assert OnCard(dev, start + written, n);
    assert rest[0] in queue;
    if |image| / SECTOR - written > CHUNK {
      LastUnread(a.dev, rest, start, image, written + n, Some(start + written));
    }
  }

  /** With a packet left whose status is OK, a restore whose last batch is refused reports success. */
  lemma FalseReport(stale: seq<Packet>, start: nat, image: seq<byte>) returns (dev: Dev)
    requires image != [] && |image| % SECTOR == 0 && start * SECTOR + |image| <= SECTOR * 0x1_0000_0000
    requires stale != [] && forall p :: p in stale ==> p.status == STATUS_OK
    ensures var s := Course(dev, stale, start, image, 0, None);
            s.outcome.Completed? && s.given != [] && s.given[|s.given| - 1].status != STATUS_OK
  {
    hide Course, AnswerWrite;
    dev := Dev(Zeros(start * SECTOR + |image|), [], LastRefused(|image| / SECTOR));
    LastUnread(dev, stale, start, image, 0, None);
  }

  /** A damaged first packet of the extended CSD: the request fails, and its second packet, status OK, is left. */
  lemma CacheLeaves(csd: Packet, damaged: Packet, crc: byte, at: nat, bit: nat, done: Packet)
    requires Sendable(csd) && |damaged.payload| == |csd.payload| && Sendable(done)
    requires Burst(Covered(csd) + [Crc8(Covered(csd))], Covered(damaged) + [crc], at, bit)
    requires damaged != csd || crc != Crc8(Covered(csd))
    ensures ReceiveCsd([HEADER_RX] + (Covered(damaged) + [crc] + Encode(done))) == Parsed(Err, EncodeAll([done]))
  {
    hide Receive, Crc8, Burst, Encode;
    var q := [HEADER_RX] + (Covered(damaged) + [crc] + Encode(done));
    DamageNoticed([], csd, damaged, crc, at, bit, Encode(done));
    assert [] + q == q;
    EncodeOne([done]);
  }

  // ---- the pipeline ----

  /** The pipeline between two steps: what is confirmed, what has been sent, and what of it is on the card. */
  ghost predicate Pipeline(card0: seq<byte>, card: seq<byte>, incoming: seq<byte>, start: nat, image: seq<byte>,
                           confirmed: nat, written: nat, landed: nat, status: byte) {
    && confirmed <= landed <= written <= confirmed + CHUNK
    && Landed(card0, card, start, image, landed)
    && (if confirmed == written then incoming == []
        else incoming == Encode(Packet(CMD_WRITE_SECTOR, status, [])) && (status == STATUS_OK ==> landed == written))
  }

  /** Nothing can go wrong but a cancellation or the end of the card. */
  ghost predicate Calm(conn: Connection)
    reads conn
  {
    conn.faults == [] && conn.device.verdicts == []
  }

  // ---- what becomes of the card ----

  /** Every byte is the card's or, in the image's place, the image's. */
  predicate Between(card0: seq<byte>, card: seq<byte>, start: nat, image: seq<byte>) {
    && |card| == |card0|
    && forall i :: 0 <= i < |card| ==>
         card[i] == card0[i]
         || (start * SECTOR <= i < start * SECTOR + |image| && card[i] == image[i - start * SECTOR])
  }

  lemma BatchBetween(card0: seq<byte>, card: seq<byte>, card': seq<byte>, start: nat, image: seq<byte>, written: nat,
                     n: nat, part: nat)
    requires Between(card0, card, start, image) && (written + n) * SECTOR <= |image| && part <= n
    requires Landed(card, card', start + written, image[written * SECTOR..(written + n) * SECTOR], part)
    ensures Between(card0, card', start, image)
  {
  }

  /** On a link without faults: these packets are on their way, and the rest goes as the course says. */
  ghost predicate OnCourse(story: Story, dev: Dev, incoming: seq<byte>, queue: seq<Packet>, start: nat,
                           image: seq<byte>, written: nat, pending: Option<u32>) {
    && (forall p :: p in queue ==> Sendable(p)) && incoming == EncodeAll(queue)
    && written * SECTOR <= |image| && |image| % SECTOR == 0 && start * SECTOR + |image| <= SECTOR * 0x1_0000_0000
    && (pending.Some? ==> queue != [])
    && var s := Course(dev, queue, start, image, written, pending);
       s.outcome == story.outcome && s.dev == story.dev
  }

  /** Taking the answer, and sending the next batch, keep to it. */
  lemma CourseTakes(story: Story, dev: Dev, incoming: seq<byte>, queue: seq<Packet>, start: nat, image: seq<byte>,
                    written: nat, pending: Option<u32>)
    requires OnCourse(story, dev, incoming, queue, start, image, written, pending) && pending.Some?
    ensures queue[0].status != STATUS_OK ==> story.outcome == Failed(pending.value) && story.dev == dev
    ensures queue[0].status == STATUS_OK ==>
              OnCourse(story, dev, EncodeAll(queue[1..]), queue[1..], start, image, written, None)
  {
    hide AnswerWrite, EncodeAll;
  }

  lemma CourseSends(story: Story, dev: Dev, incoming: seq<byte>, queue: seq<Packet>, start: nat, image: seq<byte>,
                    written: nat, n: nat, dev': Dev, incoming': seq<byte>)
    requires OnCourse(story, dev, incoming, queue, start, image, written, None)
    requires written * SECTOR < |image| && n == Min(CHUNK, |image| / SECTOR - written)
    requires Asked(dev, incoming, dev', incoming', start + written, image[written * SECTOR..(written + n) * SECTOR])
    ensures var a := AnswerWrite(dev, start + written, n, image[written * SECTOR..(written + n) * SECTOR]);
            OnCourse(story, dev', incoming', queue + a.packets, start, image, written + n, Some(start + written))
  {
    hide AnswerWrite, EncodeAll, Encode;
    var a := AnswerWrite(dev, start + written, n, image[written * SECTOR..(written + n) * SECTOR]);
    EncodeAppend(queue, a.packets[0]);
    assert queue + a.packets == queue + [a.packets[0]];
    assert queue[0..] == queue;
  }

  lemma CourseEnds(story: Story, dev: Dev, incoming: seq<byte>, queue: seq<Packet>, start: nat, image: seq<byte>,
                   written: nat)
    requires OnCourse(story, dev, incoming, queue, start, image, written, None) && written * SECTOR == |image|
    ensures story.outcome == Completed && story.dev == dev
  {
    hide AnswerWrite, EncodeAll;
  }

  /** Sends the next batch. On an idle link its answer is then the one packet to come. */
  method SendBatch(conn: Connection, start: u32, ghost image: seq<byte>, ghost card0: seq<byte>, written: nat, n: nat,
                   chunk: seq<byte>, ghost idle: bool)
    returns (r: Result<nat>, ghost landed: nat, ghost status: byte)
    requires 0 < n <= CHUNK && (written + n) * SECTOR <= |image|
             && chunk == image[written * SECTOR..(written + n) * SECTOR]
    requires start + written + n <= 0x1_0000_0000 && conn.owed == 0
    requires Between(card0, conn.device.card, start, image)
    requires idle ==> conn.incoming == [] && Landed(card0, conn.device.card, start, image, written)
    modifies conn
    ensures Between(card0, conn.device.card, start, image)
    ensures r.Ok? ==> Asked(old(conn.device), old(conn.incoming), conn.device, conn.incoming, start + written, chunk)
    ensures idle && r.Ok? ==>
            Pipeline(card0, conn.device.card, conn.incoming, start, image, written, written + n, landed, status)
    ensures written <= landed <= written + n
    ensures idle ==> Landed(card0, conn.device.card, start, image, landed)
    ensures |conn.device.card| == |old(conn.device.card)|
    ensures old(conn.received) <= conn.received
    ensures conn.owed == 1 && conn.peak == if 1 > old(conn.peak) then 1 else old(conn.peak)
    ensures old(conn.faults) == [] ==> conn.faults == [] && r.Ok?
    ensures old(Calm(conn)) ==>
              Calm(conn) && (status == STATUS_OK <==> (start + written + n) * SECTOR <= |old(conn.device.card)|)
  {
    hide AnswerWrite, Landed, Encode, Receive, Between;
    ghost var dev := conn.device;
    var part := AnswerTells(dev, start + written, n, chunk);
    ghost var a := AnswerWrite(dev, start + written, n, chunk);
    BatchBetween(card0, dev.card, a.dev.card, start, image, written, n, part);
    if idle { LandedThen(card0, dev.card, a.dev.card, start, image, written, n, part); }
    status := a.packets[0].status;
    r := conn.SendWriteCommand((start + written) % 0x1_0000_0000, chunk);
    landed := if r.Err? && conn.device == dev then written else written + part;
    assert [] + Encode(Packet(CMD_WRITE_SECTOR, status, [])) == Encode(Packet(CMD_WRITE_SECTOR, status, []));
  }

  /** Takes the next answer; on a link that was idle it is that of the one batch under way. */
  method TakeAnswer(conn: Connection, ghost status: byte, ghost idle: bool, ghost queue: seq<Packet>)
    returns (r: Result<()>)
    requires conn.owed == 1 && forall p :: p in queue ==> Sendable(p)
    requires idle ==> conn.incoming == Encode(Packet(CMD_WRITE_SECTOR, status, []))
    modifies conn`incoming, conn`faults, conn`owed
    ensures conn.owed == 0
    ensures idle && r.Ok? ==> status == STATUS_OK && conn.incoming == []
    ensures old(conn.faults) == [] ==> conn.faults == []
    ensures idle && old(conn.faults) == [] ==> conn.incoming == [] && (r.Ok? <==> status == STATUS_OK)
    ensures old(conn.faults) == [] && queue != [] && old(conn.incoming) == EncodeAll(queue) ==>
              conn.incoming == EncodeAll(queue[1..]) && (r.Ok? <==> queue[0].status == STATUS_OK)
  {
    hide Encode, Receive;
    ReceiveOne(Packet(CMD_WRITE_SECTOR, status, []), []);
    assert [] + conn.incoming == conn.incoming;
    if queue != [] {
      EncodeHead(queue);
      ReceiveNext(queue[0], EncodeAll(queue[1..]));
    }
    r := conn.RecvWriteResponse();
  }

  /** What is known of a restore from its start: the card and the image, whether the link was idle, whether nothing
      fails at all, and how it goes if no transfer fails. */
  datatype View = View(card0: seq<byte>, start: u32, image: seq<byte>, idle: bool, calm: bool, fair: bool, story: Story)

  function Pending(v: View, confirmed: nat, written: nat): Option<u32>
    requires v.start + written <= 0x1_0000_0000
  {
    if confirmed >= written then None else Some(v.start + confirmed)
  }

  /** Where it stands between two steps. */
  ghost predicate Stands(v: View, dev: Dev, incoming: seq<byte>, sound: bool, queue: seq<Packet>, confirmed: nat,
                         written: nat, landed: nat, status: byte) {
    && confirmed <= written && v.start + written <= 0x1_0000_0000 && written * SECTOR <= |v.image|
    && Between(v.card0, dev.card, v.start, v.image) && |dev.card| == |v.card0|
    && (forall p :: p in queue ==> Sendable(p))
    && (v.idle ==> Pipeline(v.card0, dev.card, incoming, v.start, v.image, confirmed, written, landed, status))
    && (v.fair ==>
          sound && OnCourse(v.story, dev, incoming, queue, v.start, v.image, written, Pending(v, confirmed, written)))
    && (v.calm ==> sound && dev.verdicts == [])
    && (v.calm && v.idle && confirmed < written ==>
          (status == STATUS_OK <==> (v.start + written) * SECTOR <= |v.card0|))
  }

  /** What holds at the end, however it comes. */
  ghost predicate Ends(v: View, dev: Dev, confirmed: nat, landed: nat) {
    && Between(v.card0, dev.card, v.start, v.image)
    && (v.idle ==> confirmed <= landed <= confirmed + CHUNK && Landed(v.card0, dev.card, v.start, v.image, landed))
  }

  lemma StandsEnds(v: View, dev: Dev, incoming: seq<byte>, sound: bool, queue: seq<Packet>, confirmed: nat,
                   written: nat, landed: nat, status: byte)
    requires Stands(v, dev, incoming, sound, queue, confirmed, written, landed, status)
    ensures Ends(v, dev, confirmed, landed)
    ensures v.idle && confirmed == written ==> landed == written && Ends(v, dev, written, landed)
  {
    hide Between, Landed, OnCourse, Encode;
  }

  /** Takes the answer to the batch under way. */
  method Settle(conn: Connection, ghost v: View, ghost queue: seq<Packet>, ghost confirmed: nat, ghost written: nat,
                ghost landed: nat, ghost status: byte)
    returns (r: Result<()>, ghost queue': seq<Packet>)
    requires Stands(v, conn.device, conn.incoming, conn.faults == [], queue, confirmed, written, landed, status)
    requires confirmed < written && conn.owed == 1
    modifies conn`incoming, conn`faults, conn`owed
    ensures conn.owed == 0
    ensures r.Ok? ==>
              Stands(v, conn.device, conn.incoming, conn.faults == [], queue', written, written, landed, status)
    ensures v.fair && r.Err? ==> v.story.outcome == Failed(v.start + confirmed) && v.story.dev == conn.device
    ensures v.calm && v.idle ==> (r.Ok? <==> (v.start + written) * SECTOR <= |v.card0|)
    ensures old(conn.faults) == [] ==> conn.faults == []
  {
    hide AnswerWrite, Landed, Encode, EncodeAll, Between, Course, OnCourse;
    ghost var pending := Pending(v, confirmed, written);
    if v.fair {
      CourseTakes(v.story, conn.device, conn.incoming, queue, v.start, v.image, written, pending);
      QueueAhead(v.story, conn.device, conn.incoming, queue, v.start, v.image, written, pending);
    }
    queue' := if queue == [] then [] else queue[1..];
    r := TakeAnswer(conn, status, v.idle, queue);
  }

  /** Sends the next batch when none is under way. */
  method SendNext(conn: Connection, ghost v: View, start: u32, chunk: seq<byte>, written: nat, n: nat,
                  ghost queue: seq<Packet>, ghost landed: nat, ghost status: byte)
    returns (r: Result<nat>, ghost queue': seq<Packet>, ghost landed': nat, ghost status': byte)
    requires Stands(v, conn.device, conn.incoming, conn.faults == [], queue, written, written, landed, status)
    requires conn.owed == 0 && start == v.start && |v.image| % SECTOR == 0 && written * SECTOR < |v.image|
    requires v.start * SECTOR + |v.image| <= SECTOR * 0x1_0000_0000 && n == Min(CHUNK, |v.image| / SECTOR - written)
    requires chunk == v.image[written * SECTOR..(written + n) * SECTOR]
    modifies conn
    ensures old(conn.received) <= conn.received
    ensures conn.owed == 1 && conn.peak == if 1 > old(conn.peak) then 1 else old(conn.peak)
    ensures r.Ok? ==> Stands(v, conn.device, conn.incoming, conn.faults == [], queue', written, written + n, landed',
                             status')
    ensures r.Err? ==> Ends(v, conn.device, written, landed') && !v.fair && !v.calm
    ensures old(conn.faults) == [] ==> conn.faults == []
  {
    hide AnswerWrite, Landed, Encode, EncodeAll, Between, Course, OnCourse, Asked;
    ghost var dev, before := conn.device, conn.incoming;
    r, landed', status' := SendBatch(conn, start, v.image, v.card0, written, n, chunk, v.idle);
    queue' := queue;
    if v.fair {
      CourseSends(v.story, dev, before, queue, v.start, v.image, written, n, conn.device, conn.incoming);
      queue' := queue + AnswerWrite(dev, start + written, n, chunk).packets;
    }
  }

  lemma ImageSize(file: seq<byte>, start: nat)
    requires start * SECTOR < |file| <= SECTOR * 0x1_0000_0000
    ensures |Image(file, start)| == ((|file| + SECTOR - 1) / SECTOR - start) * SECTOR
    ensures |Image(file, start)| % SECTOR == 0 && start * SECTOR + |Image(file, start)| <= SECTOR * 0x1_0000_0000
    ensures (|file| + SECTOR - 1) / SECTOR == SectorsOf(file) && start < SectorsOf(file)
  {
  }

  /** The loop over the batches, up to what it reports. */
  method Pump(conn: Connection, startLba: u32, file: seq<byte>, cancels: seq<bool>, ghost v: View,
              ghost stale: seq<Packet>)
    returns (r: Outcome, ghost confirmed: nat, ghost landed: nat)
    requires startLba * SECTOR < |file| <= SECTOR * 0x1_0000_0000 && conn.owed == 0
    requires Stands(v, conn.device, conn.incoming, conn.faults == [], stale, 0, 0, 0, STATUS_OK)
    requires v.start == startLba && v.image == Image(file, startLba) && (v.fair ==> true !in cancels)
    modifies conn
    ensures Ends(v, conn.device, confirmed, landed) && !r.Rejected? && (r.Cancelled? ==> true in cancels)
    ensures v.idle && r.Completed? ==> confirmed == landed == SectorsOf(file) - startLba
    ensures r.Failed? ==> r.lba == startLba + confirmed
    ensures conn.peak <= 1 || conn.peak == old(conn.peak)
    ensures v.calm && v.idle && r.Cancelled? ==> confirmed == landed || SectorsOf(file) * SECTOR > |v.card0|
    ensures v.calm && v.idle && true !in cancels ==> (r.Completed? <==> SectorsOf(file) * SECTOR <= |v.card0|)
    ensures v.fair ==> r == v.story.outcome && conn.device == v.story.dev
    ensures old(conn.received) <= conn.received
    ensures old(conn.faults) == [] ==> conn.faults == []
  {
    hide Image, Stands, Ends;
    confirmed, landed := 0, 0;
    ImageSize(file, startLba);
    var sectorCount := (|file| + SECTOR - 1) / SECTOR - startLba;
    ghost var queue, status := stale, STATUS_OK;
    var written := 0;
    var pending: Option<u32> := None;
    var turn := 0;
    while written < sectorCount
      invariant 0 <= written <= sectorCount
      invariant Stands(v, conn.device, conn.incoming, conn.faults == [], queue, confirmed, written, landed, status)
      invariant confirmed <= written && pending == Pending(v, confirmed, written)
      invariant conn.owed == (if pending.None? then 0 else 1) && (conn.peak <= 1 || conn.peak == old(conn.peak))
      invariant confirmed == written ==> written == 0
      invariant old(conn.received) <= conn.received
      invariant old(conn.faults) == [] ==> conn.faults == []
    {
      StandsEnds(v, conn.device, conn.incoming, conn.faults == [], queue, confirmed, written, landed, status);
      if turn < |cancels| && cancels[turn] {
        if pending.Some? {
          var drained;
          drained, queue := Settle(conn, v, queue, confirmed, written, landed, status);
          if drained.Ok? {
            StandsEnds(v, conn.device, conn.incoming, conn.faults == [], queue, written, written, landed, status);
            confirmed := written;
          }
        }
        return Cancelled, confirmed, landed;
      }
      turn := turn + 1;
      var n := Min(CHUNK, sectorCount - written);
      var chunk := CutChunk(file, startLba, written, n);
      if pending.Some? {
        var answer;
        answer, queue := Settle(conn, v, queue, confirmed, written, landed, status);
        if answer.Err? { return Failed(pending.value), confirmed, landed; }
        confirmed := written;
      }
      var lba := (startLba + written) % 0x1_0000_0000;
      var sent;
      sent, queue, landed, status := SendNext(conn, v, startLba, chunk, written, n, queue, landed, status);
      if sent.Err? { return Failed(lba), confirmed, landed; }
      pending := Some(lba);
      written := written + n;
    }
    StandsEnds(v, conn.device, conn.incoming, conn.faults == [], queue, confirmed, written, landed, status);
    if pending.Some? {
      var answer;
      answer, queue := Settle(conn, v, queue, confirmed, written, landed, status);
      if answer.Err? { return Failed(pending.value), confirmed, landed; }
      StandsEnds(v, conn.device, conn.incoming, conn.faults == [], queue, written, written, landed, status);
      StandsDone(v, conn.device, conn.incoming, conn.faults == [], queue, written, landed, status);
      confirmed := written;
    }
    return Completed, confirmed, landed;
  }

  /** The pipeline. On a link that is idle at the start, whatever happens, the card holds a prefix of the image: all
      confirmed batches, and at most a part of the one after them; a failure names that batch. No two writes are ever
      unanswered together. On a link where packets are left and no transfer fails, it goes as the course says. */
  method WriteImage(conn: Connection, startLba: u32, file: seq<byte>, cancels: seq<bool>, ghost stale: seq<Packet>)
    returns (r: Outcome, ghost confirmed: nat, ghost landed: nat)
    requires startLba * SECTOR < |file| <= SECTOR * 0x1_0000_0000 && conn.owed == 0
    modifies conn
    ensures !r.Rejected? && (r.Cancelled? ==> true in cancels)
    ensures Between(old(conn.device.card), conn.device.card, startLba, Image(file, startLba))
    ensures old(conn.incoming) == [] ==>
              && confirmed <= landed <= confirmed + 16
              && Landed(old(conn.device.card), conn.device.card, startLba, Image(file, startLba), landed)
    ensures old(conn.incoming) == [] && r.Completed? ==> confirmed == landed == SectorsOf(file) - startLba
    ensures r.Failed? ==> r.lba == startLba + confirmed
    ensures conn.peak <= 1 || conn.peak == old(conn.peak)
    ensures old(Calm(conn)) && old(conn.incoming) == [] && r.Cancelled? ==>
            confirmed == landed || SectorsOf(file) * SECTOR > |old(conn.device.card)|
    ensures old(Calm(conn)) && old(conn.incoming) == [] && true !in cancels ==>
              (r.Completed? <==> SectorsOf(file) * SECTOR <= |old(conn.device.card)|)
    ensures old(conn.faults) == [] && true !in cancels && (forall p :: p in stale ==> Sendable(p))
            && old(conn.incoming) == EncodeAll(stale) ==>
              var s := Course(old(conn.device), stale, startLba, Image(file, startLba), 0, None);
              r == s.outcome && conn.device == SetRegister(s.dev, 32, 1)
    ensures old(conn.faults) == [] ==>
              old(conn.received) < conn.received && conn.received[|conn.received| - 1] == Command(0x09, [32, 1])
  {
    hide Landed, EncodeAll, Image, Between, Course, Stands, SetRegister;
    ImageSize(file, startLba);
    ghost var v := ViewOf(conn, startLba, Image(file, startLba), true !in cancels, stale);
    Starts(conn, v, startLba, Image(file, startLba), true !in cancels, stale);
    r, confirmed, landed := Pump(conn, startLba, file, cancels, v, if v.fair then stale else []);
    var flushed := conn.FlushCache();
  }

  ghost function ViewOf(conn: Connection, start: u32, image: seq<byte>, steady: bool, stale: seq<Packet>): View
    requires |image| % SECTOR == 0 && start * SECTOR + |image| <= SECTOR * 0x1_0000_0000
    reads conn
  {
    var fair := conn.faults == [] && steady && (forall p :: p in stale ==> Sendable(p))
                && conn.incoming == EncodeAll(stale);
    View(conn.device.card, start, image, conn.incoming == [], Calm(conn), fair,
         if fair then Course(conn.device, stale, start, image, 0, None) else Story(Rejected, conn.device, [], []))
  }

  lemma Starts(conn: Connection, v: View, start: u32, image: seq<byte>, steady: bool, stale: seq<Packet>)
    requires |image| % SECTOR == 0 && start * SECTOR + |image| <= SECTOR * 0x1_0000_0000
    requires v == ViewOf(conn, start, image, steady, stale)
    ensures Stands(v, conn.device, conn.incoming, conn.faults == [], if v.fair then stale else [], 0, 0, 0, STATUS_OK)
  {
    hide Course, EncodeAll, Landed, Between, OnCourse;
    NothingLanded(v.card0, start, image);
    BetweenRefl(v.card0, start, image);
    if v.fair { CourseStarts(conn.device, conn.incoming, stale, start, image); }
  }

  lemma StandsDone(v: View, dev: Dev, incoming: seq<byte>, sound: bool, queue: seq<Packet>, written: nat, landed: nat,
                   status: byte)
    requires Stands(v, dev, incoming, sound, queue, written, written, landed, status) && written * SECTOR == |v.image|
    ensures v.fair ==> v.story.outcome == Completed && v.story.dev == dev
  {
    hide Course, EncodeAll, Landed, Between, OnCourse;
    if v.fair { CourseEnds(v.story, dev, incoming, queue, v.start, v.image, written); }
  }

  lemma BetweenRefl(card: seq<byte>, start: nat, image: seq<byte>)
    ensures Between(card, card, start, image)
  {
  }

  lemma CourseStarts(dev: Dev, incoming: seq<byte>, stale: seq<Packet>, start: nat, image: seq<byte>)
    requires (forall p :: p in stale ==> Sendable(p)) && incoming == EncodeAll(stale)
    requires |image| % SECTOR == 0 && start * SECTOR + |image| <= SECTOR * 0x1_0000_0000
    ensures OnCourse(Course(dev, stale, start, image, 0, None), dev, incoming, stale, start, image, 0, None)
  {
    hide Course, EncodeAll;
  }

  lemma QueueAhead(story: Story, dev: Dev, incoming: seq<byte>, queue: seq<Packet>, start: nat, image: seq<byte>,
                   written: nat, pending: Option<u32>)
    requires OnCourse(story, dev, incoming, queue, start, image, written, pending) && pending.Some?
    ensures queue != [] && incoming == EncodeAll(queue)
  {
    hide Course, EncodeAll;
  }

  /** The restore. A cache that cannot be switched on is no obstacle to it; what that leaves in the link decides whether
      its answers can be trusted. With no failing transfer it leaves nothing. */
  method RestoreFromFile(conn: Connection, startLba: u32, file: seq<byte>, cancels: seq<bool>)
    returns (r: Outcome, ghost left: seq<byte>, ghost confirmed: nat, ghost landed: nat)
    requires conn.owed == 0 && |file| <= SECTOR * 0x1_0000_0000
    modifies conn
    ensures r.Rejected? <==> startLba * SECTOR >= |file|
    ensures r.Rejected? ==> conn.device == old(conn.device) && conn.received == old(conn.received)
    ensures old(conn.faults) == [] && !r.Rejected? ==>
              && old(conn.received) + [Command(0x07, [])] < conn.received
              && conn.received[|conn.received| - 1] == Command(0x09, [32, 1])
    ensures old(conn.faults) == [] && !r.Rejected? && old(conn.incoming) == [] ==>
              old(conn.received) + CacheCommands(old(conn.device)) < conn.received
    ensures !r.Rejected? ==> Between(old(conn.device.card), conn.device.card, startLba, Image(file, startLba))
    ensures old(conn.incoming) == [] && old(conn.faults) == [] ==> left == []
    ensures !r.Rejected? && left == [] ==>
              && confirmed <= landed <= confirmed + 16
              && Landed(old(conn.device.card), conn.device.card, startLba, Image(file, startLba), landed)
    ensures left == [] && r.Completed? ==> confirmed == landed == SectorsOf(file) - startLba
    ensures left == [] && r.Failed? ==> r.lba == startLba + confirmed
    ensures r.Cancelled? ==> true in cancels
    ensures conn.peak <= 1 || conn.peak == old(conn.peak)
    ensures old(Calm(conn)) && old(conn.incoming) == [] && r.Cancelled? ==>
            confirmed == landed || SectorsOf(file) * SECTOR > |old(conn.device.card)|
    ensures old(Calm(conn)) && old(conn.incoming) == [] && true !in cancels && !r.Rejected? ==>
              (r.Completed? <==> SectorsOf(file) * SECTOR <= |old(conn.device.card)|)
  {
    hide Landed, Image, Between, Course, EncodeAll;
    confirmed, landed, left := 0, 0, [];
    var fileOffset := startLba * SECTOR;
    if fileOffset >= |file| { return Rejected, left, 0, 0; }
    var enabled := conn.EnableCache();
    left := conn.incoming;
    r, confirmed, landed := WriteImage(conn, startLba, file, cancels, []);
  }
}
