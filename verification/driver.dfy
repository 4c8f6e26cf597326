/**
 * The driver facade (`R502` in src/driver.rs): the command buffer, the
 * receive buffer and the in-flight command, together with the serial
 * transport it owns. `send_command` runs one whole request/reply cycle.
 */
module Driver {
  import opened Bytes
  import opened Wrappers
  import opened Errors
  import opened Checksums
  import opened Commands
  import opened Framing
  import opened Transport
  import opened Dispatch
  import R = Responses

  /** Bytes read before the length of the reply is known. */
  const ReplyHeaderLength: nat := 9

  /** Capacity of the driver's receive buffer. */
  const RecvCapacity: nat := 1024

  /** What one of `read_reply`'s loops leaves behind: the bytes stored, the reads performed, and the error that stopped it. */
  datatype Fill = Fill(bytes: seq<byte>, readCount: nat, error: Option<Error>)

  /**
   * `n` reads starting at read number `pos`, each byte pushed onto a buffer
   * with `room` free places: a failed read stops at once with
   * RecvReadError, and a byte that finds no room stops with
   * ReceiveBufferFull (the source panics there).
   */
  function FillSpec(rx: nat -> RxEvent, pos: nat, n: nat, room: nat): (f: Fill)
    ensures |f.bytes| <= n && |f.bytes| <= room
    ensures f.error.None? ==> |f.bytes| == n == f.readCount
    ensures f.error.Some? ==> f.readCount == |f.bytes| + 1
    decreases n
  {
    if n == 0 then Fill([], 0, None)
    else
      var f := FillSpec(rx, pos, n - 1, room);
      if f.error.Some? then f
      else match rx(pos + n - 1)
        case RxFault(e) => Fill(f.bytes, n, Some(RecvReadError(e)))
        case RxByte(b) =>
          if n - 1 < room then Fill(f.bytes + [b], n, None)
          else Fill(f.bytes, n, Some(ReceiveBufferFull))
  }

  /**
   * The loop stops early only for a failed read, reported with the
   * transport's error, or for a byte that finds the buffer full.
   */
  lemma {:induction false} FillStops(rx: nat -> RxEvent, pos: nat, n: nat, room: nat)
    ensures var f := FillSpec(rx, pos, n, room);
      f.error.Some? ==>
        && (f.error.value.RecvReadError? || f.error.value == ReceiveBufferFull)
        && (f.error.value.RecvReadError? ==> rx(pos + |f.bytes|) == RxFault(f.error.value.rxError))
        && (f.error.value == ReceiveBufferFull ==> |f.bytes| == room < n && rx(pos + room).RxByte?)
    decreases n
  {
    if n > 0 {
      FillStops(rx, pos, n - 1, room);
    }
  }

  /** Every byte stored is the byte the source delivered at that read. */
  lemma {:induction false} FillDelivered(rx: nat -> RxEvent, pos: nat, n: nat, room: nat, k: nat)
    requires k < |FillSpec(rx, pos, n, room).bytes|
    ensures rx(pos + k) == RxByte(FillSpec(rx, pos, n, room).bytes[k])
    decreases n
  {
    if k < |FillSpec(rx, pos, n - 1, room).bytes| {
      FillDelivered(rx, pos, n - 1, room, k);
    }
  }

  /** Once the loop has stopped, asking for more reads changes nothing. */
  lemma {:induction false} FillSticky(rx: nat -> RxEvent, pos: nat, i: nat, n: nat, room: nat)
    requires i <= n && FillSpec(rx, pos, i, room).error.Some?
    ensures FillSpec(rx, pos, n, room) == FillSpec(rx, pos, i, room)
    decreases n
  {
    if n > i {
      FillSticky(rx, pos, i, n - 1, room);
    }
  }

  /** A byte that fits extends a clean run of reads. */
  lemma FillStep(rx: nat -> RxEvent, pos: nat, i: nat, room: nat, got: seq<byte>, b: byte)
    requires FillSpec(rx, pos, i, room) == Fill(got, i, None) && i < room && rx(pos + i) == RxByte(b)
    ensures FillSpec(rx, pos, i + 1, room) == Fill(got + [b], i + 1, None)
  {
  }

  /** A read failing after `i` good ones ends the loop there. */
  lemma FillReadFault(rx: nat -> RxEvent, pos: nat, n: nat, room: nat, i: nat, got: seq<byte>, e: TransportError)
    requires i < n && FillSpec(rx, pos, i, room) == Fill(got, i, None) && rx(pos + i) == RxFault(e)
    ensures FillSpec(rx, pos, n, room) == Fill(got, i + 1, Some(RecvReadError(e)))
  {
    FillSticky(rx, pos, i + 1, n, room);
  }

  /** A byte arriving when the buffer is full ends the loop. */
  lemma FillOverflow(rx: nat -> RxEvent, pos: nat, n: nat, room: nat, got: seq<byte>, b: byte)
    requires room < n && FillSpec(rx, pos, room, room) == Fill(got, room, None) && rx(pos + room) == RxByte(b)
    ensures FillSpec(rx, pos, n, room) == Fill(got, room + 1, Some(ReceiveBufferFull))
  {
    FillSticky(rx, pos, room + 1, n, room);
  }

  /** What reading one reply leaves behind: the bytes received, the reads performed, the outcome. */
  datatype ReplyRead = ReplyRead(bytes: seq<byte>, readCount: nat, result: Result<u16>)

  /**
   * `read_reply` as a function of the byte source: 9 header bytes, then as
   * many bytes as the big-endian length at offsets 7..9 says, into the
   * 1024-byte receive buffer.
   */
  function ReadReplySpec(rx: nat -> RxEvent, pos: nat): (o: ReplyRead)
    ensures |o.bytes| <= RecvCapacity
    ensures o.result.Ok? ==> o.readCount == |o.bytes| == o.result.value as int
    ensures o.result.Err? ==> o.readCount == |o.bytes| + 1
  {
    var header := FillSpec(rx, pos, ReplyHeaderLength, RecvCapacity);
    if header.error.Some? then ReplyRead(header.bytes, header.readCount, Err(header.error.value))
    else
      var length := FromBE16(header.bytes[7], header.bytes[8]);
      var body := FillSpec(rx, pos + header.readCount, length, RecvCapacity - |header.bytes|);
      ReplyRead(header.bytes + body.bytes, header.readCount + body.readCount,
                if body.error.Some? then Err(body.error.value) else Ok(ReplyHeaderLength + length))
  }

  /** A header that stops early is the whole of the reply read. */
  lemma ReadReplyHeaderStopped(rx: nat -> RxEvent, pos: nat, header: Fill)
    requires header == FillSpec(rx, pos, ReplyHeaderLength, RecvCapacity) && header.error.Some?
    ensures ReadReplySpec(rx, pos) == ReplyRead(header.bytes, header.readCount, Err(header.error.value))
  {
  }

  /** A clean header followed by the body it announces makes up the whole reply. */
  lemma ReadReplyComposed(rx: nat -> RxEvent, pos: nat, header: Fill, body: Fill)
    requires header == FillSpec(rx, pos, ReplyHeaderLength, RecvCapacity) && header.error.None?
    requires body == FillSpec(rx, pos + ReplyHeaderLength, FromBE16(header.bytes[7], header.bytes[8]),
                              RecvCapacity - ReplyHeaderLength)
    ensures body.error.None? ==> ReplyHeaderLength + FromBE16(header.bytes[7], header.bytes[8]) < 0x1_0000
    ensures ReadReplySpec(rx, pos) ==
      ReplyRead(header.bytes + body.bytes, ReplyHeaderLength + body.readCount,
                if body.error.Some? then Err(body.error.value)
                else Ok(ReplyHeaderLength + FromBE16(header.bytes[7], header.bytes[8])))
  {
  }

  /** What writing one packet leaves behind: the bytes accepted, the sink operations performed, and the error that stopped it. */
  datatype Written = Written(sent: seq<byte>, txOps: nat, error: Option<Error>)

  /**
   * The write half of `send_command` as a function of the byte sink:
   * every byte of `bytes` in turn, then a flush; the first failure of
   * either ends it with WriteError.
   */
  function WriteSpec(tx: nat -> TxEvent, pos: nat, bytes: seq<byte>): (w: Written)
    ensures w.sent <= bytes && w.txOps == |w.sent| + 1
    ensures w.error.None? ==> w.sent == bytes && tx(pos + |bytes|) == TxDone
    ensures w.error.Some? ==> w.error.value.WriteError? && tx(pos + |w.sent|) == TxFault(w.error.value.txError)
  {
    var p := PushBytes(tx, pos, |bytes|);
    if p.fault.Some? then Written(bytes[..p.accepted], p.accepted + 1, Some(WriteError(p.fault.value)))
    else match tx(pos + |bytes|)
      case TxFault(e) => Written(bytes, |bytes| + 1, Some(WriteError(e)))
      case TxDone => Written(bytes, |bytes| + 1, None)
  }

  /** A write failing after `i` accepted bytes ends the writing there. */
  lemma WriteFault(tx: nat -> TxEvent, pos: nat, bytes: seq<byte>, i: nat, e: TransportError)
    requires i < |bytes| && PushBytes(tx, pos, i) == Push(i, None) && tx(pos + i) == TxFault(e)
    ensures WriteSpec(tx, pos, bytes) == Written(bytes[..i], i + 1, Some(WriteError(e)))
  {
    PushFaultSticky(tx, pos, i + 1, |bytes|);
  }

  /** Once every byte is accepted, the flush decides the outcome. */
  lemma WriteFlush(tx: nat -> TxEvent, pos: nat, bytes: seq<byte>, flush: TxEvent)
    requires PushBytes(tx, pos, |bytes|) == Push(|bytes|, None) && tx(pos + |bytes|) == flush
    ensures WriteSpec(tx, pos, bytes) ==
      Written(bytes, |bytes| + 1, if flush.TxFault? then Some(WriteError(flush.e)) else None)
  {
  }

  /** What one request/reply cycle leaves behind. */
  datatype Cycle = Cycle(
    result: Result<R.Reply>, sent: seq<byte>, txOps: nat, received: seq<byte>, rxReads: nat)

  /**
   * `send_command` as a function of the address, the command and the
   * transport: write and flush the packet, then read the reply and parse
   * it against the command.
   */
  function Exchange(address: u32, cmd: Command, tx: nat -> TxEvent, txPos: nat,
                    rx: nat -> RxEvent, rxPos: nat): (c: Cycle)
    ensures c.received != [] ==> c.sent == Packet(address, cmd)
    ensures c.result.Ok? ==> c.rxReads == |c.received|
  {
    var w := WriteSpec(tx, txPos, Packet(address, cmd));
    if w.error.Some? then Cycle(Err(w.error.value), w.sent, w.txOps, [], 0)
    else
      var rd := ReadReplySpec(rx, rxPos);
      var result := if rd.result.Err? then Err(rd.result.error) else ParseReply(rd.bytes, Some(cmd));
      Cycle(result, w.sent, w.txOps, rd.bytes, rd.readCount)
  }

  /**
   * On success the receive buffer holds exactly 9 + length bytes, length
   * being the big-endian value at offsets 7..9, and that count is returned;
   * a failed read stops the reply at once and is reported as
   * RecvReadError; a byte that finds the buffer full ends it with
   * ReceiveBufferFull.
   */
  lemma ReadReplyFacts(rx: nat -> RxEvent, pos: nat)
    ensures var o := ReadReplySpec(rx, pos);
      && |o.bytes| <= RecvCapacity
      && (o.result.Ok? ==>
        && |o.bytes| >= ReplyHeaderLength
        && o.result.value as int == |o.bytes| == ReplyHeaderLength + FromBE16(o.bytes[7], o.bytes[8])
        && o.readCount == |o.bytes|)
      && (o.result.Err? ==>
        && o.readCount == |o.bytes| + 1
        && (o.result.error.RecvReadError? || o.result.error == ReceiveBufferFull)
        && (o.result.error.RecvReadError? ==> rx(pos + |o.bytes|) == RxFault(o.result.error.rxError))
        && (o.result.error == ReceiveBufferFull ==> |o.bytes| == RecvCapacity && rx(pos + |o.bytes|).RxByte?))
  {
    var o := ReadReplySpec(rx, pos);
    var header := FillSpec(rx, pos, ReplyHeaderLength, RecvCapacity);
    FillStops(rx, pos, ReplyHeaderLength, RecvCapacity);
    if header.error.None? {
      var length := FromBE16(header.bytes[7], header.bytes[8]);
      FillStops(rx, pos + header.readCount, length, RecvCapacity - |header.bytes|);
      assert o.bytes[7] == header.bytes[7] && o.bytes[8] == header.bytes[8];
    }
  }

  /** Every byte kept in the receive buffer is the byte the source delivered at that read. */
  lemma ReadReplyDelivered(rx: nat -> RxEvent, pos: nat, k: nat)
    requires k < |ReadReplySpec(rx, pos).bytes|
    ensures rx(pos + k) == RxByte(ReadReplySpec(rx, pos).bytes[k])
  {
    var header := FillSpec(rx, pos, ReplyHeaderLength, RecvCapacity);
    if k < |header.bytes| {
      HeaderDelivered(rx, pos, k);
    } else {
      BodyDelivered(rx, pos, k);
    }
  }

  /** A byte of the header is the byte delivered at the same read. */
  lemma HeaderDelivered(rx: nat -> RxEvent, pos: nat, k: nat)
    requires k < |FillSpec(rx, pos, ReplyHeaderLength, RecvCapacity).bytes|
    ensures k < |ReadReplySpec(rx, pos).bytes|
    ensures rx(pos + k) == RxByte(ReadReplySpec(rx, pos).bytes[k])
  {
    FillDelivered(rx, pos, ReplyHeaderLength, RecvCapacity, k);
  }

  /** A byte of the body, read after the 9 header bytes, is the byte delivered at the same read. */
  lemma BodyDelivered(rx: nat -> RxEvent, pos: nat, k: nat)
    requires |FillSpec(rx, pos, ReplyHeaderLength, RecvCapacity).bytes| <= k < |ReadReplySpec(rx, pos).bytes|
    ensures rx(pos + k) == RxByte(ReadReplySpec(rx, pos).bytes[k])
  {
    var header := FillSpec(rx, pos, ReplyHeaderLength, RecvCapacity);
    var length := FromBE16(header.bytes[7], header.bytes[8]);
    FillDelivered(rx, pos + ReplyHeaderLength, length, RecvCapacity - ReplyHeaderLength, k - ReplyHeaderLength);
  }

  /** A failed write or flush is the end of the cycle. */
  lemma ExchangeWriteStopped(address: u32, cmd: Command, tx: nat -> TxEvent, txPos: nat,
                             rx: nat -> RxEvent, rxPos: nat, w: Written)
    requires w == WriteSpec(tx, txPos, Packet(address, cmd)) && w.error.Some?
    ensures Exchange(address, cmd, tx, txPos, rx, rxPos) == Cycle(Err(w.error.value), w.sent, w.txOps, [], 0)
  {
  }

  /** After a clean write, the reply read decides the rest of the cycle. */
  lemma ExchangeAfterWrite(address: u32, cmd: Command, tx: nat -> TxEvent, txPos: nat,
                           rx: nat -> RxEvent, rxPos: nat, w: Written, rd: ReplyRead)
    requires w == WriteSpec(tx, txPos, Packet(address, cmd)) && w.error.None?
    requires rd == ReadReplySpec(rx, rxPos)
    ensures Exchange(address, cmd, tx, txPos, rx, rxPos) ==
      Cycle(if rd.result.Err? then Err(rd.result.error) else ParseReply(rd.bytes, Some(cmd)),
            w.sent, w.txOps, rd.bytes, rd.readCount)
  {
  }

  /**
   * A successful cycle transmitted the whole packet for the command, read
   * a reply packet, and yields the reply variant of the command sent.
   */
  lemma ExchangeReplyAnswersCommand(address: u32, cmd: Command, tx: nat -> TxEvent, txPos: nat,
                                    rx: nat -> RxEvent, rxPos: nat)
    ensures var c := Exchange(address, cmd, tx, txPos, rx, rxPos);
      c.result.Ok? ==>
        && c.sent == Packet(address, cmd)
        && |c.received| >= ReplyHeaderLength && c.received[6] == R.ReplyPacket
        && Answers(c.result.value, cmd)
  {
    var w := WriteSpec(tx, txPos, Packet(address, cmd));
    if w.error.None? {
      var rd := ReadReplySpec(rx, rxPos);
      ReadReplyFacts(rx, rxPos);
      if rd.result.Ok? {
        var p := ParseReply(rd.bytes, Some(cmd));
        assert Exchange(address, cmd, tx, txPos, rx, rxPos).result == p;
      }
    }
  }

  /** The first read of a cycle comes only after the whole packet for the command went out. */
  lemma ExchangeReadsOnlyAfterWrite(address: u32, cmd: Command, tx: nat -> TxEvent, txPos: nat,
                                    rx: nat -> RxEvent, rxPos: nat)
    ensures var c := Exchange(address, cmd, tx, txPos, rx, rxPos);
      c.rxReads > 0 ==> c.sent == Packet(address, cmd)
  {
  }

  /** A failed write or flush ends the cycle before anything is read. */
  lemma ExchangeWriteErrorReadsNothing(address: u32, cmd: Command, tx: nat -> TxEvent, txPos: nat,
                                       rx: nat -> RxEvent, rxPos: nat)
    ensures var c := Exchange(address, cmd, tx, txPos, rx, rxPos);
      c.result.Err? && c.result.error.WriteError? ==> c.received == [] && c.rxReads == 0
  {
    var w := WriteSpec(tx, txPos, Packet(address, cmd));
    if w.error.None? {
      var rd := ReadReplySpec(rx, rxPos);
      ReadReplyFacts(rx, rxPos);
      if rd.result.Ok? {
        var p := ParseReply(rd.bytes, Some(cmd));
        assert Exchange(address, cmd, tx, txPos, rx, rxPos).result == p;
      }
    }
  }

  class R502 {
    /** The device address written into every packet. */
    const address: u32
    /** The command buffer (128 bytes) and how much of it is in use. */
    const cmdBuffer: array<byte>
    var cmdLen: nat
    /** The receive buffer (1024 bytes) and how much of it is in use. */
    const received: array<byte>
    var recvLen: nat
    /** The command whose reply is expected next. */
    var inflight: Option<Command>
    /** The byte sink, the number of operations performed on it, and the bytes it accepted. */
    const tx: nat -> TxEvent
    var txPos: nat
    ghost var sent: seq<byte>
    /** The byte source and the number of reads performed on it. */
    const rx: nat -> RxEvent
    var rxPos: nat

    ghost predicate Valid()
      reads this`cmdLen, this`recvLen
    {
      cmdBuffer.Length == CmdCapacity && received.Length == RecvCapacity &&
      cmdLen <= CmdCapacity && recvLen <= RecvCapacity && cmdBuffer != received
    }

    /** The bytes of the command being assembled. */
    ghost function CmdBytes(): seq<byte>
      requires Valid()
      reads this`cmdLen, this`recvLen, cmdBuffer
    {
      cmdBuffer[..cmdLen]
    }

    /** The bytes received so far. */
    ghost function Received(): seq<byte>
      requires Valid()
      reads this`cmdLen, this`recvLen, received
    {
      received[..recvLen]
    }

    /** `R502::new`: empty buffers and nothing in flight. */
    constructor (tx: nat -> TxEvent, rx: nat -> RxEvent, address: u32)
      ensures Valid() && fresh(cmdBuffer) && fresh(received)
      ensures this.address == address && this.tx == tx && this.rx == rx
      ensures CmdBytes() == [] && Received() == [] && inflight == None
      ensures txPos == 0 && sent == [] && rxPos == 0
    {
      this.address := address;
      this.tx := tx;
      this.rx := rx;
      cmdBuffer := new byte[CmdCapacity];
      received := new byte[RecvCapacity];
      cmdLen, recvLen := 0, 0;
      inflight := None;
      txPos, rxPos := 0, 0;
      sent := [];
    }

    /**
     * `write_cmd_bytes`: appends `bytes` to the command buffer when they
     * fit; when they do not, nothing is appended and `ok` is false (the
     * source panics).
     */
    method WriteCmdBytes(bytes: seq<byte>) returns (ok: bool)
      requires Valid()
      modifies this`cmdLen, cmdBuffer
      ensures Valid()
      ensures ok <==> old(cmdLen) + |bytes| <= CmdCapacity
      ensures CmdBytes() == if ok then old(CmdBytes()) + bytes else old(CmdBytes())
    {
      if cmdLen + |bytes| > CmdCapacity {
        return false;
      }
      var i := 0;
      while i < |bytes|
        invariant Valid()
        invariant 0 <= i <= |bytes| && cmdLen == old(cmdLen) + i
        invariant cmdBuffer[..cmdLen] == old(CmdBytes()) + bytes[..i]
      {
        cmdBuffer[cmdLen] := bytes[i];
        cmdLen := cmdLen + 1;
        i := i + 1;
      }
      return true;
    }

    /** `write_header`: the start code and the big-endian address. */
    method WriteHeader(address: u32)
      requires Valid() && cmdLen + 6 <= CmdCapacity
      modifies this`cmdLen, cmdBuffer
      ensures Valid() && CmdBytes() == old(CmdBytes()) + Header + BE32(address)
    {
      var ok := WriteCmdBytes(Header);
      ok := WriteCmdBytes(BE32(address));
    }

    /** `to_payload`: the command's payload appended through `write_cmd_bytes`. */
    method WritePayload(cmd: Command)
      requires Valid() && cmdLen + |Payload(cmd)| <= CmdCapacity
      modifies this`cmdLen, cmdBuffer
      ensures Valid() && CmdBytes() == old(CmdBytes()) + Payload(cmd)
    {
      var ok := WriteCmdBytes(Payload(cmd));
    }

    /**
     * `compute_checksum`: the 16-bit sum of the command buffer from byte 6
     * on. In a 128-byte buffer the sum never wraps.
     */
    method ComputeChecksum() returns (checksum: u16)
      requires Valid() && cmdLen >= 6
      ensures checksum == Checksum(cmdBuffer[6..cmdLen])
      ensures checksum == Sum(cmdBuffer[6..cmdLen])
    {
      checksum := 0;
      var i := 6;
      while i < cmdLen
        invariant 6 <= i <= cmdLen
        invariant checksum == Checksum(cmdBuffer[6..i])
      {
        ChecksumAppendByte(cmdBuffer[6..i], cmdBuffer[i]);
        assert cmdBuffer[6..i + 1] == cmdBuffer[6..i] + [cmdBuffer[i]];
        checksum := (checksum + cmdBuffer[i]) % 0x1_0000;
        i := i + 1;
      }
    }

    /**
     * `prepare_cmd`: builds the packet for `cmd` in the (cleared) command
     * buffer and records `cmd` as the in-flight request.
     */
    method PrepareCmd(cmd: Command)
      requires Valid() && cmdLen == 0
      modifies this`cmdLen, cmdBuffer, this`inflight
      ensures Valid() && CmdBytes() == Packet(address, cmd) && inflight == Some(cmd)
    {
      ghost var unsealed := Header + BE32(address) + Payload(cmd);
      WriteHeader(address);
      WritePayload(cmd);
      assert CmdBytes() == unsealed;
      var chk := ComputeChecksum();
      assert chk == Checksum(unsealed[6..]);
      var ok := WriteCmdBytes(BE16(chk));
      assert CmdBytes() == unsealed + BE16(Checksum(unsealed[6..]));
      inflight := Some(cmd);
    }

    /**
     * `read_reply`: reads the 9-byte header, then the number of bytes its
     * length field announces, into the (cleared) receive buffer; returns
     * the packet length.
     */
    method ReadReply() returns (r: Result<u16>)
      requires Valid() && recvLen == 0
      modifies this`recvLen, received, this`rxPos
      ensures Valid()
      ensures var o := ReadReplySpec(rx, old(rxPos));
        r == o.result && Received() == o.bytes && rxPos == old(rxPos) + o.readCount
    {
      ghost var pos0 := rxPos;
      ghost var header := FillSpec(rx, rxPos, ReplyHeaderLength, RecvCapacity);
      var error := ReadInto(ReplyHeaderLength);
      if error.Some? {
        ReadReplyHeaderStopped(rx, pos0, header);
        return Err(error.value);
      }
      assert Received() == header.bytes && rxPos == pos0 + ReplyHeaderLength;
      ghost var body := FillSpec(rx, rxPos, FromBE16(header.bytes[7], header.bytes[8]),
                                 RecvCapacity - ReplyHeaderLength);
      ReadReplyComposed(rx, pos0, header, body);
      r := ReadBody();
      assert Received() == header.bytes + body.bytes;
    }

    /**
     * The second half of `read_reply`: as many bytes as the big-endian
     * length at offsets 7..9 of the received header announces.
     */
    method ReadBody() returns (r: Result<u16>)
      requires Valid() && recvLen == ReplyHeaderLength
      modifies this`recvLen, received, this`rxPos
      ensures Valid()
      ensures var length := FromBE16(old(Received())[7], old(Received())[8]);
        var f := FillSpec(rx, old(rxPos), length, RecvCapacity - ReplyHeaderLength);
        && r == (if f.error.Some? then Err(f.error.value) else Ok(ReplyHeaderLength + length))
        && Received() == old(Received()) + f.bytes && rxPos == old(rxPos) + f.readCount
    {
      var length := FromBE16(received[7], received[8]);
      var error := ReadInto(length);
      if error.Some? {
        return Err(error.value);
      }
      r := Ok(ReplyHeaderLength + length);
    }

    /**
     * One of `read_reply`'s two loops: `n` reads, each byte pushed onto the
     * receive buffer, stopping at a failed read or a full buffer.
     */
    method ReadInto(n: nat) returns (error: Option<Error>)
      requires Valid()
      modifies this`recvLen, received, this`rxPos
      ensures Valid()
      ensures var f := FillSpec(rx, old(rxPos), n, RecvCapacity - old(recvLen));
        && error == f.error && recvLen == old(recvLen) + |f.bytes|
        && Received() == old(Received()) + f.bytes && rxPos == old(rxPos) + f.readCount
    {
      ghost var pos0, before := rxPos, Received();
      ghost var room := RecvCapacity - recvLen;
      ghost var got: seq<byte> := [];
      var i := 0;
      while i < n
        invariant Valid()
        invariant 0 <= i <= n && i <= room && recvLen == |before| + i && rxPos == pos0 + i
        invariant Received() == before + got
        invariant FillSpec(rx, pos0, i, room) == Fill(got, i, None)
      {
        var ev := rx(rxPos);
        rxPos := rxPos + 1;
        if ev.RxFault? {
          FillReadFault(rx, pos0, n, room, i, got, ev.e);
          return Some(RecvReadError(ev.e));
        }
        var ok := PushReceived(ev.b);
        if !ok {
          FillOverflow(rx, pos0, n, room, got, ev.b);
          return Some(ReceiveBufferFull);
        }
        FillStep(rx, pos0, i, room, got, ev.b);
        got := got + [ev.b];
        i := i + 1;
      }
      return None;
    }

    /**
     * `ArrayVec::push` on the receive buffer: appends `b` when there is
     * room; when there is none nothing changes and `ok` is false (the
     * source panics).
     */
    method PushReceived(b: byte) returns (ok: bool)
      requires Valid()
      modifies this`recvLen, received
      ensures Valid()
      ensures ok <==> old(recvLen) < RecvCapacity
      ensures Received() == if ok then old(Received()) + [b] else old(Received())
    {
      if recvLen == RecvCapacity {
        return false;
      }
      received[recvLen] := b;
      recvLen := recvLen + 1;
      return true;
    }

    /**
     * The write half of `send_command`: every byte of the command buffer
     * in turn, then a flush, stopping at the first failure.
     */
    method WritePacket() returns (error: Option<Error>)
      requires Valid()
      modifies this`txPos, this`sent
      ensures var w := WriteSpec(tx, old(txPos), CmdBytes());
        error == w.error && sent == old(sent) + w.sent && txPos == old(txPos) + w.txOps
    {
      ghost var tx0, sent0, bytes := txPos, sent, CmdBytes();
      var i := 0;
      while i < cmdLen
        invariant 0 <= i <= cmdLen == |bytes| && txPos == tx0 + i
        invariant sent == sent0 + bytes[..i]
        invariant PushBytes(tx, tx0, i) == Push(i, None)
      {
        var ev := tx(txPos);
        txPos := txPos + 1;
        if ev.TxFault? {
          WriteFault(tx, tx0, bytes, i, ev.e);
          return Some(WriteError(ev.e));
        }
        PushDone(tx, tx0, i);
        assert bytes[..i + 1] == bytes[..i] + [cmdBuffer[i]];
        sent := sent + [cmdBuffer[i]];
        i := i + 1;
      }
      var flush := tx(txPos);
      txPos := txPos + 1;
      WriteFlush(tx, tx0, bytes, flush);
      if flush.TxFault? {
        return Some(WriteError(flush.e));
      }
      return None;
    }

    /**
     * `send_command`: clears both buffers, prepares the packet, writes it
     * and flushes, then reads and parses the reply. The bytes sent depend
     * only on the address and the command, whatever the buffers held
     * before.
     */
    method SendCommand(cmd: Command) returns (r: Result<R.Reply>)
      requires Valid()
      modifies this`cmdLen, cmdBuffer, this`recvLen, received, this`inflight
      modifies this`txPos, this`sent, this`rxPos
      ensures Valid() && CmdBytes() == Packet(address, cmd) && inflight == Some(cmd)
      ensures var c := Exchange(address, cmd, tx, old(txPos), rx, old(rxPos));
        && r == c.result
        && sent == old(sent) + c.sent && txPos == old(txPos) + c.txOps
        && Received() == c.received && rxPos == old(rxPos) + c.rxReads
    {
      cmdLen := 0;
      recvLen := 0;
      PrepareCmd(cmd);
      ghost var w := WriteSpec(tx, txPos, Packet(address, cmd));
      var error := WritePacket();
      if error.Some? {
        ExchangeWriteStopped(address, cmd, tx, old(txPos), rx, old(rxPos), w);
        return Err(error.value);
      }
      ghost var rd := ReadReplySpec(rx, rxPos);
      ExchangeAfterWrite(address, cmd, tx, old(txPos), rx, old(rxPos), w, rd);
      var n := ReadReply();
      if n.Err? {
        return Err(n.error);
      }
      r := ParseReply(received[..recvLen], inflight);
    }
  }
}
