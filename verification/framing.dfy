/**
 * Outbound packet framing (`prepare_cmd`, `write_header`, `compute_checksum`
 * in src/driver.rs) as a function of the device address and the command,
 * and the sensor's view of a well-framed command packet.
 */
module Framing {
  import opened Bytes
  import opened Wrappers
  import opened Checksums
  import opened Commands

  /** The constant start code of every packet. */
  const Header: seq<byte> := [0xEF, 0x01]

  /** Capacity of the driver's command buffer. */
  const CmdCapacity: nat := 128

  /**
   * The complete packet for `cmd`: start code, address, payload, and the
   * checksum of everything from the packet-type byte onward.
   */
  function Packet(address: u32, cmd: Command): (p: seq<byte>)
    ensures 12 <= |p| <= 17 < CmdCapacity
  {
    var unsealed := Header + BE32(address) + Payload(cmd);
    unsealed + BE16(Checksum(unsealed[6..]))
  }

  /**
   * A byte sequence is a well-framed packet when it starts with the start
   * code, its length field counts the bytes after it, and it ends with the
   * checksum of bytes 6 up to the checksum itself.
   */
  predicate WellFramed(p: seq<byte>)
  {
    |p| >= 12 && p[..2] == Header && FromBE16(p[7], p[8]) == |p| - 9 &&
    p[|p| - 2..] == BE16(Checksum(p[6..|p| - 2]))
  }

  /** The layout of every packet the driver builds. */
  lemma PacketLayout(address: u32, cmd: Command)
    ensures var p := Packet(address, cmd);
      && p[..2] == Header
      && p[2..6] == BE32(address)
      && p[6] == CommandPacket
      && FromBE16(p[7], p[8]) == |p| - 9
      && p[9] == Opcode(cmd)
      && p[6..|p| - 2] == Payload(cmd)
      && p[|p| - 2..] == BE16(Checksum(p[6..|p| - 2]))
      && WellFramed(p)
  {
    var unsealed := Header + BE32(address) + Payload(cmd);
    var p := Packet(address, cmd);
    assert p[..|p| - 2] == unsealed;
    assert p[6..|p| - 2] == unsealed[6..] == Payload(cmd);
    assert p[|p| - 2..] == BE16(Checksum(unsealed[6..]));
  }

  /** How the sensor reads a packet: the framing must hold, then the payload is decoded. */
  function DecodePacket(p: seq<byte>): Option<(u32, Command)>
  {
    if !WellFramed(p) || p[6] != CommandPacket then None
    else match DecodePayload(p[6..|p| - 2])
      case None => None
      case Some(cmd) => Some((FromBE32(p[2], p[3], p[4], p[5]), cmd))
  }

  /** The sensor recovers the address and the command from every packet the driver builds. */
  lemma PacketRoundTrip(address: u32, cmd: Command)
    ensures DecodePacket(Packet(address, cmd)) == Some((address, cmd))
  {
    PacketLayout(address, cmd);
    PayloadRoundTrip(cmd);
    BE32RoundTrip(address);
  }

  /** Different (address, command) pairs never produce the same packet. */
  lemma PacketInjective(a1: u32, c1: Command, a2: u32, c2: Command)
    requires Packet(a1, c1) == Packet(a2, c2)
    ensures a1 == a2 && c1 == c2
  {
    PacketRoundTrip(a1, c1);
    PacketRoundTrip(a2, c2);
  }
}
