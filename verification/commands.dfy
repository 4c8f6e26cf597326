/**
 * The commands a host can send to the R502 and their payload encodings
 * (`ToPayload` for `Command`): the packet-type byte, the big-endian length
 * field, the instruction code and the big-endian parameters.
 */
module Commands {
  import opened Bytes
  import opened Wrappers

  datatype Command =
    | ReadSysPara
    | VfyPwd(password: u32)
    | GenImg
    | Img2Tz(buffer: byte)
    | Search(buffer: byte, startIndex: u16, endIndex: u16)
    | LoadChar(buffer: byte, index: u16)
    | Match
    | TemplateNum
    | RegModel
    | Store(buffer: byte, index: u16)
    | DeletChar(startIndex: u16, numToDelete: u16)

  /** Packet identifier of a command packet. */
  const CommandPacket: byte := 0x01

  /** The instruction code of each command: one of the sensor's eleven instructions used here. */
  function Opcode(cmd: Command): (op: byte)
    ensures op in {0x01, 0x02, 0x03, 0x04, 0x05, 0x06, 0x07, 0x0C, 0x0F, 0x13, 0x1D}
  {
    match cmd
    case ReadSysPara => 0x0F
    case VfyPwd(_) => 0x13
    case GenImg => 0x01
    case Img2Tz(_) => 0x02
    case Search(_, _, _) => 0x04
    case LoadChar(_, _) => 0x07
    case Match => 0x03
    case TemplateNum => 0x1D
    case RegModel => 0x05
    case Store(_, _) => 0x06
    case DeletChar(_, _) => 0x0C
  }

  /** The parameter bytes of each command, in order, multi-byte fields big-endian. */
  function Params(cmd: Command): (p: seq<byte>)
    ensures |p| <= 5
  {
    match cmd
    case VfyPwd(password) => BE32(password)
    case Img2Tz(buffer) => [buffer]
    case Search(buffer, startIndex, endIndex) => [buffer] + BE16(startIndex) + BE16(endIndex)
    case LoadChar(buffer, index) => [buffer] + BE16(index)
    case Store(buffer, index) => [buffer] + BE16(index)
    case DeletChar(startIndex, numToDelete) => BE16(startIndex) + BE16(numToDelete)
    case _ => []
  }

  /**
   * What `to_payload` appends after the address: packet type, the length
   * field (instruction + parameters + 2 checksum bytes), instruction, parameters.
   */
  function Payload(cmd: Command): (p: seq<byte>)
    ensures 4 <= |p| <= 9
    ensures p[0] == CommandPacket && p[3] == Opcode(cmd)
    ensures FromBE16(p[1], p[2]) == |p| - 1
  {
    [CommandPacket] + BE16(|Params(cmd)| + 3) + [Opcode(cmd)] + Params(cmd)
  }

  /**
   * How the sensor reads a command payload: the packet type and the length
   * field must agree with the bytes present, and the instruction code
   * selects how many parameter bytes follow and what they mean.
   */
  function DecodePayload(p: seq<byte>): Option<Command>
  {
    if |p| < 4 || p[0] != CommandPacket || FromBE16(p[1], p[2]) != |p| - 1 then None
    else DecodeInstruction(p[3], p[4..])
  }

  /** The command with instruction code `op` and parameter bytes `ps`, if there is one. */
  function DecodeInstruction(op: byte, ps: seq<byte>): Option<Command>
  {
    if op == 0x0F && |ps| == 0 then Some(ReadSysPara)
    else if op == 0x13 && |ps| == 4 then Some(VfyPwd(FromBE32(ps[0], ps[1], ps[2], ps[3])))
    else if op == 0x01 && |ps| == 0 then Some(GenImg)
    else if op == 0x02 && |ps| == 1 then Some(Img2Tz(ps[0]))
    else if op == 0x04 && |ps| == 5 then
      Some(Search(ps[0], FromBE16(ps[1], ps[2]), FromBE16(ps[3], ps[4])))
    else if op == 0x07 && |ps| == 3 then Some(LoadChar(ps[0], FromBE16(ps[1], ps[2])))
    else if op == 0x03 && |ps| == 0 then Some(Match)
    else if op == 0x1D && |ps| == 0 then Some(TemplateNum)
    else if op == 0x05 && |ps| == 0 then Some(RegModel)
    else if op == 0x06 && |ps| == 3 then Some(Store(ps[0], FromBE16(ps[1], ps[2])))
    else if op == 0x0C && |ps| == 4 then
      Some(DeletChar(FromBE16(ps[0], ps[1]), FromBE16(ps[2], ps[3])))
    else None
  }

  /** The sensor recovers exactly the command the driver encoded. */
  lemma PayloadRoundTrip(cmd: Command)
    ensures DecodePayload(Payload(cmd)) == Some(cmd)
  {
    var p := Payload(cmd);
    assert p[4..] == Params(cmd);
    match cmd
    case VfyPwd(password) =>
      BE32RoundTrip(password);
    case Search(buffer, startIndex, endIndex) =>
      BE16RoundTrip(startIndex);
      BE16RoundTrip(endIndex);
    case LoadChar(buffer, index) =>
      BE16RoundTrip(index);
    case Store(buffer, index) =>
      BE16RoundTrip(index);
    case DeletChar(startIndex, numToDelete) =>
      BE16RoundTrip(startIndex);
      BE16RoundTrip(numToDelete);
    case _ =>
  }

  /** Distinct commands have distinct payloads. */
  lemma PayloadInjective(c1: Command, c2: Command)
    requires Payload(c1) == Payload(c2)
    ensures c1 == c2
  {
    PayloadRoundTrip(c1);
    PayloadRoundTrip(c2);
  }
}
