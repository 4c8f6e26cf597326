/**
 * Replies of the R502 (src/responses.rs and the reply records used by
 * src/driver.rs): the system-parameters block and its status-register
 * accessors, the closed status-code maps, the per-command result records,
 * their decoders (`from_payload`), and the sensor's side of the format:
 * the bytes a reply is sent as.
 */
module Responses {
  import opened Bytes
  import opened Wrappers
  import E = Errors
  import Framing

  /** Packet identifier of a reply packet. */
  const ReplyPacket: byte := 0x07

  // ---------------------------------------------------------------------
  // System parameters

  /** The 16-byte block returned by ReadSysPara. */
  datatype SystemParameters = SystemParameters(
    statusRegister: u16,
    systemIdentifierCode: u16,
    fingerLibrarySize: u16,
    securityLevel: u16,
    deviceAddress: u32,
    packetSize: u16,
    baudSetting: u16)

  /** 1 for true, 0 for false. */
  function Bit(b: bool): nat
  {
    if b then 1 else 0
  }

  /** Bit 0 of the status register: the sensor is executing another command. */
  function Busy(sp: SystemParameters): (r: bool)
    ensures r <==> sp.statusRegister % 2 == 1
  {
    (sp.statusRegister as bv16) & (1 << 0) != 0
  }

  /** Bit 1 of the status register: the sensor found a matching finger. */
  function HasFingerMatch(sp: SystemParameters): (r: bool)
    ensures r <==> (sp.statusRegister / 2) % 2 == 1
  {
    (sp.statusRegister as bv16) & (1 << 1) != 0
  }

  /** Bit 2 of the status register: the handshake password was correct. */
  function PasswordOk(sp: SystemParameters): (r: bool)
    ensures r <==> (sp.statusRegister / 4) % 2 == 1
  {
    (sp.statusRegister as bv16) & (1 << 2) != 0
  }

  /** Bit 3 of the status register: the image buffer holds a valid image. */
  function HasValidImage(sp: SystemParameters): (r: bool)
    ensures r <==> (sp.statusRegister / 8) % 2 == 1
  {
    (sp.statusRegister as bv16) & (1 << 3) != 0
  }

  /**
   * The four accessors are the four lowest bits of the status register:
   * together with the bits above them they make up the whole register.
   */
  lemma StatusRegisterBits(sp: SystemParameters)
    ensures sp.statusRegister ==
      Bit(Busy(sp)) + 2 * Bit(HasFingerMatch(sp)) + 4 * Bit(PasswordOk(sp)) +
      8 * Bit(HasValidImage(sp)) + 16 * (sp.statusRegister / 16)
  {
    var x := sp.statusRegister as int;
    assert x == x % 2 + 2 * (x / 2);
    assert x / 2 == (x / 2) % 2 + 2 * (x / 4);
    assert x / 4 == (x / 4) % 2 + 2 * (x / 8);
    assert x / 8 == (x / 8) % 2 + 2 * (x / 16);
  }

  /** The accessors look at the status register and at nothing else. */
  lemma AccessorsReadOnlyStatusRegister(a: SystemParameters, b: SystemParameters)
    requires a.statusRegister == b.statusRegister
    ensures Busy(a) == Busy(b) && HasFingerMatch(a) == HasFingerMatch(b)
    ensures PasswordOk(a) == PasswordOk(b) && HasValidImage(a) == HasValidImage(b)
  {
  }

  /**
   * The system-parameters block read from 16 big-endian bytes: each field
   * is the value whose encoding sits at its offset.
   */
  function SystemParametersFrom(b: seq<byte>): (sp: SystemParameters)
    requires |b| == 16
    ensures BE16(sp.statusRegister) == b[0..2] && BE16(sp.systemIdentifierCode) == b[2..4]
    ensures BE16(sp.fingerLibrarySize) == b[4..6] && BE16(sp.securityLevel) == b[6..8]
    ensures BE32(sp.deviceAddress) == b[8..12]
    ensures BE16(sp.packetSize) == b[12..14] && BE16(sp.baudSetting) == b[14..16]
  {
    SystemParameters(
      FromBE16(b[0], b[1]), FromBE16(b[2], b[3]), FromBE16(b[4], b[5]), FromBE16(b[6], b[7]),
      FromBE32(b[8], b[9], b[10], b[11]), FromBE16(b[12], b[13]), FromBE16(b[14], b[15]))
  }

  /** The 16 bytes the sensor sends for a system-parameters block. */
  function SystemParametersBytes(sp: SystemParameters): (b: seq<byte>)
    ensures |b| == 16
  {
    BE16(sp.statusRegister) + BE16(sp.systemIdentifierCode) + BE16(sp.fingerLibrarySize) +
    BE16(sp.securityLevel) + BE32(sp.deviceAddress) + BE16(sp.packetSize) + BE16(sp.baudSetting)
  }

  /** Decoding the sensor's bytes for a block gives the block back. */
  lemma SystemParametersRoundTrip(sp: SystemParameters)
    ensures SystemParametersFrom(SystemParametersBytes(sp)) == sp
  {
    BE16RoundTrip(sp.statusRegister);
    BE16RoundTrip(sp.systemIdentifierCode);
    BE16RoundTrip(sp.fingerLibrarySize);
    BE16RoundTrip(sp.securityLevel);
    BE32RoundTrip(sp.deviceAddress);
    BE16RoundTrip(sp.packetSize);
    BE16RoundTrip(sp.baudSetting);
  }

  /** Every 16-byte block is the sensor's encoding of what it decodes to. */
  lemma SystemParametersBytesRoundTrip(b: seq<byte>)
    requires |b| == 16
    ensures SystemParametersBytes(SystemParametersFrom(b)) == b
  {
    FromBE16RoundTrip(b[0], b[1]);
    FromBE16RoundTrip(b[2], b[3]);
    FromBE16RoundTrip(b[4], b[5]);
    FromBE16RoundTrip(b[6], b[7]);
    FromBE32RoundTrip(b[8], b[9], b[10], b[11]);
    FromBE16RoundTrip(b[12], b[13]);
    FromBE16RoundTrip(b[14], b[15]);
  }

  // ---------------------------------------------------------------------
  // Status codes

  /** Result of the password handshake. */
  datatype PasswordVerificationState = Correct | Incorrect | Error

  /** The confirmation byte the sensor sends for each handshake result. */
  function PasswordStateByte(s: PasswordVerificationState): byte
  {
    match s
    case Correct => 0x00
    case Incorrect => 0x13
    case Error => 0x01
  }

  /**
   * `PasswordVerificationState::from`: a closed map; every byte outside it
   * is rejected (the source panics).
   */
  function PasswordVerificationStateFrom(b: byte): (r: Option<PasswordVerificationState>)
    ensures r.Some? <==> b == 0x00 || b == 0x13 || b == 0x01
    ensures r.Some? ==> PasswordStateByte(r.value) == b
  {
    if b == 0x00 then Some(Correct)
    else if b == 0x13 then Some(Incorrect)
    else if b == 0x01 then Some(Error)
    else None
  }

  /** Every handshake result is recovered from its byte. */
  lemma PasswordStateRoundTrip(s: PasswordVerificationState)
    ensures PasswordVerificationStateFrom(PasswordStateByte(s)) == Some(s)
  {
  }

  /** Distinct accepted bytes decode to distinct handshake results. */
  lemma PasswordStateInjective(a: byte, b: byte)
    requires PasswordVerificationStateFrom(a).Some?
    requires PasswordVerificationStateFrom(a) == PasswordVerificationStateFrom(b)
    ensures a == b
  {
  }

  /** Result of image capture. */
  datatype GenImgStatus = Success | PacketError | FingerNotDetected | ImageNotCaptured

  /** The confirmation byte the sensor sends for each capture result. */
  function GenImgStatusByte(s: GenImgStatus): byte
  {
    match s
    case Success => 0x00
    case PacketError => 0x01
    case FingerNotDetected => 0x02
    case ImageNotCaptured => 0x03
  }

  /**
   * `GenImgStatus::from`: bytes 0x00 to 0x03 in order; every byte above
   * 0x03 is rejected (the source panics).
   */
  function GenImgStatusFrom(b: byte): (r: Option<GenImgStatus>)
    ensures r.Some? <==> b <= 0x03
    ensures r.Some? ==> GenImgStatusByte(r.value) == b
  {
    if b == 0x00 then Some(Success)
    else if b == 0x01 then Some(PacketError)
    else if b == 0x02 then Some(FingerNotDetected)
    else if b == 0x03 then Some(ImageNotCaptured)
    else None
  }

  /** Every capture result is recovered from its byte. */
  lemma GenImgStatusRoundTrip(s: GenImgStatus)
    ensures GenImgStatusFrom(GenImgStatusByte(s)) == Some(s)
  {
  }

  /** Distinct accepted bytes decode to distinct capture results. */
  lemma GenImgStatusInjective(a: byte, b: byte)
    requires GenImgStatusFrom(a).Some?
    requires GenImgStatusFrom(a) == GenImgStatusFrom(b)
    ensures a == b
  {
  }

  // ---------------------------------------------------------------------
  // Result records and replies

  datatype ReadSysParaResult = ReadSysParaResult(
    address: u32, confirmationCode: byte, systemParameters: SystemParameters, checksum: u16)

  datatype VfyPwdResult = VfyPwdResult(
    address: u32, confirmationCode: PasswordVerificationState, checksum: u16)

  datatype GenImgResult = GenImgResult(address: u32, confirmationCode: GenImgStatus, checksum: u16)

  /** The status-only replies: Img2Tz, LoadChar, RegModel, Store and DeletChar. */
  datatype StatusResult = StatusResult(address: u32, confirmationCode: byte, checksum: u16)

  datatype SearchResult = SearchResult(
    address: u32, confirmationCode: byte, matchId: u16, matchScore: u16, checksum: u16)

  datatype MatchResult = MatchResult(
    address: u32, confirmationCode: byte, matchScore: u16, checksum: u16)

  datatype TemplateNumResult = TemplateNumResult(
    address: u32, confirmationCode: byte, templateNum: u16, checksum: u16)

  /** A decoded reply; each variant answers the command of the same name. */
  datatype Reply =
    | ReadSysPara(readSysPara: ReadSysParaResult)
    | VfyPwd(vfyPwd: VfyPwdResult)
    | GenImg(genImg: GenImgResult)
    | Img2Tz(img2Tz: StatusResult)
    | Search(search: SearchResult)
    | LoadChar(loadChar: StatusResult)
    | Match(matchResult: MatchResult)
    | TemplateNum(templateNum: TemplateNumResult)
    | RegModel(regModel: StatusResult)
    | Store(store: StatusResult)
    | DeletChar(deletChar: StatusResult)

  // ---------------------------------------------------------------------
  // Decoders: each reads fixed offsets of the whole received packet

  function AddressAt(buf: seq<byte>): u32
    requires |buf| >= 6
  {
    FromBE32(buf[2], buf[3], buf[4], buf[5])
  }

  function U16At(buf: seq<byte>, i: nat): u16
    requires i + 2 <= |buf|
  {
    FromBE16(buf[i], buf[i + 1])
  }

  function ReadSysParaResultFrom(buf: seq<byte>): (r: E.Result<ReadSysParaResult>)
    ensures r.Ok? <==> |buf| >= 28
    ensures r.Err? ==> r.error == E.MalformedReply
    ensures r.Ok? ==> r.value.systemParameters.fingerLibrarySize == U16At(buf, 14)
  {
    if |buf| < 28 then E.Err(E.MalformedReply)
    else E.Ok(ReadSysParaResult(AddressAt(buf), buf[9], SystemParametersFrom(buf[10..26]), U16At(buf, 26)))
  }

  function VfyPwdResultFrom(buf: seq<byte>): (r: E.Result<VfyPwdResult>)
    ensures r.Ok? <==> |buf| >= 12 && PasswordVerificationStateFrom(buf[9]).Some?
    ensures r.Err? && |buf| >= 12 ==> r.error == E.UnknownStatusCode(buf[9])
  {
    if |buf| < 12 then E.Err(E.MalformedReply)
    else match PasswordVerificationStateFrom(buf[9])
      case None => E.Err(E.UnknownStatusCode(buf[9]))
      case Some(state) => E.Ok(VfyPwdResult(AddressAt(buf), state, U16At(buf, 10)))
  }

  function GenImgResultFrom(buf: seq<byte>): (r: E.Result<GenImgResult>)
    ensures r.Ok? <==> |buf| >= 12 && buf[9] <= 0x03
    ensures r.Err? && |buf| >= 12 ==> r.error == E.UnknownStatusCode(buf[9])
  {
    if |buf| < 12 then E.Err(E.MalformedReply)
    else match GenImgStatusFrom(buf[9])
      case None => E.Err(E.UnknownStatusCode(buf[9]))
      case Some(status) => E.Ok(GenImgResult(AddressAt(buf), status, U16At(buf, 10)))
  }

  function StatusResultFrom(buf: seq<byte>): (r: E.Result<StatusResult>)
    ensures r.Ok? <==> |buf| >= 12
    ensures r.Err? ==> r.error == E.MalformedReply
  {
    if |buf| < 12 then E.Err(E.MalformedReply)
    else E.Ok(StatusResult(AddressAt(buf), buf[9], U16At(buf, 10)))
  }

  function SearchResultFrom(buf: seq<byte>): (r: E.Result<SearchResult>)
    ensures r.Ok? <==> |buf| >= 16
    ensures r.Err? ==> r.error == E.MalformedReply
  {
    if |buf| < 16 then E.Err(E.MalformedReply)
    else E.Ok(SearchResult(AddressAt(buf), buf[9], U16At(buf, 10), U16At(buf, 12), U16At(buf, 14)))
  }

  function MatchResultFrom(buf: seq<byte>): (r: E.Result<MatchResult>)
    ensures r.Ok? <==> |buf| >= 14
    ensures r.Err? ==> r.error == E.MalformedReply
  {
    if |buf| < 14 then E.Err(E.MalformedReply)
    else E.Ok(MatchResult(AddressAt(buf), buf[9], U16At(buf, 10), U16At(buf, 12)))
  }

  function TemplateNumResultFrom(buf: seq<byte>): (r: E.Result<TemplateNumResult>)
    ensures r.Ok? <==> |buf| >= 14
    ensures r.Err? ==> r.error == E.MalformedReply
  {
    if |buf| < 14 then E.Err(E.MalformedReply)
    else E.Ok(TemplateNumResult(AddressAt(buf), buf[9], U16At(buf, 10), U16At(buf, 12)))
  }

  // ---------------------------------------------------------------------
  // The sensor's side: the bytes a reply travels as

  function ReplyAddress(r: Reply): u32
  {
    match r
    case ReadSysPara(x) => x.address
    case VfyPwd(x) => x.address
    case GenImg(x) => x.address
    case Img2Tz(x) => x.address
    case Search(x) => x.address
    case LoadChar(x) => x.address
    case Match(x) => x.address
    case TemplateNum(x) => x.address
    case RegModel(x) => x.address
    case Store(x) => x.address
    case DeletChar(x) => x.address
  }

  function ReplyChecksum(r: Reply): u16
  {
    match r
    case ReadSysPara(x) => x.checksum
    case VfyPwd(x) => x.checksum
    case GenImg(x) => x.checksum
    case Img2Tz(x) => x.checksum
    case Search(x) => x.checksum
    case LoadChar(x) => x.checksum
    case Match(x) => x.checksum
    case TemplateNum(x) => x.checksum
    case RegModel(x) => x.checksum
    case Store(x) => x.checksum
    case DeletChar(x) => x.checksum
  }

  /** The confirmation code and the reply-specific fields, in wire order. */
  function ReplyFields(r: Reply): (f: seq<byte>)
    ensures 1 <= |f| <= 17
  {
    match r
    case ReadSysPara(x) => [x.confirmationCode] + SystemParametersBytes(x.systemParameters)
    case VfyPwd(x) => [PasswordStateByte(x.confirmationCode)]
    case GenImg(x) => [GenImgStatusByte(x.confirmationCode)]
    case Img2Tz(x) => [x.confirmationCode]
    case Search(x) => [x.confirmationCode] + BE16(x.matchId) + BE16(x.matchScore)
    case LoadChar(x) => [x.confirmationCode]
    case Match(x) => [x.confirmationCode] + BE16(x.matchScore)
    case TemplateNum(x) => [x.confirmationCode] + BE16(x.templateNum)
    case RegModel(x) => [x.confirmationCode]
    case Store(x) => [x.confirmationCode]
    case DeletChar(x) => [x.confirmationCode]
  }

  /** The packet in which the sensor sends `r`. */
  function ReplyBytes(r: Reply): (p: seq<byte>)
    ensures |p| == 12 + |ReplyFields(r)| - 1
    ensures p[..2] == Framing.Header && p[6] == ReplyPacket
    ensures FromBE16(p[7], p[8]) == |p| - 9
  {
    var f := ReplyFields(r);
    Framing.Header + BE32(ReplyAddress(r)) + [ReplyPacket] + BE16(|f| + 2) + f + BE16(ReplyChecksum(r))
  }

  /** Where each part of a reply lies in its packet. */
  lemma ReplyBytesLayout(r: Reply)
    ensures var p := ReplyBytes(r); var f := ReplyFields(r);
      && p[2..6] == BE32(ReplyAddress(r))
      && p[9..9 + |f|] == f
      && p[9 + |f|..] == BE16(ReplyChecksum(r))
  {
  }
}
