/**
 * The byte-exact examples of the driver's unit tests (src/driver.rs,
 * module `tests`), stated over the model: the checksum of a short buffer,
 * the packet `prepare_cmd` builds for each command at the broadcast address
 * 0xFFFFFFFF, and what `parse_reply` makes of the replies the tests place
 * in the receive buffer.
 */
module Vectors {
  import opened Bytes
  import opened Wrappers
  import opened Checksums
  import opened Commands
  import opened Framing
  import opened Dispatch
  import R = Responses

  const Broadcast: u32 := 0xFFFF_FFFF

  /** The checksum covers the bytes from offset 6 on: 0xC0 + 0xC1. */
  lemma ChecksumVector()
    ensures Checksum([0xEF, 0x01, 0xFF, 0xFF, 0xFF, 0xFF, 0xC0, 0xC1][6..]) == 0x0181
  {
    var s: seq<byte> := [0xEF, 0x01, 0xFF, 0xFF, 0xFF, 0xFF, 0xC0, 0xC1];
    SumFront(s[6..]); SumFront(s[7..]);
    assert s[6..][1..] == s[7..] && s[7..][1..] == [];
  }

  // ---------------------------------------------------------------------
  // Serialisation

  /**
   * The packet for `cmd` at the broadcast address, given its payload and
   * the sum of the payload's bytes.
   */
  lemma BroadcastPacket(cmd: Command, payload: seq<byte>, sum: u16)
    requires Payload(cmd) == payload && Sum(payload) == sum
    ensures Packet(Broadcast, cmd) == [0xEF, 0x01, 0xFF, 0xFF, 0xFF, 0xFF] + payload + BE16(sum)
  {
    var unsealed := Header + BE32(Broadcast) + payload;
    assert BE32(Broadcast) == [0xFF, 0xFF, 0xFF, 0xFF];
    assert unsealed[6..] == payload && Checksum(payload) == sum;
  }

  lemma ReadSysParaPacket()
    ensures Packet(Broadcast, ReadSysPara) ==
      [0xEF, 0x01, 0xFF, 0xFF, 0xFF, 0xFF, 0x01, 0x00, 0x03, 0x0F, 0x00, 0x13]
  {
    var payload: seq<byte> := [0x01, 0x00, 0x03, 0x0F];
    SumFront(payload); SumFront(payload[1..]); SumFront(payload[2..]); SumFront(payload[3..]);
    assert payload[4..] == [];
    BroadcastPacket(ReadSysPara, payload, 0x0013);
  }

  lemma VfyPwdPacket()
    ensures Packet(Broadcast, VfyPwd(0)) ==
      [0xEF, 0x01, 0xFF, 0xFF, 0xFF, 0xFF, 0x01, 0x00, 0x07, 0x13, 0x00, 0x00, 0x00, 0x00, 0x00, 0x1B]
  {
    var payload: seq<byte> := [0x01, 0x00, 0x07, 0x13, 0x00, 0x00, 0x00, 0x00];
    SumFront(payload); SumFront(payload[1..]); SumFront(payload[2..]); SumFront(payload[3..]);
    SumFront(payload[4..]); SumFront(payload[5..]); SumFront(payload[6..]); SumFront(payload[7..]);
    assert payload[8..] == [];
    BroadcastPacket(VfyPwd(0), payload, 0x001B);
  }

  lemma GenImgPacket()
    ensures Packet(Broadcast, GenImg) ==
      [0xEF, 0x01, 0xFF, 0xFF, 0xFF, 0xFF, 0x01, 0x00, 0x03, 0x01, 0x00, 0x05]
  {
    var payload: seq<byte> := [0x01, 0x00, 0x03, 0x01];
    SumFront(payload); SumFront(payload[1..]); SumFront(payload[2..]); SumFront(payload[3..]);
    assert payload[4..] == [];
    BroadcastPacket(GenImg, payload, 0x0005);
  }

  lemma Img2TzPacket()
    ensures Packet(Broadcast, Img2Tz(1)) ==
      [0xEF, 0x01, 0xFF, 0xFF, 0xFF, 0xFF, 0x01, 0x00, 0x04, 0x02, 0x01, 0x00, 0x08]
  {
    var payload: seq<byte> := [0x01, 0x00, 0x04, 0x02, 0x01];
    SumFront(payload); SumFront(payload[1..]); SumFront(payload[2..]); SumFront(payload[3..]);
    SumFront(payload[4..]);
    assert payload[5..] == [];
    BroadcastPacket(Img2Tz(1), payload, 0x0008);
  }

  lemma SearchPacket()
    ensures Packet(Broadcast, Search(1, 0, 0xFFFF)) ==
      [0xEF, 0x01, 0xFF, 0xFF, 0xFF, 0xFF, 0x01, 0x00, 0x08, 0x04, 0x01, 0x00, 0x00, 0xFF, 0xFF, 0x02, 0x0C]
  {
    var payload: seq<byte> := [0x01, 0x00, 0x08, 0x04, 0x01, 0x00, 0x00, 0xFF, 0xFF];
    SumFront(payload); SumFront(payload[1..]); SumFront(payload[2..]); SumFront(payload[3..]);
    SumFront(payload[4..]); SumFront(payload[5..]); SumFront(payload[6..]); SumFront(payload[7..]);
    SumFront(payload[8..]);
    assert payload[9..] == [];
    BroadcastPacket(Search(1, 0, 0xFFFF), payload, 0x020C);
  }

  lemma LoadCharPacket()
    ensures Packet(Broadcast, LoadChar(2, 0)) ==
      [0xEF, 0x01, 0xFF, 0xFF, 0xFF, 0xFF, 0x01, 0x00, 0x06, 0x07, 0x02, 0x00, 0x00, 0x00, 0x10]
  {
    var payload: seq<byte> := [0x01, 0x00, 0x06, 0x07, 0x02, 0x00, 0x00];
    SumFront(payload); SumFront(payload[1..]); SumFront(payload[2..]); SumFront(payload[3..]);
    SumFront(payload[4..]); SumFront(payload[5..]); SumFront(payload[6..]);
    assert payload[7..] == [];
    BroadcastPacket(LoadChar(2, 0), payload, 0x0010);
  }

  lemma MatchPacket()
    ensures Packet(Broadcast, Match) ==
      [0xEF, 0x01, 0xFF, 0xFF, 0xFF, 0xFF, 0x01, 0x00, 0x03, 0x03, 0x00, 0x07]
  {
    var payload: seq<byte> := [0x01, 0x00, 0x03, 0x03];
    SumFront(payload); SumFront(payload[1..]); SumFront(payload[2..]); SumFront(payload[3..]);
    assert payload[4..] == [];
    BroadcastPacket(Match, payload, 0x0007);
  }

  lemma TemplateNumPacket()
    ensures Packet(Broadcast, TemplateNum) ==
      [0xEF, 0x01, 0xFF, 0xFF, 0xFF, 0xFF, 0x01, 0x00, 0x03, 0x1D, 0x00, 0x21]
  {
    var payload: seq<byte> := [0x01, 0x00, 0x03, 0x1D];
    SumFront(payload); SumFront(payload[1..]); SumFront(payload[2..]); SumFront(payload[3..]);
    assert payload[4..] == [];
    BroadcastPacket(TemplateNum, payload, 0x0021);
  }

  lemma RegModelPacket()
    ensures Packet(Broadcast, RegModel) ==
      [0xEF, 0x01, 0xFF, 0xFF, 0xFF, 0xFF, 0x01, 0x00, 0x03, 0x05, 0x00, 0x09]
  {
    var payload: seq<byte> := [0x01, 0x00, 0x03, 0x05];
    SumFront(payload); SumFront(payload[1..]); SumFront(payload[2..]); SumFront(payload[3..]);
    assert payload[4..] == [];
    BroadcastPacket(RegModel, payload, 0x0009);
  }

  lemma StorePacket()
    ensures Packet(Broadcast, Store(1, 4)) ==
      [0xEF, 0x01, 0xFF, 0xFF, 0xFF, 0xFF, 0x01, 0x00, 0x06, 0x06, 0x01, 0x00, 0x04, 0x00, 0x12]
  {
    var payload: seq<byte> := [0x01, 0x00, 0x06, 0x06, 0x01, 0x00, 0x04];
    SumFront(payload); SumFront(payload[1..]); SumFront(payload[2..]); SumFront(payload[3..]);
    SumFront(payload[4..]); SumFront(payload[5..]); SumFront(payload[6..]);
    assert payload[7..] == [];
    BroadcastPacket(Store(1, 4), payload, 0x0012);
  }

  lemma DeletCharPacket()
    ensures Packet(Broadcast, DeletChar(4, 1)) ==
      [0xEF, 0x01, 0xFF, 0xFF, 0xFF, 0xFF, 0x01, 0x00, 0x07, 0x0C, 0x00, 0x04, 0x00, 0x01, 0x00, 0x19]
  {
    var payload: seq<byte> := [0x01, 0x00, 0x07, 0x0C, 0x00, 0x04, 0x00, 0x01];
    SumFront(payload); SumFront(payload[1..]); SumFront(payload[2..]); SumFront(payload[3..]);
    SumFront(payload[4..]); SumFront(payload[5..]); SumFront(payload[6..]); SumFront(payload[7..]);
    assert payload[8..] == [];
    BroadcastPacket(DeletChar(4, 1), payload, 0x0019);
  }

  // ---------------------------------------------------------------------
  // Deserialisation

  /** The acknowledgement every status-only test uses: confirmation code 0x00. */
  const OkAck: seq<byte> := [0xEF, 0x01, 0xFF, 0xFF, 0xFF, 0xFF, 0x07, 0x00, 0x03, 0x00, 0x00, 0x0A]

  /** The ReadSysPara reply of the tests: a library of 200 templates. */
  const SysParaReply: seq<byte> :=
    [0xEF, 0x01, 0xFF, 0xFF, 0xFF, 0xFF, 0x07, 0x00, 0x13, 0x00, 0x00, 0x00, 0x00, 0x00,
     0x00, 0xC8, 0x00, 0x03, 0xFF, 0xFF, 0xFF, 0xFF, 0x00, 0x02, 0x00, 0x06, 0x04, 0xE9]

  lemma ReadSysParaReply()
    ensures var r := ParseReply(SysParaReply, Some(ReadSysPara));
      r.Ok? && r.value.ReadSysPara? && r.value.readSysPara.address == Broadcast &&
      r.value.readSysPara.systemParameters.fingerLibrarySize == 200
  {
    var buf := SysParaReply;
    assert |buf| == 28 && buf[6] == R.ReplyPacket;
    assert buf[2] == buf[3] == buf[4] == buf[5] == 0xFF;
    assert buf[14] == 0x00 && buf[15] == 0xC8;
  }

  lemma VfyPwdReply()
    ensures var r := ParseReply(OkAck, Some(VfyPwd(0)));
      r.Ok? && r.value.VfyPwd? && r.value.vfyPwd.address == Broadcast &&
      r.value.vfyPwd.confirmationCode == R.Correct
  {
  }

  lemma GenImgReply()
    ensures var r := ParseReply(OkAck, Some(GenImg));
      r.Ok? && r.value.GenImg? && r.value.genImg.address == Broadcast &&
      r.value.genImg.confirmationCode == R.Success
  {
  }

  /** Img2Tz, LoadChar, RegModel, Store and DeletChar all accept the same acknowledgement. */
  lemma StatusReplies()
    ensures var r := ParseReply(OkAck, Some(Img2Tz(1)));
      r.Ok? && r.value.Img2Tz? && r.value.img2Tz.address == Broadcast && r.value.img2Tz.confirmationCode == 0x00
    ensures var r := ParseReply(OkAck, Some(LoadChar(2, 0)));
      r.Ok? && r.value.LoadChar? && r.value.loadChar.address == Broadcast && r.value.loadChar.confirmationCode == 0x00
    ensures var r := ParseReply(OkAck, Some(RegModel));
      r.Ok? && r.value.RegModel? && r.value.regModel.address == Broadcast && r.value.regModel.confirmationCode == 0x00
    ensures var r := ParseReply(OkAck, Some(Store(1, 1)));
      r.Ok? && r.value.Store? && r.value.store.address == Broadcast && r.value.store.confirmationCode == 0x00
    ensures var r := ParseReply(OkAck, Some(DeletChar(1, 1)));
      r.Ok? && r.value.DeletChar? && r.value.deletChar.address == Broadcast && r.value.deletChar.confirmationCode == 0x00
  {
  }

  lemma SearchReply()
    ensures var r := ParseReply(
      [0xEF, 0x01, 0xFF, 0xFF, 0xFF, 0xFF, 0x07, 0x00, 0x07, 0x00, 0x00, 0x00, 0x00, 0xFF, 0x00, 0x4A],
      Some(Search(1, 0, 0xFFFF)));
      r.Ok? && r.value.Search? && r.value.search.address == Broadcast && r.value.search.confirmationCode == 0x00 &&
      r.value.search.matchId == 0 && r.value.search.matchScore == 255
  {
    var buf: seq<byte> :=
      [0xEF, 0x01, 0xFF, 0xFF, 0xFF, 0xFF, 0x07, 0x00, 0x07, 0x00, 0x00, 0x00, 0x00, 0xFF, 0x00, 0x4A];
    assert |buf| == 16 && buf[6] == R.ReplyPacket;
    assert R.AddressAt(buf) == Broadcast;
  }

  lemma MatchReply()
    ensures var r := ParseReply(
      [0xEF, 0x01, 0xFF, 0xFF, 0xFF, 0xFF, 0x07, 0x00, 0x05, 0x00, 0x00, 0x32, 0x00, 0x3E],
      Some(Match));
      r.Ok? && r.value.Match? && r.value.matchResult.address == Broadcast && r.value.matchResult.confirmationCode == 0x00 &&
      r.value.matchResult.matchScore == 50
  {
  }

  lemma TemplateNumReply()
    ensures var r := ParseReply(
      [0xEF, 0x01, 0xFF, 0xFF, 0xFF, 0xFF, 0x07, 0x00, 0x05, 0x00, 0x00, 0x03, 0x00, 0x0F],
      Some(TemplateNum));
      r.Ok? && r.value.TemplateNum? && r.value.templateNum.address == Broadcast && r.value.templateNum.confirmationCode == 0x00 &&
      r.value.templateNum.templateNum == 3
  {
  }
}
