/**
 * Reply dispatch (`parse_reply` in src/driver.rs): guards on the received
 * bytes and the in-flight command, then the decoder selected by the
 * in-flight command's variant.
 */
module Dispatch {
  import opened Bytes
  import opened Wrappers
  import opened Errors
  import opened Commands
  import R = Responses

  /** `reply` is of the variant that answers `cmd`. */
  predicate Answers(reply: R.Reply, cmd: Command)
  {
    match cmd
    case ReadSysPara => reply.ReadSysPara?
    case VfyPwd(_) => reply.VfyPwd?
    case GenImg => reply.GenImg?
    case Img2Tz(_) => reply.Img2Tz?
    case Search(_, _, _) => reply.Search?
    case LoadChar(_, _) => reply.LoadChar?
    case Match => reply.Match?
    case TemplateNum => reply.TemplateNum?
    case RegModel => reply.RegModel?
    case Store(_, _) => reply.Store?
    case DeletChar(_, _) => reply.DeletChar?
  }

  /** The decoder registered for the variant of `cmd`, applied to the whole packet. */
  function DecodeReply(cmd: Command, buf: seq<byte>): (r: Result<R.Reply>)
    ensures r.Ok? ==> Answers(r.value, cmd)
    ensures r.Err? ==> r.error == MalformedReply || r.error.UnknownStatusCode?
  {
    match cmd
    case ReadSysPara => R.ReadSysParaResultFrom(buf).MapOk(x => R.Reply.ReadSysPara(x))
    case VfyPwd(_) => R.VfyPwdResultFrom(buf).MapOk(x => R.Reply.VfyPwd(x))
    case GenImg => R.GenImgResultFrom(buf).MapOk(x => R.Reply.GenImg(x))
    case Img2Tz(_) => R.StatusResultFrom(buf).MapOk(x => R.Reply.Img2Tz(x))
    case Search(_, _, _) => R.SearchResultFrom(buf).MapOk(x => R.Reply.Search(x))
    case LoadChar(_, _) => R.StatusResultFrom(buf).MapOk(x => R.Reply.LoadChar(x))
    case Match => R.MatchResultFrom(buf).MapOk(x => R.Reply.Match(x))
    case TemplateNum => R.TemplateNumResultFrom(buf).MapOk(x => R.Reply.TemplateNum(x))
    case RegModel => R.StatusResultFrom(buf).MapOk(x => R.Reply.RegModel(x))
    case Store(_, _) => R.StatusResultFrom(buf).MapOk(x => R.Reply.Store(x))
    case DeletChar(_, _) => R.StatusResultFrom(buf).MapOk(x => R.Reply.DeletChar(x))
  }

  /**
   * `parse_reply`: too short, then nothing in flight, then not a reply
   * packet, checked in that order; otherwise the reply is decoded as the
   * answer to the in-flight command.
   */
  function ParseReply(received: seq<byte>, inflight: Option<Command>): (r: Result<R.Reply>)
    ensures |received| < 7 ==> r == Err(RecvPacketTooShort)
    ensures |received| >= 7 && inflight.None? ==> r == Err(RecvUnsolicitedReply)
    ensures |received| >= 7 && inflight.Some? && received[6] != R.ReplyPacket ==>
      r == Err(RecvWrongReplyType)
    ensures r.Ok? ==> inflight.Some? && received[6] == R.ReplyPacket && Answers(r.value, inflight.value)
    ensures r.Err? ==> !r.error.WriteError? && !r.error.RecvReadError? && r.error != ReceiveBufferFull
  {
    if |received| < 7 then Err(RecvPacketTooShort)
    else if inflight.None? then Err(RecvUnsolicitedReply)
    else if received[6] != R.ReplyPacket then Err(RecvWrongReplyType)
    else DecodeReply(inflight.value, received)
  }

  /** A reply the sensor sends for the in-flight command is decoded to exactly that reply. */
  lemma ParseReplyRoundTrip(reply: R.Reply, cmd: Command)
    requires Answers(reply, cmd)
    ensures ParseReply(R.ReplyBytes(reply), Some(cmd)) == Ok(reply)
  {
    var p := R.ReplyBytes(reply);
    R.ReplyBytesLayout(reply);
    BE32RoundTrip(R.ReplyAddress(reply));
    BE16RoundTrip(R.ReplyChecksum(reply));
    assert R.AddressAt(p) == R.ReplyAddress(reply) by {
      assert p[2..6] == BE32(R.ReplyAddress(reply));
    }
    var f := R.ReplyFields(reply);
    assert R.U16At(p, 9 + |f|) == R.ReplyChecksum(reply) by {
      assert p[9 + |f|..] == BE16(R.ReplyChecksum(reply));
    }
    match reply
    case ReadSysPara(x) =>
      R.SystemParametersRoundTrip(x.systemParameters);
      assert p[10..26] == R.SystemParametersBytes(x.systemParameters) by {
        assert p[9..26] == f;
      }
    case VfyPwd(x) =>
      R.PasswordStateRoundTrip(x.confirmationCode);
    case GenImg(x) =>
      R.GenImgStatusRoundTrip(x.confirmationCode);
    case Search(x) =>
      BE16RoundTrip(x.matchId);
      BE16RoundTrip(x.matchScore);
      assert p[10..12] == BE16(x.matchId) && p[12..14] == BE16(x.matchScore) by {
        assert p[9..14] == f;
      }
    case Match(x) =>
      BE16RoundTrip(x.matchScore);
      assert p[10..12] == BE16(x.matchScore) by {
        assert p[9..12] == f;
      }
    case TemplateNum(x) =>
      BE16RoundTrip(x.templateNum);
      assert p[10..12] == BE16(x.templateNum) by {
        assert p[9..12] == f;
      }
    case _ =>
  }
}
