/** The legacy request handler and its tune page on the device (engine-core/src/comms/mod.rs). */
module Tune {
  import opened Bytes
  import opened Legacy

  const OK: byte := 0
  const REJECTED: byte := 1
  const UNRECOGNISED: byte := 4
  const CMD_PROTOCOL: byte := 0x46
  const CMD_HELLO: byte := 0x53
  const CMD_READ: byte := 0x52
  const CMD_WRITE: byte := 0x43
  const CMD_BURN: byte := 0x42
  const CMD_OUTPUT: byte := 0x4F
  const CMD_VERSION: byte := 0x56
  const CMD_CRC: byte := 0x6B

  datatype TuneState = TuneState(signature: seq<byte>, version: seq<byte>, outputs: seq<byte>)

  /** Nothing is sent, a code alone, or OK and data. */
  datatype Reply = Silent | Code(code: byte) | Data(data: seq<byte>)

  function ReplyBytes(r: Reply): seq<byte>
    requires !r.Silent?
  {
    match r case Code(c) => [c] case Data(data) => [OK] + data
  }

  function BeAt(req: seq<byte>, i: nat): Option<u16> {
    if i + 1 < |req| then Some(From16(req[i + 1], req[i])) else None
  }

  function Range(s: seq<byte>, offset: nat, length: nat): Option<seq<byte>> {
    if offset + length <= |s| then Some(s[offset..offset + length]) else None
  }

  /** Offset and length stand at `i` and `i + 2`; the answer is that range of `s`, or its checksum. */
  function RangeReply(req: seq<byte>, i: nat, s: seq<byte>, checksum: bool): Reply {
    match (BeAt(req, i), BeAt(req, i + 2))
    case (Some(offset), Some(length)) =>
      (match Range(s, offset, length)
       case None => Code(REJECTED)
       case Some(slice) => Data(if checksum then Be32(Crc32(slice)) else slice))
    case _ => Silent
  }

  /** Where a write puts its data, if the request is long enough to say so. */
  function WriteOffset(req: seq<byte>): Option<u16> { BeAt(req, 3) }

  predicate Writes(req: seq<byte>, config: seq<byte>) {
    req != [] && req[0] == CMD_WRITE && WriteOffset(req).Some? && WriteOffset(req).value + (|req| - 5) <= |config|
  }

  function Spliced(s: seq<byte>, offset: nat, data: seq<byte>): (r: seq<byte>)
    requires offset + |data| <= |s|
    ensures |r| == |s|
  {
    s[..offset] + data + s[offset + |data|..]
  }

  function ConfigAfter(req: seq<byte>, config: seq<byte>): (r: seq<byte>)
    ensures |r| == |config|
  {
    if Writes(req, config) then Spliced(config, WriteOffset(req).value, req[5..]) else config
  }

  function ReplyTo(t: TuneState, config: seq<byte>, req: seq<byte>): Reply {
    if req == [] then Silent
    else if req[0] == CMD_HELLO then Data(t.signature)
    else if req[0] == CMD_VERSION then Data(t.version)
    else if req[0] == CMD_PROTOCOL then Data([0x30, 0x30, 0x31])
    else if req[0] == CMD_OUTPUT then RangeReply(req, 1, t.outputs, false)
    else if req[0] == CMD_READ then RangeReply(req, 3, config, false)
    else if req[0] == CMD_WRITE then
      if WriteOffset(req).None? then Silent else Code(if Writes(req, config) then OK else REJECTED)
    else if req[0] == CMD_BURN then Code(OK)
    else if req[0] == CMD_CRC then RangeReply(req, 3, config, true)
    else Code(UNRECOGNISED)
  }

  function Answered(r: Reply, room: nat): Option<seq<byte>> {
    if r.Silent? || |ReplyBytes(r)| > room then None else Some(ReplyBytes(r))
  }

  /** The response frame of the communication task, if there is one. */
  function FrameAnswered(t: TuneState, config: seq<byte>, req: seq<byte>): Option<seq<byte>> {
    match Answered(ReplyTo(t, config, req), |config| + 8)
    case None => None
    case Some(b) => if |b| > 0xFFFF then None else Some(LegacyFrame(b))
  }

  function Ranged(s: seq<byte>, offset: nat, length: nat, checksum: bool): seq<byte> {
    if offset + length > |s| then [1]
    else if checksum then [0] + Be32(Crc32(s[offset..offset + length]))
    else [0] + s[offset..offset + length]
  }

  /** The answer to a request without numbers: OK and a text, OK alone, or unrecognised. */
  lemma PlainAnswers(t: TuneState, config: seq<byte>, letter: byte, more: seq<byte>)
    ensures var r := ReplyTo(t, config, [letter] + more);
      && (letter == 0x53 ==> !r.Silent? && ReplyBytes(r) == [0] + t.signature)
      && (letter == 0x56 ==> !r.Silent? && ReplyBytes(r) == [0] + t.version)
      && (letter == 0x46 ==> !r.Silent? && ReplyBytes(r) == [0, 0x30, 0x30, 0x31])
      && (letter == 0x42 ==> !r.Silent? && ReplyBytes(r) == [0])
      && (letter !in [0x53, 0x56, 0x46, 0x42, 0x4F, 0x52, 0x43, 0x6B] ==> !r.Silent? && ReplyBytes(r) == [4])
  {
  }

  /** Two big-endian numbers from position |head| name a range of `s`. */
  lemma NamedRange(head: seq<byte>, offset: u16, length: u16, more: seq<byte>, s: seq<byte>, checksum: bool)
    ensures var req: seq<byte> := head + [offset / 0x100, offset % 0x100, length / 0x100, length % 0x100] + more;
      !RangeReply(req, |head|, s, checksum).Silent? &&
      ReplyBytes(RangeReply(req, |head|, s, checksum)) == Ranged(s, offset, length, checksum)
  {
    hide Be32, Crc32, From16;
    var req: seq<byte> := head + [offset / 0x100, offset % 0x100, length / 0x100, length % 0x100] + more;
    assert req[|head|] == offset / 0x100 && req[|head| + 1] == offset % 0x100;
    assert req[|head| + 2] == length / 0x100 && req[|head| + 3] == length % 0x100;
    Split16(offset, 0, 0);
    Split16(length, 0, 0);
  }

  /** Outputs are asked for by offset and length, and a range that is not inside is rejected. */
  lemma OutputsAnswered(t: TuneState, config: seq<byte>, offset: u16, length: u16, more: seq<byte>)
    ensures var req: seq<byte> := [0x4F] + [offset / 0x100, offset % 0x100, length / 0x100, length % 0x100] + more;
      !ReplyTo(t, config, req).Silent? &&
      ReplyBytes(ReplyTo(t, config, req)) == Ranged(t.outputs, offset, length, false)
  {
    hide RangeReply, Ranged, ReplyBytes;
    NamedRange([0x4F], offset, length, more, t.outputs, false);
  }

  /** Two bytes of page come before the range of a read; the page given is ignored. */
  lemma ReadAnswered(t: TuneState, config: seq<byte>, offset: u16, length: u16, page: seq<byte>, more: seq<byte>)
    requires |page| == 2
    ensures var req: seq<byte> :=
              [0x52] + page + [offset / 0x100, offset % 0x100, length / 0x100, length % 0x100] + more;
      !ReplyTo(t, config, req).Silent? && ReplyBytes(ReplyTo(t, config, req)) == Ranged(config, offset, length, false)
  {
    hide RangeReply, Ranged, ReplyBytes;
    NamedRange([0x52] + page, offset, length, more, config, false);
  }

  /** The same for the checksum of a range of the page. */
  lemma ChecksumAnswered(t: TuneState, config: seq<byte>, offset: u16, length: u16, page: seq<byte>, more: seq<byte>)
    requires |page| == 2
    ensures var req: seq<byte> :=
              [0x6B] + page + [offset / 0x100, offset % 0x100, length / 0x100, length % 0x100] + more;
      !ReplyTo(t, config, req).Silent? && ReplyBytes(ReplyTo(t, config, req)) == Ranged(config, offset, length, true)
  {
    hide RangeReply, Ranged, ReplyBytes;
    NamedRange([0x6B] + page, offset, length, more, config, true);
  }

  /** Only a missing command or a request too short for its numbers goes unanswered. */
  lemma SilentIff(t: TuneState, config: seq<byte>, req: seq<byte>)
    ensures ReplyTo(t, config, req).Silent? <==>
            || req == [] || (req[0] in [0x4F, 0x43] && |req| < 5) || (req[0] in [0x52, 0x6B] && |req| < 7)
  {
    hide From16, Be32, Crc32;
  }

  /** A write that fits replaces its range of the page and is answered OK; any other changes nothing and is rejected. */
  lemma WriteAnswers(t: TuneState, config: seq<byte>, offset: u16, page: u16, data: seq<byte>)
    ensures var req: seq<byte> := [0x43, page / 0x100, page % 0x100, offset / 0x100, offset % 0x100] + data;
      var fits := offset + |data| <= |config|;
      && !ReplyTo(t, config, req).Silent? && ReplyBytes(ReplyTo(t, config, req)) == [if fits then 0 else 1]
      && ConfigAfter(req, config) == if fits then config[..offset] + data + config[offset + |data|..] else config
  {
    Split16(offset, 0, 0);
    var req: seq<byte> := [0x43, page / 0x100, page % 0x100, offset / 0x100, offset % 0x100] + data;
    assert req[5..] == data;
  }

  /** The answer goes out as a frame, unless it is longer than the page and eight bytes, or than a length can say. */
  lemma FrameAnsweredIff(t: TuneState, config: seq<byte>, req: seq<byte>)
    ensures FrameAnswered(t, config, req) ==
      match ReplyTo(t, config, req)
      case Silent => None
      case reply =>
        var bytes := ReplyBytes(reply);
        if |bytes| > |config| + 8 || |bytes| >= 0x1_0000 then None else Some(LegacyFrame(bytes))
  {
    hide LegacyFrame, ReplyTo;
  }

  method CodeOnly(resp: array<byte>, code: byte) returns (n: Option<nat>)
    modifies resp
    ensures if resp.Length == 0 then n == None else n == Some(1) && resp[..1] == [code]
  {
    if resp.Length == 0 {
      return None;
    }
    resp[0] := code;
    return Some(1);
  }

  method OkWith(resp: array<byte>, data: seq<byte>) returns (n: Option<nat>)
    modifies resp
    ensures if resp.Length < 1 + |data| then n == None
            else n == Some(1 + |data|) && resp[..1 + |data|] == [OK] + data
  {
    if resp.Length < 1 + |data| {
      return None;
    }
    resp[0] := OK;
    forall i | 0 <= i < |data| {
      resp[1 + i] := data[i];
    }
    return Some(1 + |data|);
  }

  method AnswerRange(req: seq<byte>, i: nat, s: seq<byte>, checksum: bool, resp: array<byte>) returns (n: Option<nat>)
    modifies resp
    ensures match Answered(RangeReply(req, i, s, checksum), resp.Length)
            case None => n == None
            case Some(b) => n == Some(|b|) && |b| <= resp.Length && resp[..|b|] == b
  {
    var offset, length := BeAt(req, i), BeAt(req, i + 2);
    if offset.None? || length.None? {
      return None;
    }
    if offset.value + length.value > |s| {
      n := CodeOnly(resp, REJECTED);
      return;
    }
    var slice := s[offset.value..offset.value + length.value];
    if checksum {
      var crc := ComputeCrc32(slice);
      n := OkWith(resp, Be32(crc));
    } else {
      n := OkWith(resp, slice);
    }
  }

  class TuneDevice {
    const state: TuneState
    const config: array<byte>
    var burnPending: bool

    constructor (state: TuneState, config: array<byte>)
      ensures this.state == state && this.config == config && !burnPending
    {
      this.state, this.config, burnPending := state, config, false;
    }

    method HandleRequest(req: seq<byte>, resp: array<byte>) returns (n: Option<nat>)
      requires resp != config
      modifies config, resp, this`burnPending
      ensures config[..] == ConfigAfter(req, old(config[..]))
      ensures match Answered(ReplyTo(state, old(config[..]), req), resp.Length)
              case None => n == None
              case Some(b) => n == Some(|b|) && |b| <= resp.Length && resp[..|b|] == b
      ensures burnPending == (old(burnPending) || (req != [] && req[0] == CMD_BURN))
    {
      if req == [] {
        return None;
      }
      if req[0] == CMD_HELLO {
        n := OkWith(resp, state.signature);
      } else if req[0] == CMD_VERSION {
        n := OkWith(resp, state.version);
      } else if req[0] == CMD_PROTOCOL {
        n := OkWith(resp, [0x30, 0x30, 0x31]);
      } else if req[0] == CMD_OUTPUT {
        n := AnswerRange(req, 1, state.outputs, false, resp);
      } else if req[0] == CMD_READ {
        n := AnswerRange(req, 3, config[..], false, resp);
      } else if req[0] == CMD_WRITE {
        n := HandleWrite(req, resp);
      } else if req[0] == CMD_BURN {
        burnPending := true;
        n := CodeOnly(resp, OK);
      } else if req[0] == CMD_CRC {
        n := AnswerRange(req, 3, config[..], true, resp);
      } else {
        n := CodeOnly(resp, UNRECOGNISED);
      }
    }

    method HandleWrite(req: seq<byte>, resp: array<byte>) returns (n: Option<nat>)
      requires resp != config && req != [] && req[0] == CMD_WRITE
      modifies config, resp
      ensures config[..] == ConfigAfter(req, old(config[..]))
      ensures match Answered(ReplyTo(state, old(config[..]), req), resp.Length)
              case None => n == None
              case Some(b) => n == Some(|b|) && |b| <= resp.Length && resp[..|b|] == b
    {
      ghost var before := config[..];
      var offset := BeAt(req, 3);
      if offset.None? {
        return None;
      }
      var data := req[5..];
      if offset.value + |data| > config.Length {
        n := CodeOnly(resp, REJECTED);
        return;
      }
      forall i | 0 <= i < |data| {
        config[offset.value + i] := data[i];
      }
      assert config[..] == Spliced(before, offset.value, data);
      n := CodeOnly(resp, OK);
    }

    /** What the communication task does with one complete legacy frame. */
    method ServeFrame(frame: seq<byte>) returns (out: Option<seq<byte>>)
      modifies config, this`burnPending
      ensures DecodeLegacy(frame).Err? ==> out == None && config[..] == old(config[..])
      ensures DecodeLegacy(frame).Ok? ==>
                var req := DecodeLegacy(frame).value.0;
                config[..] == ConfigAfter(req, old(config[..])) && out == FrameAnswered(state, old(config[..]), req)
    {
      hide ReplyTo, ConfigAfter, DecodeLegacy, LegacyFrame, ReplyBytes;
      match DecodeLegacy(frame)
      case Err(_) =>
        return None;
      case Ok((req, _)) =>
        var resp := new byte[config.Length + 8];
        var n := HandleRequest(req, resp);
        if n.None? {
          return None;
        }
        var buf := new byte[config.Length + 16];
        var flen := EncodeLegacy(resp[..n.value], buf);
        if flen.None? {
          return None;
        }
        return Some(buf[..flen.value]);
    }
  }
}
