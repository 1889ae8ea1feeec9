/** Consistent Overhead Byte Stuffing (device-api/src/cobs.rs). */
module Cobs {
  import opened Bytes

  datatype CobsError = OutputTooSmall | Truncated | UnexpectedZero

  function MaxEncodedLen(n: nat): nat {
    n + n / 254 + 1
  }

  // ── What encoding means: blocks of a length code and a run without zeros ──

  function Block(run: seq<byte>): (block: seq<byte>)
    requires |run| <= 254
    ensures |block| == |run| + 1
  {
    [|run| + 1] + run
  }

  /** The encoding of `input` when `run` has been collected for the block under way. */
  function EncodedFrom(run: seq<byte>, input: seq<byte>): (e: seq<byte>)
    requires |run| <= 253
    ensures |e| > 0
    decreases input
  {
    if input == [] then
      Block(run)
    else if input[0] == 0 then
      Block(run) + EncodedFrom([], input[1..])
    else if |run| == 253 then
      Block(run + [input[0]]) + EncodedFrom([], input[1..])
    else
      EncodedFrom(run + [input[0]], input[1..])
  }

  function Encoded(input: seq<byte>): seq<byte> {
    EncodedFrom([], input)
  }

  /** Number of runs of 254 bytes without a zero that `input` completes after `k` such bytes. */
  function FullRuns(k: nat, input: seq<byte>): nat
    requires k <= 253
    decreases input
  {
    if input == [] then 0
    else if input[0] == 0 then FullRuns(0, input[1..])
    else if k == 253 then 1 + FullRuns(0, input[1..])
    else FullRuns(k + 1, input[1..])
  }

  ghost predicate ZeroFree(s: seq<byte>) {
    forall i | 0 <= i < |s| :: s[i] != 0
  }

  lemma {:induction false} FullRunsBound(k: nat, input: seq<byte>)
    requires k <= 253
    ensures 254 * FullRuns(k, input) <= k + |input|
    decreases input
  {
    if input == [] {
    } else {
      FullRunsBound(if input[0] == 0 || k == 253 then 0 else k + 1, input[1..]);
    }
  }

  lemma {:induction false} EncodedFromLength(run: seq<byte>, input: seq<byte>)
    requires |run| <= 253
    ensures |EncodedFrom(run, input)| == |run| + |input| + 1 + FullRuns(|run|, input)
    decreases input
  {
    if input == [] {
    } else {
      if input[0] == 0 || |run| == 253 {
        EncodedFromLength([], input[1..]);
      } else {
        EncodedFromLength(run + [input[0]], input[1..]);
      }
    }
  }

  /** The overhead is one byte plus one for every completed run of 254, within the advertised bound. */
  lemma EncodedLength(input: seq<byte>)
    ensures |Encoded(input)| == |input| + 1 + FullRuns(0, input)
    ensures |Encoded(input)| <= MaxEncodedLen(|input|)
  {
    EncodedFromLength([], input);
    FullRunsBound(0, input);
  }

  lemma BlockZeroFree(run: seq<byte>)
    requires |run| <= 254 && ZeroFree(run)
    ensures ZeroFree(Block(run))
  {
  }

  lemma {:induction false} EncodedFromZeroFree(run: seq<byte>, input: seq<byte>)
    requires |run| <= 253 && ZeroFree(run)
    ensures ZeroFree(EncodedFrom(run, input))
    decreases input
  {
    if input == [] {
      BlockZeroFree(run);
    } else if input[0] == 0 {
      BlockZeroFree(run);
      EncodedFromZeroFree([], input[1..]);
    } else if |run| == 253 {
      BlockZeroFree(run + [input[0]]);
      EncodedFromZeroFree([], input[1..]);
    } else {
      EncodedFromZeroFree(run + [input[0]], input[1..]);
    }
  }

  /** The delimiter never occurs inside an encoding. */
  lemma EncodedZeroFree(input: seq<byte>)
    ensures ZeroFree(Encoded(input))
  {
    EncodedFromZeroFree([], input);
  }

  // ── What decoding means, with room for `room` bytes in the output ─────────

  function Prepend(head: seq<byte>, r: Result<seq<byte>, CobsError>): Result<seq<byte>, CobsError> {
    match r
    case Ok(tail) => Ok(head + tail)
    case Err(e) => Err(e)
  }

  datatype Turn = Stop(error: CobsError) | Copy(bytes: seq<byte>, rest: seq<byte>)

  /** What the first block of `input` stands for, or what is wrong with it. */
  function FirstBlock(input: seq<byte>, room: nat): (t: Turn)
    requires input != []
    ensures t.Copy? ==> |t.bytes| <= room && |t.rest| < |input|
  {
    if input[0] == 0 then Stop(UnexpectedZero) else
    var len, rest := input[0] - 1, input[1..];
    if |rest| < len && |rest| <= room then Stop(Truncated)
    else if room < len then Stop(OutputTooSmall)
    else if input[0] == 0xFF || len == |rest| then Copy(rest[..len], rest[len..])
    else if room == len then Stop(OutputTooSmall)
    else Copy(rest[..len] + [0], rest[len..])
  }

  function Decoded(input: seq<byte>, room: nat): Result<seq<byte>, CobsError>
    decreases |input|
  {
    if input == [] then Ok([]) else
    match FirstBlock(input, room)
    case Stop(e) => Err(e)
    case Copy(bytes, rest) => Prepend(bytes, Decoded(rest, room - |bytes|))
  }

  lemma {:induction false} BlockParts(run: seq<byte>, tail: seq<byte>)
    requires |run| <= 254
    ensures var s := Block(run) + tail;
      && s != [] && s[0] == |run| + 1 && s[1..] == run + tail
      && s[1..][..|run|] == run && s[1..][|run|..] == tail
  {
    var s := Block(run) + tail;
    assert s[1..] == run + tail;
  }

  lemma FirstBlockOfBlock(run: seq<byte>, tail: seq<byte>, room: nat)
    requires |run| <= 254 && |run| <= room
    ensures tail == [] || |run| == 254 ==> FirstBlock(Block(run) + tail, room) == Copy(run, tail)
    ensures tail != [] && |run| < 254 && |run| < room ==> FirstBlock(Block(run) + tail, room) == Copy(run + [0], tail)
  {
    BlockParts(run, tail);
  }

  lemma {:induction false} DecodeLastBlock(run: seq<byte>, room: nat)
    requires |run| <= 254 && |run| <= room
    ensures Decoded(Block(run), room) == Ok(run)
  {
    FirstBlockOfBlock(run, [], room);
    assert Block(run) + [] == Block(run);
    assert run + [] == run;
  }

  lemma {:induction false} DecodeBlock(run: seq<byte>, data: seq<byte>, tail: seq<byte>, plain: seq<byte>, room: nat)
    requires |run| <= 254 && |data| <= room && tail != []
    requires data == if |run| == 254 then run else run + [0]
    requires Decoded(tail, room - |data|) == Ok(plain)
    ensures Decoded(Block(run) + tail, room) == Ok(data + plain)
  {
    FirstBlockOfBlock(run, tail, room);
  }

  lemma {:induction false} DecodeEncodedFrom(run: seq<byte>, input: seq<byte>, room: nat)
    requires |run| <= 253 && |run| + |input| <= room
    ensures Decoded(EncodedFrom(run, input), room) == Ok(run + input)
    decreases input
  {
    if input == [] {
      DecodeLastBlock(run, room);
      assert run + input == run;
    } else {
      DecodeAfterFirst(run, input, room);
    }
  }

  lemma FirstAppended(run: seq<byte>, input: seq<byte>)
    requires input != []
    ensures run + [input[0]] + input[1..] == run + input
    ensures [] + input[1..] == input[1..]
  {
  }

  lemma {:induction false} DecodeAfterFirst(run: seq<byte>, input: seq<byte>, room: nat)
    requires |run| <= 253 && |run| + |input| <= room && input != []
    ensures Decoded(EncodedFrom(run, input), room) == Ok(run + input)
    decreases input, 0
  {
    hide Decoded;
    var data, rest := run + [input[0]], input[1..];
    FirstAppended(run, input);
    if input[0] == 0 {
      DecodeEncodedFrom([], rest, room - |data|);
      DecodeBlock(run, data, EncodedFrom([], rest), rest, room);
    } else if |run| == 253 {
      DecodeEncodedFrom([], rest, room - |data|);
      DecodeBlock(data, data, EncodedFrom([], rest), rest, room);
    } else {
      DecodeEncodedFrom(data, rest, room);
    }
  }

  lemma DecodedLater(input: seq<byte>, room: nat)
    requires input != []
    ensures var t := FirstBlock(input, room);
      Decoded(input, room) == if t.Stop? then Err(t.error) else Prepend(t.bytes, Decoded(t.rest, room - |t.bytes|))
  {
  }

  lemma FirstWithLess(s: seq<byte>, room: nat, more: nat)
    requires s != [] && room <= more && FirstBlock(s, more).Copy?
    ensures var t := FirstBlock(s, more);
      FirstBlock(s, room) == if |t.bytes| <= room then t else Stop(OutputTooSmall)
  {
  }

  lemma Longer(head: seq<byte>, r: Result<seq<byte>, CobsError>)
    ensures Prepend(head, r).Ok? <==> r.Ok?
    ensures r.Err? ==> Prepend(head, r) == Err(r.error)
    ensures r.Ok? ==> |Prepend(head, r).value| == |head| + |r.value|
  {
  }

  /** With less room the result is the same as long as it fits, and otherwise too large. */
  lemma {:induction false} LessRoom(s: seq<byte>, room: nat, more: nat)
    requires room <= more && Decoded(s, more).Ok?
    ensures var v := Decoded(s, more).value;
      Decoded(s, room) == if |v| <= room then Ok(v) else Err(OutputTooSmall)
    decreases |s|
  {
    hide FirstBlock, Prepend;
    if s == [] {
    } else {
      var t := FirstBlock(s, more);
      DecodedLater(s, more);
      DecodedLater(s, room);
      FirstWithLess(s, room, more);
      Longer(t.bytes, Decoded(t.rest, more - |t.bytes|));
      if |t.bytes| <= room {
        Longer(t.bytes, Decoded(t.rest, room - |t.bytes|));
        LessRoom(t.rest, room - |t.bytes|, more - |t.bytes|);
      }
    }
  }

  /** Decoding an encoding gives the input back exactly if the input fits the output buffer, and else says so. */
  lemma DecodeInvertsEncode(input: seq<byte>, room: nat)
    ensures Decoded(Encoded(input), room) == if |input| <= room then Ok(input) else Err(OutputTooSmall)
  {
    hide Decoded, EncodedFrom;
    var more := if |input| <= room then room else |input|;
    DecodeEncodedFrom([], input, more);
    assert [] + input == input;
    LessRoom(Encoded(input), room, more);
  }

  // ── Zeros in stuffed data ────────────────────────────────────────────────

  /** Following the length codes from the front, one of them is zero. */
  predicate ZeroCode(s: seq<byte>)
    decreases |s|
  {
    s != [] && (s[0] == 0 || (s[0] <= |s| && ZeroCode(s[s[0]..])))
  }

  /** Bytes that the blocks in front of the zero code stand for, with their implied zeros. */
  function BytesBeforeZeroCode(s: seq<byte>): (n: nat)
    requires ZeroCode(s)
    ensures n < |s|
    decreases |s|
  {
    if s[0] == 0 then 0 else (if s[0] == 0xFF then 254 else s[0]) + BytesBeforeZeroCode(s[s[0]..])
  }

  /** Bytes a block of this code stands for when `left` bytes follow it. */
  function Produced(code: byte, left: nat): nat
    requires code > 0
  {
    if code == 0xFF || left == 0 then code - 1 else code
  }

  lemma NextBlock(input: seq<byte>, room: nat)
    requires input != [] && input[0] > 0
    ensures var t := FirstBlock(input, room);
      if |input| < input[0] then t.Stop? && t.error != UnexpectedZero
      else
        var n := Produced(input[0], |input| - input[0]);
        if room < n then t == Stop(OutputTooSmall)
        else t.Copy? && |t.bytes| == n && t.rest == input[input[0]..]
  {
    if input[0] <= |input| {
      assert input[1..][input[0] - 1..] == input[input[0]..];
    }
  }

  lemma ZeroCodeLater(s: seq<byte>)
    requires s != [] && s[0] > 0
    ensures ZeroCode(s) <==> s[0] <= |s| && ZeroCode(s[s[0]..])
    ensures ZeroCode(s) ==> BytesBeforeZeroCode(s) == Produced(s[0], |s| - s[0]) + BytesBeforeZeroCode(s[s[0]..])
  {
  }

  lemma ZeroCodeHere(s: seq<byte>, room: nat)
    requires s == [] || s[0] == 0
    ensures ZeroCode(s) <==> s != []
    ensures s != [] ==> BytesBeforeZeroCode(s) == 0
    ensures Decoded(s, room) == if s == [] then Ok([]) else Err(UnexpectedZero)
  {
  }

  /**
   * The documentation says that a zero inside encoded data is an error. The code reports one exactly
   * if a length code is zero and the blocks in front of it fit the output.
   */
  lemma {:induction false} UnexpectedZeroIffZeroCode(input: seq<byte>, room: nat)
    ensures Decoded(input, room) == Err(UnexpectedZero) <==> ZeroCode(input) && BytesBeforeZeroCode(input) <= room
    decreases |input|
  {
    hide FirstBlock, Decoded, ZeroCode, BytesBeforeZeroCode, Produced;
    if input == [] || input[0] == 0 {
      ZeroCodeHere(input, room);
    } else {
      NextBlock(input, room);
      ZeroCodeLater(input);
      DecodedLater(input, room);
      var t := FirstBlock(input, room);
      if t.Copy? {
        UnexpectedZeroIffZeroCode(t.rest, room - |t.bytes|);
      }
    }
  }

  /** Input without zeros, which is all that the splitter hands over, never meets that error. */
  lemma {:induction false} ZeroFreeNeverUnexpected(input: seq<byte>, room: nat)
    requires ZeroFree(input)
    ensures Decoded(input, room) != Err(UnexpectedZero)
    decreases |input|
  {
    hide FirstBlock, Decoded, ZeroCode, BytesBeforeZeroCode, Produced;
    if input == [] {
      ZeroCodeHere(input, room);
    } else {
      NextBlock(input, room);
      DecodedLater(input, room);
      var t := FirstBlock(input, room);
      if t.Copy? {
        assert forall i | 0 <= i < |t.rest| :: t.rest[i] == input[input[0] + i];
        ZeroFreeNeverUnexpected(t.rest, room - |t.bytes|);
      }
    }
  }

  /** With room for the input, zeros are rejected as documented exactly if there is none or a code is zero. */
  lemma ZerosRejectedAsDocumentedIff(input: seq<byte>, room: nat)
    requires |input| <= room
    ensures (Decoded(input, room) == Err(UnexpectedZero) <==> !ZeroFree(input)) <==> ZeroFree(input) || ZeroCode(input)
  {
    UnexpectedZeroIffZeroCode(input, room);
    if ZeroFree(input) {
      ZeroFreeNeverUnexpected(input, room);
    }
  }

  /** Inside a block any byte is copied: for instance a block of one zero. */
  lemma ZeroInsideBlockIsCopied(data: seq<byte>, room: nat)
    requires |data| <= 254 && |data| <= room
    ensures Decoded(Block(data), room) == Ok(data)
    ensures !ZeroFree([2, 0]) && Decoded([2, 0], 1) == Ok([0])
  {
    DecodeLastBlock(data, room);
    DecodeLastBlock([0], 1);
    assert Block([0]) == [2, 0];
    assert [2, 0][1] == 0;
  }

  // ── Both directions, block by block ──────────────────────────────────────

  lemma {:induction false} RunCollected(run: seq<byte>, x: seq<byte>, tail: seq<byte>)
    requires ZeroFree(x) && |run| + |x| <= 253
    ensures EncodedFrom(run, x + tail) == EncodedFrom(run + x, tail)
    decreases |x|
  {
    if x == [] {
      assert [] + tail == tail && run + [] == run;
    } else {
      assert (x + tail)[0] == x[0] && (x + tail)[1..] == x[1..] + tail;
      assert run + [x[0]] + x[1..] == run + x;
      RunCollected(run + [x[0]], x[1..], tail);
    }
  }

  /**
   * Stuffing, block by block: up to 253 bytes without a zero are preceded by their number and one, a zero
   * behind them is left out, and 254 of them make a block of code 255 without a zero behind it.
   */
  lemma EncodedBlockByBlock(x: seq<byte>, y: seq<byte>)
    requires ZeroFree(x) && |x| <= 254
    ensures |x| <= 253 ==> Encoded(x) == [|x| + 1] + x
    ensures |x| <= 253 ==> Encoded(x + ([0] + y)) == [|x| + 1] + x + Encoded(y)
    ensures |x| == 254 ==> Encoded(x + y) == [255] + x + Encoded(y)
  {
    if |x| <= 253 {
      RunCollected([], x, []);
      RunCollected([], x, [0] + y);
      assert x + [] == x && [] + x == x;
      assert ([0] + y)[0] == 0 && ([0] + y)[1..] == y;
    } else {
      var head, last := x[..253], x[253];
      RunCollected([], head, [last] + y);
      assert x == head + [last] && [] + head == head;
      assert x + y == head + ([last] + y);
      assert ([last] + y)[0] == last && ([last] + y)[1..] == y;
    }
  }

  /**
   * Unstuffing, block by block, with room for `room` bytes: a code of zero, too few bytes and too little room
   * are the three errors, and a block other than the last has a zero behind it unless its code is 255.
   */
  lemma DecodedBlockByBlock(s: seq<byte>, room: nat)
    requires s != []
    ensures var c: nat := s[0];
      Decoded(s, room) ==
      if c == 0 then Err(UnexpectedZero)
      else if |s| < c then Err(if |s| - 1 <= room then Truncated else OutputTooSmall)
      else if c == 255 || |s| == c then
        (if room < c - 1 then Err(OutputTooSmall) else Prepend(s[1..c], Decoded(s[c..], room - (c - 1))))
      else
        (if room < c then Err(OutputTooSmall) else Prepend(s[1..c] + [0], Decoded(s[c..], room - c)))
  {
    hide Decoded;
    DecodedLater(s, room);
    var c: nat := s[0];
    if 0 < c <= |s| {
      assert s[1..][..c - 1] == s[1..c] && s[1..][c - 1..] == s[c..];
    }
  }

  // ── The loops of the source ──────────────────────────────────────────────

  /**
   * `done` is written out, a slot is kept free for the code of the block under way, and the run of
   * that block stands behind the slot.
   */
  ghost predicate InProgress(out: seq<byte>, lo: nat, done: seq<byte>, run: seq<byte>) {
    && lo + |done| + 1 + |run| <= |out|
    && out[lo..lo + |done|] == done
    && out[lo + |done| + 1..lo + |done| + 1 + |run|] == run
  }

  lemma {:induction false} CloseBlock(out: seq<byte>, lo: nat, done: seq<byte>, run: seq<byte>)
    requires |run| <= 254 && InProgress(out, lo, done, run)
    ensures var closed := out[lo + |done| := |run| + 1];
      && closed[lo..lo + |done| + 1 + |run|] == done + Block(run)
      && closed[..lo] == out[..lo]
      && (lo + |done| + 1 + |run| < |out| ==> InProgress(closed, lo, done + Block(run), []))
  {
    var closed := out[lo + |done| := |run| + 1];
    assert closed[lo..lo + |done|] == done;
    assert closed[lo + |done| + 1..lo + |done| + 1 + |run|] == run;
  }

  lemma {:induction false} ExtendRun(out: seq<byte>, lo: nat, done: seq<byte>, run: seq<byte>, b: byte)
    requires InProgress(out, lo, done, run) && lo + |done| + 1 + |run| < |out|
    ensures var longer := out[lo + |done| + 1 + |run| := b];
      InProgress(longer, lo, done, run + [b]) && longer[..lo] == out[..lo]
  {
    var longer := out[lo + |done| + 1 + |run| := b];
    assert longer[lo..lo + |done|] == done;
    assert longer[lo + |done| + 1..lo + |done| + 1 + |run| + 1] == run + [b];
  }

  /** `set(output, code_index, code)`: the block under way is complete. */
  method SetCode(out: array<byte>, lo: nat, codeIndex: nat, code: nat, ghost done: seq<byte>, ghost run: seq<byte>)
    requires codeIndex == |done| && code == |run| + 1 <= 255 && InProgress(out[..], lo, done, run)
    modifies out
    ensures out[lo..lo + codeIndex + code] == done + Block(run)
    ensures out[..lo] == old(out[..lo])
    ensures lo + codeIndex + code < out.Length ==> InProgress(out[..], lo, done + Block(run), [])
  {
    ghost var was := out[..];
    CloseBlock(was, lo, done, run);
    out[lo + codeIndex] := code;
    assert out[..] == was[lo + codeIndex := code];
    assert out[lo..lo + codeIndex + code] == out[..][lo..lo + codeIndex + code];
    assert out[..lo] == out[..][..lo] && was[..lo] == old(out[..lo]);
  }

  /** `set(output, write, byte)`: the run of the block under way grows. */
  method SetByte(out: array<byte>, lo: nat, write: nat, b: byte, ghost done: seq<byte>, ghost run: seq<byte>)
    requires write == |done| + 1 + |run| && lo + write < out.Length && InProgress(out[..], lo, done, run)
    modifies out
    ensures InProgress(out[..], lo, done, run + [b])
    ensures out[..lo] == old(out[..lo])
  {
    ghost var was := out[..];
    ExtendRun(was, lo, done, run, b);
    out[lo + write] := b;
    assert out[..] == was[lo + write := b];
    assert out[..lo] == out[..][..lo] && was[..lo] == old(out[..lo]);
  }

  /** What the next input byte does to the blocks written so far and to the run under way. */
  function TakeByte(done: seq<byte>, run: seq<byte>, b: byte): (r: (seq<byte>, seq<byte>))
    requires |run| <= 253
    ensures |r.1| <= 253
  {
    if b == 0 then (done + Block(run), [])
    else if |run| == 253 then (done + Block(run + [b]), [])
    else (done, run + [b])
  }

  lemma {:induction false} TakeByteEncodes(done: seq<byte>, run: seq<byte>, input: seq<byte>)
    requires |run| <= 253 && input != []
    ensures var (d, r) := TakeByte(done, run, input[0]);
      done + EncodedFrom(run, input) == d + EncodedFrom(r, input[1..])
  {
    var (d, r) := TakeByte(done, run, input[0]);
    var tail := EncodedFrom(r, input[1..]);
    if input[0] == 0 {
      assert done + (Block(run) + tail) == d + tail;
    } else if |run| == 253 {
      assert done + (Block(run + [input[0]]) + tail) == d + tail;
    }
  }

  /** The body of the loop of `encode`. */
  method EncodeStep(b: byte, out: array<byte>, lo: nat, codeIndex0: nat, code0: nat, ghost done: seq<byte>, ghost run: seq<byte>)
    returns (codeIndex: nat, write: nat, code: nat)
    requires codeIndex0 == |done| && code0 == |run| + 1 <= 254 && InProgress(out[..], lo, done, run)
    requires lo + codeIndex0 + code0 + (if b != 0 && code0 == 254 then 1 else 0) < out.Length
    modifies out
    ensures var (d, r) := TakeByte(done, run, b);
      codeIndex == |d| && code == |r| + 1 && write == codeIndex + code && InProgress(out[..], lo, d, r)
    ensures out[..lo] == old(out[..lo])
  {
    codeIndex, write, code := codeIndex0, codeIndex0 + code0, code0;
    if b == 0 {
      SetCode(out, lo, codeIndex, code, done, run);
      codeIndex := write;
      write := write + 1;
      code := 1;
    } else {
      SetByte(out, lo, write, b, done, run);
      write := write + 1;
      code := code + 1;
      if code == 0xFF {
        SetCode(out, lo, codeIndex, code, done, run + [b]);
        codeIndex := write;
        write := write + 1;
        code := 1;
      }
    }
  }

  lemma EncodingStartsAndEnds(input: seq<byte>, run: seq<byte>)
    requires |run| <= 253
    ensures Encoded(input) == [] + EncodedFrom([], input) && EncodedFrom(run, []) == Block(run)
  {
  }

  /** `out[lo..]` is the slice the caller passes. */
  method Encode(input: seq<byte>, out: array<byte>, lo: nat) returns (r: Result<nat, CobsError>)
    requires lo <= out.Length
    modifies out
    ensures r == if out.Length - lo < MaxEncodedLen(|input|) then Err(OutputTooSmall)
                 else Ok(|Encoded(input)|)
    ensures r.Ok? ==> lo + r.value <= out.Length && out[lo..lo + r.value] == Encoded(input)
    ensures out[..lo] == old(out[..lo])
  {
    if out.Length - lo < MaxEncodedLen(|input|) {
      return Err(OutputTooSmall);
    }
    hide EncodedFrom, Encoded;
    EncodedLength(input);
    EncodingStartsAndEnds(input, []);
    var codeIndex: nat, write: nat, code: nat := 0, 1, 1;
    ghost var done: seq<byte>, run: seq<byte>, full := [], [], 0;
    ghost var rest, meaning := input, Encoded(input);
    for i := 0 to |input|
      invariant codeIndex == |done| && write == codeIndex + code && code == |run| + 1 <= 254
      invariant write == i + 1 + full && 254 * full + |run| <= i
      invariant InProgress(out[..], lo, done, run)
      invariant out[..lo] == old(out[..lo])
      invariant rest == input[i..] && meaning == done + EncodedFrom(run, rest)
    {
      TakeByteEncodes(done, run, rest);
      full := if input[i] != 0 && |run| == 253 then full + 1 else full;
      codeIndex, write, code := EncodeStep(input[i], out, lo, codeIndex, code, done, run);
      ghost var next := TakeByte(done, run, input[i]);
      done, run, rest := next.0, next.1, rest[1..];
    }
    SetCode(out, lo, codeIndex, code, done, run);
    EncodingStartsAndEnds(input, run);
    return Ok(write);
  }

  /** The inner loop of `decode`: copies `blockLen` bytes, or reports what runs out first. */
  method CopyBlock(input: seq<byte>, read0: nat, out: array<byte>, write0: nat, blockLen: nat)
    returns (failure: Option<CobsError>)
    requires read0 <= |input| && write0 <= out.Length
    modifies out
    ensures var left, room := |input| - read0, out.Length - write0;
      failure == if left < blockLen && left <= room then Some(Truncated)
                 else if room < blockLen then Some(OutputTooSmall) else None
    ensures failure == None ==>
      out[..write0 + blockLen] == old(out[..write0]) + input[read0..read0 + blockLen]
  {
    var i := 0;
    while i < blockLen
      invariant i <= blockLen && read0 + i <= |input| && write0 + i <= out.Length
      invariant out[..write0 + i] == old(out[..write0]) + input[read0..read0 + i]
    {
      if read0 + i >= |input| {
        return Some(Truncated);
      }
      if write0 + i >= out.Length {
        return Some(OutputTooSmall);
      }
      out[write0 + i] := input[read0 + i];
      i := i + 1;
    }
    return None;
  }

  /** The body of the outer loop of `decode`. */
  method DecodeStep(input: seq<byte>, read0: nat, out: array<byte>, write0: nat)
    returns (failure: Option<CobsError>, read: nat, write: nat)
    requires read0 < |input| && write0 <= out.Length
    modifies out
    ensures var t := FirstBlock(input[read0..], out.Length - write0);
      if t.Stop? then failure == Some(t.error)
      else failure == None && read <= |input| && write == write0 + |t.bytes| <= out.Length &&
           out[..write] == old(out[..write0]) + t.bytes && input[read..] == t.rest
  {
    ghost var here := input[read0..];
    var code := input[read0];
    read, write := read0, write0;
    assert here[0] == code && here[1..] == input[read0 + 1..];
    if code == 0 {
      return Some(UnexpectedZero), read, write;
    }
    read := read + 1;
    var blockLen := code - 1;
    failure := CopyBlock(input, read, out, write, blockLen);
    if failure.Some? {
      return;
    }
    ghost var block := here[1..][..blockLen];
    assert input[read..read + blockLen] == block;
    read, write := read + blockLen, write + blockLen;
    assert out[..write] == old(out[..write0]) + block;
    assert input[read..] == here[1..][blockLen..];
    if code != 0xFF && read < |input| {
      if write >= out.Length {
        return Some(OutputTooSmall), read, write;
      }
      out[write] := 0;
      write := write + 1;
      assert out[..write] == old(out[..write0]) + (block + [0]);
    }
  }

  lemma {:induction false} DecodeOneBlock(before: seq<byte>, here: seq<byte>, room: nat)
    requires here != []
    ensures var t := FirstBlock(here, room);
      Prepend(before, Decoded(here, room)) ==
        if t.Stop? then Err(t.error) else Prepend(before + t.bytes, Decoded(t.rest, room - |t.bytes|))
  {
    var t := FirstBlock(here, room);
    if t.Copy? {
      var r := Decoded(t.rest, room - |t.bytes|);
      if r.Ok? {
        assert before + (t.bytes + r.value) == before + t.bytes + r.value;
      }
    }
  }

  lemma EverythingDecoded(done: seq<byte>, rest: seq<byte>, room: nat)
    requires rest == []
    ensures Prepend(done, Decoded(rest, room)) == Ok(done)
  {
    assert done + [] == done;
  }

  lemma {:induction false} NothingDecoded(input: seq<byte>, room: nat)
    ensures Decoded(input, room) == Prepend([], Decoded(input, room))
  {
    if Decoded(input, room).Ok? {
      assert [] + Decoded(input, room).value == Decoded(input, room).value;
    }
  }

  /** `input` has had its delimiter removed. */
  method Decode(input: seq<byte>, out: array<byte>) returns (r: Result<nat, CobsError>)
    modifies out
    ensures r.Ok? ==> r.value <= out.Length && Decoded(input, out.Length) == Ok(out[..r.value])
    ensures r.Err? ==> Decoded(input, out.Length) == Err(r.error)
  {
    var read: nat, write: nat := 0, 0;
    ghost var meaning, done, rest, room := Decoded(input, out.Length), [], input, out.Length;
    NothingDecoded(input, out.Length);
    while read < |input|
      invariant read <= |input| && write <= out.Length
      invariant done == out[..write] && rest == input[read..] && room == out.Length - write
      invariant meaning == Prepend(done, Decoded(rest, room))
      decreases |rest|
    {
      DecodeOneBlock(done, rest, room);
      ghost var t := FirstBlock(rest, room);
      var failure;
      failure, read, write := DecodeStep(input, read, out, write);
      if failure.Some? {
        return Err(failure.value);
      }
      done, rest, room := done + t.bytes, t.rest, room - |t.bytes|;
    }
    EverythingDecoded(done, rest, room);
    return Ok(write);
  }
}
