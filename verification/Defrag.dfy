/** Reassembly of fragmented messages (device-api/src/defrag.rs). */
module Defrag {
  import opened Bytes
  import opened Frame

  /** `current` is the number of the message being put together, if one is. */
  datatype Assembly = Assembly(buffer: seq<byte>, current: Option<u16>)

  /** `Ok(Some(payload))`, `Ok(None)` and `Err(Fragmentation)` of the source. */
  datatype Feeding = Complete(payload: seq<byte>) | Pending | Failed

  const EMPTY := Assembly([], None)

  predicate Idle(a: Assembly) { a.current.None? }

  /** What feeding one frame does to the assembly and what it returns. */
  function Fed(a: Assembly, f: Frame, capacity: nat): (Assembly, Feeding) {
    if !IsFragment(f.header.flags) then
      (EMPTY, Complete(f.payload))
    else if a.current.Some? && a.current.value != f.header.number then
      (EMPTY, Failed)
    else
      var kept := if a.current.Some? then a.buffer else [];
      if |kept| + |f.payload| > capacity then
        (EMPTY, Failed)
      else if IsLast(f.header.flags) then
        (Assembly(kept + f.payload, None), Complete(kept + f.payload))
      else
        (Assembly(kept + f.payload, Some(f.header.number)), Pending)
  }

  class Defragmenter {
    const capacity: nat
    var buffer: seq<byte>
    var currentSeq: Option<u16>

    ghost predicate Valid()
      reads this
    {
      |buffer| <= capacity
    }

    function State(): Assembly
      reads this
    {
      Assembly(buffer, currentSeq)
    }

    constructor (capacity: nat)
      ensures Valid() && this.capacity == capacity && State() == EMPTY
    {
      this.capacity := capacity;
      buffer := [];
      currentSeq := None;
    }

    method Reset()
      modifies this
      ensures Valid() && State() == EMPTY
    {
      buffer := [];
      currentSeq := None;
    }

    /** `heapless::Vec::extend_from_slice`: all or nothing. */
    method Extend(payload: seq<byte>) returns (ok: bool)
      requires Valid()
      modifies this`buffer
      ensures Valid() && ok == (|old(buffer)| + |payload| <= capacity)
      ensures buffer == if ok then old(buffer) + payload else old(buffer)
    {
      ok := |buffer| + |payload| <= capacity;
      if ok {
        buffer := buffer + payload;
      }
    }

    method Feed(f: Frame) returns (r: Feeding)
      requires Valid()
      modifies this
      ensures Valid() && (State(), r) == Fed(old(State()), f, capacity)
    {
      if !IsFragment(f.header.flags) {
        Reset();
        return Complete(f.payload);
      } else if !IsLast(f.header.flags) {
        if currentSeq.Some? {
          if currentSeq.value != f.header.number {
            Reset();
            return Failed;
          }
        } else {
          buffer := [];
          currentSeq := Some(f.header.number);
        }
        var ok := Extend(f.payload);
        if !ok {
          Reset();
          return Failed;
        }
        return Pending;
      } else {
        if currentSeq.Some? {
          if currentSeq.value != f.header.number {
            Reset();
            return Failed;
          }
        } else {
          buffer := [];
        }
        var ok := Extend(f.payload);
        if !ok {
          Reset();
          return Failed;
        }
        currentSeq := None;
        return Complete(buffer);
      }
    }
  }

  // ── Runs ─────────────────────────────────────────────────────────────────

  function AssemblyAfter(frames: seq<Frame>, capacity: nat): Assembly {
    if frames == [] then EMPTY
    else Fed(AssemblyAfter(frames[..|frames| - 1], capacity), frames[|frames| - 1], capacity).0
  }

  /** What the `i`-th call of a run that starts with a new defragmenter returns. */
  function ReturnedAt(frames: seq<Frame>, i: nat, capacity: nat): Feeding
    requires i < |frames|
  {
    Fed(AssemblyAfter(frames[..i], capacity), frames[i], capacity).1
  }

  function Payloads(frames: seq<Frame>): seq<byte> {
    if frames == [] then [] else Payloads(frames[..|frames| - 1]) + frames[|frames| - 1].payload
  }

  /** Fragments of one message, none of them the last. */
  ghost predicate OpenBlock(frames: seq<Frame>, number: u16) {
    forall k | 0 <= k < |frames| ::
      && IsFragment(frames[k].header.flags)
      && !IsLast(frames[k].header.flags)
      && frames[k].header.number == number
  }

  /** Index of the fed frame with which the message under way began. */
  function BlockStart(frames: seq<Frame>, capacity: nat): (start: nat)
    ensures start <= |frames|
  {
    if frames == [] then 0 else
    var init := frames[..|frames| - 1];
    if Idle(AssemblyAfter(init, capacity)) then |init| else BlockStart(init, capacity)
  }

  /** If a message is under way afterwards, the frame is a fragment that began or continued it. */
  lemma FedContinues(a: Assembly, f: Frame, capacity: nat)
    requires |a.buffer| <= capacity
    ensures var next := Fed(a, f, capacity).0;
      && |next.buffer| <= capacity
      && (!Idle(next) ==>
            && IsFragment(f.header.flags) && !IsLast(f.header.flags) && next.current == Some(f.header.number)
            && (if Idle(a) then next.buffer == f.payload
                else a.current == next.current && next.buffer == a.buffer + f.payload))
  {
    assert [] + f.payload == f.payload;
  }

  lemma BlockGrows(block: seq<Frame>, last: Frame, number: u16)
    requires OpenBlock(block, number)
    requires IsFragment(last.header.flags) && !IsLast(last.header.flags) && last.header.number == number
    ensures OpenBlock(block + [last], number) && Payloads(block + [last]) == Payloads(block) + last.payload
  {
    assert (block + [last])[..|block|] == block;
  }

  lemma OnePayload(f: Frame)
    ensures Payloads([f]) == f.payload
  {
    assert [f][..0] == [] && [] + f.payload == f.payload;
  }

  lemma NoneOpen(number: u16)
    ensures OpenBlock([], number)
  {
  }

  /** The buffer of a message under way holds exactly the frames since it began. */
  lemma {:induction false} BufferHoldsBlock(frames: seq<Frame>, capacity: nat)
    ensures var a := AssemblyAfter(frames, capacity);
      && |a.buffer| <= capacity
      && (!Idle(a) ==>
            && OpenBlock(frames[BlockStart(frames, capacity)..], a.current.value)
            && a.buffer == Payloads(frames[BlockStart(frames, capacity)..]))
  {
    hide Fed, OpenBlock, Payloads;
    if frames == [] {
    } else {
      var init, last := frames[..|frames| - 1], frames[|frames| - 1];
      var a := AssemblyAfter(init, capacity);
      BufferHoldsBlock(init, capacity);
      FedContinues(a, last, capacity);
      var block := frames[BlockStart(frames, capacity)..];
      if Idle(AssemblyAfter(frames, capacity)) {
      } else if Idle(a) {
        assert block == [last] && [] + [last] == [last];
        NoneOpen(last.header.number);
        BlockGrows([], last, last.header.number);
        OnePayload(last);
      } else {
        var earlier := init[BlockStart(init, capacity)..];
        assert block == earlier + [last];
        BlockGrows(earlier, last, last.header.number);
      }
    }
  }

  /** What a frame that completes a message delivers. */
  lemma CompleteIs(a: Assembly, f: Frame, capacity: nat)
    requires |a.buffer| <= capacity && Fed(a, f, capacity).1.Complete?
    ensures var payload := Fed(a, f, capacity).1.payload;
      if !IsFragment(f.header.flags) then payload == f.payload
      else
        && IsLast(f.header.flags) && |payload| <= capacity
        && (if Idle(a) then payload == f.payload
            else a.current == Some(f.header.number) && payload == a.buffer + f.payload)
  {
    assert [] + f.payload == f.payload;
  }

  /**
   * Whatever is fed, a delivered message is the payload of one unfragmented frame or the payloads
   * of a contiguous block of fed frames: fragments of one message of which only the final one is
   * marked last. What is put together never exceeds the capacity.
   */
  lemma DeliveredFromContiguousBlock(frames: seq<Frame>, i: nat, capacity: nat) returns (start: nat)
    requires i < |frames| && ReturnedAt(frames, i, capacity).Complete?
    ensures var payload := ReturnedAt(frames, i, capacity).payload;
      if !IsFragment(frames[i].header.flags) then
        payload == frames[i].payload
      else
        && start <= i
        && OpenBlock(frames[start..i], frames[i].header.number)
        && IsLast(frames[i].header.flags)
        && payload == Payloads(frames[start..i + 1])
        && |payload| <= capacity
  {
    hide Fed, BlockStart, OpenBlock;
    var init := frames[..i];
    BufferHoldsBlock(init, capacity);
    CompleteIs(AssemblyAfter(init, capacity), frames[i], capacity);
    if Idle(AssemblyAfter(init, capacity)) {
      start := i;
      assert frames[start..i] == [] && frames[start..i + 1] == [frames[i]];
      OnePayload(frames[i]);
      NoneOpen(frames[i].header.number);
    } else {
      start := BlockStart(init, capacity);
      assert frames[start..i] == init[start..];
      assert frames[start..i + 1][..i - start] == frames[start..i];
    }
  }
}
