/** Lost frames: what reassembly (device-api/src/defrag.rs) delivers when some do not arrive. */
module Loss {
  import opened Bytes
  import opened Frame
  import opened Defrag
  import opened Receiver
  import opened Delivery

  /** The items that are kept. */
  function Kept<T>(items: seq<T>, keep: seq<bool>): seq<T>
    requires |items| == |keep|
  {
    if items == [] then [] else (if keep[0] then [items[0]] else []) + Kept(items[1..], keep[1..])
  }

  /** The payload bytes that the kept frames carry. */
  function KeptBytes(frames: seq<Frame>, keep: seq<bool>): seq<byte>
    requires |frames| == |keep|
  {
    if frames == [] then [] else (if keep[0] then frames[0].payload else []) + KeptBytes(frames[1..], keep[1..])
  }

  predicate AllKept(keep: seq<bool>) { forall i | 0 <= i < |keep| :: keep[i] }

  lemma KeptFirst(frames: seq<Frame>, keep: seq<bool>)
    requires |frames| == |keep| > 0
    ensures Kept(frames, keep) == (if keep[0] then [frames[0]] else []) + Kept(frames[1..], keep[1..])
    ensures KeptBytes(frames, keep) == (if keep[0] then frames[0].payload else []) + KeptBytes(frames[1..], keep[1..])
  {
  }

  lemma NoFrames()
    ensures Kept<Frame>([], []) == [] && KeptBytes([], []) == []
  {
  }

  predicate NoneKept(keep: seq<bool>) { forall i | 0 <= i < |keep| :: !keep[i] }

  lemma {:induction false} NoBytesKept(frames: seq<Frame>, keep: seq<bool>)
    requires |frames| == |keep| && NoneKept(keep)
    ensures KeptBytes(frames, keep) == []
  {
    if frames == [] {
    } else {
      assert forall i | 0 <= i < |keep[1..]| :: keep[1..][i] == keep[i + 1];
      NoBytesKept(frames[1..], keep[1..]);
    }
  }

  lemma {:induction false} OnlyFragment(a: Assembly, number: u16, done: seq<byte>, payload: seq<byte>, capacity: nat)
    requires |payload| <= MAX_PAYLOAD_LEN && |done| + |payload| <= capacity
    requires if Idle(a) then done == [] else a == Assembly(done, Some(number))
    ensures var frames := Fragments(0, number, payload);
      && |frames| == 1 && frames[0].payload == payload
      && FedAll(a, frames, capacity) == (Assembly(done + payload, None), [Message(number, done + payload)])
    ensures FedAll(a, [], capacity) == (a, [])
  {
    FragmentsReassemble(a, 0, number, done, payload, capacity);
  }

  lemma FirstFragment(a: Assembly, number: u16, done: seq<byte>, payload: seq<byte>, capacity: nat)
    requires MAX_PAYLOAD_LEN < |payload| && |done| + |payload| <= capacity
    requires if Idle(a) then done == [] else a == Assembly(done, Some(number))
    ensures var frames := Fragments(0, number, payload);
      && frames[0].payload == payload[..MAX_PAYLOAD_LEN]
      && frames[1..] == Fragments(0, number, payload[MAX_PAYLOAD_LEN..])
      && Fed(a, frames[0], capacity) == (Assembly(done + payload[..MAX_PAYLOAD_LEN], Some(number)), Pending)
  {
    FragmentFlag(0);
  }

  lemma FedPending(a: Assembly, f: Frame, later: seq<Frame>, next: Assembly, capacity: nat)
    requires Fed(a, f, capacity) == (next, Pending)
    ensures FedAll(a, [f] + later, capacity) == FedAll(next, later, capacity)
  {
    hide Fed;
    assert ([f] + later)[1..] == later;
    assert [] + FedAll(next, later, capacity).1 == FedAll(next, later, capacity).1;
  }

  /** The fragments of one message of which some are kept, from where `done` is already buffered. */
  lemma {:induction false} KeptFragmentsDeliver(a: Assembly, number: u16, done: seq<byte>, payload: seq<byte>, keep: seq<bool>, capacity: nat)
    requires |keep| == |Fragments(0, number, payload)| && |done| + |payload| <= capacity
    requires if Idle(a) then done == [] else a == Assembly(done, Some(number))
    ensures var bytes := done + KeptBytes(Fragments(0, number, payload), keep);
      var (end, messages) := FedAll(a, Kept(Fragments(0, number, payload), keep), capacity);
      if keep[|keep| - 1] then Idle(end) && messages == [Message(number, bytes)]
      else messages == [] && end == if NoneKept(keep) then a else Assembly(bytes, Some(number))
    decreases |payload|
  {
    hide Fed, FedAll, Fragments, Kept, KeptBytes;
    var frames := Fragments(0, number, payload);
    KeptFirst(frames, keep);
    if |payload| <= MAX_PAYLOAD_LEN {
      OnlyFragment(a, number, done, payload, capacity);
      NoFrames();
      assert frames[1..] == [] && keep[1..] == [] && [frames[0]] + [] == frames && payload + [] == payload;
    } else {
      var head, tail, later := payload[..MAX_PAYLOAD_LEN], payload[MAX_PAYLOAD_LEN..], keep[1..];
      FirstFragment(a, number, done, payload, capacity);
      assert NoneKept(keep) <==> !keep[0] && NoneKept(later) by {
        assert forall i | 0 < i < |keep| :: keep[i] == later[i - 1];
      }
      if keep[0] {
        var next := Assembly(done + head, Some(number));
        KeptFragmentsDeliver(next, number, done + head, tail, later, capacity);
        FedPending(a, frames[0], Kept(frames[1..], later), next, capacity);
        assert done + head + KeptBytes(frames[1..], later) == done + (head + KeptBytes(frames[1..], later));
        if NoneKept(later) {
          NoBytesKept(frames[1..], later);
        }
      } else {
        KeptFragmentsDeliver(a, number, done, tail, later, capacity);
        assert [] + Kept(frames[1..], later) == Kept(frames[1..], later);
        assert [] + KeptBytes(frames[1..], later) == KeptBytes(frames[1..], later);
      }
    }
  }

  /** Every fragment of a message that is not empty carries bytes, so losing one shortens it. */
  lemma {:induction false} KeptBytesShorter(number: u16, payload: seq<byte>, keep: seq<bool>)
    requires |keep| == |Fragments(0, number, payload)| && payload != []
    ensures var bytes := KeptBytes(Fragments(0, number, payload), keep);
      if AllKept(keep) then bytes == payload else |bytes| < |payload|
    decreases |payload|
  {
    var frames, later := Fragments(0, number, payload), keep[1..];
    assert AllKept(keep) <==> keep[0] && AllKept(later) by {
      assert forall i | 0 < i < |keep| :: keep[i] == later[i - 1];
    }
    if |payload| <= MAX_PAYLOAD_LEN {
      assert frames[0].payload == payload && KeptBytes(frames[1..], later) == [];
    } else {
      var tail := payload[MAX_PAYLOAD_LEN..];
      assert frames[1..] == Fragments(0, number, tail) && frames[0].payload == payload[..MAX_PAYLOAD_LEN];
      KeptBytesShorter(number, tail, later);
    }
  }

  // ── One message, any frames lost ─────────────────────────────────────────

  /**
   * Of a message met by an idle reassembly any frames may be lost. If the last is lost nothing is
   * delivered; otherwise one message is, of exactly the bytes that the kept frames carry.
   */
  lemma KeptFramesDeliver(a: Assembly, m: Message, keep: seq<bool>, capacity: nat)
    requires Idle(a) && |m.payload| <= capacity && |keep| == |MessageFrames(0, m.number, m.payload)|
    ensures var frames := MessageFrames(0, m.number, m.payload);
      FedAll(a, Kept(frames, keep), capacity).1 ==
      if keep[|keep| - 1] then [Message(m.number, KeptBytes(frames, keep))] else []
  {
    hide Fed;
    var frames := MessageFrames(0, m.number, m.payload);
    if |m.payload| <= MAX_PAYLOAD_LEN {
      MessageReassembles(a, 0, m.number, m.payload, capacity);
      assert Kept(frames[1..], keep[1..]) == [] && KeptBytes(frames[1..], keep[1..]) == [];
      assert keep[0] ==> Kept(frames, keep) == frames && KeptBytes(frames, keep) == m.payload;
    } else {
      KeptFragmentsDeliver(a, m.number, [], m.payload, keep, capacity);
      assert [] + KeptBytes(frames, keep) == KeptBytes(frames, keep);
    }
  }

  /**
   * The documentation promises reassembled messages. The message is delivered exactly if no frame
   * is lost, and a message that was never sent is delivered exactly if some frame is lost but not
   * the last.
   */
  lemma DeliveredIffNothingLost(a: Assembly, m: Message, keep: seq<bool>, capacity: nat)
    requires Idle(a) && |m.payload| <= capacity && |keep| == |MessageFrames(0, m.number, m.payload)|
    ensures var messages := FedAll(a, Kept(MessageFrames(0, m.number, m.payload), keep), capacity).1;
      && (messages == [m] <==> AllKept(keep))
      && ((exists x | x in messages :: x != m) <==> keep[|keep| - 1] && !AllKept(keep))
  {
    hide FedAll;
    KeptFramesDeliver(a, m, keep, capacity);
    var frames := MessageFrames(0, m.number, m.payload);
    var got := Message(m.number, KeptBytes(frames, keep));
    assert got in [got];
    if |m.payload| <= MAX_PAYLOAD_LEN {
      assert KeptBytes(frames[1..], keep[1..]) == [];
      assert keep[0] ==> KeptBytes(frames, keep) == m.payload;
    } else {
      KeptBytesShorter(m.number, m.payload, keep);
    }
  }

  lemma {:induction false} SomeBytesKept(number: u16, payload: seq<byte>, keep: seq<bool>)
    requires |keep| == |Fragments(0, number, payload)| && payload != [] && !NoneKept(keep)
    ensures KeptBytes(Fragments(0, number, payload), keep) != []
    decreases |payload|
  {
    var frames, later := Fragments(0, number, payload), keep[1..];
    if |payload| <= MAX_PAYLOAD_LEN {
      assert frames[0].payload == payload && keep[0];
    } else {
      var tail := payload[MAX_PAYLOAD_LEN..];
      assert frames[1..] == Fragments(0, number, tail) && frames[0].payload == payload[..MAX_PAYLOAD_LEN];
      if !keep[0] {
        assert forall i | 0 < i < |keep| :: keep[i] == later[i - 1];
        SomeBytesKept(number, tail, later);
      }
    }
  }

  lemma SingleFrameKept(a: Assembly, m: Message, keep: seq<bool>, capacity: nat)
    requires Idle(a) && |m.payload| <= MAX_PAYLOAD_LEN && |keep| == 1
    ensures Idle(FedAll(a, Kept(MessageFrames(0, m.number, m.payload), keep), capacity).0)
  {
    var frames := MessageFrames(0, m.number, m.payload);
    assert Kept(frames[1..], keep[1..]) == [];
    if keep[0] {
      assert Kept(frames, keep) == frames;
      MessageEndsIdle(a, m, capacity);
    }
  }

  /**
   * The next message, received in full, is delivered as well exactly if it fits one frame, or the
   * frames lost before it left nothing behind: the earlier message was not fragmented, its last
   * frame was kept, or none was.
   */
  lemma NextMessageDeliveredIff(a: Assembly, m: Message, keep: seq<bool>, next: Message, capacity: nat)
    requires Idle(a) && |m.payload| <= capacity && |keep| == |MessageFrames(0, m.number, m.payload)|
    requires |next.payload| <= capacity
    ensures var kept := Kept(MessageFrames(0, m.number, m.payload), keep);
      FedAll(a, kept + MessageFrames(0, next.number, next.payload), capacity).1 == FedAll(a, kept, capacity).1 + [next] <==>
      |next.payload| <= MAX_PAYLOAD_LEN || |m.payload| <= MAX_PAYLOAD_LEN || keep[|keep| - 1] || NoneKept(keep)
  {
    hide Fed, FedAll, Fragments;
    var frames := MessageFrames(0, m.number, m.payload);
    var kept, later := Kept(frames, keep), MessageFrames(0, next.number, next.payload);
    var (mid, got) := FedAll(a, kept, capacity);
    FedAllAppend(a, kept, later, capacity);
    MessageEndsIdle(mid, next, capacity);
    AppendedIff(got, FedAll(mid, later, capacity).1, [next]);
    if |m.payload| <= MAX_PAYLOAD_LEN {
      SingleFrameKept(a, m, keep, capacity);
    } else {
      KeptFragmentsDeliver(a, m.number, [], m.payload, keep, capacity);
      if !NoneKept(keep) {
        SomeBytesKept(m.number, m.payload, keep);
      }
    }
  }

  // ── Inputs that show it ──────────────────────────────────────────────────

  function Long(b: byte): (payload: seq<byte>)
    ensures |payload| == 513
  {
    seq(513, _ => b)
  }

  /** Of two fragments the first is lost: one byte is delivered instead of 513. */
  lemma LostFirstFragment(number: u16)
    ensures var frames := Fragments(0, number, Long(7));
      |frames| == 2 && FedAll(EMPTY, frames[1..], 4096).1 == [Message(number, [7])]
  {
    var tail := Long(7)[MAX_PAYLOAD_LEN..];
    assert tail == [7];
    assert Fragments(0, number, Long(7))[1..] == Fragments(0, number, tail);
    FragmentsReassemble(EMPTY, 0, number, [], tail, 4096);
    assert [] + tail == tail;
  }

  /**
   * The last fragment of one message is lost. The next message arrives in full, but its first
   * fragment meets another number and is discarded with the unfinished message.
   */
  lemma LostLastFragmentSpoilsNextMessage(n1: u16, n2: u16)
    requires n1 != n2
    ensures FedAll(EMPTY, [Fragments(0, n1, Long(7))[0]] + Fragments(0, n2, Long(9)), 4096).1 == [Message(n2, [9])]
  {
    var first, second := Fragments(0, n1, Long(7))[0], Fragments(0, n2, Long(9));
    FirstFragment(EMPTY, n1, [], Long(7), 4096);
    var next := Fed(EMPTY, first, 4096).0;
    FedPending(EMPTY, first, second, next, 4096);
    FirstFragmentDiscarded(next, n2, Long(9), 4096);
    assert Long(9)[MAX_PAYLOAD_LEN..] == [9];
  }
}
