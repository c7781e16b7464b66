/**
  The monitor script: one servo table of N_CHAN zeros, one alignment, then
  the capture loop, which reads a 16-byte packet, decodes its 7 entries into
  the table and forwards the packet unchanged on the transmit line.
*/
module Monitor {
  import opened Wrappers
  import opened ChannelDecoder
  import opened ServoTable
  import opened SerialLink
  import FrameAligner

  /** The table after applying every 16-byte packet of `stream`, oldest first. */
  function ApplyStream(table: seq<int>, stream: seq<byte>): (r: seq<int>)
    requires |table| == N_CHAN && |stream| % PACKET_SIZE == 0
    ensures |r| == |table|
    decreases |stream|
  {
    if stream == [] then table
    else
      var n := |stream| - PACKET_SIZE;
      var before := ApplyStream(table, stream[..n]);
      DecodeFitsTable(|before|, stream[n..]);
      Apply(before, DecodePacket(stream[n..]))
  }

  lemma DecodeFitsTable(n: nat, packet: seq<byte>)
    requires |packet| == PACKET_SIZE && n >= MAX_CH_ID + 1
    ensures FitsTable(n, DecodePacket(packet))
  {
  }

  /** Reading one more packet applies one more packet. */
  lemma ApplyStreamSnoc(table: seq<int>, stream: seq<byte>, packet: seq<byte>)
    requires |table| == N_CHAN && |stream| % PACKET_SIZE == 0 && |packet| == PACKET_SIZE
    ensures ApplyStream(table, stream + packet) == Apply(ApplyStream(table, stream), DecodePacket(packet))
  {
    var s := stream + packet;
    assert s[..|s| - PACKET_SIZE] == stream && s[|s| - PACKET_SIZE..] == packet;
  }

  lemma SliceSplit(s: seq<byte>, a: nat, b: nat, c: nat)
    requires a <= b <= c <= |s|
    ensures s[a..c] == s[a..b] + s[b..c]
  {
  }

  lemma NextMultiple(n: nat)
    requires n % PACKET_SIZE == 0
    ensures (n + PACKET_SIZE) % PACKET_SIZE == 0
  {
  }

  lemma ConcatAssoc(a: seq<byte>, b: seq<byte>, c: seq<byte>)
    ensures (a + b) + c == a + (b + c)
  {
  }

  /** The entries of every packet of `stream`, in the order they are decoded. */
  function StreamEntries(stream: seq<byte>): (es: seq<Entry>)
    requires |stream| % PACKET_SIZE == 0
    ensures |es| == |stream| / PACKET_SIZE * ENTRIES_PER_PACKET
    ensures forall i :: 0 <= i < |es| ==> ValidEntry(es[i])
    decreases |stream|
  {
    if stream == [] then []
    else
      var n := |stream| - PACKET_SIZE;
      StreamEntries(stream[..n]) + DecodePacket(stream[n..])
  }

  /** Applying entries in two runs is applying them in one. */
  lemma {:induction false} ApplyConcat(table: seq<int>, a: seq<Entry>, b: seq<Entry>)
    requires FitsTable(|table|, a) && FitsTable(|table|, b)
    ensures FitsTable(|table|, a + b)
    ensures Apply(table, a + b) == Apply(Apply(table, a), b)
  {
    if b == [] {
      assert a + b == a;
    } else {
      var init := b[..|b| - 1];
      assert (a + b)[..|a + b| - 1] == a + init;
      assert (a + b)[|a + b| - 1] == b[|b| - 1];
      assert FitsTable(|table|, init);
      ApplyConcat(table, a, init);
      var last := b[|b| - 1];
      calc {
        Apply(table, a + b);
        Apply(table, a + init)[last.id as int := last.pos as int];
        Apply(Apply(table, a), init)[last.id as int := last.pos as int];
        Apply(Apply(table, a), b);
      }
    }
  }

  /**
    Packet by packet is entry by entry: the table after a run of packets is
    the table after all their entries, so across packets too the last
    write to a slot wins (ApplyLastWriteWins, ApplyUntouched).
  */
  lemma {:induction false} ApplyStreamIsApplyEntries(table: seq<int>, stream: seq<byte>)
    requires |table| == N_CHAN && |stream| % PACKET_SIZE == 0
    ensures FitsTable(|table|, StreamEntries(stream))
    ensures ApplyStream(table, stream) == Apply(table, StreamEntries(stream))
    decreases |stream|
  {
    if stream != [] {
      var n := |stream| - PACKET_SIZE;
      ApplyStreamIsApplyEntries(table, stream[..n]);
      DecodeFitsTable(|table|, stream[n..]);
      ApplyConcat(table, StreamEntries(stream[..n]), DecodePacket(stream[n..]));
    }
  }

  /**
    One turn of the capture loop: data_buf = ser.read(16), decode it into
    the table, ser.write(data_buf). It fails only when the stream ends
    inside the packet, where the script's read would block.
  */
  method CapturePacket(port: SerialPort, table: array<int>) returns (ok: bool)
    requires port.Valid() && table.Length == N_CHAN
    modifies port`position, port`outgoing, table
    ensures port.Valid()
    ensures ok == (old(port.position) + PACKET_SIZE <= |port.incoming|)
    ensures ok ==>
      var packet := port.incoming[old(port.position)..old(port.position) + PACKET_SIZE];
      && port.position == old(port.position) + PACKET_SIZE
      && port.outgoing == old(port.outgoing) + packet
      && table[..] == Apply(old(table[..]), DecodePacket(packet))
    ensures !ok ==> port.position == |port.incoming| && port.outgoing == old(port.outgoing) && table[..] == old(table[..])
  {
    var dataBuf := port.Read(PACKET_SIZE);
    if dataBuf.None? {
      return false;
    }
    var packet := dataBuf.value;
    ApplyPacket(table, packet);
    port.Write(packet);
    ok := true;
  }

  /**
    After n bytes of `incoming` from `start` on have been captured: they are
    whole packets, they were forwarded unchanged after `out0`, and the
    table is `t0` with them applied.
  */
  ghost predicate Captured(incoming: seq<byte>, start: nat, n: nat,
                           outgoing: seq<byte>, out0: seq<byte>, table: seq<int>, t0: seq<int>)
  {
    && start + n <= |incoming| && n % PACKET_SIZE == 0 && |t0| == N_CHAN
    && outgoing == out0 + incoming[start..start + n]
    && table == ApplyStream(t0, incoming[start..start + n])
  }

  /** Capturing one more packet keeps Captured, 16 bytes further on. */
  lemma CaptureStep(incoming: seq<byte>, start: nat, n: nat, t0: seq<int>, t1: seq<int>, t2: seq<int>,
                    out0: seq<byte>, out1: seq<byte>, out2: seq<byte>)
    requires Captured(incoming, start, n, out1, out0, t1, t0)
    requires start + n + PACKET_SIZE <= |incoming|
    requires t2 == Apply(t1, DecodePacket(incoming[start + n..start + n + PACKET_SIZE]))
    requires out2 == out1 + incoming[start + n..start + n + PACKET_SIZE]
    ensures Captured(incoming, start, n + PACKET_SIZE, out2, out0, t2, t0)
  {
    var consumed := incoming[start..start + n];
    var packet := incoming[start + n..start + n + PACKET_SIZE];
    SliceSplit(incoming, start, start + n, start + n + PACKET_SIZE);
    assert incoming[start..start + n + PACKET_SIZE] == consumed + packet;
    NextMultiple(n);
    ApplyStreamSnoc(t0, consumed, packet);
    assert t2 == ApplyStream(t0, consumed + packet);
    ConcatAssoc(out0, consumed, packet);
    assert out2 == out0 + (consumed + packet);
  }

  /**
    The capture loop, for at most maxPackets packets (the script loops for
    ever). It stops early only when the stream ends inside a packet.
  */
  method CaptureLoop(port: SerialPort, table: array<int>, maxPackets: nat) returns (count: nat)
    requires port.Valid() && table.Length == N_CHAN
    modifies port`position, port`outgoing, table
    ensures port.Valid()
    ensures count <= maxPackets
    ensures count < maxPackets ==>
      old(port.position) + PACKET_SIZE * (count + 1) > |port.incoming| && port.position == |port.incoming|
    ensures count == maxPackets ==> port.position == old(port.position) + PACKET_SIZE * count
    // forwarding: what goes out is exactly what came in, packet for packet
    ensures Captured(port.incoming, old(port.position), PACKET_SIZE * count,
                     port.outgoing, old(port.outgoing), table[..], old(table[..]))
  {
    ghost var start := port.position;
    ghost var out0 := port.outgoing;
    ghost var t0 := table[..];
    ghost var n := 0;
    count := 0;
    assert port.incoming[start..start] == [];
    while count < maxPackets
      invariant port.Valid() && count <= maxPackets && n == PACKET_SIZE * count
      invariant port.position == start + n
      invariant Captured(port.incoming, start, n, port.outgoing, out0, table[..], t0)
    {
      ghost var out1 := port.outgoing;
      ghost var t1 := table[..];
      var ok := CapturePacket(port, table);
      if !ok {
        break;
      }
      CaptureStep(port.incoming, start, n, t0, t1, table[..], out0, out1, port.outgoing);
      n := n + PACKET_SIZE;
      count := count + 1;
    }
  }

  /**
    The whole script, on a receiver that sends `incoming` with read times
    `gaps`: align with the 5 ms threshold, then run the capture loop on a
    fresh table. When alignment never completes nothing is captured.
  */
  method Run(incoming: seq<bv8>, gaps: seq<int>, maxPackets: nat)
    returns (port: SerialPort, table: array<int>, aligned: bool, count: nat)
    requires |gaps| == |incoming|
    ensures fresh(port) && fresh(table) && port.Valid() && table.Length == N_CHAN
    ensures port.incoming == incoming && port.gaps == gaps
    ensures aligned == FrameAligner.AlignedPosition(gaps, 0, FrameAligner.DT_THRESHOLD_US).Some?
    ensures !aligned ==> count == 0 && port.outgoing == [] && table[..] == seq(N_CHAN, _ => 0)
    ensures aligned ==>
      var p := FrameAligner.AlignedPosition(gaps, 0, FrameAligner.DT_THRESHOLD_US).value;
      && count <= maxPackets
      && (count < maxPackets ==> p + PACKET_SIZE * (count + 1) > |incoming|)
      && Captured(incoming, p, PACKET_SIZE * count, port.outgoing, [], table[..], seq(N_CHAN, _ => 0))
  {
    port := new SerialPort(incoming, gaps);
    table := NewServoTable();
    assert table[..] == seq(N_CHAN, _ => 0);
    aligned := FrameAligner.AlignSerial(port, FrameAligner.DT_THRESHOLD_US);
    count := 0;
    if aligned {
      count := CaptureLoop(port, table, maxPackets);
    }
  }
}
