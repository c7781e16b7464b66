/**
  align_serial: lines reads up with packet boundaries using only timing.
  Packets come every 11 ms and take about 1.11 ms to send, so inside a packet
  a single-byte read returns almost at once, while the read of a packet's
  first byte waits out the idle gap. The aligner discards one byte, reads
  single bytes until one read blocks for at least the threshold, and discards
  the 15 bytes that follow: the next read then begins on a packet.
*/
module FrameAligner {
  import opened Wrappers
  import opened SerialLink
  import opened ChannelDecoder

  /** dt_threshold = 0.005 s, between the 8.69 us bit time and the 9.89 ms idle gap. */
  const DT_THRESHOLD_US: int := 5000
  /** Bytes of a packet left after its first byte. */
  const REST_OF_PACKET: nat := 15

  /** The first index from `from` on whose read blocked for at least the threshold. */
  function FirstLongGap(gaps: seq<int>, from: nat, threshold: int): (r: Option<nat>)
    decreases |gaps| - from
    ensures r.Some? ==> from <= r.value < |gaps| && gaps[r.value] >= threshold
    ensures r.Some? ==> forall j :: from <= j < r.value ==> gaps[j] < threshold
    ensures r.None? ==> forall j :: from <= j < |gaps| ==> gaps[j] < threshold
  {
    if from >= |gaps| then None
    else if gaps[from] >= threshold then Some(from)
    else FirstLongGap(gaps, from + 1, threshold)
  }

  /**
    Where the stream stands once an aligner started at `start` is done:
    k + 16 for the first long gap k after the untimed byte at `start`,
    provided the 15 bytes after byte k arrive.
  */
  function AlignedPosition(gaps: seq<int>, start: nat, threshold: int): (r: Option<nat>)
    ensures r.Some? ==> start + PACKET_SIZE < r.value <= |gaps|
    ensures r.Some? ==> gaps[r.value - PACKET_SIZE] >= threshold
    ensures r.Some? ==> forall j :: start < j < r.value - PACKET_SIZE ==> gaps[j] < threshold
    ensures r.None? ==> forall j :: start < j < |gaps| - REST_OF_PACKET ==> gaps[j] < threshold
  {
    match FirstLongGap(gaps, start + 1, threshold)
    case None => None
    case Some(k) => if k + PACKET_SIZE <= |gaps| then Some(k + PACKET_SIZE) else None
  }

  /**
    align_serial. The loop starts from dt = 0, so with a positive threshold
    at least one byte is timed; it exits on the first dt >= threshold.
  */
  method AlignSerial(port: SerialPort, threshold: int) returns (aligned: bool)
    requires port.Valid() && threshold > 0
    modifies port`position
    ensures port.Valid()
    ensures aligned == AlignedPosition(port.gaps, old(port.position), threshold).Some?
    ensures aligned ==> port.position == AlignedPosition(port.gaps, old(port.position), threshold).value
    ensures !aligned ==> port.position == |port.incoming|
  {
    ghost var start := port.position;
    ghost var k := FirstLongGap(port.gaps, start + 1, threshold);
    // the first byte is read without timing it
    var first := port.Read(1);
    if first.None? {
      return false;
    }
    var dt := 0;
    while dt < threshold
      invariant port.Valid() && start < port.position <= |port.incoming|
      invariant dt < threshold ==> forall j :: start < j < port.position ==> port.gaps[j] < threshold
      invariant dt >= threshold ==> k == Some(port.position - 1)
      decreases |port.incoming| - port.position, if dt < threshold then 1 else 0
    {
      var rd := port.TimedRead();
      if rd.None? {
        return false;
      }
      dt := rd.value.1;
    }
    // consume the rest of the packet
    var rest := port.Read(REST_OF_PACKET);
    aligned := rest.Some?;
  }

  /**
    A receiver that keeps to its cadence: exactly the reads of bytes at
    indices congruent to `phase` modulo 16 wait out an idle gap.
  */
  ghost predicate SteadyCadence(gaps: seq<int>, threshold: int, phase: nat) {
    phase < PACKET_SIZE &&
    forall j :: 0 <= j < |gaps| ==> (gaps[j] >= threshold <==> j % PACKET_SIZE == phase)
  }

  /** A 16-byte read starting at i begins after an idle gap and contains no other. */
  ghost predicate StartsPacket(gaps: seq<int>, threshold: int, i: nat) {
    (i < |gaps| ==> gaps[i] >= threshold) &&
    forall j :: i < j < i + PACKET_SIZE && j < |gaps| ==> gaps[j] < threshold
  }

  lemma SameResidue(i: int, p: int, phase: int)
    requires 0 <= phase < PACKET_SIZE && p % PACKET_SIZE == phase && (i - p) % PACKET_SIZE == 0
    ensures i % PACKET_SIZE == phase
  {
  }

  lemma OtherResidue(i: int, j: int)
    requires i < j < i + PACKET_SIZE
    ensures j % PACKET_SIZE != i % PACKET_SIZE
  {
  }

  /**
    Against a receiver that keeps to its cadence the aligner locks on: it
    stops on a packet start, and every 16-byte read after it begins right
    after an idle gap.
  */
  lemma AlignmentLocksOn(gaps: seq<int>, start: nat, threshold: int, phase: nat)
    requires SteadyCadence(gaps, threshold, phase)
    requires AlignedPosition(gaps, start, threshold).Some?
    ensures AlignedPosition(gaps, start, threshold).value % PACKET_SIZE == phase
    ensures forall i :: AlignedPosition(gaps, start, threshold).value <= i
                     && (i - AlignedPosition(gaps, start, threshold).value) % PACKET_SIZE == 0
                     ==> StartsPacket(gaps, threshold, i)
  {
    var p := AlignedPosition(gaps, start, threshold).value;
    var k := p - PACKET_SIZE;
    assert gaps[k] >= threshold;
    assert p % PACKET_SIZE == phase;
    forall i | p <= i && (i - p) % PACKET_SIZE == 0
      ensures StartsPacket(gaps, threshold, i)
    {
      SameResidue(i, p, phase);
      forall j | i < j < i + PACKET_SIZE && j < |gaps|
        ensures gaps[j] < threshold
      {
        OtherResidue(i, j);
      }
    }
  }
}
