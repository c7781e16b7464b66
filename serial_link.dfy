/**
  The serial port as the monitor sees it: a receive line whose bytes are
  known ahead of time together with how long a single-byte read of each one
  blocks, and a transmit line that collects what is written to it.

  Reads block until enough bytes arrive. The model's stream is finite, so a
  read that asks for more bytes than remain stands for a read that never
  returns: it answers None and leaves the port exhausted.
*/
module SerialLink {
  import opened Wrappers

  class SerialPort {
    /** Every byte the receiver sends, in order. */
    const incoming: seq<bv8>
    /** gaps[j]: how long, in microseconds, a single-byte read that returns byte j blocks. */
    const gaps: seq<int>
    /** How many incoming bytes have been read so far. */
    var position: nat
    /** Every byte written to the transmit line so far. */
    var outgoing: seq<bv8>

    ghost predicate Valid()
      reads this
    {
      |gaps| == |incoming| && position <= |incoming|
    }

    constructor (incoming: seq<bv8>, gaps: seq<int>)
      requires |gaps| == |incoming|
      ensures Valid()
      ensures this.incoming == incoming && this.gaps == gaps
      ensures position == 0 && outgoing == []
    {
      this.incoming := incoming;
      this.gaps := gaps;
      position := 0;
      outgoing := [];
    }

    /** ser.read(n): the next n bytes, or None when the stream ends first. */
    method Read(n: nat) returns (r: Option<seq<bv8>>)
      requires Valid()
      modifies this`position
      ensures Valid()
      ensures old(position) + n <= |incoming| ==>
        r == Some(incoming[old(position)..old(position) + n]) && position == old(position) + n
      ensures old(position) + n > |incoming| ==> r == None && position == |incoming|
    {
      if position + n <= |incoming| {
        r := Some(incoming[position..position + n]);
        position := position + n;
      } else {
        r := None;
        position := |incoming|;
      }
    }

    /**
      start = time.time(); ser.read(); dt = time.time() - start:
      the next byte and how long its read blocked, or None when the stream has ended.
    */
    method TimedRead() returns (r: Option<(bv8, int)>)
      requires Valid()
      modifies this`position
      ensures Valid()
      ensures old(position) < |incoming| ==>
        r == Some((incoming[old(position)], gaps[old(position)])) && position == old(position) + 1
      ensures old(position) == |incoming| ==> r == None && position == old(position)
    {
      if position < |incoming| {
        r := Some((incoming[position], gaps[position]));
        position := position + 1;
      } else {
        r := None;
      }
    }

    /** ser.write(data): data goes out on the transmit line unchanged. */
    method Write(data: seq<bv8>)
      modifies this`outgoing
      ensures outgoing == old(outgoing) + data
    {
      outgoing := outgoing + data;
    }
  }
}
