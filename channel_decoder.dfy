/**
  Decoding of Spektrum Remote Receiver ("satellite") packets.

  A packet is 16 bytes: a 2-byte header, which this decoder never looks at,
  followed by 7 channel entries of 2 bytes each. In an entry (b0, b1), bits 3-6
  of b0 are the channel id, and the low 3 bits of b0 followed by the 8 bits of
  b1 form an 11-bit servo position. Bit 7 of b0 is not used.
*/
module ChannelDecoder {

  type byte = bv8

  const MASK_CH_ID: byte := 0x78
  const SHIFT_CH_ID: bv8 := 3
  const MASK_SERVO_POS_HIGH: byte := 0x07

  /** Largest channel id an entry can carry, and largest servo position. */
  const MAX_CH_ID: nat := 15
  const MAX_SERVO_POS: nat := 2047

  const PACKET_SIZE: nat := 16
  const HEADER_SIZE: nat := 2
  const ENTRIES_PER_PACKET: nat := 7

  /** One decoded channel entry: a 4-bit channel id and an 11-bit servo position. */
  datatype Entry = Entry(id: bv8, pos: bv16)

  predicate ValidEntry(e: Entry) {
    e.id as int <= MAX_CH_ID && e.pos as int <= MAX_SERVO_POS
  }

  /** parse_channel_data: the channel id and servo position held by the two bytes of an entry. */
  function ParseChannelData(b0: byte, b1: byte): (e: Entry)
    ensures e.id <= 15 && e.pos <= 2047
  {
    var id := (b0 & MASK_CH_ID) >> SHIFT_CH_ID;
    var pos := (((b0 & MASK_SERVO_POS_HIGH) as bv16) << 8) | (b1 as bv16);
    Entry(id, pos)
  }

  lemma SmallId(x: bv8)
    requires x <= 15
    ensures x as int <= 15
  {
  }

  lemma SmallPosition(x: bv16)
    requires x <= 2047
    ensures x as int <= 2047
  {
  }

  /** Every decoded entry is valid: its id is in [0, 15] and its position in [0, 2047]. */
  lemma ParseValid(b0: byte, b1: byte)
    ensures ValidEntry(ParseChannelData(b0, b1))
  {
    var e := ParseChannelData(b0, b1);
    SmallId(e.id);
    SmallPosition(e.pos);
  }

  /**
    The arithmetic meaning of the masks: the id is bits 3..6 of b0, and the
    position is the low 3 bits of b0 followed by the 8 bits of b1.
  */
  lemma ParseMeaning(b0: byte, b1: byte)
    ensures ParseChannelData(b0, b1).id as int == (b0 as int / 8) % 16
    ensures ParseChannelData(b0, b1).pos as int == (b0 as int % 8) * 256 + b1 as int
  {
    IdBits(b0);
    PositionBits(b0, b1);
  }

  // Bit-level facts behind ParseMeaning, each small enough for the solver alone.

  lemma IdBits(b0: byte)
    ensures ((b0 & MASK_CH_ID) >> SHIFT_CH_ID) as int == (b0 as int / 8) % 16
  {
  }

  lemma PositionBits(b0: byte, b1: byte)
    ensures ((((b0 & MASK_SERVO_POS_HIGH) as bv16) << 8) | (b1 as bv16)) as int
         == (b0 as int % 8) * 256 + b1 as int
  {
    ShiftOrIsSum(b0, b1);
    LowThreeBits(b0);
    Widen(b0 & MASK_SERVO_POS_HIGH);
    Widen(b1);
    SumValue((b0 & MASK_SERVO_POS_HIGH) as bv16, b1 as bv16);
  }

  lemma ShiftOrIsSum(b0: byte, b1: byte)
    ensures (((b0 & MASK_SERVO_POS_HIGH) as bv16) << 8) | (b1 as bv16)
         == ((b0 & MASK_SERVO_POS_HIGH) as bv16) * 256 + b1 as bv16
    ensures (b0 & MASK_SERVO_POS_HIGH) as bv16 <= 7
  {
  }

  lemma LowThreeBits(x: byte)
    ensures (x & MASK_SERVO_POS_HIGH) as int == x as int % 8
  {
  }

  lemma Widen(x: byte)
    ensures x as bv16 as int == x as int && x as bv16 <= 255
  {
  }

  lemma SumValue(x: bv16, y: bv16)
    requires x <= 7 && y <= 255
    ensures (x * 256 + y) as int == x as int * 256 + y as int
  {
  }

  /**
    The encoding of an entry: b0 = (id << 3) | (pos >> 8), b1 = pos & 0xFF,
    for an id of at most 4 bits and a position of at most 11. It is the
    inverse that the decoder is checked against.
  */
  function Encode(e: Entry): (bytes: (byte, byte))
    requires e.id <= 15 && e.pos <= 2047
    ensures bytes.0 & 0x80 == 0
  {
    ((e.id << 3) | ((e.pos >> 8) as byte), (e.pos & 0xFF) as byte)
  }

  /** Decoding an encoded entry gives the entry back. */
  lemma DecodeEncode(e: Entry)
    requires e.id <= 15 && e.pos <= 2047
    ensures ParseChannelData(Encode(e).0, Encode(e).1) == e
  {
  }

  /** Encoding a decoded entry gives its bytes back, except for bit 7 of b0. */
  lemma EncodeDecode(b0: byte, b1: byte)
    ensures Encode(ParseChannelData(b0, b1)) == (b0 & 0x7F, b1)
  {
  }

  /** Bit 7 of the first byte affects neither the id nor the position. */
  lemma FlagBitIgnored(b0: byte, b1: byte)
    ensures ParseChannelData(b0 ^ 0x80, b1) == ParseChannelData(b0, b1)
    ensures ParseChannelData(b0 | 0x80, b1) == ParseChannelData(b0 & 0x7F, b1)
  {
  }

  /** Two entries decode alike exactly when they agree on every bit but bit 7 of b0. */
  lemma ParseInjective(b0: byte, b1: byte, c0: byte, c1: byte)
    ensures ParseChannelData(b0, b1) == ParseChannelData(c0, c1)
        <==> (b0 & 0x7F == c0 & 0x7F && b1 == c1)
  {
    EncodeDecode(b0, b1);
    EncodeDecode(c0, c1);
    if b0 & 0x7F == c0 & 0x7F && b1 == c1 {
      FlagBitIgnored(b0, b1);
      FlagBitIgnored(c0, c1);
    }
  }

  /** Decodes consecutive byte pairs of a channel payload. */
  function DecodeEntries(payload: seq<byte>): (es: seq<Entry>)
    requires |payload| % 2 == 0
    ensures |es| == |payload| / 2
    ensures forall i :: 0 <= i < |es| ==> es[i] == ParseChannelData(payload[2 * i], payload[2 * i + 1])
  {
    if payload == [] then []
    else [ParseChannelData(payload[0], payload[1])] + DecodeEntries(payload[2..])
  }

  /** The 7 entries of a 16-byte packet, taken from bytes (2 + 2i, 3 + 2i). */
  function DecodePacket(packet: seq<byte>): (es: seq<Entry>)
    requires |packet| == PACKET_SIZE
    ensures |es| == ENTRIES_PER_PACKET
    ensures forall i :: 0 <= i < |es| ==> es[i] == ParseChannelData(packet[2 + 2 * i], packet[3 + 2 * i])
    ensures forall i :: 0 <= i < |es| ==> es[i].id <= 15 && es[i].pos <= 2047
  {
    var es := DecodeEntries(packet[HEADER_SIZE..]);
    assert forall i :: 0 <= i < |es| ==> packet[HEADER_SIZE..][2 * i] == packet[2 + 2 * i];
    es
  }

  /** The header bytes 0 and 1 are never decoded. */
  lemma HeaderIgnored(p: seq<byte>, q: seq<byte>)
    requires |p| == PACKET_SIZE && |q| == PACKET_SIZE
    requires p[HEADER_SIZE..] == q[HEADER_SIZE..]
    ensures DecodePacket(p) == DecodePacket(q)
  {
    forall i | 0 <= i < ENTRIES_PER_PACKET
      ensures DecodePacket(p)[i] == DecodePacket(q)[i]
    {
      assert p[2 + 2 * i] == p[HEADER_SIZE..][2 * i] == q[HEADER_SIZE..][2 * i] == q[2 + 2 * i];
      assert p[3 + 2 * i] == p[HEADER_SIZE..][2 * i + 1] == q[HEADER_SIZE..][2 * i + 1] == q[3 + 2 * i];
    }
  }

  /** Packet bytes 2..15 agree, bit 7 of the first byte of each entry aside. */
  ghost predicate SamePayload(p: seq<byte>, q: seq<byte>)
    requires |p| == PACKET_SIZE && |q| == PACKET_SIZE
  {
    forall k :: HEADER_SIZE <= k < PACKET_SIZE ==>
      if k % 2 == 0 then p[k] & 0x7F == q[k] & 0x7F else p[k] == q[k]
  }

  /** Entry i of two packets agrees exactly when its two bytes agree outside the flag bit. */
  lemma EntryAgreement(p: seq<byte>, q: seq<byte>, i: nat)
    requires |p| == PACKET_SIZE && |q| == PACKET_SIZE && i < ENTRIES_PER_PACKET
    ensures DecodePacket(p)[i] == DecodePacket(q)[i]
        <==> (p[2 + 2 * i] & 0x7F == q[2 + 2 * i] & 0x7F && p[3 + 2 * i] == q[3 + 2 * i])
  {
    ParseInjective(p[2 + 2 * i], p[3 + 2 * i], q[2 + 2 * i], q[3 + 2 * i]);
  }

  /**
    Every payload byte is consumed: two packets decode alike exactly when
    their payloads agree outside the unused flag bits.
  */
  lemma PayloadDeterminesDecode(p: seq<byte>, q: seq<byte>)
    requires |p| == PACKET_SIZE && |q| == PACKET_SIZE
    ensures DecodePacket(p) == DecodePacket(q) <==> SamePayload(p, q)
  {
    if SamePayload(p, q) {
      forall i | 0 <= i < ENTRIES_PER_PACKET
        ensures DecodePacket(p)[i] == DecodePacket(q)[i]
      {
        assert HEADER_SIZE <= 2 + 2 * i < PACKET_SIZE && (2 + 2 * i) % 2 == 0;
        assert HEADER_SIZE <= 3 + 2 * i < PACKET_SIZE && (3 + 2 * i) % 2 == 1;
        EntryAgreement(p, q, i);
      }
    }
    if DecodePacket(p) == DecodePacket(q) {
      forall k | HEADER_SIZE <= k < PACKET_SIZE
        ensures if k % 2 == 0 then p[k] & 0x7F == q[k] & 0x7F else p[k] == q[k]
      {
        var i := (k - 2) / 2;
        assert k == 2 + 2 * i || k == 3 + 2 * i;
        EntryAgreement(p, q, i);
      }
    }
  }

  /** A literal packet: header 0x03 0xB2, then channels 0..6. */
  lemma ExamplePacket()
    ensures DecodePacket([0x03, 0xB2, 0x00, 0x64, 0x08, 0x32, 0x10, 0x96,
                          0x18, 0x00, 0x20, 0xFF, 0x28, 0x01, 0x30, 0x7F])
         == [Entry(0, 100), Entry(1, 50), Entry(2, 150), Entry(3, 0),
             Entry(4, 255), Entry(5, 1), Entry(6, 127)]
  {
    var p: seq<byte> := [0x03, 0xB2, 0x00, 0x64, 0x08, 0x32, 0x10, 0x96,
                         0x18, 0x00, 0x20, 0xFF, 0x28, 0x01, 0x30, 0x7F];
    var es := DecodePacket(p);
    assert es[0] == ParseChannelData(0x00, 0x64) == Entry(0, 100);
    assert es[1] == ParseChannelData(0x08, 0x32) == Entry(1, 50);
    assert es[2] == ParseChannelData(0x10, 0x96) == Entry(2, 150);
    assert es[3] == ParseChannelData(0x18, 0x00) == Entry(3, 0);
    assert es[4] == ParseChannelData(0x20, 0xFF) == Entry(4, 255);
    assert es[5] == ParseChannelData(0x28, 0x01) == Entry(5, 1);
    assert es[6] == ParseChannelData(0x30, 0x7F) == Entry(6, 127);
  }

  /** Entry 0x28 0x01 is channel 5 at position 1; channel 5 at position 257 is 0x29 0x01. */
  lemma SampleEntries()
    ensures ParseChannelData(0x28, 0x01) == Entry(5, 1)
    ensures ParseChannelData(0x29, 0x01) == Entry(5, 257)
  {
  }
}
