# Spektrum remote receiver monitor: a verified model

The monitor runs on a Raspberry Pi. It reads a Spektrum Remote Receiver
("satellite") over the UART, keeps the latest servo position of every
channel in an 18-slot table, and forwards each packet unchanged on the
transmit line. A packet is 16 bytes: a 2-byte header, which the monitor
never decodes, and then 7 two-byte channel entries. In an entry `(b0, b1)`:

- bits 3–6 of `b0` are the channel id;
- the low 3 bits of `b0`, followed by `b1`, are an 11-bit servo position;
- bit 7 of `b0` is unused.

The monitor ignores header contents when it lines its reads up with packet
boundaries. Instead it times single-byte reads. Inside a packet a read
returns almost at once; the read of a packet's first byte waits out the
idle gap of about 9.89 ms.

The model has these modules:

- `Wrappers`: an `Option` type.
- `ChannelDecoder`: the entry decoder, the decoding of a 16-byte packet, and the encoder the decoder is checked against.
- `ServoTable`: the table-update function `Apply` and its laws, plus the in-place update of an `array<int>` for one packet.
- `SerialLink`: a `SerialPort` class. Its receive side is a finite byte stream, where each byte carries how long its single-byte read blocks. Its transmit side collects what is written.
- `FrameAligner`: `align_serial`, as a `while` loop over that port.
- `Monitor`: the capture loop and the whole script.

Bytes are `bv8`. An entry holds its id as a `bv8` and its position as a
`bv16`. `ParseMeaning` gives both as integers.

The bytes `0x28 0x01` decode to channel 5 at position 1 (main.py:73-75);
position 257 on channel 5 needs `0x29 0x01`. `ChannelDecoder.SampleEntries`
states both decodings, and `ChannelDecoder.ExamplePacket` decodes a whole
packet that carries the first.

## Model

| member | source | states |
|---|---|---|
| ChannelDecoder.ParseChannelData | main.py:58-76 | parse_channel_data: the id (bits 3-6 of b0, via mask 0x78 and shift 3) is at most 15, and the position (the low 3 bits of b0, via mask 0x07, above the 8 bits of b1) is at most 2047 |
| ChannelDecoder.ParseValid | main.py:73-75 | every decoded entry has id in [0, 15] and position in [0, 2047] as integers |
| ChannelDecoder.ParseMeaning | main.py:73-75 | id = (b0 div 8) mod 16, position = (b0 mod 8) * 256 + b1: the arithmetic meaning of the masks and shifts |
| ChannelDecoder.DecodeEncode | main.py:73-76 | for id ≤ 15 and position ≤ 2047, the bytes id·8 + pos div 256 and pos mod 256 decode back to exactly (id, position) |
| ChannelDecoder.EncodeDecode | main.py:73-76 | re-encoding a decoded entry returns its two bytes, with bit 7 of b0 cleared: the decoder loses nothing else |
| ChannelDecoder.FlagBitIgnored | main.py:58-60 | flipping, setting or clearing bit 7 of b0 leaves id and position unchanged |
| ChannelDecoder.ParseInjective | main.py:73-75 | two byte pairs decode to the same entry if and only if they agree on every bit except bit 7 of b0 |
| ChannelDecoder.DecodeEntries | main.py:92-93 | a run of byte pairs decodes to one entry per pair, entry i coming from bytes 2i and 2i+1 |
| ChannelDecoder.DecodePacket | main.py:90-93 | a 16-byte packet yields exactly 7 entries, entry i from bytes 2+2i and 3+2i, each with id ≤ 15 and position ≤ 2047 |
| ChannelDecoder.HeaderIgnored | main.py:90-91 | packets that differ only in header bytes 0 and 1 decode alike |
| ChannelDecoder.EntryAgreement | main.py:91-93 | entry i of two packets agrees if and only if bytes 2+2i (bit 7 aside) and 3+2i agree |
| ChannelDecoder.PayloadDeterminesDecode | main.py:90-93 | two packets decode alike if and only if bytes 2..15 agree, bit 7 of each entry's first byte aside: every payload byte is consumed |
| ChannelDecoder.ExamplePacket | main.py:90-94 | a concrete packet decodes to channels 0..6 at positions 100, 50, 150, 0, 255, 1, 127 |
| ChannelDecoder.SampleEntries | main.py:73-75 | `0x28 0x01` decodes to channel 5 at position 1, and `0x29 0x01` to channel 5 at position 257 |
| ServoTable.Apply | main.py:92-94 | writing the entries' positions at their ids, in order, keeps the table's length |
| ServoTable.ApplyUntouched | main.py:92-94 | a slot that no entry names keeps its previous value |
| ServoTable.ApplyLastWriteWins | main.py:92-94 | a slot holds the position of the last entry naming it |
| ServoTable.ApplyForgetsWritten | main.py:92-94 | a slot named by some entry ends up independent of the table's earlier contents |
| ServoTable.ApplyIdempotent | main.py:92-94 | applying the same entries twice gives the table that applying them once gives |
| ServoTable.NewServoTable | main.py:84-86 | a fresh table of N_CHAN = 18 slots, all zero |
| ServoTable.ApplyPacket | main.py:90-94 | the loop over 7 entries updates the 18-slot array in place, with every write in bounds, to exactly `Apply(old table, DecodePacket(packet))` |
| SerialLink.SerialPort.constructor | main.py:79-83 | an opened port: nothing read, nothing written |
| SerialLink.SerialPort.Read | main.py:46-55 | ser.read(n), here `ser.read(1)` at line 46 and `ser.read(15)` at line 55, and likewise `ser.read(16)` at main.py:90, returns the next n bytes and advances by n; a stream that ends first leaves the read unfinished (None) |
| SerialLink.SerialPort.TimedRead | main.py:51-53 | a timed single-byte read returns the next byte and how long its read blocked, advancing by one |
| SerialLink.SerialPort.Write | main.py:99 | ser.write(data) appends data to the transmit line unchanged |
| FrameAligner.FirstLongGap | main.py:50-53 | the first index from `from` on whose read blocked at least the threshold, with every read before it shorter; None when there is none |
| FrameAligner.AlignedPosition | main.py:46-55 | the aligner started at `start` stops at k + 16, where k > start is the first long gap after the untimed byte; every read between them was short |
| FrameAligner.AlignSerial | main.py:43-55 | align_serial consumes one untimed byte, reads until the first dt ≥ threshold (the exit is `>=`), then consumes 15 bytes: the port ends at exactly AlignedPosition, or the stream runs out |
| FrameAligner.AlignmentLocksOn | main.py:22-26 | against a receiver whose idle gaps fall every 16 bytes, the aligner stops on a packet start, and every later 16-byte read starts right after an idle gap with no other inside it |
| Monitor.ApplyStream | main.py:89-94 | the table after applying a run of whole packets, oldest first, keeps its length |
| Monitor.ApplyStreamSnoc | main.py:89-94 | one more packet read applies one more packet's entries |
| Monitor.StreamEntries | main.py:89-93 | a run of p packets carries 7p entries, each valid |
| Monitor.ApplyConcat | main.py:92-94 | applying entries in two runs is applying them in one |
| Monitor.ApplyStreamIsApplyEntries | main.py:89-94 | packet by packet is entry by entry, so the last write to a slot wins across packets too |
| Monitor.CapturePacket | main.py:90-99 | one turn of the loop reads 16 bytes, applies their 7 entries to the table and writes the same 16 bytes out; it fails only when the stream ends inside the packet, and then changes neither the table nor the output |
| Monitor.CaptureStep | main.py:89-99 | capturing one more packet extends what was captured: output and table stay those of the bytes read so far |
| Monitor.CaptureLoop | main.py:89-99 | after `count` packets the port is 16·count bytes on; the output is exactly the bytes read, and the table is the start table with those packets applied; it stops early only when the stream cannot supply the next packet |
| Monitor.Run | main.py:84-99 | the script: a zero table, alignment with the 5000 µs threshold, then capture from the aligned position; when alignment fails nothing is captured or written |

## Left out

- Port setup: the `serial.Serial` construction and its settings (main.py:79-83) are pyserial I/O. The port is a finite byte stream with known per-byte read times.
- Closing the port: `ser.close` (main.py:101, 104) is I/O too.
- Clock: `time.time()` and the floating-point `dt` and `dt_threshold` (main.py:47-53) are wall clock and float. Each byte carries an integer read time in microseconds, and the threshold 0.005 s becomes 5000 µs.
- FrameAligner.AlignSerial: requires a positive threshold. That is the only case the script uses; with a threshold of 0 or less its loop, which starts at dt = 0, would time no byte at all.
- Blocking reads: a read on a stream that has ended blocks for ever in the script. The model's finite stream answers `None` or `false` and leaves the port exhausted.
- Monitor.CaptureLoop: the endless `while True` (main.py:89) is bounded by a `maxPackets` parameter, and the loop also stops where the stream ends.
- Console output: the `print` calls and the `sys.stdout.write` display of the first six slots (main.py:78, 95-98, 103).
- Exceptions: the `KeyboardInterrupt`, `SystemExit` and other exception handlers (main.py:100-104) are process lifecycle.
- Python 2 strings: `ord` on a 2-character string (main.py:73-75). The model takes bytes directly as `bv8`.
- Short reads: a `ser.read` that returns fewer bytes than asked for cannot happen with the script's blocking port settings, so slicing a short buffer is not modelled.
