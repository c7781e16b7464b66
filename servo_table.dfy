/**
  The servo position table: one slot per channel id, holding the position most
  recently decoded for that channel. Each packet overwrites, in order, the slot
  of every entry it carries.
*/
module ServoTable {
  import opened ChannelDecoder

  /** Capacity of the table; every id an entry can carry (0..15) is below it. */
  const N_CHAN: nat := 18

  /** Every entry names a slot of a table of length n. */
  predicate FitsTable(n: nat, es: seq<Entry>) {
    forall i :: 0 <= i < |es| ==> es[i].id as int < n
  }

  /** The table after writing each entry's position at its id, first entry first. */
  function Apply(table: seq<int>, es: seq<Entry>): (r: seq<int>)
    requires FitsTable(|table|, es)
    ensures |r| == |table|
  {
    if es == [] then table
    else
      var last := es[|es| - 1];
      Apply(table, es[..|es| - 1])[last.id as int := last.pos as int]
  }

  /** A slot that no entry names keeps its previous value. */
  lemma {:induction false} ApplyUntouched(table: seq<int>, es: seq<Entry>, c: nat)
    requires FitsTable(|table|, es) && c < |table|
    requires forall j :: 0 <= j < |es| ==> es[j].id as int != c
    ensures Apply(table, es)[c] == table[c]
  {
    if es != [] {
      ApplyUntouched(table, es[..|es| - 1], c);
    }
  }

  /** A slot named by entry j, and by no later entry, holds entry j's position: the last write wins. */
  lemma {:induction false} ApplyLastWriteWins(table: seq<int>, es: seq<Entry>, j: nat)
    requires FitsTable(|table|, es) && j < |es|
    requires forall k :: j < k < |es| ==> es[k].id as int != es[j].id as int
    ensures Apply(table, es)[es[j].id as int] == es[j].pos as int
  {
    var init := es[..|es| - 1];
    var last := es[|es| - 1];
    var c := es[j].id as int;
    assert Apply(table, es) == Apply(table, init)[last.id as int := last.pos as int];
    if j < |es| - 1 {
      assert init[j] == es[j];
      assert last.id as int != c;
      ApplyLastWriteWins(table, init, j);
    }
  }

  /** Once an entry names a slot, the slot's final value does not depend on the starting table. */
  lemma {:induction false} ApplyForgetsWritten(t1: seq<int>, t2: seq<int>, es: seq<Entry>, j: nat)
    requires |t1| == |t2| && FitsTable(|t1|, es) && j < |es|
    ensures Apply(t1, es)[es[j].id as int] == Apply(t2, es)[es[j].id as int]
  {
    var last := es[|es| - 1];
    if last.id as int != es[j].id as int {
      var init := es[..|es| - 1];
      assert init[j] == es[j];
      ApplyForgetsWritten(t1, t2, init, j);
    }
  }

  /** Applying the same entries twice leaves the table as applying them once. */
  lemma ApplyIdempotent(table: seq<int>, es: seq<Entry>)
    requires FitsTable(|table|, es)
    ensures Apply(Apply(table, es), es) == Apply(table, es)
  {
    var once := Apply(table, es);
    var twice := Apply(once, es);
    forall c | 0 <= c < |table|
      ensures twice[c] == once[c]
    {
      if j :| 0 <= j < |es| && es[j].id as int == c {
        ApplyForgetsWritten(once, table, es, j);
      } else {
        ApplyUntouched(once, es, c);
      }
    }
  }

  /** servo_position = [0 for i in range(N_CHAN)]: a table of N_CHAN zeros. */
  method NewServoTable() returns (table: array<int>)
    ensures fresh(table) && table.Length == N_CHAN
    ensures forall c :: 0 <= c < N_CHAN ==> table[c] == 0
  {
    table := new int[N_CHAN](_ => 0);
  }

  /**
    The body of the capture loop: skip the 2 header bytes, decode the 7
    entries and write each position into the slot of its id.
  */
  method ApplyPacket(table: array<int>, packet: seq<byte>)
    requires table.Length == N_CHAN && |packet| == PACKET_SIZE
    modifies table
    ensures table[..] == Apply(old(table[..]), DecodePacket(packet))
  {
    ghost var es := DecodePacket(packet);
    var data := packet[HEADER_SIZE..];
    for i := 0 to ENTRIES_PER_PACKET
      invariant table[..] == Apply(old(table[..]), es[..i])
    {
      var e := ParseChannelData(data[2 * i], data[2 * i + 1]);
      assert e == es[i];
      table[e.id as int] := e.pos as int;
      assert es[..i + 1][..i] == es[..i];
    }
    assert es[..ENTRIES_PER_PACKET] == es;
  }
}
