/**
 Base-128 varints as Go's encoding/binary reads them (Protocol Buffers Encoding,
 "Base 128 Varints"): seven bits a byte, least significant group first, at most 64 bits.
 */
module Varint {
  import opened Wrappers

  /** Uvarint's result: n bytes read, or the buffer ended too early, or the value exceeds 64 bits. */
  datatype Read = Done(value: nat, n: nat) | TooShort | Overflow

  /** Reads on when i bytes of the number have been consumed already. */
  function Uvarint(buf: seq<byte>, i: nat := 0): (r: Read)
    ensures r.Done? ==> 1 <= r.n <= |buf|
    decreases |buf|
  {
    if buf == [] then TooShort
    else if i == 10 then Overflow
    else if buf[0] < 0x80 then
      if i == 9 && buf[0] > 1 then Overflow else Done(buf[0], 1)
    else
      match Uvarint(buf[1..], i + 1)
      case Done(value, n) => Done(buf[0] - 0x80 + 128 * value, n + 1)
      case failure => failure
  }

  function PutUvarint(v: nat): (buf: seq<byte>)
    ensures buf != []
  {
    if v < 0x80 then [v] else [v % 128 + 0x80] + PutUvarint(v / 128)
  }

  /** The example of the encoding's documentation: 300 is AC 02, least significant group first. */
  lemma ThreeHundred()
    ensures PutUvarint(300) == [0xAC, 0x02] && Uvarint([0xAC, 0x02]) == Done(300, 2)
  {
    assert [0xAC, 0x02][1..] == [0x02];
  }

  /** The least number that does not fit into what is left of 64 bits after i bytes. */
  function Capacity(i: nat): nat
    requires i <= 9
    decreases 9 - i
  {
    if i == 9 then 2 else 128 * Capacity(i + 1)
  }

  lemma CapacityIs64Bits()
    ensures Capacity(0) == 0x1_0000_0000_0000_0000
  {
    assert Capacity(5) == 128 * 128 * 128 * 128 * 2;
    assert Capacity(0) == 128 * 128 * 128 * 128 * 128 * Capacity(5) by {
      assert Capacity(3) == 128 * 128 * Capacity(5);
    }
  }

  /** Reading what was written gives the number back and stops exactly at its end. */
  lemma {:induction false} ReadsWhatWasPut(v: nat, rest: seq<byte>, i: nat)
    requires i <= 9 && v < Capacity(i)
    ensures Uvarint(PutUvarint(v) + rest, i) == Done(v, |PutUvarint(v)|)
    decreases v
  {
    var buf := PutUvarint(v) + rest;
    if v < 0x80 {
    } else {
      assert buf[1..] == PutUvarint(v / 128) + rest;
      ReadsWhatWasPut(v / 128, rest, i + 1);
    }
  }

  /** A successful read stays within the buffer and does not depend on what follows. */
  lemma {:induction false} ReadIsLocal(buf: seq<byte>, more: seq<byte>, i: nat)
    requires Uvarint(buf, i).Done?
    ensures 1 <= Uvarint(buf, i).n <= |buf|
    ensures Uvarint(buf + more, i) == Uvarint(buf, i)
    decreases |buf|
  {
    if buf[0] < 0x80 {
    } else {
      assert (buf + more)[1..] == buf[1..] + more;
      ReadIsLocal(buf[1..], more, i + 1);
    }
  }

  /** The bytes read are all that the result depends on: what follows them can be cut off. */
  lemma {:induction false} ReadInPrefix(buf: seq<byte>, n: nat, i: nat)
    requires Uvarint(buf, i).Done? && Uvarint(buf, i).n <= n <= |buf|
    ensures Uvarint(buf[..n], i) == Uvarint(buf, i)
    decreases |buf|
  {
    if buf[0] < 0x80 {
    } else {
      ReadInPrefix(buf[1..], n - 1, i + 1);
      assert buf[..n][1..] == buf[1..][..n - 1];
    }
  }

  lemma {:induction false} ReadFits(buf: seq<byte>, i: nat)
    requires i <= 9 && Uvarint(buf, i).Done?
    ensures Uvarint(buf, i).value < Capacity(i)
    decreases |buf|
  {
    if i == 9 {
      assert !Uvarint(buf[1..], 10).Done?;
    } else {
      assert Capacity(i) >= 256 by { CapacityGrows(i); }
      if buf[0] >= 0x80 {
        ReadFits(buf[1..], i + 1);
      }
    }
  }

  lemma {:induction false} CapacityGrows(i: nat)
    requires i <= 8
    ensures Capacity(i) >= 256
    decreases 8 - i
  {
    if i == 8 {
    } else {
      CapacityGrows(i + 1);
    }
  }
}
