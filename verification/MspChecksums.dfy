/** The two checksums of MSP: XOR for version 1, CRC-8/DVB-S2 for version 2. */
module MspChecksums {
  import opened Bytes
  import Octets

  /** A byte as the eight bits the checksums work on, and back. */
  function Bits(b: byte): bv8 {
    b as bv8
  }

  function Value(x: bv8): byte {
    x as int
  }

  lemma ValueOfBits(b: byte)
    ensures Value(Bits(b)) == b
  {
    Octets.ConvertsBack(b);
  }

  lemma BitsOfValue(x: bv8)
    ensures Bits(Value(x)) == x
  {
  }

  function CrcShift(crc: bv8): bv8 {
    if crc & 0x80 != 0 then (crc << 1) ^ 0xd5 else crc << 1
  }

  function CrcShifts(crc: bv8, n: nat): bv8 {
    if n == 0 then crc else CrcShift(CrcShifts(crc, n - 1))
  }

  function Crc8(crc: bv8, b: byte): bv8 {
    CrcShifts(crc ^ Bits(b), 8)
  }

  method Crc8DvbS2(crc: bv8, b: byte) returns (r: bv8)
    ensures r == Crc8(crc, b)
  {
    r := crc ^ Bits(b);
    for i := 0 to 8
      invariant r == CrcShifts(crc ^ Bits(b), i)
    {
      r := if r & 0x80 != 0 then (r << 1) ^ 0xd5 else r << 1;
    }
  }

  function Xor8(sum: bv8, b: byte): bv8 {
    sum ^ Bits(b)
  }

  /** One more byte under the checksum of either version. */
  function Mix(v2: bool, sum: bv8, b: byte): bv8 {
    if v2 then Crc8(sum, b) else Xor8(sum, b)
  }

  function Checksum(v2: bool, sum: bv8, bytes: seq<byte>): bv8
    decreases |bytes|
  {
    if bytes == [] then sum else Checksum(v2, Mix(v2, sum, bytes[0]), bytes[1..])
  }

  lemma {:induction false} ChecksumConcat(v2: bool, sum: bv8, a: seq<byte>, b: seq<byte>)
    ensures Checksum(v2, sum, a + b) == Checksum(v2, Checksum(v2, sum, a), b)
    decreases |a|
  {
    if a == [] {
      assert a + b == b;
    } else {
      assert (a + b)[0] == a[0] && (a + b)[1..] == a[1..] + b;
      ChecksumConcat(v2, Mix(v2, sum, a[0]), a[1..], b);
    }
  }

  lemma ChecksumSnoc(v2: bool, sum: bv8, a: seq<byte>, b: byte)
    ensures Checksum(v2, sum, a + [b]) == Mix(v2, Checksum(v2, sum, a), b)
  {
    ChecksumConcat(v2, sum, a, [b]);
    assert [b][1..] == [];
  }

  // The polynomial has a constant term, so no step of the CRC loses information.

  lemma ShiftInjective(c: bv8, d: bv8)
    requires CrcShift(c) == CrcShift(d)
    ensures c == d
  {
  }

  lemma {:induction false} ShiftsInjective(c: bv8, d: bv8, n: nat)
    requires CrcShifts(c, n) == CrcShifts(d, n)
    ensures c == d
  {
    if n > 0 {
      ShiftInjective(CrcShifts(c, n - 1), CrcShifts(d, n - 1));
      ShiftsInjective(c, d, n - 1);
    }
  }

  lemma XorInjective(a: bv8, b: bv8, c: bv8)
    ensures a ^ c == b ^ c ==> a == b
    ensures c ^ a == c ^ b ==> a == b
  {
  }

  lemma BitsInjective(a: byte, b: byte)
    requires Bits(a) == Bits(b)
    ensures a == b
  {
    hide Bits, Value;
    ValueOfBits(a);
    ValueOfBits(b);
  }

  /** Mixing is injective in the running sum and in the byte. */
  lemma MixInjective(v2: bool, c: bv8, d: bv8, a: byte, b: byte)
    requires Mix(v2, c, a) == Mix(v2, d, b)
    ensures a == b ==> c == d
    ensures c == d ==> a == b
  {
    hide CrcShifts, Bits;
    if v2 {
      ShiftsInjective(c ^ Bits(a), d ^ Bits(b), 8);
    }
    XorInjective(c, d, Bits(a));
    XorInjective(Bits(a), Bits(b), c);
    if Bits(a) == Bits(b) {
      BitsInjective(a, b);
    }
  }

  lemma {:induction false} ChecksumInjective(v2: bool, c: bv8, d: bv8, bytes: seq<byte>)
    requires c != d
    ensures Checksum(v2, c, bytes) != Checksum(v2, d, bytes)
    decreases |bytes|
  {
    hide Mix;
    if bytes != [] {
      if Mix(v2, c, bytes[0]) == Mix(v2, d, bytes[0]) {
        MixInjective(v2, c, d, bytes[0], bytes[0]);
      }
      ChecksumInjective(v2, Mix(v2, c, bytes[0]), Mix(v2, d, bytes[0]), bytes[1..]);
    }
  }

  /** Any change of a single byte changes either checksum, wherever the byte stands. */
  lemma {:induction false} DetectsOneByte(v2: bool, sum: bv8, bytes: seq<byte>, k: nat, x: byte)
    requires k < |bytes| && x != bytes[k]
    ensures Checksum(v2, sum, bytes[k := x]) != Checksum(v2, sum, bytes)
    decreases |bytes|
  {
    hide Mix;
    if k == 0 {
      if Mix(v2, sum, x) == Mix(v2, sum, bytes[0]) {
        MixInjective(v2, sum, sum, x, bytes[0]);
      }
      assert bytes[k := x][1..] == bytes[1..];
      ChecksumInjective(v2, Mix(v2, sum, x), Mix(v2, sum, bytes[0]), bytes[1..]);
    } else {
      assert bytes[k := x][1..] == bytes[1..][k - 1 := x];
      DetectsOneByte(v2, Mix(v2, sum, bytes[0]), bytes[1..], k - 1, x);
    }
  }
}
