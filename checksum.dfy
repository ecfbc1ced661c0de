/**
 * The ComfoAir checksum: the bytes summed with 8-bit wrap-around, plus 0xAD.
 */
module Checksums {
  import opened Messages

  /** The plain (unbounded) sum of a byte sequence. */
  function Sum(s: seq<uint8>): nat
  {
    if s == [] then 0 else Sum(s[..|s| - 1]) + s[|s| - 1]
  }

  /** The checksum of a byte sequence: its sum plus 0xAD, modulo 256. */
  function Checksum(s: seq<uint8>): uint8
  {
    (Sum(s) + 0xAD) % 0x100
  }

  lemma {:induction false} SumAppend(a: seq<uint8>, b: seq<uint8>)
    ensures Sum(a + b) == Sum(a) + Sum(b)
    decreases |b|
  {
    if b == [] {
      assert a + b == a;
    } else {
      var b' := b[..|b| - 1];
      assert (a + b)[..|a + b| - 1] == a + b';
      SumAppend(a, b');
    }
  }

  /** The checksum of a sequence that starts with some bytes is the sum of
      those bytes added, with wrap-around, to the checksum of the rest. */
  lemma ChecksumOfPrefixed(head: seq<uint8>, s: seq<uint8>)
    ensures Checksum(head + s) == (Sum(head) + Checksum(s)) % 0x100
  {
    SumAppend(head, s);
    var y := Sum(s) + 0xAD;
    var q, r := y / 0x100, y % 0x100;
    assert y == q * 0x100 + r;
    ModAddMultiple(Sum(head) + r, q);
  }

  /** Adding a multiple of 256 does not change a value modulo 256. */
  lemma ModAddMultiple(a: nat, q: nat)
    ensures (a + q * 0x100) % 0x100 == a % 0x100
  {
    var k := a / 0x100;
    assert a + q * 0x100 == (k + q) * 0x100 + a % 0x100;
  }

  /** Sums the first `length` bytes of `commandData` in an 8-bit accumulator
      and adds 0xAD with wrap-around. */
  method ComfoairChecksum(commandData: seq<uint8>, length: uint8) returns (sum: uint8)
    requires length <= |commandData|
    ensures sum == Checksum(commandData[..length])
  {
    var acc: uint8 := 0;
    for i := 0 to length
      invariant acc == Sum(commandData[..i]) % 0x100
    {
      assert commandData[..i + 1][..i] == commandData[..i];
      acc := (acc + commandData[i]) % 0x100;
    }
    sum := (acc + 0xAD) % 0x100;
  }
}
