/** Bytes, and the four-byte numbers of the image header, little end first. */
module Bytes {
  import opened Words

  newtype byte = x: int | 0 <= x < 256

  function Number(b: seq<byte>): (n: nat)
    requires |b| == 4
    ensures n < TWO_TO_THE_32
  {
    b[0] as nat + 0x100 * b[1] as nat + 0x1_0000 * b[2] as nat + 0x100_0000 * b[3] as nat
  }

  /** A number as an unsigned 32-bit value. */
  function Cut(n: nat): (r: nat)
    ensures r < TWO_TO_THE_32
    ensures n < TWO_TO_THE_32 ==> r == n
  {
    n % TWO_TO_THE_32
  }

  function FourBytes(n: nat): (b: seq<byte>)
    requires n < TWO_TO_THE_32
    ensures |b| == 4
  {
    var n1 := n / 0x100;
    var n2 := n1 / 0x100;
    var n3 := n2 / 0x100;
    [(n % 0x100) as byte, (n1 % 0x100) as byte, (n2 % 0x100) as byte, n3 as byte]
  }

  /** The first byte is the lowest and the last one the highest. */
  lemma LittleEnd(b: seq<byte>)
    requires |b| == 4
    ensures Number(b) % 0x100 == b[0] as nat
    ensures Number(b) / 0x100 % 0x100 == b[1] as nat
    ensures Number(b) / 0x100 / 0x100 % 0x100 == b[2] as nat
    ensures Number(b) / 0x100 / 0x100 / 0x100 == b[3] as nat
    ensures FourBytes(Number(b)) == b
  {
    var b0, b1, b2, b3 := b[0] as nat, b[1] as nat, b[2] as nat, b[3] as nat;
    Digit(b0, b1 + 0x100 * (b2 + 0x100 * b3));
    Digit(b1, b2 + 0x100 * b3);
    Digit(b2, b3);
    assert Number(b) == b0 + 0x100 * (b1 + 0x100 * (b2 + 0x100 * b3));
    hide Number;
  }

  lemma Digit(low: nat, high: nat)
    requires low < 0x100
    ensures (low + 0x100 * high) % 0x100 == low && (low + 0x100 * high) / 0x100 == high
  {
  }

  lemma NumberOfFourBytes(n: nat)
    requires n < TWO_TO_THE_32
    ensures Number(FourBytes(n)) == n
  {
  }
}
