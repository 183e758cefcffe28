/** The state of one lattice cell: a byte whose low four bits are direction flags.
    Each set flag is one particle travelling in that direction. */
module Cell {

  /** A Java `byte` as stored in the grid. The simulation only ever stores 0..15,
      so the sign bit of the Java type is never set and an unsigned 8-bit vector
      behaves identically. */
  type Byte = bv8

  const UpMask: Byte := 0x01
  const LeftMask: Byte := 0x02
  const RightMask: Byte := 0x04
  const DownMask: Byte := 0x08

  /** A well-formed cell: only the four direction flags may be set. */
  predicate IsState(v: Byte) {
    v < 16
  }

  /** 1 if the flag `mask` is set in `v`, else 0. */
  function Flag(v: Byte, mask: Byte): nat {
    if v & mask != 0 then 1 else 0
  }

  /** Reference particle count: one for each of the four direction flags that is set. */
  function PopCount(v: Byte): (n: nat)
    ensures n <= 4
    ensures n == 0 <==> v & 0x0F == 0
    ensures n == 4 <==> v & 0x0F == 0x0F
  {
    Flag(v, UpMask) + Flag(v, LeftMask) + Flag(v, RightMask) + Flag(v, DownMask)
  }

  /** The 4-bit reversal of a state: the up and down flags trade places and so do
      the left and right flags. (Its properties are stated as lemmas below rather
      than as a contract: the grid proofs use this function at every cell.) */
  function Reverse(v: Byte): Byte {
    ((v & UpMask) << 3) | ((v & DownMask) >> 3) | ((v & LeftMask) << 1) | ((v & RightMask) >> 1)
  }

  /** Reversal keeps a state a state, moves each flag to its opposite direction and
      so keeps the particle count. */
  lemma ReverseFlags(v: Byte)
    ensures IsState(Reverse(v))
    ensures (Reverse(v) & UpMask != 0) == (v & DownMask != 0)
    ensures (Reverse(v) & DownMask != 0) == (v & UpMask != 0)
    ensures (Reverse(v) & LeftMask != 0) == (v & RightMask != 0)
    ensures (Reverse(v) & RightMask != 0) == (v & LeftMask != 0)
    ensures IsState(v) ==> PopCount(Reverse(v)) == PopCount(v)
  {
  }

  lemma ReverseInvolution(v: Byte)
    requires IsState(v)
    ensures Reverse(Reverse(v)) == v
  {
  }
}
