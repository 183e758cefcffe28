/** The two fixed 16-entry tables of the simulation: the occupation (particle
    count) table and the collision rule. */
module Tables {
  import opened Cell

  /** The occupation table, indexed by cell state. */
  const Bits: seq<int> := [0, 1, 1, 2, 1, 2, 2, 3, 1, 2, 2, 3, 2, 3, 3, 4]

  /** Number of particles in a cell, read from the occupation table. Indexing the
      table with anything but a 4-bit state is an out-of-bounds access. */
  function GetBits(value: Byte): (n: int)
    requires IsState(value)
    ensures n == PopCount(value)
    ensures 0 <= n <= 4
  {
    BitsIsPopCount(value);
    Bits[value as int]
  }

  lemma BitsIsPopCount(v: Byte)
    requires IsState(v)
    ensures Bits[v as int] == PopCount(v)
  {
    if v < 4 {
      assert v == 0 || v == 1 || v == 2 || v == 3;
    } else if v < 8 {
      assert v == 4 || v == 5 || v == 6 || v == 7;
    } else if v < 12 {
      assert v == 8 || v == 9 || v == 10 || v == 11;
    } else {
      assert v == 12 || v == 13 || v == 14 || v == 15;
    }
  }

  /** The collision rule the lookup table holds, for a 4-bit state: the head-on
      pairs up+down (9) and left+right (6) turn into each other, and every other
      state is replaced by its 4-bit reversal. (Stated without a contract, as
      Reverse is; the lemmas below give its properties.) */
  function Collide(v: Byte): Byte {
    if v == 6 then 9 else if v == 9 then 6 else Reverse(v)
  }

  /** The rule maps states to states and never creates or destroys a particle. */
  lemma CollideKeepsCount(v: Byte)
    requires IsState(v)
    ensures IsState(Collide(v))
    ensures PopCount(Collide(v)) == PopCount(v)
  {
    ReverseFlags(v);
  }

  /** Applying the collision rule twice gives the state back. */
  lemma CollideInvolution(v: Byte)
    requires IsState(v)
    ensures Collide(Collide(v)) == v
  {
    if v != 6 && v != 9 {
      ReverseInvolution(v);
    }
  }

  /** The only states the collision rule leaves alone are the empty and the full cell. */
  lemma CollideFixedPoints(v: Byte)
    requires IsState(v)
    ensures Collide(v) == v <==> v == 0 || v == 15
  {
  }

  /** A state with one or three particles is never left as it is: it is mirrored. */
  lemma CollideMovesOddStates(v: Byte)
    requires IsState(v)
    requires PopCount(v) == 1 || PopCount(v) == 3
    ensures Collide(v) != v
    ensures Collide(v) == Reverse(v)
  {
    CollideFixedPoints(v);
  }

  /** The lookup table as the program writes it out, entry by entry. */
  const CollisionTable: seq<Byte> := [0, 8, 4, 12, 2, 10, 9, 14, 1, 6, 5, 13, 3, 11, 7, 15]

  /** The written-out table holds the collision rule at every state. */
  lemma TableEntry(v: Byte)
    requires IsState(v)
    ensures CollisionTable[v as int] == Collide(v)
  {
  }

  /** Looking a state up twice in the written-out table gives it back. */
  lemma CollisionTableInvolution(v: Byte)
    requires IsState(v)
    ensures IsState(CollisionTable[v as int])
    ensures CollisionTable[CollisionTable[v as int] as int] == v
  {
    TableEntry(v);
    CollideKeepsCount(v);
    TableEntry(Collide(v));
    CollideInvolution(v);
  }

  /** Looking a state up in the written-out table never changes its occupation. */
  lemma CollisionTableKeepsBits(v: Byte)
    requires IsState(v)
    ensures Bits[CollisionTable[v as int] as int] == Bits[v as int]
  {
    TableEntry(v);
    CollideKeepsCount(v);
    BitsIsPopCount(v);
    BitsIsPopCount(Collide(v));
  }
}
