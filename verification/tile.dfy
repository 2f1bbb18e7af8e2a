/**
 The bit-packed cell of a Sudoku board (src/tile.rs).

 A tile is one 16-bit word. Bit 10 is the constant flag.
 - A constant (flag set) keeps its value in the low byte: `0x0404` is the constant 4.
 - A candidate set (flag clear) uses bits 1..9 as membership flags: bit v set means
   v is still possible. A well-formed set leaves bit 0 and bits 11..15 clear.

 The candidates of a set tile are `Members(t)`, the positions of its one bits;
 `Valid` is the representation invariant that every tile built by `NewConstant`
 and `NewFullSet` satisfies, and that every operation here preserves.
 Values are `bv16`, as they are `u16` in the Rust code.
 */
module Tiles {
  import opened Bits

  datatype Tile = Tile(data: bv16)

  /** What a tile means: a fixed value, or the values still possible. */
  datatype View = Constant(value: bv16) | Candidates(members: set<bv16>)

  /** Bit 10: the tile is a constant. */
  const ConstantFlag: bv16 := 0x0400
  /** Bits 1..9: the candidate set {1, ..., 9}. */
  const FullSetBits: bv16 := 0x03FE
  /** The low byte, where a constant keeps its value. */
  const ValueMask: bv16 := 0x00FF
  /** Bit 0 and bits 10..15, which a well-formed candidate set leaves clear. */
  const StrayBits: bv16 := 0xFC01

  /** The values a Sudoku cell can take. */
  const Digits: set<bv16> := {1, 2, 3, 4, 5, 6, 7, 8, 9}

  /** The range `1..10` that the Rust code asserts for a value. */
  predicate IsDigit(v: bv16) {
    1 <= v <= 9
  }

  /** True when the tile's constant flag is set. */
  predicate IsConstant(t: Tile) {
    (t.data & ConstantFlag) != 0
  }

  /** True when the tile's constant flag is clear: exactly the tiles that are not constants. */
  predicate IsSet(t: Tile): (b: bool)
    ensures b <==> !IsConstant(t)
  {
    (t.data & ConstantFlag) == 0
  }

  /** The candidates of a set tile: the positions of its one bits. */
  function Members(t: Tile): set<bv16> {
    Ones(t.data)
  }

  /** Representation invariant: a constant holds exactly its flag and a value 1..9;
      a set holds nothing outside bits 1..9. */
  predicate Valid(t: Tile) {
    if IsConstant(t) then 0x0401 <= t.data <= 0x0409
    else (t.data & StrayBits) == 0
  }

  /** The abstract meaning of a tile. */
  function Abs(t: Tile): View {
    if IsConstant(t) then Constant(ValueOfConstant(t)) else Candidates(Members(t))
  }

  /** The encoding is faithful: two well-formed tiles with the same meaning are the
      same word. */
  lemma AbsInjective(s: Tile, t: Tile)
    requires Valid(s) && Valid(t)
    requires Abs(s) == Abs(t)
    ensures s == t
  {
    if IsConstant(s) {
      ConstantRoundTrip(s);
      ConstantRoundTrip(t);
    } else {
      OnesInjective(s.data, t.data);
    }
  }

  /** A set tile is well formed exactly when all its candidates are digits. */
  lemma ValidSet(t: Tile)
    requires IsSet(t)
    ensures Valid(t) <==> Members(t) <= Digits
  {
    StrayBitsClear(t.data);
    forall j | j in Members(t)
      ensures j in Digits <==> 1 <= j <= 9
    {
    }
  }

  /** The constant flag is bit 10, so a tile is a set exactly when 10 is not a member. */
  lemma FlagIsBitTen(t: Tile)
    ensures IsSet(t) <==> 10 !in Members(t)
  {
    InOnes(t.data, 10);
    assert Bit(t.data, 10) <==> (t.data & ConstantFlag) != 0;
  }

  /** A constant tile holding `value`. */
  function NewConstant(value: bv16): (t: Tile)
    requires IsDigit(value)
    ensures IsConstant(t) && !IsSet(t)
    ensures Valid(t)
    ensures ValueOfConstant(t) == value
    ensures Abs(t) == Constant(value)
  {
    Tile(ConstantFlag | value)
  }

  /** The candidate set {1, ..., 9}. */
  function NewFullSet(): (t: Tile)
    ensures IsSet(t) && !IsConstant(t)
    ensures Valid(t)
    ensures Members(t) == Digits
    ensures Abs(t) == Candidates(Digits)
    ensures forall v | IsDigit(v) :: SetContains(t, v)
    ensures SetLen(t) == 9
  {
    OnesOfFullSet();
    Tile(FullSetBits)
  }

  /** The value a constant tile holds: its low byte. */
  function ValueOfConstant(t: Tile): (v: bv16)
    requires IsConstant(t)
    ensures v < 256
    ensures Valid(t) ==> IsDigit(v)
  {
    t.data & ValueMask
  }

  /** A well-formed constant is rebuilt from its value: `NewConstant` and
      `ValueOfConstant` are inverse. */
  lemma ConstantRoundTrip(t: Tile)
    requires IsConstant(t) && Valid(t)
    ensures NewConstant(ValueOfConstant(t)) == t
  {
  }

  /** Membership of `value` in a set tile. */
  function SetContains(t: Tile, value: bv16): (b: bool)
    requires IsDigit(value)
    requires IsSet(t)
    ensures b <==> value in Members(t)
  {
    InOnes(t.data, value);
    Bit(t.data, value)
  }

  /** The set tile with `value` taken out. */
  function SetRemove(t: Tile, value: bv16): (r: Tile)
    requires IsDigit(value)
    requires IsSet(t)
    ensures IsSet(r)
    ensures Members(r) == Members(t) - {value}
    ensures Abs(r) == Candidates(Abs(t).members - {value})
    ensures Valid(t) ==> Valid(r)
  {
    var r := Tile(ClearBit(t.data, value));
    FlagIsBitTen(t);
    FlagIsBitTen(r);
    ValidSet(t);
    ValidSet(r);
    r
  }

  /** The number of candidates of a set tile (its population count). */
  function SetLen(t: Tile): (n: nat)
    requires IsSet(t)
    ensures n == |Members(t)|
    ensures Valid(t) ==> n == |Members(t) * Digits| <= 9
  {
    ValidSetSize(t);
    CountOnes(t.data)
  }

  /** A well-formed set has at most nine candidates. */
  lemma ValidSetSize(t: Tile)
    requires IsSet(t)
    ensures Valid(t) ==> |Members(t)| <= 9
    ensures Valid(t) ==> Members(t) * Digits == Members(t)
  {
    ValidSet(t);
    if Valid(t) {
      SubsetSize(Members(t), Digits);
      DigitsCount();
    }
  }

  lemma DigitsCount()
    ensures |Digits| == 9
  {
  }

  /** Turns a singleton candidate set into the constant it determines: the position of
      its only one bit, found by counting trailing zeros. The last requirement is the
      range check `new_constant` makes of that position. */
  function TransformSetIntoConstant(t: Tile): (r: Tile)
    requires IsSet(t)
    requires SetLen(t) == 1
    requires IsDigit(TrailingZeros(t.data))
    ensures IsConstant(r) && Valid(r)
    ensures Members(t) == {ValueOfConstant(r)}
    ensures Abs(r) == Constant(ValueOfConstant(r)) && Abs(t) == Candidates({ValueOfConstant(r)})
  {
    SingletonOnes(t.data);
    NewConstant(TrailingZeros(t.data))
  }

  /** Removing a value twice is removing it once. */
  lemma SetRemoveIdempotent(t: Tile, value: bv16)
    requires IsDigit(value) && IsSet(t)
    ensures SetRemove(SetRemove(t, value), value) == SetRemove(t, value)
  {
    var once := SetRemove(t, value);
    OnesInjective(SetRemove(once, value).data, once.data);
  }

  /** Removing a present value shrinks the set by one; removing an absent one changes nothing. */
  lemma SetRemoveLen(t: Tile, value: bv16)
    requires IsDigit(value) && IsSet(t)
    ensures SetContains(t, value) ==> SetLen(SetRemove(t, value)) == SetLen(t) - 1
    ensures !SetContains(t, value) ==> SetRemove(t, value) == t
  {
    var r := SetRemove(t, value);
    if SetContains(t, value) {
      assert Members(t) == Members(r) + {value};
    } else {
      assert Members(r) == Members(t);
      OnesInjective(r.data, t.data);
    }
  }

  /** Removing values from a set only ever shrinks it, and removals commute. */
  lemma SetRemoveCommutes(t: Tile, a: bv16, b: bv16)
    requires IsDigit(a) && IsDigit(b) && IsSet(t)
    ensures SetRemove(SetRemove(t, a), b) == SetRemove(SetRemove(t, b), a)
  {
    OnesInjective(SetRemove(SetRemove(t, a), b).data, SetRemove(SetRemove(t, b), a).data);
  }

  /** A set whose only candidate is the digit v becomes the constant v. */
  lemma TransformSingleton(t: Tile, v: bv16)
    requires IsSet(t) && IsDigit(v)
    requires Members(t) == {v}
    ensures SetLen(t) == 1
    ensures IsDigit(TrailingZeros(t.data))
    ensures TransformSetIntoConstant(t) == NewConstant(v)
  {
    SingletonOnes(t.data);
  }
}
