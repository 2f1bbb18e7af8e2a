/**
 The Sudoku board (src/board.rs): building it from text and one round of
 constraint propagation.

 `NewFromStr` reads a text of `.` for an empty cell and `1`..`9` for a clue; the
 first 81 tiles make the board and any further ones are dropped. The Rust code
 panics on any other character and on a text shorter than 81; here each panic is
 a `Failure` that says which check stopped the parse.

 `ApplyConstraints` visits every row, then every column, then every 3x3 box. In
 each unit it collects the values of the constant tiles and removes each of them
 from every candidate set of the unit. Its closed form: a set loses exactly the
 values of the constants it sees (its peers), and nothing else changes.
 */
module Boards {
  import opened Bits
  import opened Tiles
  import opened Grid

  /** The Rust `Board`: 81 tiles, stored as described in `Grid`. */
  datatype Board = Board(data: seq<Tile>)

  /** Why building a board from text stops. Each is a panic in the Rust code. */
  datatype ParseError =
    | NotADigit(position: nat)  // `to_digit(10)` gives `None` and `unwrap` panics
    | ZeroClue(position: nat)   // `0` is a digit, but `new_constant` asserts 1..9
    | TooShort(length: nat)     // `from_vec` needs at least 81 tiles

  datatype Result<T> = Success(value: T) | Failure(error: ParseError)

  /** The characters `to_digit(10)` accepts. */
  predicate IsDecimal(c: char) {
    '0' <= c <= '9'
  }

  /** `to_digit(10)` of a decimal character. */
  function DigitValue(c: char): (v: bv16)
    requires IsDecimal(c)
    ensures v as int == c as int - '0' as int
    ensures v <= 9
    ensures IsDigit(v) <==> c != '0'
  {
    match c
    case '0' => 0 case '1' => 1 case '2' => 2 case '3' => 3 case '4' => 4
    case '5' => 5 case '6' => 6 case '7' => 7 case '8' => 8 case _ => 9
  }

  /** The characters a board may hold: `.` for an empty cell, `1`..`9` for a clue. */
  predicate IsClue(c: char) {
    c == '.' || ('1' <= c <= '9')
  }

  /** What the tile read from a well-formed character means: `.` is the set of all
      nine candidates, a clue is the constant it names. */
  predicate Denotes(t: Tile, c: char)
    requires IsClue(c)
  {
    && Valid(t)
    && (c == '.' ==> IsSet(t) && Members(t) == Digits)
    && (c != '.' ==> IsConstant(t) && ValueOfConstant(t) == DigitValue(c))
  }

  /** The tile one character stands for (the closure given to `map`), or the panic
      it causes when it sits at `position`. */
  function ParseTile(c: char, position: nat): (r: Result<Tile>)
    ensures r.Success? <==> IsClue(c)
    ensures r.Success? ==> Denotes(r.value, c)
    ensures c == '.' ==> r == Success(NewFullSet())
    ensures '1' <= c <= '9' ==> r == Success(NewConstant(DigitValue(c)))
    ensures r.Failure? ==> r.error == (if c == '0' then ZeroClue(position) else NotADigit(position))
  {
    if c == '.' then Success(NewFullSet())
    else if !IsDecimal(c) then Failure(NotADigit(position))
    else if c == '0' then Failure(ZeroClue(position))
    else Success(NewConstant(DigitValue(c)))
  }

  /** e is the panic of the first character of s at or after `from` that is not a clue. */
  predicate RejectsAt(s: string, from: nat, e: ParseError) {
    && !e.TooShort?
    && from <= e.position < |s|
    && (forall j | from <= j < e.position :: IsClue(s[j]))
    && !IsClue(s[e.position])
    && (e.ZeroClue? <==> s[e.position] == '0')
  }

  /** The tiles of s from position i on, read left to right; the first character
      that is not a clue stops the reading. */
  function ParseTiles(s: string, i: nat): (r: Result<seq<Tile>>)
    requires i <= |s|
    ensures r.Success? <==> forall j | i <= j < |s| :: IsClue(s[j])
    ensures r.Success? ==> |r.value| == |s| - i
    ensures r.Success? ==> forall j | 0 <= j < |r.value| :: Denotes(r.value[j], s[i + j])
    ensures r.Failure? ==> RejectsAt(s, i, r.error)
    decreases |s| - i
  {
    if i == |s| then Success([])
    else
      match ParseTile(s[i], i)
      case Failure(e) => Failure(e)
      case Success(t) =>
        match ParseTiles(s, i + 1)
        case Failure(e) => Failure(e)
        case Success(ts) => Success([t] + ts)
  }

  /** The board written in s. Every character is read before the length is checked,
      and `from_vec` fills the 81 cells from the first 81 tiles, ignoring the rest. */
  function NewFromStr(s: string): (r: Result<Board>)
    ensures r.Success? <==> |s| >= Cells && forall j | 0 <= j < |s| :: IsClue(s[j])
    ensures r.Success? ==> |r.value.data| == Cells
    ensures r.Success? ==> forall k | 0 <= k < Cells :: Denotes(r.value.data[k], s[k])
    ensures r.Failure? && r.error.TooShort? ==>
      && r.error.length == |s| < Cells
      && forall j | 0 <= j < |s| :: IsClue(s[j])
    ensures r.Failure? && !r.error.TooShort? ==> RejectsAt(s, 0, r.error)
  {
    match ParseTiles(s, 0)
    case Failure(e) => Failure(e)
    case Success(tiles) =>
      if |tiles| < Cells then Failure(TooShort(|tiles|)) else Success(Board(tiles[..Cells]))
  }

  /** A character denotes one tile only: the encoding leaves no choice. */
  lemma DenotesUnique(a: Tile, b: Tile, c: char)
    requires IsClue(c) && Denotes(a, c) && Denotes(b, c)
    ensures a == b
  {
    AbsInjective(a, b);
  }

  /** Good characters after the 81st are read and then dropped: they do not change
      the board. */
  lemma TrailingCluesIgnored(s: string, t: string)
    requires NewFromStr(s).Success?
    requires forall j | 0 <= j < |t| :: IsClue(t[j])
    ensures NewFromStr(s + t).Success?
    ensures NewFromStr(s + t) == NewFromStr(s)
  {
    var st := s + t;
    assert forall j | 0 <= j < |st| :: IsClue(st[j]) by {
      forall j | 0 <= j < |st|
        ensures IsClue(st[j])
      {
        if j >= |s| {
          assert st[j] == t[j - |s|];
        }
      }
    }
    var a, b := NewFromStr(st).value.data, NewFromStr(s).value.data;
    forall k | 0 <= k < Cells
      ensures a[k] == b[k]
    {
      assert st[k] == s[k];
      DenotesUnique(a[k], b[k], s[k]);
    }
    assert a == b;
  }

  /** Every cell index of u is a cell of b. */
  predicate InBoard(b: seq<Tile>, u: seq<nat>) {
    forall k | k in u :: k < |b|
  }

  /** The values of the constant tiles among the cells u of b. */
  ghost function UnitValues(b: seq<Tile>, u: seq<nat>): set<bv16>
    requires InBoard(b, u)
  {
    set k | k in u && IsConstant(b[k]) :: ValueOfConstant(b[k])
  }

  /** The `values` vector of a unit: the values of its constant tiles, in order. */
  function ConstantsOf(b: seq<Tile>, u: seq<nat>): (vs: seq<bv16>)
    requires InBoard(b, u)
    ensures forall v :: v in vs <==> v in UnitValues(b, u)
  {
    if |u| == 0 then []
    else
      assert u[0] in u;
      assert forall k :: k in u <==> k == u[0] || k in u[1..];
      var rest := ConstantsOf(b, u[1..]);
      if IsConstant(b[u[0]]) then [ValueOfConstant(b[u[0]])] + rest else rest
  }

  /** The values of a sequence, as a set. */
  function Elems(vs: seq<bv16>): set<bv16> {
    set v | v in vs
  }

  /** A set tile after `set_remove` of each of vs in turn. */
  function RemoveAll(t: Tile, vs: seq<bv16>): (r: Tile)
    requires IsSet(t)
    requires forall v | v in vs :: IsDigit(v)
    ensures IsSet(r)
    ensures Members(r) == Members(t) - Elems(vs)
    ensures Valid(t) ==> Valid(r)
    decreases |vs|
  {
    if |vs| == 0 then t
    else
      assert Elems(vs) == {vs[0]} + Elems(vs[1..]);
      RemoveAll(SetRemove(t, vs[0]), vs[1..])
  }

  /** `set_remove` asserts its argument is 1..9, so the removals of a unit stay in
      range exactly when the unit has no set tile or all its constants hold 1..9. */
  predicate UnitInRange(b: seq<Tile>, u: seq<nat>)
    requires InBoard(b, u)
  {
    (exists k :: k in u && IsSet(b[k])) ==>
      forall k :: k in u && IsConstant(b[k]) ==> IsDigit(ValueOfConstant(b[k]))
  }

  /** r has the constants of b where b has them and set tiles where b has set tiles. */
  predicate KeepsConstants(b: seq<Tile>, r: seq<Tile>) {
    && |r| == |b|
    && forall k | 0 <= k < |b| :: (IsConstant(b[k]) ==> r[k] == b[k]) && (IsSet(b[k]) ==> IsSet(r[k]))
  }

  /** The constants of a unit, and so whether its removals are in range, depend only
      on the constant tiles of the board. */
  lemma SameUnitValues(b: seq<Tile>, r: seq<Tile>, u: seq<nat>)
    requires KeepsConstants(b, r) && InBoard(b, u)
    ensures UnitValues(b, u) == UnitValues(r, u)
    ensures UnitInRange(b, u) <==> UnitInRange(r, u)
  {
    forall k | k in u
      ensures IsConstant(b[k]) <==> IsConstant(r[k])
    {
    }
  }

  /** One unit of `apply_constraints`: every set tile of u loses the values of the
      constants of u; every other tile is left as it is. */
  function ApplyUnit(b: seq<Tile>, u: seq<nat>): (r: seq<Tile>)
    requires |b| == Cells && InBoard(b, u)
    requires UnitInRange(b, u)
    ensures KeepsConstants(b, r)
    ensures forall k | 0 <= k < Cells && k !in u :: r[k] == b[k]
    ensures forall k | 0 <= k < Cells && k in u && IsSet(b[k]) ::
      Members(r[k]) == Members(b[k]) - UnitValues(b, u)
    ensures forall k | 0 <= k < Cells && Valid(b[k]) :: Valid(r[k])
  {
    var vs := ConstantsOf(b, u);
    seq(Cells, k requires 0 <= k < Cells =>
      if k in u && IsSet(b[k]) then RemoveAll(b[k], vs) else b[k])
  }

  /** The units us applied one after another, the first one first. */
  function ApplyUnits(b: seq<Tile>, us: seq<seq<nat>>): (r: seq<Tile>)
    requires |b| == Cells
    requires forall i | 0 <= i < |us| :: InBoard(b, us[i]) && UnitInRange(b, us[i])
    ensures KeepsConstants(b, r)
    ensures forall k | 0 <= k < Cells && IsSet(b[k]) :: Members(r[k]) <= Members(b[k])
    ensures forall k | 0 <= k < Cells && Valid(b[k]) :: Valid(r[k])
    decreases |us|
  {
    if |us| == 0 then b
    else
      var mid := ApplyUnits(b, us[..|us| - 1]);
      SameUnitValues(b, mid, us[|us| - 1]);
      ApplyUnit(mid, us[|us| - 1])
  }

  /** The removals of every unit of the board stay in range. */
  predicate InRange(b: seq<Tile>)
    requires |b| == Cells
  {
    forall i | 0 <= i < 27 :: UnitInRange(b, Units()[i])
  }

  /** The values of the constants that cell k sees: in its row, its column or its box. */
  ghost function PeerValues(b: seq<Tile>, k: nat): set<bv16>
    requires |b| == Cells
  {
    set k': nat | k' < Cells && Peers(k, k') && IsConstant(b[k']) :: ValueOfConstant(b[k'])
  }

  /** `apply_constraints`: constants stay; each set tile loses exactly the values of
      the constants among its peers. */
  function ApplyConstraints(board: Board): (r: Board)
    requires |board.data| == Cells
    requires InRange(board.data)
    ensures KeepsConstants(board.data, r.data)
    ensures forall k | 0 <= k < Cells && IsSet(board.data[k]) ::
      Members(r.data[k]) == Members(board.data[k]) - PeerValues(board.data, k)
    ensures forall k | 0 <= k < Cells && Valid(board.data[k]) :: Valid(r.data[k])
  {
    var b := board.data;
    var r := ApplyUnits(b, Units());
    forall k | 0 <= k < Cells && IsSet(b[k])
      ensures Members(r[k]) == Members(b[k]) - PeerValues(b, k)
    {
      ApplyUnitsCover(b, Units(), k);
      CoverIsPeers(b, k);
    }
    Board(r)
  }

  /** The values taken away from cell k by the units us. */
  ghost function Cover(b: seq<Tile>, us: seq<seq<nat>>, k: nat): set<bv16>
    requires forall i | 0 <= i < |us| :: InBoard(b, us[i])
    decreases |us|
  {
    if |us| == 0 then {}
    else
      var last := us[|us| - 1];
      Cover(b, us[..|us| - 1], k) + (if k in last then UnitValues(b, last) else {})
  }

  /** After the units us, a set tile has lost exactly the values `Cover` collects. */
  lemma {:induction false} ApplyUnitsCover(b: seq<Tile>, us: seq<seq<nat>>, k: nat)
    requires |b| == Cells
    requires forall i | 0 <= i < |us| :: InBoard(b, us[i]) && UnitInRange(b, us[i])
    requires k < Cells && IsSet(b[k])
    ensures Members(ApplyUnits(b, us)[k]) == Members(b[k]) - Cover(b, us, k)
    decreases |us|
  {
    if |us| > 0 {
      var init, last := us[..|us| - 1], us[|us| - 1];
      var mid := ApplyUnits(b, init);
      ApplyUnitsCover(b, init, k);
      SameUnitValues(b, mid, last);
    }
  }

  /** A value is covered exactly when some unit holding k has a constant with it. */
  lemma {:induction false} InCover(b: seq<Tile>, us: seq<seq<nat>>, k: nat, v: bv16)
    requires forall i | 0 <= i < |us| :: InBoard(b, us[i])
    ensures v in Cover(b, us, k) <==>
      exists i :: 0 <= i < |us| && k in us[i] && v in UnitValues(b, us[i])
    decreases |us|
  {
    if |us| > 0 {
      var init := us[..|us| - 1];
      InCover(b, init, k, v);
      if i :| 0 <= i < |init| && k in init[i] && v in UnitValues(b, init[i]) {
        assert us[i] == init[i];
      }
    }
  }

  /** Over all 27 units, the covered values are the values of the peers' constants. */
  lemma CoverIsPeers(b: seq<Tile>, k: nat)
    requires |b| == Cells && k < Cells
    ensures Cover(b, Units(), k) == PeerValues(b, k)
  {
    var us := Units();
    forall v
      ensures v in Cover(b, us, k) <==> v in PeerValues(b, k)
    {
      InCover(b, us, k, v);
      if v in Cover(b, us, k) {
        var i :| 0 <= i < |us| && k in us[i] && v in UnitValues(b, us[i]);
        UnitValueIsPeerValue(b, k, v, i);
      }
      if v in PeerValues(b, k) {
        PeerValueInSomeUnit(b, k, v);
      }
    }
  }

  /** A constant in a unit that holds k is a peer of k. */
  lemma UnitValueIsPeerValue(b: seq<Tile>, k: nat, v: bv16, i: nat)
    requires |b| == Cells && k < Cells && i < 27
    requires k in Units()[i] && v in UnitValues(b, Units()[i])
    ensures v in PeerValues(b, k)
  {
    var u := Units()[i];
    var k' :| k' in u && IsConstant(b[k']) && ValueOfConstant(b[k']) == v;
    SharedUnitPeers(k, k', i);
  }

  /** A peer's constant sits in a unit that holds k. */
  lemma PeerValueInSomeUnit(b: seq<Tile>, k: nat, v: bv16)
    requires |b| == Cells && k < Cells
    requires v in PeerValues(b, k)
    ensures exists i :: 0 <= i < 27 && k in Units()[i] && v in UnitValues(b, Units()[i])
  {
    var k': nat :| k' < Cells && Peers(k, k') && IsConstant(b[k']) && ValueOfConstant(b[k']) == v;
    PeersShareUnit(k, k');
    var i :| 0 <= i < 27 && k in Units()[i] && k' in Units()[i];
    assert v in UnitValues(b, Units()[i]);
  }

  /** A set tile never keeps the value of a constant it sees, whether that constant
      shares its row, its column or its box. */
  lemma PeerExclusion(board: Board, k: nat, k': nat)
    requires |board.data| == Cells && InRange(board.data)
    requires k < Cells && k' < Cells && Peers(k, k')
    requires IsSet(board.data[k]) && IsConstant(board.data[k'])
    ensures ValueOfConstant(board.data[k']) !in Members(ApplyConstraints(board).data[k])
  {
    assert ValueOfConstant(board.data[k']) in PeerValues(board.data, k);
  }

  /** Boards that agree on their constants have the same peer values everywhere. */
  lemma SamePeerValues(b: seq<Tile>, r: seq<Tile>, k: nat)
    requires |b| == Cells && KeepsConstants(b, r)
    ensures PeerValues(b, k) == PeerValues(r, k)
  {
    forall k': nat | k' < Cells
      ensures IsConstant(b[k']) <==> IsConstant(r[k'])
    {
    }
  }

  /** Boards that agree on their constants are in range together. */
  lemma SameInRange(b: seq<Tile>, r: seq<Tile>)
    requires |b| == Cells && KeepsConstants(b, r)
    ensures InRange(b) <==> InRange(r)
  {
    forall i | 0 <= i < 27
      ensures UnitInRange(b, Units()[i]) <==> UnitInRange(r, Units()[i])
    {
      SameUnitValues(b, r, Units()[i]);
    }
  }

  /** Propagating a second time removes nothing more: the constants are the same, so
      every set already lacks every value it would lose. */
  lemma ApplyConstraintsIdempotent(board: Board)
    requires |board.data| == Cells && InRange(board.data)
    ensures InRange(ApplyConstraints(board).data)
    ensures ApplyConstraints(ApplyConstraints(board)) == ApplyConstraints(board)
  {
    var b := board.data;
    var once := ApplyConstraints(board);
    SameInRange(b, once.data);
    var twice := ApplyConstraints(once);
    forall k | 0 <= k < Cells
      ensures twice.data[k] == once.data[k]
    {
      if IsSet(b[k]) {
        SamePeerValues(b, once.data, k);
        SecondRemovalStable(b[k], once.data[k], twice.data[k], PeerValues(b, k));
      }
    }
  }

  /** Taking the same values out a second time leaves a tile as it was. */
  lemma SecondRemovalStable(t0: Tile, t1: Tile, t2: Tile, gone: set<bv16>)
    requires Members(t1) == Members(t0) - gone
    requires Members(t2) == Members(t1) - gone
    ensures t2 == t1
  {
    OnesInjective(t2.data, t1.data);
  }

  /** A board of well-formed tiles is in range: every constant holds 1..9. */
  lemma ValidInRange(b: seq<Tile>)
    requires |b| == Cells
    requires forall k | 0 <= k < Cells :: Valid(b[k])
    ensures InRange(b)
  {
    forall i, k | 0 <= i < 27 && k in Units()[i] && IsConstant(b[k])
      ensures IsDigit(ValueOfConstant(b[k]))
    {
    }
  }

  /** A board read from text can be propagated, and its tiles stay well formed. */
  lemma ParsedBoardPropagates(s: string)
    requires NewFromStr(s).Success?
    ensures InRange(NewFromStr(s).value.data)
    ensures forall k | 0 <= k < Cells :: Valid(ApplyConstraints(NewFromStr(s).value).data[k])
  {
    ValidInRange(NewFromStr(s).value.data);
  }

  /** A board whose top-left cell sees 1..8 along its row and 9 in its column: the
      text `.9.......1........2........` and so on up to `8........`. */
  function CrowdedCorner(): (s: string)
    ensures |s| == Cells
  {
    seq(Cells, k requires 0 <= k < Cells => CornerChar(k))
  }

  /** Character k of `CrowdedCorner`: cell 9 * i of row 0 holds the clue i. */
  function CornerChar(k: nat): char {
    match k
    case 1 => '9'
    case 9 => '1'
    case 18 => '2'
    case 27 => '3'
    case 36 => '4'
    case 45 => '5'
    case 54 => '6'
    case 63 => '7'
    case 72 => '8'
    case _ => '.'
  }

  /** The value of a peer's constant is a peer value. */
  lemma PeerValue(b: seq<Tile>, k: nat, k': nat)
    requires |b| == Cells && k' < Cells && Peers(k, k') && IsConstant(b[k'])
    ensures ValueOfConstant(b[k']) in PeerValues(b, k)
  {
  }

  /** Cell k of b is the constant v. */
  predicate HoldsConstant(b: seq<Tile>, k: nat, v: bv16)
    requires k < |b|
  {
    IsConstant(b[k]) && ValueOfConstant(b[k]) == v
  }

  /** What `CrowdedCorner` reads as: a full set in cell 0, the constant 9 in cell 1
      and the constant i in cell 9 * i. */
  predicate CornerLayout(b: seq<Tile>)
    requires |b| == Cells
  {
    && IsSet(b[0]) && Members(b[0]) == Digits
    && HoldsConstant(b, 1, 9)
    && HoldsConstant(b, 9, 1) && HoldsConstant(b, 18, 2) && HoldsConstant(b, 27, 3)
    && HoldsConstant(b, 36, 4) && HoldsConstant(b, 45, 5) && HoldsConstant(b, 54, 6)
    && HoldsConstant(b, 63, 7) && HoldsConstant(b, 72, 8)
  }

  /** Every character of `CrowdedCorner` is a clue or `.`. */
  lemma CornerCharIsClue(k: nat)
    ensures IsClue(CornerChar(k))
  {
  }

  /** `CrowdedCorner` parses, into the layout it was written for. */
  lemma CrowdedCornerParses()
    ensures NewFromStr(CrowdedCorner()).Success?
    ensures CornerLayout(NewFromStr(CrowdedCorner()).value.data)
  {
    var s := CrowdedCorner();
    forall j | 0 <= j < |s|
      ensures IsClue(s[j])
    {
      CornerCharIsClue(j);
    }
    CornerLayoutOf(s, NewFromStr(s).value.data);
  }

  /** Tiles that denote the characters of `CrowdedCorner` are in its layout. */
  lemma CornerLayoutOf(s: string, b: seq<Tile>)
    requires s == CrowdedCorner() && |b| == Cells
    requires forall k | 0 <= k < Cells :: Denotes(b[k], s[k])
    ensures CornerLayout(b)
  {
    assert Denotes(b[0], s[0]) && Denotes(b[1], s[1]);
    CornerRowLow(s, b);
    CornerRowHigh(s, b);
  }

  lemma CornerRowLow(s: string, b: seq<Tile>)
    requires s == CrowdedCorner() && |b| == Cells
    requires forall k | 0 <= k < Cells :: Denotes(b[k], s[k])
    ensures HoldsConstant(b, 9, 1) && HoldsConstant(b, 18, 2)
    ensures HoldsConstant(b, 27, 3) && HoldsConstant(b, 36, 4)
  {
    assert Denotes(b[9], s[9]) && Denotes(b[18], s[18]);
    assert Denotes(b[27], s[27]) && Denotes(b[36], s[36]);
  }

  lemma CornerRowHigh(s: string, b: seq<Tile>)
    requires s == CrowdedCorner() && |b| == Cells
    requires forall k | 0 <= k < Cells :: Denotes(b[k], s[k])
    ensures HoldsConstant(b, 45, 5) && HoldsConstant(b, 54, 6)
    ensures HoldsConstant(b, 63, 7) && HoldsConstant(b, 72, 8)
  {
    assert Denotes(b[45], s[45]) && Denotes(b[54], s[54]);
    assert Denotes(b[63], s[63]) && Denotes(b[72], s[72]);
  }

  /** In that layout cell 0 sees every digit. */
  lemma CornerSeesAllDigits(b: seq<Tile>)
    requires |b| == Cells && CornerLayout(b)
    ensures Digits <= PeerValues(b, 0)
  {
    PeerValue(b, 0, 1);
    PeerValue(b, 0, 9);
    PeerValue(b, 0, 18);
    PeerValue(b, 0, 27);
    PeerValue(b, 0, 36);
    PeerValue(b, 0, 45);
    PeerValue(b, 0, 54);
    PeerValue(b, 0, 63);
    PeerValue(b, 0, 72);
  }

  /** An empty candidate set is not an error: propagation leaves the top-left cell
      of `CrowdedCorner` a set with no candidates. */
  lemma EmptiedSet()
    ensures NewFromStr(CrowdedCorner()).Success?
    ensures InRange(NewFromStr(CrowdedCorner()).value.data)
    ensures var r := ApplyConstraints(NewFromStr(CrowdedCorner()).value).data;
      IsSet(r[0]) && Members(r[0]) == {} && SetLen(r[0]) == 0
  {
    CrowdedCornerParses();
    var b := NewFromStr(CrowdedCorner()).value.data;
    ValidInRange(b);
    CornerSeesAllDigits(b);
  }
}
