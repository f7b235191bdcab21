/**
 * The cell codec (src/modules/cell/cell-keeper.ts). A cell is one integer:
 * its tens band is the state (10 Hidden, 20 Revealed, 30 Flagged) and its
 * low digit is 9 for a mine or the neighbouring-mine count 0..8 for a
 * neutral cell. The functions below are `CellKeeper`'s arithmetic on that
 * integer; the datatype `Cell` at the end is the meaning of a well-formed
 * value, and the lemmas there show that the arithmetic agrees with it.
 */
module CellKeeper {
  import opened Wrappers
  import opened CellTypes

  /** `v % 10` as JavaScript computes it: the remainder has the sign of `v`. */
  function JsRem10(v: int): (r: int)
    ensures -9 <= r <= 9 && (v - r) % 10 == 0
    ensures v >= 0 ==> 0 <= r
    ensures v <= 0 ==> r <= 0
  {
    if v >= 0 then v % 10 else -((-v) % 10)
  }

  /** What `getCellInfo` returns: the type, the state band and the low digit. */
  datatype CellInfo = CellInfo(kind: CellType, state: int, modulo: int)

  function GetCellInfo(value: int): (info: CellInfo)
    ensures info.state + info.modulo == value
    ensures info.state % 10 == 0 && -9 <= info.modulo <= 9
    ensures info.kind == Mine <==> info.modulo == 9
    ensures info.state == StateCode(Hidden) <==> 10 <= value <= 19
    ensures info.state == StateCode(Revealed) <==> 20 <= value <= 29
    ensures info.state == StateCode(Flagged) <==> 30 <= value <= 39
    ensures 10 <= value <= 39 ==> 0 <= info.modulo <= 9 && StateOf(info.state).Some?
  {
    var modulo := JsRem10(value);
    CellInfo(if modulo == 9 then Mine else Neutral, value - modulo, modulo)
  }

  predicate IsHidden(v: int) { GetCellInfo(v).state == StateCode(Hidden) }

  predicate IsRevealed(v: int) { GetCellInfo(v).state == StateCode(Revealed) }

  predicate IsFlagged(v: int) { GetCellInfo(v).state == StateCode(Flagged) }

  predicate IsMine(v: int) { GetCellInfo(v).kind == Mine }

  function Digit(v: int): int { GetCellInfo(v).modulo }

  /** A mine keeps its value; a neutral cell counts one more neighbouring mine. */
  function IncrementCell(cell: int): (r: int)
    ensures IsMine(cell) ==> r == cell
    ensures !IsMine(cell) && cell >= 0 && Digit(cell) < 8 ==>
      GetCellInfo(r) == GetCellInfo(cell).(modulo := Digit(cell) + 1)
    ensures !IsMine(cell) ==> r == cell + 1
    ensures 10 <= cell <= 39 && !IsMine(cell) && Digit(cell) == 8 ==> IsMine(r)
  {
    var info := GetCellInfo(cell);
    if info.kind == Mine then cell else cell + 1
  }

  /** Only a Hidden cell changes: it moves to the Revealed band, keeping its digit. */
  function RevealCell(value: int): (r: int)
    ensures !IsHidden(value) ==> r == value
    ensures IsHidden(value) ==> IsRevealed(r) && Digit(r) == Digit(value)
    ensures !IsHidden(r) && GetCellInfo(r).kind == GetCellInfo(value).kind
  {
    var info := GetCellInfo(value);
    if info.state != StateCode(Hidden) then value else value + 10
  }

  /**
   * Toggles a flag, given the type and state that `getCellInfo` read from
   * `value` (the type is not used). Revealed cells are left alone.
   */
  function FlagCell(value: int, kind: CellType, state: int): (r: int)
    ensures state == StateCode(Revealed) ==> r == value
    ensures state == GetCellInfo(value).state ==>
      (IsRevealed(value) ==> r == value) &&
      (IsFlagged(value) ==> IsHidden(r) && Digit(r) == Digit(value)) &&
      (IsHidden(value) ==> IsFlagged(r) && Digit(r) == Digit(value))
  {
    if state == StateCode(Revealed) then value
    else if state == StateCode(Flagged) then value - 20
    else value + 20
  }

  /** `flagCell` as the board calls it, with the information of the value itself. */
  function ToggleFlagValue(value: int): int
  {
    var info := GetCellInfo(value);
    FlagCell(value, info.kind, info.state)
  }

  /** Revealing twice is revealing once. */
  lemma RevealIdempotent(v: int)
    ensures RevealCell(RevealCell(v)) == RevealCell(v)
  {
  }

  /** Flagging twice gives back a Hidden or Flagged value. */
  lemma FlagInvolution(v: int)
    requires IsHidden(v) || IsFlagged(v)
    ensures ToggleFlagValue(ToggleFlagValue(v)) == v
  {
  }

  /** The type is read off the low digit alone, whatever the band. */
  lemma MineIffDigitNine(v: int)
    ensures IsMine(v) <==> JsRem10(v) == 9
    ensures IsMine(v) ==> IsMine(v + 10) && IsMine(v + 20) && (v >= 29 ==> IsMine(v - 20))
  {
  }

  /** Adding a count of at most 8 to a digit-0 value gives a neutral cell with that digit, in the same band. */
  lemma DigitAfterCount(v: int, c: int)
    requires v >= 0 && v % 10 == 0 && 0 <= c <= 8
    ensures !IsMine(v + c) && Digit(v + c) == c
    ensures GetCellInfo(v + c).state == GetCellInfo(v).state
  {
  }

  // ---- The meaning of a well-formed value ----

  /** What the low digit means: a mine, or the number of neighbouring mines. */
  datatype Content = MineHere | Count(n: nat)

  datatype Cell = Cell(state: CellState, content: Content)

  predicate WellFormed(c: Cell)
  {
    c.content.Count? ==> c.content.n <= 8
  }

  function ContentDigit(content: Content): int
  {
    match content
    case MineHere => TypeCode(Mine)
    case Count(n) => n
  }

  function Encode(c: Cell): (v: int)
    requires WellFormed(c)
    ensures 10 <= v <= 39
  {
    StateCode(c.state) + ContentDigit(c.content)
  }

  /** The cell a value stands for; every value of the three bands stands for one. */
  function Decode(v: int): (c: Option<Cell>)
    ensures c.Some? <==> 10 <= v <= 39
    ensures c.Some? ==> WellFormed(c.value) && Encode(c.value) == v
  {
    if 10 <= v <= 39 then
      var info := GetCellInfo(v);
      Some(Cell(StateOf(info.state).value,
                if info.kind == Mine then MineHere else Count(info.modulo)))
    else None
  }

  lemma DecodeEncode(c: Cell)
    requires WellFormed(c)
    ensures Decode(Encode(c)) == Some(c)
  {
  }

  function Reveal(c: Cell): Cell
  {
    if c.state == Hidden then c.(state := Revealed) else c
  }

  function ToggleFlag(c: Cell): Cell
  {
    match c.state
    case Revealed => c
    case Flagged => c.(state := Hidden)
    case Hidden => c.(state := Flagged)
  }

  function Increment(c: Cell): Cell
    requires WellFormed(c) && (c.content.Count? ==> c.content.n < 8)
  {
    match c.content
    case MineHere => c
    case Count(n) => c.(content := Count(n + 1))
  }

  /** `revealCell` on the integer is `Reveal` on the cell it stands for. */
  lemma RevealAgrees(v: int)
    requires Decode(v).Some?
    ensures Decode(RevealCell(v)) == Some(Reveal(Decode(v).value))
  {
  }

  /** `flagCell` on the integer is `ToggleFlag` on the cell it stands for. */
  lemma FlagAgrees(v: int)
    requires Decode(v).Some?
    ensures Decode(ToggleFlagValue(v)) == Some(ToggleFlag(Decode(v).value))
  {
  }

  /** `incrementCell` on the integer is `Increment` on the cell, below a count of 8. */
  lemma IncrementAgrees(v: int)
    requires Decode(v).Some?
    requires Decode(v).value.content.Count? ==> Decode(v).value.content.n < 8
    ensures Decode(IncrementCell(v)) == Some(Increment(Decode(v).value))
  {
  }
}
