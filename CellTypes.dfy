/**
 * The two enumerations that fix the numeric encoding of a cell
 * (src/modules/cell/cell.types.ts): the state is the tens band of the
 * encoded value, the type is told by its low digit.
 */
module CellTypes {
  import opened Wrappers

  datatype CellState = Hidden | Revealed | Flagged

  datatype CellType = Neutral | Mine

  /** The enum value of a state: 10, 20 or 30. */
  function StateCode(s: CellState): (code: int)
    ensures code % 10 == 0 && 10 <= code <= 30
  {
    match s
    case Hidden => 10
    case Revealed => 20
    case Flagged => 30
  }

  /** The state whose enum value is `code`, if there is one. */
  function StateOf(code: int): (s: Option<CellState>)
    ensures s.Some? <==> code == 10 || code == 20 || code == 30
    ensures s.Some? ==> StateCode(s.value) == code
  {
    if code == 10 then Some(Hidden)
    else if code == 20 then Some(Revealed)
    else if code == 30 then Some(Flagged)
    else None
  }

  /** The enum value of a type; for a mine it is also the digit stored in the cell. */
  function TypeCode(t: CellType): (code: int)
    ensures t == Mine <==> code == 9
  {
    match t
    case Neutral => 1
    case Mine => 9
  }

  /** The state codes are distinct multiples of ten, so they can share one integer with a digit. */
  lemma StateCodesDistinct(s: CellState, t: CellState)
    ensures StateOf(StateCode(s)) == Some(s)
    ensures s != t ==> StateCode(s) != StateCode(t)
  {
  }

  /**
   * The offsets the transitions rely on: revealing adds the distance from
   * Hidden to Revealed, flagging adds (or removes) the distance from Hidden
   * to Flagged; the mine digit is none of the counts 0 to 8.
   */
  lemma BandOffsets()
    ensures StateCode(Revealed) - StateCode(Hidden) == 10
    ensures StateCode(Flagged) - StateCode(Hidden) == 20
    ensures TypeCode(Mine) > 8
  {
  }
}
