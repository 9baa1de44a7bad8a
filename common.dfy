/** Shared vocabulary: the optional value, the fixed-width integers the program
    stores, and the terminal rectangle every component is sized by. */
module Common {

  datatype Option<+T> = None | Some(value: T)

  /** `u8`: one colour channel of a pixel, and the store's write cursor. */
  newtype u8 = x: int | 0 <= x < 0x100

  /** `u16`: terminal cell coordinates and sizes. */
  newtype u16 = x: int | 0 <= x < 0x1_0000

  const U16Max: int := 0xFFFF

  /** A rectangle of terminal cells; two rectangles are equal when all four
      fields are. */
  datatype Rect = Rect(x: u16, y: u16, width: u16, height: u16)

  /** `a.saturating_add(b)` on `u16`. */
  function SaturatingAdd(a: u16, b: u16): (r: int)
    ensures r <= U16Max
    ensures r == a as int + b as int || (r == U16Max && a as int + b as int > U16Max)
  {
    if a as int + b as int > U16Max then U16Max else a as int + b as int
  }

  /** The first column past the rectangle, saturated at the largest `u16`. */
  function Right(area: Rect): int
  {
    SaturatingAdd(area.x, area.width)
  }

  /** The first row below the rectangle, saturated at the largest `u16`. */
  function Bottom(area: Rect): int
  {
    SaturatingAdd(area.y, area.height)
  }

  /** Whether the cell at column `x`, row `y` lies inside `area`. */
  predicate Contains(area: Rect, x: int, y: int)
  {
    area.x as int <= x < Right(area) && area.y as int <= y < Bottom(area)
  }
}
