/** What the display code paints with: character cells. */
module Screen {
  /** Buffers never hold NUL: they are cleared to blanks, and text is made printable first. */
  type Glyph = x: int | 1 <= x < 256 witness 32
  type Colour = x: int | 0 <= x < 256

  datatype Cell = Cell(character: Glyph, colour: Colour)

  const BLANK: Glyph := 32
}
