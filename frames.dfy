/** The cells of a pandas frame read from a `;`-separated CSV, as the two
    categorisers see them. */
module Frames {
  /** A cell: missing (pandas' NaN, what an empty field reads as) or text. */
  datatype Cell = NaN | Str(text: string)

  /** A cell inside an f-string: the missing value prints as `nan`. */
  function Render(c: Cell): string {
    if c.NaN? then "nan" else c.text
  }
}
