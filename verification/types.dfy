/**
 * Basic types shared by the LED-to-key mapping and the layer-colour renderer:
 * 8-bit unsigned integers, matrix key positions with the "unmapped" sentinel,
 * RGB triplets and an option type.
 */
module Types {

  /** The firmware's `uint8_t`. */
  newtype uint8 = x: int | 0 <= x < 0x100

  /** Value of a layout cell that has no LED mounted behind it. */
  const NO_LED: uint8 := 0xFF

  /** A key position `(row, col)` in the keyboard matrix (`keypos_t`). */
  datatype KeyPos = KeyPos(row: uint8, col: uint8)

  /** The position recorded for an LED that lights no key. */
  const UNMAPPED: KeyPos := KeyPos(0xFF, 0xFF)

  /** The renderer treats a key as unmapped when EITHER coordinate is 0xFF. */
  predicate IsUnmapped(k: KeyPos) {
    k.row == 0xFF || k.col == 0xFF
  }

  /** One RGB triplet of the baked colour table. */
  datatype Rgb = Rgb(r: uint8, g: uint8, b: uint8)

  datatype Option<+T> = None | Some(value: T)
}
