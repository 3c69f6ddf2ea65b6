/**
 * JavaScript strings as the hash sees them: sequences of UTF-16 code units,
 * the values `String.prototype.charCodeAt` returns one at a time and the
 * units `length` counts.
 */
module JsStrings {

  /** One UTF-16 code unit, 0 .. 0xFFFF. */
  type CodeUnit = c: int | 0 <= c < 0x1_0000

  /** A JavaScript string value. */
  type JsString = seq<CodeUnit>

  const HYPHEN: CodeUnit := '-' as int
  /** The separator between date and time in an ISO 8601 date-time string. */
  const LATIN_T: CodeUnit := 'T' as int
  const COLON: CodeUnit := ':' as int
  const FULL_STOP: CodeUnit := '.' as int
  /** The UTC designator. */
  const LATIN_Z: CodeUnit := 'Z' as int
  const DIGIT_ZERO: CodeUnit := '0' as int
}
