# Brewing log table: cell rules and contrast colour, in Dafny

The brewing log is a web page that shows a fixed list of home-brew records in a
sortable table. This project models the two parts of it that follow rules:

- **getContrastTextColor** (`contrast_text_color.dfy`, module `ContrastTextColor`).
  It drops the first character of a CSS colour, reads the rest with
  `parseInt(…, 16)`, and splits the number into red, green and blue bytes with
  shifts and `& 0xff`. It then returns black text (`"#000000"`) when the luminance
  `0.2126 r + 0.7152 g + 0.0722 b` is above 140, and white text (`"#FFFFFF"`)
  otherwise. These weights are the relative-luminance coefficients of WCAG 2.x and
  ITU-R BT.709, applied here to raw 0–255 channel values with no gamma step.
- **The table's cell rules** (`brewing_log.dfy`, module `BrewingLog`).
  - The default cell renderer shows `"-"` for `null`, `undefined` and anything
    loosely equal (`==`) to `""`, and `String(value)` for everything else.
  - The SRM cell shows `"-"` for a falsy value. Otherwise it shows the value on its
    colour from the SRM colour table, with the contrasting text colour.
  - The date cells apply `formatDate`'s falsy guard.
  - The column table has twelve columns. Rendering a row goes column by column, and
    rendering the body goes row by row.
  - Each header shows one sort arrow.

Two supporting modules give the JavaScript semantics that these rules depend on:

- `js_values.dfy` (`JsValues`) covers primitive values and ToBoolean, and
  `IsLooselyEqual(v, "")`. It also has `Number::toString` and `String(v)`,
  `ToInt32`, and a `Completion` type for a render that throws.
- `parse_int.dfy` (`JsParseInt`) covers `parseInt(s, 16)`. It skips leading
  white space, takes one sign, drops a `0x`/`0X` prefix, and reads the longest run
  of hexadecimal digits. With no digit, the result is NaN.

Some consequences of the code that the model keeps:

- OG and FG go through the default renderer like every other plain column, so they
  are shown with `String(value)` and no fixed number of decimals.
- No column sets a style of its own.
- A SRM value with no colour in the table throws.
- A date string that does not parse is passed to the locale formatter, which gives
  "Invalid Date". It does not become the placeholder.
- Through `==`, the number 0 (and `false`) shows as `"-"` in every default column.

The luminance is computed on exact reals. `GetContrastTextColor` proves that the
comparison is the same as `2126 r + 7152 g + 722 b > 1400000` on the decoded bytes.

## Model

| member | source | states |
|---|---|---|
| `JsValues.Truthy` | src/components/BrewingLog/BrewingLog.tsx:23 | `!value` holds exactly for null, undefined, NaN and the values loosely equal to `""` |
| `JsValues.IsNullish` | src/components/BrewingLog/BrewingLog.tsx:48 | no value with `value == null` is also loosely equal to `""`: the two tests of the guard are disjoint |
| `JsValues.LooselyEqualsEmptyString` | src/components/BrewingLog/BrewingLog.tsx:48 | `value == ""` holds exactly for `""`, `false` and the numeric zeros: ToNumber coercion lets 0 and false through |
| `JsValues.NumberToString` | src/components/BrewingLog/BrewingLog.tsx:52 | String of a Number (`Number::toString`) is never empty and never the placeholder `"-"` |
| `JsValues.PositiveToString` | src/components/BrewingLog/BrewingLog.tsx:52 | the decimal, fixed-point or exponential form of a positive Number starts with a digit |
| `JsValues.IntegerToString` | src/components/BrewingLog/BrewingLog.tsx:52 | an integer below 10^21 in magnitude is printed as its decimal numeral, with a minus sign when negative |
| `JsValues.ToJsString` | src/components/BrewingLog/BrewingLog.tsx:52 | `String(value)` returns a string unchanged and never gives `""` or `"-"` for a non-string |
| `JsValues.ToInt32` | src/utils/getContrastTextColor.ts:5-7 | the operand conversion of `>>` and `&`: a signed 32-bit value congruent to the truncated number modulo 2^32, 0 for NaN and infinities |
| `JsParseInt.ParseHex` | src/utils/getContrastTextColor.ts:4 | a string of w hexadecimal digits denotes a number below 16^w |
| `JsParseInt.ParseHexToHex` | src/utils/getContrastTextColor.ts:4 | reading back the w hexadecimal digits of a number below 16^w gives the number |
| `JsParseInt.ParseHexAppend` | src/utils/getContrastTextColor.ts:4 | the value of concatenated digit strings is the first value shifted by the length of the second plus the second value |
| `JsParseInt.TrimStart` | src/utils/getContrastTextColor.ts:4 | parseInt first removes exactly the leading JavaScript white space and line terminators |
| `JsParseInt.HexPrefix` | src/utils/getContrastTextColor.ts:4 | the digits read are the longest prefix of hexadecimal digits |
| `JsParseInt.StripSign` | src/utils/getContrastTextColor.ts:4 | one leading "-" or "+" is dropped, and the sign is negative exactly when the text starts with "-" |
| `JsParseInt.StripRadixPrefix` | src/utils/getContrastTextColor.ts:4 | a leading "0x" or "0X" is dropped and the rest kept; any other text is kept whole |
| `JsParseInt.ReadDigits` | src/utils/getContrastTextColor.ts:4 | the digit step gives NaN exactly when the text after sign and prefix does not start with a hexadecimal digit |
| `JsParseInt.ParseIntHex` | src/utils/getContrastTextColor.ts:4 | `parseInt(c, 16)` is NaN or an integer |
| `JsParseInt.ParseIntHexUnprefixed` | src/utils/getContrastTextColor.ts:4 | text starting with a digit and not with "0x" reads as the value of its longest digit prefix |
| `JsParseInt.ParseIntHexDigits` | src/utils/getContrastTextColor.ts:4 | a string made only of hexadecimal digits is read whole |
| `JsParseInt.ParseIntHexStops` | src/utils/getContrastTextColor.ts:4 | reading stops at the first non-digit, unless a lone "0" and an "x" form a prefix |
| `JsParseInt.ParseIntHexZeroX` | src/utils/getContrastTextColor.ts:4 | a "0x" or "0X" prefix is skipped before the digits are read |
| `JsParseInt.ParseIntHexNegative` | src/utils/getContrastTextColor.ts:4 | a leading minus sign negates the value of the digits that follow |
| `JsParseInt.ParseIntHexNoDigit` | src/utils/getContrastTextColor.ts:4 | any text without a hexadecimal digit, the empty string included, reads as NaN |
| `ContrastTextColor.DropFirst` | src/utils/getContrastTextColor.ts:3 | `hex.substring(1)` is the input without its first character, and empty for empty input |
| `ContrastTextColor.ShiftRight` | src/utils/getContrastTextColor.ts:5-6 | `x >> k` is the integer q with q·2^k ≤ x < (q + 1)·2^k: it rounds toward minus infinity |
| `ContrastTextColor.LowByte` | src/utils/getContrastTextColor.ts:5-7 | `& 0xff` keeps a byte congruent to its operand modulo 256 |
| `ContrastTextColor.Channels` | src/utils/getContrastTextColor.ts:5-7 | each channel lies in 0..255, and red·65536 + green·256 + blue is the low 24 bits of ToInt32(rgb) |
| `ContrastTextColor.DecodeColor` | src/utils/getContrastTextColor.ts:3-7 | any string decodes to three bytes |
| `ContrastTextColor.Luminance` | src/utils/getContrastTextColor.ts:10 | 10000 times the luminance is the integer 2126 r + 7152 g + 722 b |
| `ContrastTextColor.GetContrastTextColor` | src/utils/getContrastTextColor.ts:10-12 | the result is `"#000000"` or `"#FFFFFF"`, and it is black exactly when 2126 r + 7152 g + 722 b > 1400000 |
| `ContrastTextColor.LuminanceRange` | src/utils/getContrastTextColor.ts:10 | the luminance of a colour lies in 0..255, with 255 only for white and 0 only for black |
| `ContrastTextColor.FirstCharacterIgnored` | src/utils/getContrastTextColor.ts:3 | the first character is discarded: any two strings differing only there decode and contrast alike |
| `ContrastTextColor.BytesUnique` | src/utils/getContrastTextColor.ts:5-7 | red·65536 + green·256 + blue determines all three bytes |
| `ContrastTextColor.BytesSplitBack` | src/utils/getContrastTextColor.ts:5-7 | three bytes packed as red·65536 + green·256 + blue split back into the same bytes |
| `ContrastTextColor.ThreePairsValue` | src/utils/getContrastTextColor.ts:4 | six digits spell 65536 × first pair + 256 × second pair + third pair |
| `ContrastTextColor.DecodeAfterFirst` | src/utils/getContrastTextColor.ts:3-4 | when everything after the first character is hexadecimal, the whole remainder is parsed and split into bytes |
| `ContrastTextColor.SixDigitColor` | src/utils/getContrastTextColor.ts:3-7 | for any first character followed by three pairs of digits, r, g and b are the three pairs, and r·65536 + g·256 + b is the parsed integer |
| `ContrastTextColor.DecodeHexColor` | src/utils/getContrastTextColor.ts:3-7 | decoding the "#RRGGBB" string of any colour gives that colour back |
| `ContrastTextColor.ContrastOfColor` | src/utils/getContrastTextColor.ts:3-12 | the text colour for "#RRGGBB" is black exactly when that colour's luminance is above 140 |
| `ContrastTextColor.ThresholdIsStrict` | src/utils/getContrastTextColor.ts:10-12 | luminance exactly 140 gives white text |
| `ContrastTextColor.ContrastMonotone` | src/utils/getContrastTextColor.ts:10-12 | raising channels can change white text to black, never black to white |
| `ContrastTextColor.WhiteBackground` | src/utils/getContrastTextColor.ts:3-12 | "#FFFFFF" decodes to 255, 255, 255 and gets black text |
| `ContrastTextColor.BlackBackground` | src/utils/getContrastTextColor.ts:3-12 | "#000000" decodes to 0, 0, 0 and gets white text |
| `ContrastTextColor.AmberExample` | src/utils/getContrastTextColor.ts:3-12 | "#F2A60D" decodes to 242, 166, 13, has luminance 171.111 and gets black text |
| `ContrastTextColor.GreyTieExample` | src/utils/getContrastTextColor.ts:3-12 | "#8C8C8C" has luminance exactly 140 and gets white text |
| `ContrastTextColor.SignedExample` | src/utils/getContrastTextColor.ts:4-7 | a sign is honoured: "#-FF" reads as -255, whose two's-complement bytes are 255, 255, 1 |
| `ContrastTextColor.PrefixedExample` | src/utils/getContrastTextColor.ts:4 | "#0x8C8C8C" decodes like "#8C8C8C" |
| `BrewingLog.GetValue` | src/components/BrewingLog/BrewingLog.tsx:46 | `info.getValue()` is the record's field, and undefined when the record lacks it |
| `BrewingLog.DefaultCell` | src/components/BrewingLog/BrewingLog.tsx:45-53 | the default cell is the placeholder or `String(value)`: null and undefined give the placeholder, and any value neither nullish nor loosely equal to `""` gives `String(value)` |
| `BrewingLog.DefaultPlaceholderValues` | src/components/BrewingLog/BrewingLog.tsx:48-49 | the default cell shows `"-"` exactly for the falsy values other than NaN (undefined, null, false, "", ±0) and for the string "-" |
| `BrewingLog.DefaultCoercions` | src/components/BrewingLog/BrewingLog.tsx:48-52 | 0, false, "", null and undefined give `"-"`; NaN gives "NaN" |
| `BrewingLog.DefaultDecimalExample` | src/components/BrewingLog/BrewingLog.tsx:52 | the Number 1.050 is shown as "1.05": no fixed number of decimals and no trailing zeros |
| `BrewingLog.DefaultShowsValue` | src/components/BrewingLog/BrewingLog.tsx:52 | a non-empty string is shown unchanged, and a non-zero integer below 10^21 in magnitude as its decimal numeral |
| `BrewingLog.SrmCellOf` | src/components/BrewingLog/BrewingLog.tsx:20-42 | a falsy value gives `"-"`; a truthy value with a colour gives the value on `srmColors[value]` with text `getContrastTextColor(srmColors[value])`, which is black or white; it throws exactly when a truthy value has no colour |
| `BrewingLog.SrmFalsyIgnoresTable` | src/components/BrewingLog/BrewingLog.tsx:23-25 | a falsy SRM value gives `"-"` whatever the colour table holds |
| `BrewingLog.SrmThrowsIff` | src/components/BrewingLog/BrewingLog.tsx:27-29 | the SRM cell throws exactly when the value is truthy and the table has no colour for it |
| `BrewingLog.SrmSwatchContrast` | src/components/BrewingLog/BrewingLog.tsx:27-39 | for any colour string in the table, a truthy value is shown on that string, in black text exactly when the bytes it decodes to satisfy 2126 r + 7152 g + 722 b > 1400000 |
| `BrewingLog.SrmHexSwatchContrast` | src/components/BrewingLog/BrewingLog.tsx:27-39 | for a colour written "#RRGGBB", black text exactly when that colour's luminance exceeds 140 |
| `BrewingLog.SrmAmberExample` | src/components/BrewingLog/BrewingLog.tsx:27-39 | SRM 10 on "#F2A60D" is shown with black text |
| `BrewingLog.DateCellOf` | src/utils/formatDate.ts:1-9 | a date cell shows `"-"` exactly for a falsy value and hands any other value to the locale formatter |
| `BrewingLog.RenderCell` | src/components/BrewingLog/BrewingLog.tsx:150 | a column without a renderer of its own uses the default one, the srm column shows the SRM cell, the date columns show the date cell, and only the SRM renderer can throw |
| `BrewingLog.RenderCells` | src/components/BrewingLog/BrewingLog.tsx:145-152 | a row renders when all its cells do, with one cell per column in column order |
| `BrewingLog.RenderBody` | src/components/BrewingLog/BrewingLog.tsx:137-155 | the body renders when all rows do, one rendered row per record in the given order |
| `BrewingLog.ColumnTable` | src/components/BrewingLog/BrewingLog.tsx:56-84 | twelve columns with distinct keys in the fixed order; only srm (SRM renderer), brewDate and bottleDate (date renderer) have their own cells |
| `BrewingLog.RowCustomCells` | src/components/BrewingLog/BrewingLog.tsx:145-152 | in a rendered row the srm cell is the SRM renderer's swatch or placeholder for the record's srm field, and the two date cells are the date renderer's output |
| `BrewingLog.RowRendersIff` | src/components/BrewingLog/BrewingLog.tsx:138-154 | a record's row renders exactly when its SRM value is falsy or has a colour |
| `BrewingLog.BodyRendersIff` | src/components/BrewingLog/BrewingLog.tsx:138-154 | the body renders exactly when every record's SRM value is falsy or has a colour |
| `BrewingLog.SortIcons` | src/components/BrewingLog/BrewingLog.tsx:121-129 | the three conditionals show exactly one icon: the one that matches the sort state |
| `BrewingLog.IsSortedValue` | src/components/BrewingLog/BrewingLog.tsx:106 | `getIsSorted()` equals "asc" only when sorted up, "desc" only when sorted down, and is falsy only when unsorted |
| `BrewingLog.HeaderRow` | src/components/BrewingLog/BrewingLog.tsx:103-135 | one header per column, with its label and the one icon for its sort state |
| `BrewingLog.HeaderIndicators` | src/components/BrewingLog/BrewingLog.tsx:121-129 | up exactly for "asc", down exactly for "desc", neutral exactly when unsorted |

## Left out

- Sorting, the sort-state toggle cycle and the row order are all implemented inside
  the table library, which is not part of this model. Rows arrive in the order the
  library gives them, and each column's sort state is a parameter (`sortOf`).
- `formatDate` beyond its falsy guard: `new Date(value).toLocaleDateString("nl-NL")`
  is kept as the uninterpreted cell `LocaleDate(value)`. For a string that does not parse,
  it gives "Invalid Date" rather than throwing, so the `catch` is not modelled.
- The contents of the SRM colour table are not part of this model. It is a parameter
  mapping property keys to colour strings. A missing key yields `undefined`, which
  makes `getContrastTextColor` throw a TypeError. The model reports that as
  `Throw(TypeError)`.
- Floating point: the luminance is computed on exact reals. The exact luminance of a
  byte triple is a multiple of 1/10000, so double rounding can only matter where it is
  exactly 140. There the model gives white. Double rounding of `parseInt` results
  above 2^53 (more than thirteen hexadecimal digits) is not modelled.
- `ContrastTextColor.DropFirst`: strings are sequences of Unicode scalar values,
  while `substring` counts UTF-16 code units. The two differ only when the first
  character lies outside the Basic Multilingual Plane.
- `JsValues.NumberToString`: a finite Number is given as the shortest decimal that
  denotes it. That holds for every literal in the normal range of doubles with at most
  fifteen significant digits, but the model does not derive it from a binary double.
- Objects, arrays, BigInt and Symbol values in cells, and objects' `toPrimitive`, are
  not modelled. The model assumes that the records hold only primitive values; the
  record data (`@/data/brewingLog`) is not part of this model.
- JSX, CSS classes, React state and rendering, and the page and layout files
  (src/templates/Main.tsx, src/pages/index.tsx, src/app/page.tsx) are presentation
  only.
