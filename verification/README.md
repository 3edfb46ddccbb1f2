# ColorMaster core in Dafny

This project models the exactly computable core of ColorMaster, a
TypeScript colour library. Every channel is a Dafny `real`, that is, an exact
rational, so conversions, clamping and rounding are stated without floating
point error. The core has five parts.

1. **Numeric utilities** (`Numeric`, `Matrix`):
   - `clamp`, `round` (a negative precision leaves the value as it is), `adjustHue` (floored modulo 360) and `adjustAlpha` (a missing alpha is 1, otherwise clamped to [0, 1]);
   - `channelWiseDifference`;
   - `multiplyMatrix`, a matrix times a vector.
2. **Rational colour-space conversions** (`Colors`, `RgbConversions`, `Cmyk`, `Hwb`):
   - RGB to HSL, HSV, HWB and CMYK;
   - CMYK to RGB, the naive uncalibrated conversion of CSS Color Module Level 4 ("Naively Converting Between Uncalibrated CMYK and sRGB-Based Colors");
   - HWB to RGB through HSV, the "hue sector" formula;
   - round trips: RGB to CMYK to RGB, RGB to HSV to RGB and RGB to HWB to RGB are each the identity on [0, 255]³.
3. **Input canonicalisation** of `RGBAFrom`, `HSLAFrom` and `HEXAFrom` (`Text`, `Input`):
   - the dispatch on object, array, string or separate-argument input;
   - removal of the CSS wrapper tokens (`rgb(`, `rgba(`, `hsl(`, `hsla(`, `(`, `)`, `%`), then splitting on commas and converting each piece with `Number(...)`, for decimal literals;
   - the hex paths: comma lists, `\w\w` pair splitting of long `#` bodies, doubling of short ones, and the opaque-black default.
4. **The HSLA record and its mutators** (`HslColors`), as the HSL test suite fixes them:
   - construction with defaults and bounding;
   - `changeValueTo` / `changeValueBy`;
   - hue, alpha, saturation and lightness setters, including the fractional-delta rule;
   - `invert`, `grayscale`, `rotate`;
   - per-channel rendering precision.
5. **Rational accessibility predicates** (`Accessibility`):
   - brightness after the colour-contrast technique of W3C AERT, and `isLight` / `isDark`;
   - `equalTo`;
   - `isTinted`, `isShaded`, `isToned`, `isPureHue` and `closestPureHue`.

Most of the original bodies are only declared in `.d.ts` files. For those, each model follows the algorithm that the doc comment cites:
- the rapidtables min/max formulas for HSL and HSV;
- the Wikipedia HWB reparameterisation of HSV;
- CSS Color Module Level 4 for CMYK.

The doc-comment example vectors (`(200, 150, 100)` in HSV, HWB and CMYK) and the HSL test suite's expectations are proved as lemmas.

Design notes:
- `createColorArrFromStr` in utils/string is not part of this model. Its behaviour is reconstructed from how `src/index.ts` calls it: remove every match of the given regular expression (leftmost-first, as a JavaScript global `replace` does), split on `,`, convert each piece with `Number`.
- `Number` is modelled for decimal literals:
  - optional sign, digits, optional `.` and fraction;
  - trimmed of JavaScript white space and line terminators (tab, vertical tab, form feed, line feed, carriage return, BOM, U+2028, U+2029 and every Unicode space separator), the same set the regular-expression class `\s` matches;
  - a blank string gives 0;
  - anything else gives `NaN`.
- Dafny strings hold Unicode scalar values, while JavaScript's `length` counts UTF-16 code units. The six-or-more test on a `#` body (src/index.ts:150) is therefore made on `Text.Utf16Length`, which counts two for a character beyond the Basic Multilingual Plane.
- The `RGBColors`, `HSLColors` and `HEXColors` classes are not part of this model. Following the note at src/index.ts:17-18, a missing or `NaN` h, s, l, r, g or b becomes 0 and a missing or `NaN` alpha becomes 1.
  - Hue is reduced with `adjustHue`.
  - s and l are clamped to [0, 100], r, g and b to [0, 255], and alpha to [0, 1].
  - The tests at tests/hsl.spec.ts:42-48 fix this behaviour.
- `invert` is modelled on the HSL record directly:
  - hue turns by 180 and lightness becomes 100 − l;
  - alpha becomes 1 − a unless alpha is excluded;
  - this matches the tests at tests/hsl.spec.ts:176-179.
- `isPureHue` follows its doc comment as written: a truthy `reason` yields the plain boolean and a falsy one yields the `{ pure, reason }` object. The reason is the first of tinted, shaded and toned that applies.
- Colour names are looked up in a `names` map given as a parameter. A CSS name that the map lacks gives `None`, which stands for the `TypeError` the original throws in that case.

## Model

| member | source | states |
|---|---|---|
| Numeric.Clamp | utils/numeric.d.ts:2-10 | The result lies in [min, max] when min ≤ max; an in-range value is returned unchanged; values below min give min and values above max give max |
| Numeric.ClampIdempotent | utils/numeric.d.ts:2-10 | Clamping an already clamped value changes nothing |
| Numeric.Round | utils/numeric.d.ts:11-19 | A negative precision returns the value unchanged; otherwise the result is n / 10^p, where n is the JavaScript `Math.round` of v·10^p |
| Numeric.RoundExact | utils/numeric.d.ts:11-19 | A value that already has at most p decimal places is unchanged by rounding to p places |
| Numeric.RoundIdempotent | utils/numeric.d.ts:11-19 | Rounding twice to the same precision is rounding once |
| Numeric.RoundMonotone | utils/numeric.d.ts:11-19 | Rounding preserves order |
| Numeric.RoundWithin | utils/numeric.d.ts:11-19 | A value between two integers stays between them after rounding, at any precision |
| Numeric.RoundExamples | tests/hsl.spec.ts:79-82 | 60.35→60.4, 60.2342→60.23, 0.654321→0.654 at 3 places and 0.7 at 1, 190.032→190 at 0 places and unchanged at −1 |
| Numeric.AdjustHue | utils/numeric.d.ts:20-26 | The result is in [0, 360) and differs from the input by a whole number of turns; it is the identity on [0, 360); an integral input gives an integer in [0, 359] |
| Numeric.AdjustHueUnique | utils/numeric.d.ts:20-26 | Any y in [0, 360) congruent to x modulo 360 is adjustHue(x), so the result is the unique such value |
| Numeric.AdjustHuePeriodic | utils/numeric.d.ts:20-26 | adjustHue(x + 360k) = adjustHue(x) for every integer k |
| Numeric.AdjustHueIdempotent | utils/numeric.d.ts:20-26 | Adjusting an adjusted hue changes nothing |
| Numeric.AdjustHueAddLeft | utils/numeric.d.ts:20-26 | Adding to an adjusted hue and adjusting again equals adjusting the plain sum |
| Numeric.AdjustHueExamples | tests/hsl.spec.ts:47 | −232→128, 360→0, −360→0, 370→10 |
| Numeric.AdjustAlpha | utils/numeric.d.ts:27-35 | The result is in [0, 1]; a missing alpha gives 1; an in-range alpha is kept; below 0 gives 0 and above 1 gives 1 |
| Numeric.ChannelWiseDifference | utils/numeric.d.ts:67-74 | The sum of absolute channel differences is non-negative and is 0 exactly when the arrays are equal |
| Numeric.ChannelWiseDifferenceSymmetric | utils/numeric.d.ts:67-74 | Swapping the two arrays does not change the difference |
| Numeric.ChannelWiseDifferenceRgb | utils/numeric.d.ts:67-74 | For two RGB triples the difference is \|r1−r2\| + \|g1−g2\| + \|b1−b2\| |
| Matrix.MultiplyMatrix | utils/matrix.d.ts:1-12 | The result has one entry per matrix row, and entry i is the dot product of row i with the vector |
| Matrix.MultiplyThree | utils/matrix.d.ts:1-12 | For a 3×3 matrix each of A, B, C is written out as M[i][0]·arr[0] + M[i][1]·arr[1] + M[i][2]·arr[2] |
| Matrix.MultiplyIdentity | utils/matrix.d.ts:1-12 | The identity matrix maps every vector to itself |
| Matrix.MultiplyZero | utils/matrix.d.ts:1-12 | The zero vector maps to the zero vector |
| Matrix.MultiplyAdditive | utils/matrix.d.ts:1-12 | M(x + y) = Mx + My |
| Matrix.MultiplyHomogeneous | utils/matrix.d.ts:1-12 | M(k·x) = k·Mx |
| RgbConversions.Hue | conversions/rgb.d.ts:3-14 | The min/max hue lies in [0, 360) and is 0 for achromatic input |
| RgbConversions.RgbToHsl | conversions/rgb.d.ts:3-6 | For channels in [0, 255]: h in [0, 360), s and l in [0, 100], alpha copied, l = 100·(max+min)/510, and achromatic input gives h = s = 0 and l = 100·r/255 |
| RgbConversions.RgbToHslChroma | conversions/rgb.d.ts:3-6 | The HSL chroma S·(100 − \|2L − 100\|)/100 equals 100·(max − min)/255, which with the lightness fixes the saturation of every chromatic colour |
| RgbConversions.HslBlackWhite | conversions/rgb.d.ts:3-6 | Black maps to (0, 0, 0) and white to (0, 0, 100) |
| RgbConversions.HslAchromatic | conversions/rgb.d.ts:3-6 | Every grey (x, x, x) maps to (0, 0, 100·x/255) with its alpha |
| RgbConversions.RgbToHsv | conversions/rgb.d.ts:7-10 | Hue in [0, 360), alpha copied, v = 100·max/255, s = 0 for achromatic input and s = 100·(max−min)/max otherwise |
| RgbConversions.RgbToHsvRange | conversions/rgb.d.ts:7-10 | For channels in [0, 255], s and v are percentages |
| RgbConversions.HsvToHwb | conversions/rgb.d.ts:11-14 | Hue and alpha are kept, b = 100 − v, a grey gives w + b = 100 and full saturation gives w = 0 |
| RgbConversions.RgbToHwb | conversions/rgb.d.ts:11-14 | Hue in [0, 360) and alpha copied |
| RgbConversions.RgbToHwbRange | conversions/rgb.d.ts:11-14 | For channels in [0, 255], w and b are percentages with w + b ≤ 100 |
| RgbConversions.RgbToHwbMinMax | conversions/rgb.d.ts:11-14 | w = 100·min/255 and b = 100 − 100·max/255 |
| RgbConversions.SharedHue | conversions/rgb.d.ts:3-14 | HSL, HSV and HWB all report the same hue |
| RgbConversions.RgbToCmyk | conversions/rgb.d.ts:42-46 | Alpha copied, k = 100 − 100·max/255, and black gives c = m = y = 0, k = 100 without dividing by zero |
| RgbConversions.RgbToCmykRange | conversions/rgb.d.ts:42-46 | For channels in [0, 255], all four inks are percentages |
| RgbConversions.HsvExample | plugins/hsv.d.ts:12 | (200, 150, 100, 0.7) maps to (30, 50, 100·200/255, 0.7) |
| RgbConversions.HwbExample | plugins/hwb.d.ts:12 | (200, 150, 100, 0.7) maps to (30, 100·100/255, 100·55/255, 0.7) |
| RgbConversions.CmykExample | plugins/cmyk.d.ts:13 | (200, 150, 100, 0.7) maps to (0, 25, 50, 100·55/255, 0.7) |
| Cmyk.CmykToRgb | conversions/cmyk.d.ts:2-6 | Alpha copied; k = 100 gives black whatever c, m, y are; all inks 0 give white |
| Cmyk.CmykToRgbRange | conversions/cmyk.d.ts:2-6 | Inks in [0, 100] give channels in [0, 255] |
| Cmyk.CmykRoundTrip | conversions/cmyk.d.ts:2-6 | CMYKtoRGB(RGBtoCMYK(x)) = x for every x in [0, 255]³ |
| Cmyk.CmykExample | plugins/cmyk.d.ts:13 | (0, 25, 50, 100·55/255) maps back to (200, 150, 100) |
| Hwb.HsvToRgb | conversions/hwb.d.ts:2-5 | Alpha copied, v = 0 gives black, and s = 0 gives the grey 255·v/100 |
| Hwb.HsvToRgbMaxMin | conversions/hwb.d.ts:2-5 | For s, v in [0, 100] the channels are in [0, 255], max = 255·v/100 and min = 255·v/100·(1 − s/100) |
| Hwb.HwbToHsv | conversions/hwb.d.ts:2-5 | For w + b ≤ 100: hue and alpha kept, v = 100 − b, and w = 0 gives full saturation except for black |
| Hwb.HwbToHsvRange | conversions/hwb.d.ts:2-5 | s and v are percentages and v − chroma equals the whiteness |
| Hwb.HwbToRgb | conversions/hwb.d.ts:2-5 | Alpha copied and b = 100 gives black |
| Hwb.HwbToRgbMaxMin | conversions/hwb.d.ts:2-5 | Channels in [0, 255], max = 255·(100 − b)/100, min = 255·w/100; w = b = 0 gives max 255 and min 0 |
| Hwb.HwbToHsvInverse | conversions/hwb.d.ts:2-5 | Converting RGB to HWB and then to HSV gives exactly RGB to HSV |
| Hwb.HsvRoundTrip | conversions/rgb.d.ts:7-10 | HSV to RGB undoes RGB to HSV for every colour in [0, 255]³ |
| Hwb.HwbRoundTrip | conversions/hwb.d.ts:2-5 | HWBtoRGB(RGBtoHWB(x)) = x for every x in [0, 255]³ |
| Hwb.HwbExample | plugins/hwb.d.ts:12 | (30, 100·100/255, 100·55/255, 0.7) maps back to (200, 150, 100, 0.7) |
| Text.Split | src/index.ts:146 | `split(",")` yields one more piece than there are separators, and no piece holds the separator |
| Text.JoinSplit | src/index.ts:146 | Joining the pieces with the separator gives the string back |
| Text.SplitJoin | src/index.ts:146 | Splitting a join of separator-free pieces gives the pieces back |
| Text.StripWrapper | src/index.ts:56 | After removing `name(`, `namea(`, `(`, `)` (and `%` when asked) no parenthesis, nor `%`, remains, and the string does not grow |
| Text.StripClean | src/index.ts:56 | A string with nothing to remove is unchanged |
| Text.StripIdempotent | src/index.ts:97-102 | Stripping twice is stripping once |
| Text.StripFunctional | src/index.ts:56 | `name(body)`, `namea(body)` and `(body)` all strip to what the bare body strips to |
| Text.StripParenFree | src/index.ts:102 | A parenthesis-free string loses only its `%` signs (or nothing, for RGB) |
| Text.Erase | src/index.ts:146 | Removing every match of a one-character class leaves no match and does not grow the string |
| Text.EraseAcrossJoin | src/index.ts:102 | Removing `%` from comma-joined pieces removes it from each piece and keeps the commas |
| Text.ParseNumber | src/index.ts:56 | A blank string is 0; in the modelled decimal fragment, a finite result comes from a trimmed string of digits, `.` and a sign |
| Text.ParseNatToString | src/index.ts:56 | The decimal text of n, with or without a leading `-`, converts to n or −n |
| Text.ParseDecimal | src/index.ts:56 | "w.f" converts to the whole part plus the fraction digits' value |
| Text.ParsePadded | src/index.ts:56 | A leading or trailing space does not change the number |
| Text.ParseExampleWhole | src/index.ts:70-71 | "50.2" converts to 50.2 |
| Text.ParseExampleSpaced | src/index.ts:72 | " 0.5" converts to 0.5 |
| Text.ParseDigits | src/index.ts:56 | A string of digits converts to the whole number it denotes |
| Text.ParseExampleHue | tests/hsl.spec.ts:34 | "128" converts to 128 |
| Text.ParseExampleFifty | tests/hsl.spec.ts:34 | " 50" converts to 50 |
| Text.ParseExampleSixty | tests/hsl.spec.ts:34 | " 60" converts to 60 |
| Text.ParseExampleAlpha | tests/hsl.spec.ts:34 | " 0.7" converts to 0.7 |
| Text.ParseOddExamples | src/index.ts:56 | "" converts to 0, and "abc" and "5%" convert to NaN |
| Text.WordPairs | src/index.ts:150 | `match(/\w\w/g)` yields pieces of two word characters each, at most half as many as the body's length |
| Text.WordPairsEmpty | src/index.ts:150-151 | No pairs are found exactly when no two adjacent word characters exist |
| Text.WordPairsCut | src/index.ts:150 | On a body of word characters the pairs number ⌊n/2⌋ and concatenate to the body without an odd last character |
| Text.Doubled | src/index.ts:150 | Each word character becomes one part of the character repeated twice |
| Text.HexParts | src/index.ts:150-151 | Any parts found are two word characters each; a body whose `length`, in UTF-16 code units, is below 6 yields nothing exactly when it has no word character; a body without word characters yields nothing |
| Text.Utf16Length | src/index.ts:150 | `length` counts at least one and at most two code units per character |
| Text.Utf16LengthWord | src/index.ts:150 | A body of word characters has a `length` equal to its number of characters |
| Text.HexPartsAstral | src/index.ts:150 | "ab" followed by two characters beyond the Basic Multilingual Plane has `length` 6 and is cut in pairs, giving "ab" |
| Text.WordChars | src/index.ts:150 | `match(/\w/g)` keeps only word characters, and a body of word characters comes back whole |
| Text.WordCharsAppend | src/index.ts:150 | Scanning a concatenation scans each part in turn |
| Text.HexPartsShort | src/index.ts:150-151 | A body shorter than 6 characters made of word characters yields each of its characters doubled, in order |
| Text.HexPartsLong | src/index.ts:150-151 | A body whose `length`, in UTF-16 code units, is at least 6 yields nothing exactly when it has no pair of word characters |
| Text.HexPartsExamples | src/index.ts:150 | "abc" gives ["aa", "bb", "cc"] and "66778899" gives ["66", "77", "88", "99"] |
| Input.ParseList | src/index.ts:56 | One number per comma-separated piece, each the `Number` of its piece |
| Input.ParseListJoin | src/index.ts:56 | Joining comma-free pieces and parsing gives each piece's number in order |
| Input.PositionalFour | tests/hsl.spec.ts:44 | Entries beyond the fourth are ignored when destructuring |
| Input.RgbaFrom | src/index.ts:49-61 | Separate arguments are taken as given and an array is read positionally |
| Input.RgbaFormsAgree | src/index.ts:52-57 | Object, array and separate-argument forms of the same channels agree |
| Input.RgbaStringPieces | src/index.ts:56 | `rgb(body)`, `rgba(body)` and the bare body all give the body's comma-separated numbers |
| Input.HslaFrom | src/index.ts:91-109 | A string is a colour name exactly when it is non-empty and only ASCII letters and `\s` characters (JavaScript white space, line terminators and every Unicode space separator); arrays are read positionally |
| Input.HslaFormsAgree | src/index.ts:94-105 | Object, array and separate-argument forms of the same channels agree |
| Input.ParenNotName | src/index.ts:98 | A string holding a parenthesis is never taken for a colour name |
| Input.SpaceSeparatorName | src/index.ts:98 | Letters followed by any Unicode space separator, U+3000 included, take the colour-name path |
| Input.HslaStringPieces | src/index.ts:97-102 | `hsl(body)`, `hsla(body)`, `(body)` and the bare non-name body all give the numbers of the body with `%` removed |
| Input.HslaShortList | tests/hsl.spec.ts:43 | "128, 50%" reads as h = 128 and s = 50 with l and alpha missing |
| Input.HslaFullList | tests/hsl.spec.ts:34-36 | "hsl(128, 50%, 60%, 0.7)" and "hsla(128, 50%, 60%, 0.7)" read as 128, 50, 60 and 0.7 |
| Input.FourPieces | src/index.ts:102 | Four comma-free pieces joined by commas fill the four fields with their numbers, in order |
| Input.HexaFrom | src/index.ts:139-155 | A string with neither `,` nor a leading `#` passes through as the first field with the other arguments |
| Input.HexComma | src/index.ts:144-147 | A string with a comma yields at least two fields, none holding a comma, a parenthesis or a `\s` character (the full JavaScript set, U+3000 included) |
| Input.HexHash | src/index.ts:148-151 | The `#` path always yields a first field, and every field it yields has two word characters |
| Input.HexShortDoubled | src/index.ts:148-151 | A `#` body of fewer than 6 word characters yields those characters, each doubled, as the fields in order |
| Input.HexCommaPieces | src/index.ts:144-147 | Comma-joined clean pieces come back as the fields, in order |
| Input.HexCommaBeforeHash | src/index.ts:144-148 | "#66,77,88" takes the comma path and yields "#66", "77", "88" |
| Input.HexLongPairs | src/index.ts:148-150 | A long `#` body of word characters splits into its consecutive pairs, which concatenate back to the body without an odd last character |
| Input.HexShortExample | src/index.ts:150 | "#abc" yields "aa", "bb", "cc" |
| Input.HexLongExample | src/index.ts:118-120 | "#66778899" yields "66", "77", "88", "99" |
| Input.HexDefault | src/index.ts:151 | A comma-free `#` body without word characters, of any length, yields "00", "00", "00", "FF" |
| Input.HexAstralExample | src/index.ts:148-151 | "#ab" followed by two characters beyond the Basic Multilingual Plane yields the single field "ab" |
| HslColors.MakeHsla | tests/hsl.spec.ts:42-48 | The record is always valid; the hue differs from the input by whole turns and is kept in range; s and l are kept in range, 0 below it and 100 above it; alpha is kept in range, 0 below it, 1 above it and 1 when missing |
| HslColors.FromFields | tests/hsl.spec.ts:43 | The record is valid; a missing or `NaN` h, s or l is 0 and a missing or `NaN` alpha is 1; a number in its channel's range is kept |
| HslColors.MakeRgba | src/index.ts:17-18 | The RGB record built from parsed fields is always within bounds |
| HslColors.HslaOf | src/index.ts:91-109 | Any record built is valid, and nothing is built exactly when a CSS name is not in the name table |
| HslColors.MakeHslaKeeps | tests/hsl.spec.ts:12-25 | Constructing from a valid record's own channels gives that record |
| HslColors.NamedIsRgbToHsl | src/index.ts:98-101 | A known name goes through the RGB reading of its table entry and RGB to HSL |
| HslColors.ConstructionForms | tests/hsl.spec.ts:12-25 | Object, array and separate arguments all give (128, 50, 60, 0.7), or alpha 1 when it is left out |
| HslColors.ConstructionBounds | tests/hsl.spec.ts:42-48 | A short array gets l = 0 and a = 1, a fifth entry is ignored, alpha 5 or 128 becomes 1, and hue −232 becomes 128 |
| HslColors.StringConstruction | tests/hsl.spec.ts:34-43 | "128, 50%" gives (128, 50, 0, 1), and "hsl(128, 50%, 60%, 0.7)" and "hsla(128, 50%, 60%, 0.7)" give (128, 50, 60, 0.7) |
| HslColors.SampleConstructed | tests/hsl.spec.ts:6 | HSLAFrom(190, 60, 60, 0.6) is the record every mutator test starts from |
| HslColors.ChangeValueTo | tests/hsl.spec.ts:94-121 | The result is valid, the chosen channel becomes the bounded value, and the other channels of a valid record are unchanged |
| HslColors.ChangeValueToSame | tests/hsl.spec.ts:94-121 | Setting a channel to its current value changes nothing |
| HslColors.ChangeValueToExamples | tests/hsl.spec.ts:94-121 | The twelve expectations of the `changeValueTo` tables |
| HslColors.ChangeValueBy | tests/hsl.spec.ts:124-155 | The result is valid, the chosen channel becomes the bounded sum, and the other channels of a valid record are unchanged |
| HslColors.ChangeValueByBounds | tests/hsl.spec.ts:141-155 | Hue ±360 is a no-op, and ±100 saturates s or l and ±1 saturates alpha, for every valid record |
| HslColors.ChangeValueByExamples | tests/hsl.spec.ts:124-139 | The eight expectations of the unclamped `changeValueBy` table |
| HslColors.HueTo | index.d.ts:44 | Valid result; the hue becomes the value modulo 360, the value itself when it is in [0, 360); a valid record keeps s, l and alpha |
| HslColors.HueBy | index.d.ts:45 | Valid result; the hue moves by delta modulo 360, exactly by delta while in [0, 360); a valid record keeps s, l and alpha |
| HslColors.SaturateBy | index.d.ts:47 | Valid result; s rises by delta, or by 100·delta for delta in [0, 1], when that stays in [0, 100]; a non-negative delta never lowers s; h, l and alpha are kept |
| HslColors.DesaturateBy | index.d.ts:48 | The same with s falling; a non-negative delta never raises s |
| HslColors.LighterBy | index.d.ts:50 | Valid result; l rises by delta, or by 100·delta for delta in [0, 1], when that stays in [0, 100]; a non-negative delta never lowers l; h, s and alpha are kept |
| HslColors.DarkerBy | index.d.ts:51 | The same with l falling; a non-negative delta never raises l |
| HslColors.AlphaTo | index.d.ts:52 | Valid result; alpha becomes the value in [0, 1], 0 below and 1 above; a valid record keeps h, s and l |
| HslColors.AlphaBy | index.d.ts:53 | Valid result; alpha moves by delta and is clamped to [0, 1]; a valid record keeps h, s and l |
| HslColors.Rotate | index.d.ts:58 | Valid result; the hue turns by the value modulo 360; a valid record keeps s, l and alpha |
| HslColors.Percentage | tests/hsl.spec.ts:181-203 | A delta in [0, 1] becomes a percentage in [0, 100]; any other delta is kept |
| HslColors.FractionalDelta | tests/hsl.spec.ts:181-203 | saturateBy, desaturateBy, lighterBy and darkerBy with a delta in [0, 1] change by 100·delta, otherwise by delta |
| HslColors.SaturationLightnessExamples | tests/hsl.spec.ts:181-203 | saturateBy 20 or 0.2 then desaturateBy 10 or 0.1 gives 80 then 70, and likewise for lightness |
| HslColors.Grayscale | tests/hsl.spec.ts:205 | Saturation becomes 0 and nothing else changes |
| HslColors.GrayscaleIsDesaturate | tests/hsl.spec.ts:205 | Grayscale equals desaturating by 100, and by 1 under the fractional rule |
| HslColors.Invert | tests/hsl.spec.ts:176-179 | Validity kept, s unchanged, l' = 100 − l, hue turned by 180 modulo 360, a' = 1 − a with alpha included and a' = a without |
| HslColors.InvertInvolutive | tests/hsl.spec.ts:176-179 | Inverting twice gives the valid record back |
| HslColors.HueByCompose | tests/hsl.spec.ts:161-164 | hueBy(x) then hueBy(y) is hueBy(x + y) |
| HslColors.RotateZero | tests/hsl.spec.ts:209 | rotate(0) is the identity on valid records |
| HslColors.MutatorExamples | tests/hsl.spec.ts:158-211 | hueTo, hueBy, alphaTo, alphaBy, invert, grayscale and rotate give the tested records from 190/60/60/0.6 |
| HslColors.PrecisionAt | tests/hsl.spec.ts:78-83 | A precision not given defaults to 0 for h, s and l and to 1 for alpha |
| HslColors.Rounded | tests/hsl.spec.ts:78-83 | A channel with negative precision is left unrounded |
| HslColors.RoundedIdempotent | tests/hsl.spec.ts:78-83 | Rounding for display twice is rounding once |
| HslColors.RoundedValid | tests/hsl.spec.ts:78-83 | Rounding a valid record keeps s and l in [0, 100], alpha in [0, 1] and hue in [0, 360] |
| HslColors.RoundedExamples | tests/hsl.spec.ts:79-82 | The three precision expectations of the string-formation test |
| Accessibility.RawBrightness | plugins/accessibility.d.ts:4-11 | (299r + 587g + 114b)/1000/255 lies in [0, 1] for channels in [0, 255] |
| Accessibility.Brightness | plugins/accessibility.d.ts:4-11 | With a negative precision it is the raw brightness, times 100 when `percentage` is set |
| Accessibility.BrightnessRange | plugins/accessibility.d.ts:4-11 | At any precision the brightness is in [0, 1], or [0, 100] in percent |
| Accessibility.BrightnessMonotone | plugins/accessibility.d.ts:4-11 | Raising any channel never lowers the brightness |
| Accessibility.LightThreshold | plugins/accessibility.d.ts:51-58 | With the default four-place rounding, brightness reaches 0.5 exactly when the raw brightness is at least 0.49995 |
| Accessibility.IsLight | plugins/accessibility.d.ts:51-54 | Light exactly when the raw brightness is at least 0.49995 |
| Accessibility.IsDark | plugins/accessibility.d.ts:55-58 | Dark exactly when the raw brightness is below 0.49995 |
| Accessibility.LightXorDark | plugins/accessibility.d.ts:51-58 | Every colour is light or dark, never both |
| Accessibility.BrightnessExtremes | plugins/accessibility.d.ts:4-11 | White has brightness 1 and is light; black has 0 and is dark |
| Accessibility.EqualTo | plugins/accessibility.d.ts:42-50 | True exactly when r, g, b and alpha all match the other colour, or opaque white when none is given |
| Accessibility.EqualToLaws | plugins/accessibility.d.ts:42-50 | Reflexive, symmetric, equivalent to record equality, and with no argument true only for opaque white |
| Accessibility.IsTinted | plugins/accessibility.d.ts:77-80 | Tinted exactly when the lightness is above that of the closest pure hue |
| Accessibility.IsShaded | plugins/accessibility.d.ts:81-84 | Shaded exactly when the lightness is below that of the closest pure hue |
| Accessibility.IsToned | plugins/accessibility.d.ts:85-88 | Toned exactly when the saturation differs from that of the closest pure hue |
| Accessibility.TintShadeRgb | plugins/accessibility.d.ts:77-84 | An RGB colour is tinted exactly when max + min > 255 and shaded exactly when max + min < 255 |
| Accessibility.TonedRgb | plugins/accessibility.d.ts:85-88 | An RGB colour is toned exactly when it is grey or no channel is at 0 or 255 |
| Accessibility.TintShadeExclusive | plugins/accessibility.d.ts:77-84 | No colour is both tinted and shaded, and neither holds exactly when l = 50 |
| Accessibility.Classify | plugins/accessibility.d.ts:89-99 | Pure exactly when not tinted, shaded or toned, with reason N/A exactly then, and each other reason only when its predicate holds |
| Accessibility.IsPureHue | plugins/accessibility.d.ts:89-99 | A truthy reason gives the boolean and a falsy one the object; either way pure means s = 100 and l = 50 |
| Accessibility.PureHueRgb | plugins/accessibility.d.ts:89-99 | An RGB colour is a pure hue exactly when its largest channel is 255 and its smallest is 0 |
| Accessibility.ClosestPureHue | plugins/accessibility.d.ts:108-113 | The result has the pure-hue saturation 100 and lightness 50, with the same hue and alpha |
| Accessibility.ClosestPureHueFixed | plugins/accessibility.d.ts:108-113 | The closest pure hue is classified pure, a pure hue is its own closest pure hue, and taking it twice is taking it once |

## Left out

- The transcendental conversions are not modelled: `sRGB` / `sRGBInv` and the XYZ, LAB, LCH, LUV and UVW spaces. They need powers, roots and arc tangents that have no exact rational model.
- RGB to RYB is not modelled. It is an empirical interpolation whose body is not available.
- Conversions out of HSL other than the named-colour path are not modelled, and neither is the RGB/HEX encoding. Their bodies are not part of this model.
- `rng` and `random()` are left out because their output is random.
- `luminance`, `contrast` and `readableOn` are left out. They rest on the WCAG relative-luminance power curve.
- `isCool`, `isWarm`, `closestCool`, `closestWarm` and `closestWebSafe` are left out. Their hue thresholds and palette are not available.
- The `HueColors` / `RGBExtended` name tables and the name plugin are not modelled. The table is a parameter (`names`). For a name missing from it, the original reads `undefined` from the table (src/index.ts:99) and passes it to `RGBAFrom` (src/index.ts:101), where reading `.constructor` of `undefined` (src/index.ts:52) throws a `TypeError`; the model's `None` stands for that exception.
- The harmony and mix plugins are left out, as are string rendering (`string()`, `hsla(…)` text, `color(…)` templates), builder and plugin registration, and the `object` / `array` / `format` getters and setters. Rendering is modelled only up to the numeric rounding of `HslColors.Rounded`.
- `Text.ParseNumber`: only signed decimal literals are modelled. Exponents (`Number("1e3")` is 1000 in JavaScript), hexadecimal, octal and binary literals and `Infinity` all give `NaN` here, so its contract speaks of that fragment only.
- `HslColors.HslaOf`: a `NaN` or missing h/s/l becomes 0 and alpha 1. This is the "black or a mixture" rule of the `ColorMaster` doc comment; the constructor body itself is not available.
- `Hwb.HwbToRgb` and `Hwb.HwbToHsv`: require w + b ≤ 100. Normalisation of larger sums is not available.
- `HslColors.HueTo`: takes a number only. A hue name (`keyof typeof HueColors`, index.d.ts:44) is not accepted, because the hue table is not part of this model.
- `Input.HexaFrom`: yields the four string fields handed to the `HEXColors` constructor. That constructor's hex decoding is not modelled.
- Matrix: the promise that `multiplyMatrix` returns a new array and leaves its inputs alone is immediate for immutable sequences, so it has no lemma of its own.
- `HslColors.Invert`: is stated on the HSL record as tests/hsl.spec.ts:176-179 fixes it. The `HSLColors` body is not available, so any route through another colour space is not modelled.
