# Design-token colour extraction and hex colour conversion

This project models the logic at the core of a Figma plugin. The plugin reads a
design-token JSON document, collects every colour token in it, and draws a
swatch for each one. The model covers three routines of `src/code.ts`:

- **`traverseObject`** walks the token tree depth-first in key-enumeration
  order. It shares one `keys` path stack and one `colors` accumulator between
  all of its recursive calls. It pushes a key before descending into a child
  object and pops it afterwards. Whenever it meets the scalar field
  `type: "color"`, it appends a token. The token's name is `colors` followed by
  the path, joined by dots. Its value is the sibling `value` field of the same
  record.
- **`convertHexToRGB`** turns a hex colour into red, green and blue fractions,
  each channel divided by 255.
- **`convertHexToRGBA`** turns a hex colour and an opacity into the CSS text
  `rgba(R,G,B,A)`. An opacity above 1 and at most 100 is taken as a
  percentage.

The model is laid out as follows:

- `token_tree.dfy` (module `TokenTree`) holds the JSON tree as a datatype and
  the pure specification of the walk, `Extract`. It also holds an independent
  description of the walk: the pre-order list of every field, `Fields`,
  filtered to colour markers. The two are proved equal, and naming and
  ordering are proved from that.
- `traverse.dfy` (module `Traverse`) holds the walk as the program runs it. It
  is a class `Walk` whose fields are the shared `keys` stack and `colors`
  accumulator, with a recursive method that loops over the entries, pushes,
  recurses and pops. The method is proved to restore the stack and to append
  exactly `Extract` of its argument.
- `hex_color.dfy` (module `HexColor`) holds the two converters as functions,
  together with their properties: shorthand expansion, channel positions,
  round trips with a hex encoder, the opacity rule, and the fact that the
  rgba text is unambiguous.
- `numerals.dfy` (module `Numerals`) holds the decimal text that JavaScript's
  number-to-string conversion gives for the integers and plain decimals that
  appear in the rgba text. It is proved to read back to the number it writes.
- `text.dfy` (module `Text`) holds the optional-value type and the search for
  the first occurrence of a character. Both the codec and the number reader
  use them.

The opacity is a JavaScript number. Here it is a `Decimal(mantissa, exponent)`,
which means `mantissa * 10^-exponent`. Dividing by 100 adds two to the
exponent, so the percentage rule is exact in the model. The rgba text in the
model is JavaScript's text character for character in three cases:
- the opacity is passed through;
- it is a whole-number percentage;
- dividing it by 100 is exact in binary floating point.

For other fractional percentages JavaScript's text can differ (see "Left out").

## Model

| member | source | states |
|---|---|---|
| TokenTree.IsObject | src/code.ts:81 | `typeof obj[key] === 'object'` holds for every node except a scalar, so `null` counts as an object, as `typeof null` does in JavaScript |
| TokenTree.Entries | src/code.ts:79 | `for...in` enumerates nothing over a scalar or over `null` |
| TokenTree.IsColorMarker | src/code.ts:87 | the `type: "color"` test is only reached by a field that is not an object, and a field that passes it is never an object |
| TokenTree.Lookup | src/code.ts:91 | `obj.value` is found exactly when the record has a `value` key, and the result is the value under that key; it is `undefined` (None) otherwise |
| TokenTree.Extract | src/code.ts:77-96 | the pure specification of the walk: a scalar, `null` or an empty object yields no colours; its meaning is fixed by the rows below and by `Traverse.Walk.TraverseObject` |
| TokenTree.ExtractOfEmpty | src/code.ts:79 | `for...in` over an empty object, `null` or a scalar finds nothing, so the accumulator is returned unchanged |
| TokenTree.ExtractFromIsTokensOfFields | src/code.ts:79-93 | the colours found from entry `i` onwards (the loop's remaining work) are one token per colour-marker field among those entries and everything nested in them, in pre-order |
| TokenTree.ExtractIsTokensOfFields | src/code.ts:79-93 | the walk's colours are, in order, one token per `type: "color"` field, taken over every field of the tree in depth-first pre-order; other fields contribute nothing |
| TokenTree.ExtractMatchesColorFields | src/code.ts:87-92 | a token is emitted if and only if some colour-marker field exists whose record's path and `value` give that token's name and value |
| TokenTree.TokensOfConcat | src/code.ts:79-93 | tokens of consecutive runs of fields are the concatenation of each run's tokens, so output order follows field order |
| TokenTree.FieldsExtendKeys | src/code.ts:83-86 | every field below a node is reached with a path that extends the node's own path |
| TokenTree.Join | src/code.ts:89 | `parts.join(sep)` starts with the first part |
| TokenTree.Name | src/code.ts:89 | a name starts with `colors`, and a record at the root is named just `colors` |
| TokenTree.NameChild | src/code.ts:89 | pushing a key extends the dotted name by `.` and that key |
| TokenTree.NameIsDotted | src/code.ts:89 | `['colors', ...keys].join('.')` is `colors` followed by `.key` for each key in order |
| TokenTree.NameExtends | src/code.ts:89 | the name of a path is a prefix of the name of any longer path through it |
| TokenTree.ExtractNamesExtend | src/code.ts:83-92 | every colour found below a node has that node's name as a prefix |
| TokenTree.ExtractColorRecord | src/code.ts:87-92 | a lone `{type: "color", value: v}` record yields exactly one token, named by its path, with value `v` |
| TokenTree.ExtractExample | src/code.ts:77-96 | a nested colour comes before its later sibling, named `colors.brand.primary` and `colors.bg` |
| TokenTree.MissingValueExample | src/code.ts:90 | a colour record without a `value` field still yields a token, whose value is undefined |
| Traverse.Walk.constructor | src/code.ts:77 | the walk starts from the given stack and accumulator |
| Traverse.Walk.TraverseObject | src/code.ts:77-96 | the `keys` stack is the same after the call as before it; `colors` keeps its old entries and gains the colours of `obj` in walk order; the accumulator itself is returned |
| Traverse.ExtractColors | src/code.ts:70 | the call with both defaults returns the colours of the whole tree, every name starting with `colors` |
| HexColor.HexDigitValue | src/code.ts:161-163 | a hex digit of either case has a value below 16; its exact value is fixed by `HexByteRoundTrip` and `HexDigitCaseInsensitive` |
| HexColor.HexDigitCaseInsensitive | src/code.ts:177-179 | `parseInt(.., 16)` ignores case: `A`..`F` have the values of `a`..`f` |
| HexColor.UpperCaseExample | src/code.ts:177-179 | `#FF0000` reads as the channels 255, 0, 0 |
| HexColor.StripHash | src/code.ts:155 | a string without `#` is kept as it is; otherwise the result is one character shorter |
| HexColor.StripHashRemovesOne | src/code.ts:155 | `replace('#', '')` leaves a string without `#` alone; otherwise it removes the first `#` and keeps every other character in order |
| Text.IndexOf | src/code.ts:171 | the `#` that is removed is the first one: it is at the returned position and none comes before it |
| HexColor.StripLeadingHash | src/code.ts:171 | a leading `#` is the one removed, whatever follows it |
| HexColor.Expand | src/code.ts:157-159 | a 3-digit string becomes six digits, each original digit doubled in place; any other length is unchanged; hex digits stay hex digits |
| HexColor.ShorthandExpansion | src/code.ts:173-175 | a 3-digit code gives the same result as its doubled 6-digit form, for both converters and every opacity |
| HexColor.ParseHexByte | src/code.ts:177 | `parseInt(pair, 16)` of two hex digits lies in 0..255 |
| HexColor.HexByteRoundTrip | src/code.ts:177-179 | every byte written as two hex digits parses back to itself |
| HexColor.ParseChannels | src/code.ts:177-179 | the three integer channels are bytes |
| HexColor.ChannelPositions | src/code.ts:161-163 | after one `#` is removed, the channels come from the digit pairs at positions 0-2, 2-4 and 4-6, whatever characters follow the sixth |
| HexColor.PrefixChannels | src/code.ts:177-179 | the first six characters of a code, read as a code of their own, give the same three digit pairs |
| HexColor.AlphaDigitsIgnored | src/code.ts:177-179 | any code of six or more characters after the `#` has the channels of its first six, so an 8-digit code's alpha pair, or anything else that follows, is ignored |
| HexColor.HexCodeRoundTrip | src/code.ts:161-165 | channels written as `#rrggbb` read back as the same channels, and their fractions are each channel over 255 |
| HexColor.ParseChannelsRoundTrip | src/code.ts:177-179 | reading a 6-digit code and writing it back gives the same code, with its letters in lower case |
| HexColor.ConvertHexToRGB | src/code.ts:154-168 | each fraction lies in [0, 1], and 255 times it is exactly the parsed channel |
| HexColor.RgbaText | src/code.ts:186 | the text is nine characters longer than its four parts together, starts with `rgba(` and ends with `)` |
| HexColor.ConvertHexToRGBA | src/code.ts:170-187 | the result is `rgba(R,G,B,A)`: R, G and B are decimal digits without a leading zero that denote the parsed channels; A is a canonical number (no leading zero before the integer digit, a minus sign exactly when negative) that reads back as the resolved opacity; the opacity defaults to `DefaultOpacity`, the number 1 (line 170); its partners are `ConvertHexToRGBAUnique`, `ConvertHexToRGBAInjective`, `ShorthandExpansion` and the three examples below |
| HexColor.ConvertHexToRGBAUnique | src/code.ts:186 | any four parts that satisfy the converter's contract assemble to exactly the text the converter returns, so that contract fixes the result |
| HexColor.ResolveOpacity | src/code.ts:182-184 | an opacity in (1, 100] is divided by 100, and any other opacity is passed through unchanged |
| HexColor.ResolveOpacityIdempotent | src/code.ts:182-184 | resolving an already resolved opacity changes nothing |
| HexColor.ResolveOpacityInUnitRange | src/code.ts:182-184 | any opacity from 0 to 100 resolves into [0, 1] |
| HexColor.RgbaTextInjective | src/code.ts:186 | `rgba(R,G,B,A)` with digit-only channels determines each of its four parts |
| HexColor.ConvertHexToRGBAInjective | src/code.ts:170-187 | two equal rgba texts come from equal channels and opacities of equal value |
| HexColor.RedExample | src/code.ts:170-187 | `#ff0000` with the default opacity of 1 gives `rgba(255,0,0,1)` |
| HexColor.GreenPercentExample | src/code.ts:182-186 | opacity 50 is a percentage: `#00ff00` gives `rgba(0,255,0,0.5)` |
| HexColor.BlueFractionExample | src/code.ts:182-186 | opacity 0.5 is passed through: `#0000ff` gives `rgba(0,0,255,0.5)` |
| Numerals.NatToString | src/code.ts:186 | `${n}` is a non-empty string of digits with no leading zero unless n is 0 |
| Numerals.NatToStringRoundTrip | src/code.ts:186 | the digits of `${n}` denote n |
| Numerals.NatToStringInjective | src/code.ts:186 | different channels never print the same |
| Numerals.FormatDecimal | src/code.ts:186 | `${opacity}` is non-empty and begins with a minus sign exactly when the opacity is negative; after the sign, a leading `0` stands alone or is followed by the point; `FormatDecimalReadsBack` gives its value |
| Numerals.FormatDecimalUnique | src/code.ts:186 | the printed opacity is the only canonical text, with the right sign, that reads back as the opacity in its shortest form |
| Numerals.CanonicalDigitsRoundTrip | src/code.ts:186 | digits without a leading zero are exactly `${n}` of the number they denote |
| Numerals.Normalize | src/code.ts:186 | an opacity is printed in its shortest form: the value is kept and there are no trailing fractional zeros |
| Numerals.FormatDecimalReadsBack | src/code.ts:186 | `${opacity}` reads back as the opacity in its shortest form, including the sign |
| Numerals.FormatDecimalInjective | src/code.ts:186 | two opacities that print the same have the same value |

## Left out

- The GitHub fetches (`getTokensFromGit`, `getFileBlob`) are network I/O and are not part of this model.
- `convertBlob` decodes base64 and calls `JSON.parse`. Both are library calls and are not part of this model. The tree arrives as a `Node` value whose entry order is the order `for...in` enumerates.
- `createColors`, `createText` and the message handler are Figma host side effects and asynchronous font loading. They are not part of this model.
- Arrays in the token document are modelled as mappings whose keys are their indices. Colour records inside an array are found and named by index, as in `colors.list.0`. A string root would have its character indices enumerated by `for...in`; the model treats it as a scalar. That changes nothing, because a character is never an object and an index is never `type`.
- Duplicate keys in one object are not considered, since `JSON.parse` never produces them. `Lookup` takes the first match.
- HexColor.ConvertHexToRGB: the division by 255 is stated over exact reals. JavaScript's floating-point rounding is not modelled.
- HexColor.IsHexCode: once the first `#` is removed, both converters require three hex digits, or at least six characters whose first six are hex digits; whatever follows the sixth is never read. A code of 1, 2, 4 or 5 characters, or a non-hex character among those read, makes `parseInt` return NaN or read only a prefix of the pair, and that behaviour is not modelled.
- HexColor.ResolveOpacity: the opacity is an exact decimal, not a floating-point number. `opacity / 100` is a floating-point division, and for a fractional percentage it can round. For example, JavaScript computes 33.3 / 100 as 0.33299999999999996 and prints that, where the model gives 0.333. The model also leaves out NaN, infinities and non-number arguments.
- Numerals.FormatDecimal: JavaScript prints very large or very small numbers in exponent notation and rounds to about 17 significant digits. Neither is modelled; the text is the plain decimal form.
- An 8-digit code's last two digits are never read (`AlphaDigitsIgnored`).
- `replace('#', '')` removes the first `#` wherever it is, not only a leading one (`StripHash`, `StripHashRemovesOne`).
- A colour record without `value` still yields a token whose value is undefined, and recursion depth is not bounded (`MissingValueExample`).
