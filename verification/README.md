# Pixel codec and tile settings — a Dafny model

The game stores every grid cell as one RGBA pixel whose four channel integers pack the
cell's properties (tile type, direction, operation, number, score, …) as bit fields. The
layout of those fields is declared once, inside a `//METAPROGRAMMING_START …
//METAPROGRAMMING_END` block of the shared shader text, and read on the TypeScript side by
`getPixelSpec`. `makePixel` then folds a property record into the four channels by adding
`value << (start - 1)` into each field's channel. The settings panel builds the property
record of the tile to place: a palette of tile types, per-type editors whose numbers are
floored to a step and clamped, a tile-type change that recomputes `editable` and
`has_num`, and a minimal shape check on an uploaded level file.

This project models those pieces as pure Dafny functions and proves what they promise.

| file | module | what it holds |
|---|---|---|
| `wrappers.dfy` | `Wrappers` | `Option` and `Result` |
| `bits.dfy` | `Bits` | powers of two and the division facts the bit-field proofs use |
| `text.dfy` | `Text` | substring search, `split`/`join`, space removal, `slice`, integer `Number(...)` |
| `tiles.dfy` | `Tiles` | the `Tile`, `Direction` and `Operation` enums and their codes |
| `pixel_spec.dfy` | `PixelSpec` | `getPixelSpec`: marker block, declaration lines, the field map |
| `pixel_codec.dfy` | `PixelCodec` | `makePixel`, `createPixel`, order independence, field extraction, overflow |
| `records.dfy` | `Records` | `noUndefined`, `removeAttribs`, `propSetterSetter` |
| `settings.dfy` | `Settings` | number normaliser, palette, editors, tile-type change, upload check |

Modelling choices:

- A property record is a listing `seq<(string, nat)>` in `Object.entries` order with
  distinct names; `PixelCodec.Lists` ties a listing to a record `map<string, nat>`.
  Booleans are 0 and 1, as unary `+` makes them. A name the layout does not declare
  contributes nothing: `makePixel` skips a property whose `spec.get(k)` finds no field.
- A field's `start` and `end` are JavaScript numbers. `Text.JsNumber` is an exact integer or NaN. JavaScript's doubles, which round integers above 2^53, are not modelled (see "## Left out").
- `getPixelSpec` throws in two ways: when there is no marker block (after an alert), and
  when a line holds a parenthesised group with fewer than five arguments (reading
  `args[3]` or `args[4]` of `undefined`). Both are `Err` values of `PixelSpec.SpecError`.
- The shift count is JavaScript's exactly: `start - 1` taken modulo 32, NaN giving 0. The
  shifted value itself is an unbounded natural (see Left out).
- The shader text is a parameter of `PixelCodec.CreatePixel`, not a constant.
- Settings records are `map<string, nat>`, so the same record type feeds the encoder.
  The number input works on reals.
- The upload check returns the parsed JSON value unchanged when it passes, as the cast to
  `Level` does.

## Model

| member | source | states |
|---|---|---|
| Tiles.TileOfCode | src/game-logic/GameLogic.tsx:9-18 | a code names a tile exactly when it is 0..7, and that tile's code is the number given |
| Tiles.TileCodeRoundTrip | src/game-logic/GameLogic.tsx:9-18 | every tile's code reads back as that tile |
| Tiles.DirectionOfCode | src/game-logic/GameLogic.tsx:20-22 | a code names a direction exactly when it is 0..3, and round-trips |
| Tiles.OperationOfCode | src/game-logic/GameLogic.tsx:24-26 | a code names an operation exactly when it is 0..3, and round-trips |
| Text.FindFrom | src/game-logic/GameLogic.tsx:42 | the first occurrence of a pattern at or after a position, and none when absent |
| Text.Split | src/game-logic/GameLogic.tsx:42 | `split` yields at least one piece and no piece contains the separator |
| Text.JoinSplit | src/game-logic/GameLogic.tsx:42 | joining the pieces of a split with the separator gives back the text |
| Text.SplitJoin | src/game-logic/GameLogic.tsx:50 | splitting joined separator-free pieces gives back the pieces |
| Text.SplitCount | src/game-logic/GameLogic.tsx:50 | a split has one piece more than the text has separators |
| Text.RemoveSpaces | src/game-logic/GameLogic.tsx:50 | the result holds no space and is no longer than the input |
| Text.RemoveSpacesContent | src/game-logic/GameLogic.tsx:50 | every character other than a space keeps its number of occurrences |
| Text.RemoveSpacesConcat | src/game-logic/GameLogic.tsx:50 | removing spaces distributes over concatenation |
| Text.RemoveSpacesNoSpace | src/game-logic/GameLogic.tsx:50 | a text without spaces is left as it is |
| Text.RemoveSpacesJoin | src/game-logic/GameLogic.tsx:50 | removing spaces piece by piece and joining is removing spaces from the joined text |
| Text.Drop | src/game-logic/GameLogic.tsx:52 | `slice(n)` leaves what follows the first n characters, and nothing when the text is shorter |
| Text.DropLast | src/game-logic/GameLogic.tsx:54-55 | `slice(0, -1)` leaves the text without its last character, and nothing of an empty text |
| Text.TrimEdges | src/game-logic/GameLogic.tsx:54-55 | the trimmed text is empty exactly when the text is all white space, and otherwise starts and ends with a character that is not white space |
| Text.StrToNumber | src/game-logic/GameLogic.tsx:54-55 | NaN exactly when the trimmed text is neither empty nor an optionally signed digit run; blank text reads as 0; a digit string reads as its value |
| Text.NumberOfPaddedNumeral | src/game-logic/GameLogic.tsx:54-55 | an optionally signed nonempty run of decimal digits, leading zeros allowed, with white space on either side, reads as the digits' value with the sign applied (`" -007 "` is -7) |
| Text.NumberOfDecimal | src/game-logic/GameLogic.tsx:54-55 | the decimal numeral of n reads back as n |
| PixelSpec.FindBlock | src/game-logic/GameLogic.tsx:42 | no block exactly when no start marker is followed by an end marker; otherwise the leftmost start marker and the first end marker after it |
| PixelSpec.GetPixelSpec | src/game-logic/GameLogic.tsx:41-61 | the parse fails with the missing-block error exactly when the text holds no block; the map has at most as many entries as the block has lines |
| PixelSpec.OnlyFirstBlockParsed | src/game-logic/GameLogic.tsx:42 | text after the first complete block does not change the result |
| PixelSpec.GroupBounds | src/game-logic/GameLogic.tsx:50 | the group is the first `(` and the first `)` after it; none exactly when no `(` is followed by a `)` |
| PixelSpec.ChannelIndex | src/game-logic/GameLogic.tsx:53 | the index of the letter in "rgba", and -1 exactly when it is none of them |
| PixelSpec.Arguments | src/game-logic/GameLogic.tsx:50 | one argument more than the group has commas; no argument holds a space or a comma; joined with commas they are the group's text without its spaces |
| PixelSpec.ParseWrapped | src/game-logic/GameLogic.tsx:50-57 | a line whose first group holds at least five arguments declares the first argument minus its first two characters, with the channel of the third and the numbers of the fourth and fifth minus their last character, whatever precedes or follows the group |
| PixelSpec.ParseLine | src/game-logic/GameLogic.tsx:50-55 | a line is skipped exactly when it has no group; it throws for missing arguments exactly when its first group holds fewer than four commas; a declared name holds no space or comma; the channel is in -1..3 |
| PixelSpec.BuildSpec | src/game-logic/GameLogic.tsx:48-59 | the parse succeeds exactly when no line has too few arguments, and otherwise reports the first such line |
| PixelSpec.LastDeclarationWins | src/game-logic/GameLogic.tsx:56-58 | a declaration no later line overrides is the entry the map keeps |
| PixelSpec.KeysAreDeclaredNames | src/game-logic/GameLogic.tsx:49-58 | the map's keys are exactly the names some line declares |
| PixelSpec.ParseDeclarationLine | src/game-logic/GameLogic.tsx:50-57 | a line written as `(tag+name, kind, ch, <start>u, <end>u)` followed by any text parses back to that name, channel, start and end |
| PixelCodec.ShiftCount | src/game-logic/GameLogic.tsx:71 | the shift count is below 32, and is start - 1 for starts 1..32 |
| PixelCodec.MakePixel | src/game-logic/GameLogic.tsx:64-75 | each channel is the sum of the shifted values of the properties whose field lives in it |
| PixelCodec.CreatePixel | src/game-logic/GameLogic.tsx:78-81 | fails exactly when reading the layout fails, and otherwise encodes with the layout read |
| PixelCodec.EncodeAppend | src/game-logic/GameLogic.tsx:67-72 | an undeclared property changes no channel; a declared one adds its shifted value to its own channel and leaves the other three alone |
| PixelCodec.ChannelSumConcat | src/game-logic/GameLogic.tsx:67-73 | encoding two listings one after the other adds their channel values |
| PixelCodec.ChannelSumPermutation | src/game-logic/GameLogic.tsx:67-73 | a channel's value is the same for any reordering of the properties |
| PixelCodec.EncodePermutation | src/game-logic/GameLogic.tsx:67-73 | the pixel is the same for any reordering of the properties |
| PixelCodec.EncodeRecord | src/game-logic/GameLogic.tsx:67 | any two listings of the same record encode to the same pixel |
| PixelCodec.FieldExtraction | src/game-logic/GameLogic.tsx:64-75 | with disjoint fields and values that fit, bits start-1..end-1 of the channel equal the property's value |
| PixelCodec.OversizedValueSpills | src/game-logic/GameLogic.tsx:70-71 | an unmasked value keeps only its low bits in its field and the rest lands above the field |
| PixelCodec.OverflowCorruptsNeighbour | src/game-logic/GameLogic.tsx:70-71 | 4 written into a two-bit field reads back as 1 in the next field up |
| Records.NoUndefined | src/game-logic/Settings.tsx:11-14 | a property survives exactly when its value is not undefined, with its value unchanged |
| Records.NoUndefinedOfLift | src/game-logic/Settings.tsx:11-14 | an object without undefined properties comes back unchanged |
| Records.NoUndefinedIdempotent | src/game-logic/Settings.tsx:11-14 | applying it twice is applying it once |
| Records.NoUndefinedLossless | src/game-logic/Settings.tsx:11-14 | nothing is lost exactly when no property was undefined |
| Records.RemoveAttribs | src/game-logic/Settings.tsx:16-22 | a property survives exactly when it is not listed, with its value unchanged |
| Records.RemoveAttribsIsSubtraction | src/game-logic/Settings.tsx:16-22 | deleting one by one equals removing the set of listed names at once |
| Records.RemoveAttribsConcat | src/game-logic/Settings.tsx:16-22 | removing in two rounds is removing the concatenated list |
| Records.RemoveAttribsCommute | src/game-logic/Settings.tsx:16-22 | the order of two rounds of removal does not matter |
| Records.PropSet | src/game-logic/Settings.tsx:96-104 | the setter receives the object with the key holding the new value and every other property as it was |
| Records.PropSetLastWins | src/game-logic/Settings.tsx:96-104 | of two writes to one key the second wins |
| Records.PropSetCommutes | src/game-logic/Settings.tsx:96-104 | writes to different keys commute |
| Records.PropSetNoOp | src/game-logic/Settings.tsx:96-104 | a write changes nothing exactly when the key already held that value |
| Records.PropSetThenRemove | src/game-logic/Settings.tsx:16-22 | removing a key just written is removing it from the original |
| Settings.FloorToStep | src/game-logic/Settings.tsx:49-50 | the result is a multiple of the step, and for a positive step the largest one not above the typed value |
| Settings.Truncated | src/game-logic/Settings.tsx:49-51 | with a positive step, the largest multiple of the step not above the typed value; without a truthy step, the typed value |
| Settings.Normalise | src/game-logic/Settings.tsx:49-52 | the delivered value lies in [min, max] when min <= max and is min otherwise; it is min below the range, max above it and the truncated value inside it |
| Settings.NormaliseNearest | src/game-logic/Settings.tsx:49-52 | the delivered value is at least as close to the truncated value as any point of [min, max] |
| Settings.NormaliseFixesAligned | src/game-logic/Settings.tsx:49-52 | a multiple of the step inside the bounds is delivered unchanged |
| Settings.NormaliseIdempotent | src/game-logic/Settings.tsx:49-52 | with bounds on the step grid the delivered value is on the grid and normalising it again changes nothing |
| Settings.NormaliseMonotone | src/game-logic/Settings.tsx:49-52 | a larger typed value never delivers a smaller value |
| Settings.Palette | src/game-logic/Settings.tsx:139-190 | outside the editor exactly the tiles with codes 0..3; in the editor every tile; no tile twice |
| Settings.Panel | src/game-logic/Settings.tsx:255-311 | tiles NONE, WALL and COMPLETE show no control, every other tile shows some; no property is written by two controls of one panel |
| Settings.PanelKeys | src/game-logic/Settings.tsx:255-311 | no editor writes `type` or `editable`; the number editors appear exactly for INPUT and OUTPUT |
| Settings.PanelKeysByTile | src/game-logic/Settings.tsx:255-311 | direction for CONVEYOR, GRABBER and CONVERTER; grabber_length for GRABBER only; score and required_score for OUTPUT only; operation for CONVERTER only; no other property |
| Settings.PanelBounds | src/game-logic/Settings.tsx:241-293 | every number editor has step 1 and its bounds: num 0..32767, grabber_length 2..4, score and required_score 0..255 |
| Settings.EditNumber | src/game-logic/Settings.tsx:241-293 | typing into a number editor stores a whole number within its bounds under its key and changes nothing else |
| Settings.EditHasNumber | src/game-logic/Settings.tsx:248-252 | the checkbox stores 1 exactly when ticked and changes nothing else |
| Settings.ChangeTileType | src/game-logic/Settings.tsx:330-339 | the new type is stored; `editable` is set exactly for the tiles the player palette offers; `has_num` exactly for the types whose panel shows the number editors; every other property is carried over |
| Settings.ChangeTileTypeCoherent | src/game-logic/Settings.tsx:330-339 | after a tile-type change the type and the two flags agree |
| Settings.ChangeTileTypeIdempotent | src/game-logic/Settings.tsx:330-339 | choosing the same type twice is choosing it once |
| Settings.InitialSettingsIncoherent | src/game-logic/Settings.tsx:209-219 | the starting record (a CONVERTER not marked editable) is not one a tile-type change produces |
| Settings.PanelEditKeepsEditable | src/game-logic/Settings.tsx:255-311 | any panel edit other than the checkbox keeps the type and the flags in agreement |
| Settings.HasNumberEditBreaksCoherence | src/game-logic/Settings.tsx:248-252 | clearing the checkbox of an INPUT tile leaves a record no tile-type change produces |
| Settings.CheckUpload | src/game-logic/Settings.tsx:374-378 | accepted exactly when width and height are numbers and data is an array, checked in that order; the accepted value is passed on unchanged |
| Settings.UploadAcceptsInconsistentLevel | src/game-logic/Settings.tsx:374-378 | a negative width, a fractional height and a wrongly sized pixel array are accepted |

## Left out

- PixelCodec.MakePixel: channels are unbounded naturals. JavaScript's `<<` yields a signed 32-bit result, so a value shifted into or past bit 31 wraps. Sums of numbers above 2^53 lose precision. Neither is modelled.
- Property values are naturals. The source stores `editable` and `has_num` as booleans (`true`/`false`), and the model stores them as 1 and 0. Unary `+` before the shift makes the two agree. Negative or fractional values never come from the settings panel, and they are not modelled.
- Text.StrToNumber: only the forms a declaration argument takes are modelled. Blank text gives 0 and optionally signed decimal integers give their value. Hexadecimal, binary and octal literals, fractions, exponents and `Infinity`, which `Number(...)` accepts, give NaN here. Only ASCII white space is trimmed. `-0` reads as the integer 0. Numerals are read as exact integers here, while `Number(...)` rounds any integer above 2^53 to the nearest double. So the declaration `(xxf, uint, r, 9007199254740993u, 4u)` has start 9007199254740993 here, and its shift count `(start - 1) & 31` is 0. In the source, start is 9007199254740992 and the shift count is 31.
- Text.NumberOfPaddedNumeral: holds in the source only for values up to 2^53. `Number(...)` reads larger numerals as the nearest double, not exactly.
- Text.NumberOfDecimal: holds in the source only for n up to 2^53, for the same reason.
- Text.Drop: strings are sequences of Unicode code points, while JavaScript's `slice` counts UTF-16 code units. The two agree on text without characters outside the Basic Multilingual Plane. Otherwise they differ: `"😀ab".slice(2)` is `"ab"`, but `Drop` gives `"b"`.
- Text.DropLast: for the same reason, `"1😀".slice(0, -1)` leaves a lone surrogate, which reads as NaN, while `DropLast` removes the whole emoji and gives `"1"`.
- Settings.Normalise: the arithmetic is on exact reals. Floating-point rounding of `/` and `*` is not modelled. The typed value is assumed to be a number, never NaN: a number input yields a numeral or the empty string, which reads as 0.
- The alert shown before the missing-block throw, and the alert shown when an upload fails, are I/O. The failures themselves are modelled as errors.
- `JSON.parse` and the file reading before the upload check are left out. So is the `uploadLevel` callback after it; the level type is not part of this model.
- `EnumInput` (the direction and operation selects) is React state synchronisation. It is left out; the panel model records only which property each editor writes.
- `StringInput`, `BooleanInput` and `NumberInput` rendering, and `TileTypeButton` canvas drawing and highlight classes, are JSX. So is the try-solution and back-button layout.
- `propSetterSetter` captures the record as of the last render. The model applies the write to the record it is given.
- The shader sources, including `common.glsl`, are not part of this model. The GPU tick and update rule, and any decoder, live there, so conveyor, grabber, converter and scoring behaviour is not modelled.
- Tile placement, camera pan/zoom and canvas resizing (`MainCanvas.tsx`) are left out. So are WebGL setup and the frame loop (`Hooks.tsx`), DOM input listeners (`Input.tsx`), application and menu state (`App.tsx`, `MainMenu.tsx`), and the shader-inlining build script.

## Notes

- The upload check tests only the kinds of the three fields. Nothing checks that width and height are positive integers, or that `data` holds `width * height * 4` values; when the level is loaded, `data` is converted element by element to unsigned 32-bit integers. The model follows the code (`Settings.UploadAcceptsInconsistentLevel`).
- The panel starts from a CONVERTER record with `editable` false. Choosing CONVERTER in the palette sets `editable` to true. The model states both (`Settings.InitialSettingsIncoherent`) without deciding which one is intended.
