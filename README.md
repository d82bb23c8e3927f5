# fontbm core, modelled in Dafny

fontbm renders a TrueType font into a bitmap-font atlas: one texture plus a
descriptor (`info`, `common`, `pages`, `chars`) saying where each glyph is.
This project models two parts of it.

- **Option parsing** in `src/ProgramOptions.cpp`:
  - `helpers::parseCharsString` turns `--chars` texts such as
    `32-64, 92,120-126` into sets of codepoints.
  - `helpers::parseColor` reads `R,G,B` colours.
  - `helpers::parseCommandLine` substitutes the default range `32-127`,
    joins in the chars file, parses both colours and picks the descriptor
    format case-insensitively.
- **Glyph collection and layout** in `src/main.cpp`:
  - The loop over codepoints 32–127 checks each provided glyph's metrics,
    fills the `std::map` glyph table and queues one box per glyph with ink
    for the packer.
  - The packer's placements are written back into the table.
  - The blit offsets are computed.
  - One descriptor row is built per glyph.
  - `getKerning` is modelled too.

Modules, one per file:

| file | module | models |
|---|---|---|
| `failures.dfy` | `Failures` | the exceptions the code throws, as `Result`/`Option` values with the source's messages |
| `strings.dfy` | `Strings` | the string helpers the parsers call: `std::isspace` (classic locale), digits, `boost::split`, `trim_copy`, `to_lower` |
| `chars_string.dfy` | `CharsString` | `parseCharsString`: the regular expression as a grammar, the meaning as the function `ParseChars`, and the imperative code (in-place whitespace erase on an array, the cast loop, the nested insert loop) proved equal to it |
| `color.dfy` | `Color` | `parseColor` |
| `program_options.dfy` | `ProgramOptions` | the data-format if-chain, the default-chars and chars-union logic, the colour options, and their order of failure |
| `glyphs.dfy` | `Glyphs` | the font as an oracle, `GlyphInfo`, the glyph table (`std::map` held as its entries in key order), `getKerning`, the collection loop |
| `atlas.dfy` | `Atlas` | write-back of placements, blit offsets, descriptor rows, and the whole layout stage of `main` |

The regular expressions are written as grammar predicates over `seq<char>`.
Lemmas connect each grammar to the `boost::split` view the code takes next.
The glyph table is a sequence of `GlyphInfo` kept in ascending id order,
which is the iteration order of `std::map`. `glyphs[id] = info` is
modelled as `Upsert` and `glyphs[tag].x = …` as `SetPosition`.

Three things are parameters rather than code:
- The font is a `FontFace` value: glyph presence, metrics, ascent, line
  skip, family name, and the width of a two-character text.
- The MaxRects packer is a function argument. The only assumption made
  about it (`Atlas.KeepsTags`) is that every rectangle it returns carries
  the tag of one of the boxes it was given.
- `getCharsFromFile` is a function argument returning a codepoint set or
  an error.

The texture size is also a parameter; `main` hard-codes 256×256.

Where the code and its surrounding description differ, the model follows
the code:
- Only one fixed-size bin is used, and overflow is not handled. A box the
  packer does not place gets no rectangle, and its glyph stays at (0, 0).
- The glyph loop in `main` visits the fixed range 32–127. It does not use
  the parsed `--chars` set.
- The `--data-format` help text says the default is "xml", but the
  declared default is "txt". The model uses "txt".

## Model

| member | source | states |
|---|---|---|
| Strings.RemoveSpaces | src/ProgramOptions.cpp:93 | the erased text is never longer than the text; with the lemmas below it is exactly the non-whitespace characters in order |
| Strings.RemoveSpacesEmpty | src/ProgramOptions.cpp:93-96 | erasing whitespace leaves nothing exactly when the text is all whitespace |
| Strings.RemoveSpacesContents | src/ProgramOptions.cpp:93 | the erased text holds no whitespace and keeps every other character, and no others |
| Strings.RemoveSpacesAppend | src/ProgramOptions.cpp:93 | whitespace erasure works piecewise over concatenation |
| Strings.Split | src/ProgramOptions.cpp:103 | `boost::split` with one separator character always gives at least one piece, and no piece holds the separator; with JoinSplit this fixes the pieces uniquely |
| Strings.JoinSplit | src/ProgramOptions.cpp:102-103 | `boost::split` loses nothing: joining the pieces with the separator restores the text |
| Strings.SplitAppend | src/ProgramOptions.cpp:102-103 | splitting at one separator splits the two sides independently |
| Strings.Trim | src/ProgramOptions.cpp:164 | `trim_copy` is no longer than the text and neither starts nor ends with whitespace |
| Strings.TrimIsSlice | src/ProgramOptions.cpp:164 | `trim_copy` gives the slice of the text that follows its leading whitespace, with only whitespace before and after it |
| Strings.TrimAround | src/ProgramOptions.cpp:164 | `trim_copy` of blanks, a word and blanks gives back the word |
| Strings.ToLower | src/ProgramOptions.cpp:71 | `to_lower` keeps the length and lower-cases each character on its own (ASCII letters in the classic locale) |
| Strings.DecimalRoundTrip | src/ProgramOptions.cpp:115-116 | reading back the decimal rendering of a number gives the number |
| CharsString.CharsSyntax | src/ProgramOptions.cpp:98 | the regular expression of the chars option written out as a grammar: one item `\d{1,5}(-\d{1,5})?`, or an item, a comma and a list; CharsSyntaxSplit states what it accepts |
| CharsString.CharsSyntaxSplit | src/ProgramOptions.cpp:98-103 | the grammar of the regular expression accepts a text exactly when every comma-separated piece is a number or `number-number` of 1 to 5 digits |
| CharsString.RangeItemSplit | src/ProgramOptions.cpp:108-111 | an item the grammar accepts is cut at '-' into one or two numbers of 1 to 5 digits, so `minMaxStr[0]` and, after the push_back, `minMaxStr[1]` always exist and are digit strings |
| CharsString.CastU16 | src/ProgramOptions.cpp:115-116 | on the 1-to-5-digit texts the grammar passes, `lexical_cast<uint16_t>` gives their decimal value and fails exactly when that value is 65536 or more |
| CharsString.ItemBounds | src/ProgramOptions.cpp:108-116 | an item's pair holds two 16-bit values, and an item without '-' gives its number twice |
| CharsString.ParseChars | src/ProgramOptions.cpp:90-134 | the only failures are "invalid chars value" and "out of range" |
| CharsString.EraseSpaces | src/ProgramOptions.cpp:93 | the in-place `remove_if`/`erase` leaves exactly the non-whitespace characters, in order, at the front of the buffer |
| CharsString.ReadRanges | src/ProgramOptions.cpp:105-122 | the cast loop yields the pair list, a lone number doubled, or fails on the first 16-bit overflow |
| CharsString.InsertRanges | src/ProgramOptions.cpp:124-131 | the nested insert loop yields the union over all pairs of first..second-1 plus second |
| CharsString.ParseCharsString | src/ProgramOptions.cpp:90-134 | the imperative parse returns exactly `ParseChars` of its argument, success or error |
| CharsString.BoundsEach | src/ProgramOptions.cpp:105-122 | the cast loop succeeds exactly when every item's casts succeed, and then yields one pair per item |
| CharsString.ItemSetMeaning | src/ProgramOptions.cpp:128-130 | an item a-b contributes exactly a..b when a <= b, and only b when a > b |
| CharsString.ParseCharsEmptyIff | src/ProgramOptions.cpp:93-96 | the result is the empty set without error exactly when the text is all whitespace |
| CharsString.ParseCharsIgnoresSpace | src/ProgramOptions.cpp:93 | inserting a whitespace character anywhere does not change the result |
| CharsString.ParseCharsSyntaxError | src/ProgramOptions.cpp:98-100 | "invalid chars value" exactly when the stripped text is non-empty and some piece is not `N` or `N-N` |
| CharsString.ItemBoundsFailure | src/ProgramOptions.cpp:113-121 | a well-formed item's casts fail exactly when one of its numbers exceeds 65535 |
| CharsString.ParseCharsOutOfRange | src/ProgramOptions.cpp:113-121 | "out of range" exactly when the grammar accepts the text and some number exceeds 65535 |
| CharsString.SeventyThousandIsOutOfRange | src/ProgramOptions.cpp:113-121 | "70000" passes the grammar and is refused as out of range |
| CharsString.ParseCharsSingle | src/ProgramOptions.cpp:110-130 | a lone number of 1 to 5 digits with value n <= 65535, leading zeros allowed, yields exactly {n} |
| CharsString.ParseCharsRange | src/ProgramOptions.cpp:124-131 | "a-b" for any two such numbers, leading zeros allowed, succeeds and contains v exactly when a <= v <= b (a <= b) or v == b (a > b) |
| CharsString.LeadingZerosSingle | src/ProgramOptions.cpp:98-116 | "0065" yields {65} |
| CharsString.LeadingZerosRange | src/ProgramOptions.cpp:98-131 | "032-064" yields 32..64 |
| CharsString.ParseCharsUnion | src/ProgramOptions.cpp:124-131 | for non-blank x and y, the result for "x,y" is the union of those for x and y; it fails when either fails, with "invalid chars value" ahead of "out of range" |
| CharsString.ParseCharsCommutes | src/ProgramOptions.cpp:124-131 | the order of the items does not matter |
| CharsString.ParseCharsDuplicate | src/ProgramOptions.cpp:124-131 | repeating the items does not matter |
| Color.ColorSyntax | src/ProgramOptions.cpp:155 | the colour regular expression written out as a grammar: three components `\s*\d{1,3}\s*` joined by two commas; ColorSyntaxSplit and ColorSyntaxFields state what it accepts |
| Color.ColorSyntaxSplit | src/ProgramOptions.cpp:155-160 | a text the grammar accepts is cut by `boost::split` into exactly three components of 1 to 3 digits with blanks |
| Color.ComponentValue | src/ProgramOptions.cpp:162-168 | the value read is that of the trimmed digits, and an accepted component is refused exactly when that value exceeds 255 |
| Color.ComponentTrim | src/ProgramOptions.cpp:162-164 | trimming an accepted component leaves its 1 to 3 digits |
| Color.ParseColor | src/ProgramOptions.cpp:153-176 | the only failure is "invalid color" |
| Color.ParseColorFields | src/ProgramOptions.cpp:153-176 | every text of the accepted shape is read as the colour of its three numbers, and refused exactly when one exceeds 255 |
| Color.ColorSyntaxFields | src/ProgramOptions.cpp:155-157 | every text the grammar accepts has that shape |
| Color.ParseColorRoundTrip | src/ProgramOptions.cpp:153-176 | writing a colour as "R,G,B" and parsing it gives the colour back |
| Color.Refuses256 | src/ProgramOptions.cpp:164-166 | "256,0,0" is refused |
| Color.RefusesTwoComponents | src/ProgramOptions.cpp:155-157 | "1,2" is refused |
| ProgramOptions.ParseDataFormat | src/ProgramOptions.cpp:71-81 | the only failure is "invalid data format" |
| ProgramOptions.ParseDataFormatIff | src/ProgramOptions.cpp:71-81 | a format is selected exactly when the lower-cased text is its name, and the text is refused exactly when it lower-cases to no name |
| ProgramOptions.ParseDataFormatCaseInsensitive | src/ProgramOptions.cpp:71 | upper- or lower-casing the option does not change the format chosen |
| ProgramOptions.ParseDataFormatRoundTrip | src/ProgramOptions.cpp:72-79 | each of txt, xml, bin, json selects its format, in lower or upper case |
| ProgramOptions.DefaultDataFormatIsText | src/ProgramOptions.cpp:42 | the declared default "txt" selects the text format |
| ProgramOptions.DefaultColorIsWhite | src/ProgramOptions.cpp:30 | the declared default colour "255,255,255" parses to white |
| ProgramOptions.DefaultCharsSet | src/ProgramOptions.cpp:56-57 | the default text "32-127" denotes exactly the codepoints 32 to 127 |
| ProgramOptions.SelectChars | src/ProgramOptions.cpp:56-63 | with neither option the set is 32..127; otherwise it is the `--chars` set united with the file's codepoints; a chars or file failure is passed on |
| ProgramOptions.ParseBackground | src/ProgramOptions.cpp:66-69 | an empty option means no background, any other is parsed as a colour |
| ProgramOptions.ParseCommandLine | src/ProgramOptions.cpp:56-83 | success exactly when every part parses; the configuration's fields; the failure raised first in the order chars, chars file, colour, background, data format |
| Glyphs.Kerning | src/main.cpp:21-24 | the kerning plus the two advances equals the pair's width, so it is 0 exactly when the width equals the sum of the advances |
| Glyphs.GlyphInfo | src/main.cpp:37-50 | the record of one glyph: its id, its place in the texture, its size and the five metrics the font reports; `IsEmpty` is the no-ink test of src/main.cpp:138 |
| Glyphs.NewGlyph | src/main.cpp:126-133 | the record of a provided codepoint carries its id, sits at (0, 0), has the font's metrics, and is empty exactly when the metrics span no width and no height |
| Glyphs.ValidGlyphChecks | src/main.cpp:135-141 | the two checks of the loop, as written (not above the ascent; an empty glyph or one with both sides), are what `ValidGlyph` states |
| Glyphs.Upsert | src/main.cpp:143 | the map assignment always holds the new entry, keeps every entry of another id, and grows the table by at most one |
| Glyphs.UpsertMembers | src/main.cpp:143 | the map assignment holds the new entry, keeps every entry of another id, and adds nothing else |
| Glyphs.UpsertOrder | src/main.cpp:143 | the map assignment keeps the entries in ascending id order |
| Glyphs.UpsertAppends | src/main.cpp:121-143 | assigning an id above all present ids appends the entry, as the ascending loop always does |
| Glyphs.NonEmpty | src/main.cpp:145-152 | every glyph queued for the packer is in the table and has ink |
| Glyphs.NonEmptyKeepsInk | src/main.cpp:145-152 | every glyph with ink is queued |
| Glyphs.NonEmptyOrder | src/main.cpp:145-152 | the queue keeps ascending id order |
| Glyphs.NonEmptyExcludesEmpty | src/main.cpp:145-152 | no queued box carries the id of a glyph without ink |
| Glyphs.CollectGlyphs | src/main.cpp:121-153 | fails with "invalid glyph" exactly when some provided codepoint in 32..127 has maxy above the ascent or exactly one zero side. Otherwise the table holds exactly the provided codepoints in id order, each at (0,0) with the font's metrics, w = maxx-minx, h = maxy-miny, and both checks met, and the queue is one box per glyph with ink, tagged with its id |
| Failures.MessagesDistinct | src/ProgramOptions.cpp:81-166 | the exception texts of the failures are pairwise different, so the text names the failure; this covers the option failures thrown here and "invalid glyph", thrown at both glyph checks of src/main.cpp (lines 136 and 141) |
| Atlas.LastPlacementMeaning | src/main.cpp:161-165 | a glyph gets no placement exactly when no rectangle carries its id; otherwise the last rectangle carrying it wins |
| Atlas.SetPosition | src/main.cpp:163-164 | one write-back step moves the entry with that id to the rectangle's x and y, changes nothing else about it, and leaves every other entry as it was |
| Atlas.ApplyPlacements | src/main.cpp:161-165 | the write-back loop moves each glyph to the last rectangle carrying its id and leaves the others as they were |
| Atlas.PlacedChangesOnlyPosition | src/main.cpp:161-165 | write-back changes only x and y, and only for glyphs whose id is a returned tag |
| Atlas.QueuedTags | src/main.cpp:157-165 | a rectangle tagged as a queued box carries the id of a glyph with ink |
| Atlas.EmptyGlyphsUnplaced | src/main.cpp:145-165 | glyphs without ink receive no placement |
| Atlas.PlacedTable | src/main.cpp:129-165 | after write-back the table keeps its ids, order, sizes and metrics, and glyphs without ink are unchanged (still at the origin) |
| Atlas.BlitOf | src/main.cpp:176-179 | the blit's x is the cell's x minus minx unless minx is negative, and its y is the cell's y plus maxy minus the ascent, so its y is at most the cell's y when maxy <= ascent |
| Atlas.ComputeBlits | src/main.cpp:172-186 | one blit per glyph with ink, in id order; glyphs without ink are never blitted |
| Atlas.BuildChars | src/main.cpp:198-205 | one row per glyph, empty ones included, in id order: position, size, xoffset = minx, yoffset = ascent - maxy (never negative when no glyph rises above the ascent), xadvance = advance, page 0, chnl 15 |
| Atlas.DescriptorRows | src/main.cpp:198-205 | every row has a non-negative yoffset and the font's metrics, and a glyph without ink has the row x = y = width = height = 0 |
| Atlas.LayOut | src/main.cpp:155-205 | each glyph ends where the last rectangle the packer returns for its id puts it, or stays where it was; the table keeps its ids and order; each descriptor row is the row of its placed glyph (position, size, xoffset = minx, yoffset = ascent - maxy, xadvance, page 0, chnl 15); one blit per glyph with ink |
| Atlas.BuildFont | src/main.cpp:117-213 | fails exactly as the collection loop does. Otherwise: face is the family name or "unknown"; lineHeight is the line skip; base is the ascent; scale is the texture size; the one page is "output.png"; one row per provided codepoint in 32..127; each glyph is its collected record moved by the last rectangle that `pack(textureWidth, textureHeight, boxes)` returns for its id; each row is the row of its placed glyph; one blit per glyph with ink |

## Left out

- Option declaration, reading and `--help` through boost::program_options (src/ProgramOptions.cpp:24-54). This is library plumbing. `RawOptions` holds the option texts after the declared defaults have been applied.
- The pass-through options font file, size, padding, spacing, texture size and output name. The code copies them into `Config` without checking them.
- `helpers::getCharsFromFile` (src/ProgramOptions.cpp:136-151). It is file I/O plus UTF-8 decoding by `std::codecvt`. It is a parameter returning a codepoint set or an error.
- The config-file handling at the start of `main` (src/main.cpp:54-109): JSON reading, file checks, `maxTextureSizeX`. This is I/O.
- The MaxRects packer. Its source is not part of this model. It is a parameter, and nothing is claimed about overlap or bounds.
- SDL/SDL_ttf font loading, glyph rendering, surface fill, the pixel copy of each blit, and PNG saving. These are foreign graphics calls. The model keeps the blit rectangles only.
- `Font::debugFillValues` and `writeToXmlFile`. They are not part of this model. The descriptor holds the fields `main` sets; kernings and pages are cleared, and pages then get their one entry.
- `printGlyphData`. It only prints to the console.
- Atlas.ApplyPlacements: a tag naming no glyph would make `std::map::operator[]` add a default-built entry. This is excluded by the precondition, which `KeepsTags` guarantees.
- Glyphs.Kerning: `GetGlyphAdvance` is taken to return the advance that `GetGlyphMetrics` reports for the same glyph.
- C `int` arithmetic is unbounded in the model: `maxx - minx`, `maxy - miny`, the blit offsets and the kerning subtraction. Real font metrics are far from the limits.
- CharsString.CastU16: `boost::lexical_cast<uint16_t>` also accepts a leading '+' or '-' ('-1' gives 65535); the model refuses any text that is not all digits, which the grammar of the list never lets through anyway.
- CharsString.ParseChars: the sizes of the `uint32_t` loop counter and the result set are unbounded. Items are at most 65535, so the loop cannot wrap.
- Strings.ToLower: `to_lower` and `std::isspace` are modelled for the classic locale and ASCII only.
