# asciicast-to-svg, modelled in Dafny

asciicast-to-svg turns an asciinema recording (an "asciicast") into an SVG
picture. The recording's output chunks are fed to a headless terminal. The
terminal's screen buffer is then drawn as SVG `text` runs inside a window
with macOS-style chrome. There are two ways to draw it:

- `renderAt` draws one still picture of the screen at a given time.
- `animate` draws one CSS-animated frame per chunk.

This project models the core of that pipeline and proves its properties:

- **Attributes** (`attributes.dfy`): the packed cell-attribute word.
  - The field table and the loop that lays the bit fields out.
  - Decoding by mask and shift.
  - Palette lookup with the `#fff`/`#000` fallbacks.
- **Palette** (`palette.dfy`): the 256-entry palette of `colors.js`.
  - 16 fixed ANSI entries.
  - A 6×6×6 cube whose components are written in decimal.
  - A 24-step grayscale ramp.
  - The named `fg`/`bg` defaults.
- **Extraction** (`extraction.dfy`): `matrix`.
  - Skips empty cells.
  - Keeps a space only between two present non-space glyphs.
  - Decodes each kept cell.
- **Grouping** (`grouping.dfy`): `group`, the greedy merge of a row's cells into runs. It comes in two forms:
  - `AsWritten`: the source's rule. It is the one the renderer uses.
  - `Contiguous`: the corrected rule, which also asks for consecutive columns. Its property is proved separately (see Findings).
- **Styles** (`styles.dfy`): `Group`.
  - Turns a run's style into its CSS declaration and class.
  - Emits a `<style>` rule the first time a style id is used.
  - Records that id in the shared `emitted` registry, a `Registry` object.
- **Geometry** (`geometry.dfy`): `projectX`, `projectY` and the `Screen` window sizes, in integer hundredths of a pixel.
- **Timeline** (`timeline.dfy`): the renderer object and the two drivers.
  - `createRenderer` with `write` and `render`.
  - `renderAt`, with its running sum of delays and early stop.
  - `animate`, with each frame's start, end and offset as a percentage of the recording.

The terminal engine is a parameter, `Timeline.Engine`. It supplies a blank
screen for the cast's size and a total function that feeds a chunk of output
to a screen. A screen is rows of `(attribute word, glyph)` cells. A column
outside a row counts as having no glyph.

The code behaves as follows:

- Bit layout. `bg` is in the lowest bits (0-8), then `fg` (9-17), then `bold` (18), `underline` (19) and `inverse` (20).
- Inverse. The decoded `inverse` flag is carried in the props but never swaps foreground and background.
- Frame timing. Frame i starts at the sum of delays 0..i, so it includes chunk i's own delay. For chunks of 1 s and 2 s in a 5 s recording, the frames run from 20% to 60% and from 60% to 100% (`Timeline.TwoChunkTiming`).
- Percentages. They are not clamped to [0, 100]. A zero duration gives a non-finite offset.
- Grouping. Runs merge on equal fg, bg, inverse, underline and bold exactly as decoded; no inverse resolution comes first.

## Model

| member | source | states |
|---|---|---|
| Attributes.LayoutBitFields | index.js:16-32 | the loop over the field table gives every field its shift (the running offset) and the mask parsed from `size` ones followed by `offset` zeros, which equals (2^size - 1) << shift |
| Attributes.OffsetIsShift | index.js:27-31 | the offset accumulated before each field is its fixed shift: bg 0, fg 9, bold 18, underline 19, inverse 20 |
| Attributes.MaskString | index.js:30 | `parseInt('1'.repeat(size) + '0'.repeat(offset), 2)` is (2^size - 1) · 2^offset for every size and offset |
| Attributes.MaskValues | index.js:16-32 | the masks are 0x1FF, 0x3FE00, 0x40000, 0x80000 and 0x100000 |
| Attributes.FieldsDisjoint | index.js:16-22 | distinct fields occupy disjoint bit ranges, all within bits 0-20 |
| Attributes.FieldValue | index.js:75-79 | `(raw & mask) >> shift` yields a value below 2^size for every integer word |
| Attributes.BitAnd | index.js:75-79 | bitwise and of two non-negative integers, bit by bit from the lowest; no contract of its own |
| Attributes.AndShiftedMask | index.js:30 | anding with the mask (2^k - 1) << s keeps exactly bits s to s + k - 1 of the word |
| Attributes.WordBits | index.js:75-79 | reducing a word to its 32-bit pattern leaves every field's bits unchanged |
| Attributes.MaskThenShift | index.js:75-79 | `(raw & masks[f]) >> shifts[f]`, the and taken on the word's 32-bit pattern, equals `FieldValue(raw, f)` for every integer word |
| Attributes.Decode | index.js:75-79 | decoding is total and both colour indices lie in [0, 511] |
| Attributes.DecodeEncode | index.js:75-79 | decoding a word packed from any well-formed fields recovers every field |
| Attributes.Resolve | index.js:78-79 | an index below 256 gives its palette entry, any other index gives the fallback |
| Attributes.ForegroundFallback | index.js:78 | a foreground index resolves to `#fff` if and only if the palette has no entry for it |
| Attributes.BackgroundFallback | index.js:79 | a background index resolves to `#000` if and only if the palette has no entry for it |
| Palette.BuildPalette | colors.js:22-64 | the loops build 256 entries: the ANSI list first, cube cell (r, g, b) at 16 + 36r + 6g + b, gray step k at 232 + k; the result equals the reference palette `Colors` |
| Palette.Colors | colors.js:22-66 | the palette has 256 entries, each the reference entry for its index range |
| Palette.PaletteMatchesEntries | colors.js:41-64 | a table holding the ANSI list, the cube cells and the gray steps at those positions is the reference palette |
| Palette.CubeDecomposition | colors.js:46-56 | every index 16..231 splits back into the r, g, b that produced it, r slowest |
| Palette.CubeLayout | colors.js:44-56 | entry 16 + 36r + 6g + b is `#` followed by the components of levels r, g and b in that order |
| Palette.Component | colors.js:50-52 | a cube component is two decimal digits |
| Palette.LastTwo | colors.js:50-52 | `slice(-2)` keeps the last two characters |
| Palette.Decimal | colors.js:50-52 | the decimal rendering of a level is non-empty and made of digits |
| Palette.ComponentsOfLevels | colors.js:44-53 | the levels are 0, 95, 135, 175, 215, 255 and their components are "00", "95", "35", "75", "15", "55": decimal, truncated, not hexadecimal |
| Palette.TwoDigitComponent | colors.js:50-52 | a two-digit level keeps both digits |
| Palette.ThreeDigitComponent | colors.js:50-52 | a three-digit level keeps only its last two digits |
| Palette.EntriesWellFormed | colors.js:22-64 | every entry is seven characters long and starts with `#` |
| Palette.CubeEntryNotDefault | colors.js:49-68 | no cube entry equals either named default |
| Palette.GrayEntryNotDefault | colors.js:64-68 | no grayscale entry equals either named default |
| Palette.DefaultsNotIndexed | colors.js:66-68 | the defaults `#d4d6d6` and `#151718` are not entries of the palette |
| Extraction.Kept | index.js:81-87 | a column is kept when its glyph is present and, if it is a space, the glyphs on both sides are present and not spaces; no contract of its own |
| Extraction.CellAt | index.js:72-90 | an extracted cell carries its column, its row and the buffer cell's glyph |
| Extraction.Matrix | index.js:65-95 | the nested loops produce, for every row, exactly the row's extraction `ExtractRow` |
| Extraction.ExtractionRules | index.js:71-90 | a column is emitted if and only if its glyph is present and, when it is a space, both neighbours are present non-space glyphs; every emitted cell is that column's decoded cell, in increasing column order |
| Extraction.PrefixCells | index.js:71-90 | the cells emitted from the first n columns come from kept columns below n, are in increasing column order, and include every kept column below n |
| Extraction.EmittedGlyphsPresent | index.js:73 | no emitted cell has an empty glyph |
| Extraction.EmittedSpaceFlanked | index.js:81-87 | an emitted space lies strictly inside the row between two present non-space glyphs |
| Grouping.Grouped | index.js:253-276 | a row gives at most one run per cell, and zero runs exactly when it has no cells |
| Grouping.GroupedText | index.js:254-275 | concatenating the run texts gives the concatenated glyphs of the row, under either rule |
| Grouping.GroupedMaximal | index.js:254-275 | the runs are built from blocks that cut the row in order; each run has its first cell's props and its block's glyphs, every cell in a block has the run's look, and every boundary between blocks is forced by the rule |
| Grouping.RunsAreMaximal | index.js:264-272 | under the source's rule, consecutive runs differ in their props outside x and y |
| Grouping.ContiguousRunsKeepColumns | index.js:264-266 | under the corrected rule, the j-th glyph of a run comes from column x + j of the run's first cell |
| Grouping.MergesAcrossGap | index.js:264-266 | the source's rule merges cells at columns 0 and 3 into one run "ab" drawn from column 0; the corrected rule keeps two runs |
| Grouping.GroupIdempotent | index.js:253-276 | regrouping a row's runs, one cell per run, gives the same runs |
| Grouping.GroupDistinctNeighbours | index.js:264-272 | cells whose neighbours always differ in look give one run per cell |
| Grouping.GroupRow | index.js:254-275 | the reduce over one row builds exactly `Grouped(AsWritten, cells)`, the runs under the source's rule |
| Grouping.Group | index.js:253-276 | every row of the matrix is grouped on its own, in order, under the source's rule |
| Styles.StyleOf | index.js:165-169 | the style of a run: its fill is `fg` when `fg` is non-empty, and it carries the bold and underline flags; no contract of its own |
| Styles.Declarations | index.js:171-174 | the declarations for fill, bold and underline that apply, in that order; no contract of its own |
| Styles.Css | index.js:171-175 | those declarations joined with `;`; no contract of its own |
| Styles.Draw | index.js:161-196 | the node and the new registry for one run: the placement, the class when there is CSS, and the rule emitted on first use; its properties are DrawEmitsOnce and DrawPlacement |
| Styles.CssPresent | index.js:165-177 | a run's style has CSS, and so gets a class, if and only if it has a fill, is bold or is underlined |
| Styles.JoinEmpty | index.js:175 | joining non-empty declarations gives the empty string exactly when there are none |
| Styles.DrawEmitsOnce | index.js:177-195 | the first use of a style with CSS emits exactly one rule `.id {css}` and appends the id; a later use, or a style without CSS, emits nothing and leaves the registry unchanged; a node has a class exactly when its style has CSS, and its class is then recorded |
| Styles.DrawPlacement | index.js:162-192 | a run's node sits at 10·x px and at its row's baseline 20·y + 16 px |
| Styles.DrawAllRegistry | index.js:180-186 | after any sequence of runs the registry is the old ids followed by the ids of the rules just emitted, and no id is ever recorded twice |
| Styles.DrawAllGrows | index.js:184-186 | the registry only grows |
| Styles.DrawAllDefinesClasses | index.js:178-193 | every class a node uses was recorded before the runs were drawn or is defined by the rule of that node or of an earlier one |
| Styles.DrawAllRuleOrigin | index.js:180-186 | an id added to the registry came with the rule of one of the nodes drawn |
| Styles.Registry.constructor | index.js:159 | the registry starts empty |
| Styles.Registry.Group | index.js:161-196 | `Group` returns the run's node and updates the registry exactly as `Draw` describes |
| Geometry.ProjectX | index.js:282-284 | `Math.round(x * .5 * 2000) / 100`, in hundredths of a pixel; its property is ColumnPosition |
| Geometry.ProjectY | index.js:286-288 | `Math.round(y * 2000) / 100`, in hundredths of a pixel; its property is Baseline |
| Geometry.TextY | index.js:163 | a run's baseline `projectY(y + .8)`; no contract of its own |
| Geometry.ScreenWindow | index.js:198-248 | the svg element, the rounded rect and the content area's offset for a terminal of a given size; its properties are WindowNests, ColumnsFit and BaselinesFit |
| Geometry.BackdropWidth | index.js:145 | the black backdrop of a frame is 10 px per column; no contract of its own |
| Geometry.BackdropHeight | index.js:146 | the backdrop is 19 px per row plus 30 px; no contract of its own |
| Geometry.Round | index.js:283-287 | `Math.round` lands within half a unit of its argument |
| Geometry.ColumnPosition | index.js:282-284 | `projectX(x)` is exactly 10·x px for every integer column |
| Geometry.Baseline | index.js:286-288 | `projectY(y + .8)` is exactly 20·y + 16 px for every integer row |
| Geometry.Spacing | index.js:282-288 | consecutive columns are 10 px apart and consecutive baselines 20 px apart |
| Geometry.WindowNests | index.js:198-229 | the rounded rect, 10·w + 31 px by 19.5·h + 76 px at y = 50, lies inside the 10·w + 32 px by 19.5·h + 127 px svg element |
| Geometry.ColumnsFit | index.js:199-248 | every column's 10 px cell, offset by the content area's x = 15, ends inside the rounded rect |
| Geometry.BaselinesFit | index.js:200-248 | every row's baseline stays inside the rounded rect if and only if the terminal has at most 60 rows, since rows are 20 px apart while the window grows by 19.5 px per row |
| Timeline.Replay | index.js:38-42 | the screen after feeding the first n chunks to the engine in order; no contract of its own |
| Timeline.FrameStart | index.js:55 | frame i starts at the sum of the delays of chunks 0..i; its properties are SumOfDelays and FramesTile |
| Timeline.FrameEnd | index.js:56-57 | frame i ends at the next chunk's start, or at the recording's duration for the last chunk; its property is FramesTile |
| Timeline.RenderSpec | index.js:103-154 | the node and registry one render produces: the whole svg, `null` for an empty timed frame, or the frame group; its properties are EmptyFrame, FramePercentages and RenderKeepsRegistry |
| Timeline.SumOfDelays | index.js:54-55 | the reduce over the delays pushed so far equals the running sum of the first chunks |
| Timeline.WrittenAmong | index.js:37-42 | at most n of the first n chunks are written |
| Timeline.Written | index.js:37-42 | `renderAt` writes at most every chunk |
| Timeline.WrittenAmongIsLongest | index.js:37-42 | every running sum of the written prefix is within `time`; if the loop stopped early, the next running sum passes it |
| Timeline.WrittenIsLongestPrefix | index.js:37-42 | the chunks written are the longest prefix whose running sums are all within `time`, cut at the first chunk that passes it |
| Timeline.WrittenUnique | index.js:37-42 | any prefix length with those two properties is the number of chunks written |
| Timeline.WrittenAll | index.js:37-42 | with non-negative delays and a total within `time`, every chunk is written |
| Timeline.RunningSumMonotone | index.js:39 | with non-negative delays the running sums never decrease |
| Timeline.FramesTile | index.js:55-57 | each frame ends where the next one starts, and the last ends at the recording's duration |
| Timeline.PercentOf | index.js:114-115 | `t / (duration / 100)` is non-finite exactly when the duration is 0 |
| Timeline.PercentValue | index.js:114-115 | for a non-zero duration the offset is 100·t / duration |
| Timeline.ConcatEmpty | index.js:105 | the spread of all rows' runs is empty if and only if every row has no runs |
| Timeline.RowEmpty | index.js:104 | a row gives no runs if and only if none of its columns is kept |
| Timeline.EmptyFrame | index.js:107-112 | a render returns `null` if and only if it is a timed frame and no cell of the screen is kept; the whole-svg render always draws |
| Timeline.FramePercentages | index.js:113-115 | a drawn timed frame carries start and end as 100·start / duration and 100·end / duration |
| Timeline.RenderKeepsRegistry | index.js:104-105 | a render only grows the registry and never records an id twice |
| Timeline.Renderer.constructor | index.js:97-98 | a renderer starts from the engine's blank screen of the cast's size |
| Timeline.Renderer.Write | index.js:100 | `write` feeds the data to the engine and nothing else changes |
| Timeline.Renderer.Render | index.js:103-154 | the nested loops draw every run of every row in order through `Group`; the result and the registry are those of `RenderSpec`: the whole svg, `null` for an empty timed frame, or the frame group with its percentages, backdrop and text nodes |
| Timeline.RenderAt | index.js:34-45 | `renderAt` draws, as one svg, the screen after exactly the chunks `Written` selects |
| Timeline.AnimateChunk | index.js:52-59 | the map callback writes chunk i, pushes its delay, and draws the screen after chunks 0..i as the frame from FrameStart to FrameEnd |
| Timeline.Animate | index.js:47-62 | `animate` returns a window of the cast's size holding one frame per chunk; frame i is the screen after chunks 0..i drawn with the ids the earlier frames left, and the registry ends as the last frame leaves it |
| Timeline.TwoChunkTiming | index.js:51-58 | chunks of 1 s and 2 s in a 5 s recording give frames from 20% to 60% and from 60% to 100% |

## Left out

- cli.js: argument parsing, reading the recording, JSON parsing and console output are I/O. This includes the default `time` of the command line.
- The headless terminal engine: VT parsing, cursor motion and scrolling. The engine is a parameter with a blank screen and a feed function, and it is trusted to be deterministic.
- The virtual-dom builder and its serialisation. Nodes are a datatype, so these are not modelled:
  - the SVG and CSS text;
  - the font and stroke attributes;
  - the three chrome circles;
  - the keyframes template;
  - the frame class name formed from `String(props.start)`.
- shorthash: a style's class id is the style value itself. This assumes the hash is injective. Two styles whose hashes collide would share one rule in the source, and the model does not capture that.
- IEEE-754 arithmetic: delays, durations and percentages are exact reals. Coordinates are exact hundredths of a pixel.
- Timeline.PercentOf: Infinity and NaN are one value, `NonFinite`. The source prints them into the keyframes as `Infinity%` or `NaN%`.
- Geometry.Round: rounds exact reals. The binary rounding of `x * .5 * 2000` and `19.5 * h` is not modelled.
- Attributes.FieldValue: the word is an integer. JavaScript's conversion of a fractional or non-numeric word to a 32-bit integer is not modelled. For integer words, `MaskThenShift` proves that the division and remainder give the same field as the bitwise operators.
- Grouping.Push: it asks whether there is no run yet, where the source asks whether the last run's text is empty. The two agree on extracted cells, since none has an empty glyph (`Extraction.EmittedGlyphsPresent`).
- Grouping.GroupRow: it builds new run values, where the source's reduce mutates the object it last pushed. Nothing else holds a reference to that object, so the results agree.
- Timeline.AnimateChunk: the `delays` array that the callback captures is passed in and returned as a value.
- Styles.Registry: the module-level `emitted` array is an object shared by the renderers that are given it.
- Render modes: `component` values other than `'g'` and `'svg'` are not distinguished; any non-svg component is a timed frame (`Layer`).
- Dead code:
  - `text()`, which refers to an undefined buffer;
  - `scale`;
  - the unused `diff` import;
  - `outerMiddle` and `t` in `Screen`.

## Findings

| source | as written | input that shows it | evidently intended | confidence | as-written member | corrected member |
|---|---|---|---|---|---|---|
| index.js:264-266 | a cell joins the current run whenever its props outside x and y equal the run's, even when elided columns lie between them; the run is then drawn as one string from its first column | a row `a  b` in one style: both spaces are dropped, the cells at columns 0 and 3 merge into "ab" drawn from column 0, so `b` appears in column 1 | only cells in consecutive columns merge, so every glyph stays in its own column | medium, not executed | Grouping.MergesAcrossGap | Grouping.ContiguousRunsKeepColumns |

The renderer follows the code as written: `Group`, `ScreenRuns` and every render use `AsWritten`, so the model draws the shifted glyphs the source draws. `Contiguous` is the corrected rule, and `ContiguousRunsKeepColumns` proves that under it every glyph keeps its column.
