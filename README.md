# kao: face documents, the rasterization cache and the half-block compositor

kao draws a cartoon face in a terminal. This project models its three
deterministic parts in Dafny and proves properties of them:

- **The face document builder** (`face.dfy`, module `FaceSvg`). A
  `FaceBuilder` holds an eye state, eyebrows and a mouth. Each one selects a
  constant SVG fragment, and `build` joins the start tag, eyes, eyebrows,
  mouth, nose, whiskers and end tag in that order. The three named faces are
  fixed builds. `Happy` and `Angry` come from the same configuration.
- **The rasterization cache** (`store.dfy`, module `PixmapStore`, with the
  pixel buffers and the rasterizer interface in `raster.dfy`, module
  `Raster`). `FacePixmapStore` holds five optional entries and a `u8` write
  cursor. `get` scans for an entry with the same face and area. On a miss it
  rasterizes the face's document at `area.width` x `2 * area.height`, writes
  the entry at the cursor and advances the cursor. The store is a class over
  an array, written in place. Its methods are proved against pure
  specification functions (`GetSpec`, `GetAsWrittenSpec`), and runs of calls
  are reasoned about through `Run` and `RunAsWritten`. The specification
  functions take `made`, the rasterizer's answer for the query, as a
  parameter. They consult it only on a miss. The class methods pass
  `Rasterize(face, area, engine)`.
- **The half-block compositor** (`widget_face.dfy`, module `FaceWidget`).
  `render_ref` does the following:
  - cuts the pixel buffer into rows of `area.width`;
  - zips rows `2r` and `2r + 1` column by column;
  - enumerates the pairs row after row;
  - draws pair `i` into the cell at `(left + i % width, top + i / width)`.

  The cell gets the upper half block `'▀'`. Its foreground takes the top
  pixel's colour and its background the bottom pixel's colour. A transparent
  pixel leaves its half unchanged, and a fully transparent pair leaves the
  whole cell unchanged. The terminal buffer is a class over an array of
  cells. `RenderRef` is a loop that calls `PaintPair` for each pair, proved
  against `PaintedUpTo`: the content of every cell once the first `n` pairs
  are drawn.

`common.dfy` (module `Common`) holds the shared vocabulary: `Option`, the
`u8`/`u16` widths and ratatui's `Rect`.

The source compares `face::Face` values (src/main.rs:51), but `Face`
derives no `PartialEq` (src/face.rs:26). The model uses structural equality
of the datatype.

With a 2 x 2 pixel buffer and an area 1 cell wide, `chunks_exact(1)` cuts
four one-pixel rows, and the second pair lands one row lower, at
`(left, top + 1)`. `TwoByTwoScenario` therefore uses an area 2 cells wide,
which puts both cells in row `top`.

## Model

| member | source | states |
|---|---|---|
| FaceSvg.DefaultBuilder | src/face.rs:44-85 | the default builder has both pupils at their default, the `W` mouth and flat eyebrows |
| FaceSvg.SetEye | src/face.rs:88-91 | `eye` replaces the eye state and keeps mouth and eyebrows |
| FaceSvg.SetMouth | src/face.rs:93-96 | `mouth` replaces the mouth and keeps eyes and eyebrows |
| FaceSvg.SetEyeBrows | src/face.rs:98-101 | `eye_brows` replaces the eyebrows and keeps eyes and mouth |
| FaceSvg.EyeFragment | src/face.rs:107-127 | the eye text: each open pupil's circle, or the two closed-eye lines; which circles appear is proved by `OpenEyePupils` |
| FaceSvg.EyeBrowsFragment | src/face.rs:129-142 | the eyebrow text for `Up`, `Down` and `Flat`, byte for byte |
| FaceSvg.MouthFragment | src/face.rs:144-149 | the mouth text for `W`, `O`, `Smile` and `Angry`, byte for byte |
| FaceSvg.Fragments | src/face.rs:161 | the seven parts of a document in the order `build` joins them |
| FaceSvg.Build | src/face.rs:103-165 | the document `build` returns, the join of `Fragments`; its layout, length and framing are proved by `BuildLayout`, `BuildLength` and `BuildIsDocument` |
| FaceSvg.Concat | src/face.rs:161-164 | the joined parts are exactly as long as the capacity reserved for them |
| FaceSvg.ConcatSnoc | src/face.rs:163 | pushing one more part appends it to what was written so far |
| FaceSvg.PushAll | src/face.rs:162-163 | the push loop produces the concatenation of the parts, whose length is exactly the capacity reserved for it |
| FaceSvg.TotalLengthPrefix | src/face.rs:162 | the parts pushed so far never total more than the reserved capacity |
| FaceSvg.BuildDocument | src/face.rs:103-165 | `build` as run returns the specified document `Build(b)` |
| FaceSvg.ConcatSeven | src/face.rs:161-164 | joining seven parts is their plain concatenation in order |
| FaceSvg.BuildLayout | src/face.rs:161-164 | a document is start tag, eyes, eyebrows, mouth, nose, whiskers, end tag, in that order |
| FaceSvg.BuildLength | src/face.rs:161-162 | a document's length is the sum of its fragments' lengths |
| FaceSvg.BuildIsDocument | src/face.rs:104-105 | every build opens with the 200 x 120 `<svg>` tag and closes with `</svg>` |
| FaceSvg.FirstAndLastOfSeven | src/face.rs:161-164 | the joined seven parts start with the first part and end with the last |
| FaceSvg.ConcatAppend | src/face.rs:161-164 | joining two lists of parts is joining each and concatenating the results |
| FaceSvg.ConcatReplace | src/face.rs:161-164 | replacing one part changes only the text that part occupied |
| FaceSvg.MouthSlotOnly | src/face.rs:144-149 | changing only the mouth changes only the mouth's slot; the text before and after it is unchanged |
| FaceSvg.EyeBrowsSlotOnly | src/face.rs:129-142 | changing only the eyebrows changes only the eyebrows' slot |
| FaceSvg.EyeSlotOnly | src/face.rs:107-127 | changing only the eyes changes only the eyes' slot |
| FaceSvg.LeftPupilNotInRight | src/face.rs:112-117 | the cx=65 circle does not occur inside the cx=135 circle |
| FaceSvg.OpenEyePupils | src/face.rs:107-122 | an open eye shows the cx=65 circle iff the left pupil is the default, the cx=135 circle iff the right one is, and nothing when both are suppressed |
| FaceSvg.NamedFaceConfigs | src/face.rs:6-24 | `NORMAL_FACE` is the default build; `HAPPY_FACE` and `ANGRY_FACE` are the same build (`Angry` mouth, `Up` eyebrows) and so are equal |
| FaceSvg.ToSvg | src/face.rs:35-41 | each named face's document, the build `NamedFaceConfigs` names for it |
| FaceSvg.ToSvgIsDocument | src/face.rs:35-41 | every named face's document is a complete `<svg>` document |
| FaceSvg.HappyDiffersFromNormal | src/face.rs:6-16 | the happy document differs from the normal one |
| FaceSvg.FragmentLengthsDiffer | src/face.rs:129-149 | same eyes with eyebrow and mouth fragments of different total length give different documents |
| Raster.PixmapNew | src/main.rs:63-64 | for the sizes the store requests (a `u16` width and twice a `u16` height), allocation fails exactly when a dimension is 0; otherwise it is the requested size and fully transparent |
| Raster.FromScale | src/main.rs:62 | the transform scales the 200 x 120 canvas onto the requested width and height |
| Raster.GetSvgPixmap | src/main.rs:58-68 | the rasterizer succeeds iff the document parses and both dimensions are non-zero, and then has exactly the requested size |
| PixmapStore.FindFrom | src/main.rs:47-56 | the scan returns the first matching slot at or after `from`, or reports that none matches |
| PixmapStore.Lookup | src/main.rs:47-56 | a lookup returns the entry of the first slot with the same face and area, and returns nothing iff no slot matches; empty slots never match |
| PixmapStore.Rasterize | src/main.rs:38-39 | a miss produces an entry iff the engine accepts the document and the area is non-empty; the entry records the face and area and has a `width` x `2 * height` buffer |
| PixmapStore.NextIndexAsWritten | src/main.rs:42 | the source's cursor update climbs by one below 5 and returns to 0 only from 5, one past the last slot |
| PixmapStore.NextIndex | src/main.rs:42 | the corrected cursor moves one slot on, modulo five |
| PixmapStore.GetAsWrittenSpec | src/main.rs:33-45 | one `get` as written keeps the five slots, and panics exactly on a miss that rasterizes while the cursor is past the last slot |
| PixmapStore.AsWrittenWithoutInsert | src/main.rs:33-38 | as written, a hit or a failed rasterization returns the lookup's answer and changes nothing |
| PixmapStore.AsWrittenMissInserts | src/main.rs:38-44 | as written, a successful miss with the cursor on a slot returns the entry, writes only that slot and moves the cursor up by one |
| PixmapStore.AsWrittenAgreesWithCorrected | src/main.rs:33-45 | on a valid store both versions of `get` return the same answer and leave the same slots; the cursors agree except after a write from slot 4, where the source's goes to 5 and the corrected one to 0 |
| PixmapStore.GetSpec | src/main.rs:33-45 | one `get` with the circular cursor keeps the store valid |
| PixmapStore.GetWithoutInsert | src/main.rs:33-38 | a hit, or a miss whose rasterization fails, returns the lookup's answer and changes neither slots nor cursor |
| PixmapStore.GetMissInserts | src/main.rs:38-44 | a successful miss returns the new entry, writes only the slot under the cursor, and advances the cursor; the buffer is `area.width` x `2 * area.height` |
| PixmapStore.GetMissRasterizes | src/main.rs:38-44 | with the vector engine, a miss returns an entry iff the document parses and the area is non-empty, and otherwise changes nothing |
| PixmapStore.LookupAfterUnrelatedWrite | src/main.rs:41 | writing an entry for another face or area cannot make a query hit |
| PixmapStore.LookupAfterInsert | src/main.rs:41-44 | after a miss, the written entry is the one the lookup finds |
| PixmapStore.GetTwiceHits | src/main.rs:33-44 | right after a successful `get`, the same query is a hit on that entry and changes nothing, whatever the rasterizer would answer |
| PixmapStore.Run | src/main.rs:33-45 | a run of `get`s keeps the store valid and answers every call |
| PixmapStore.RunAsWritten | src/main.rs:33-45 | a run as written keeps the five slots and yields at most one outcome per area |
| PixmapStore.FreshAfterInsert | src/main.rs:41 | after a fresh miss is written, the rest of a run of distinct areas is still uncached |
| PixmapStore.AsWrittenFreshStep | src/main.rs:41-42 | as written, a fresh miss with room left inserts its entry and moves the cursor up by one |
| PixmapStore.AsWrittenRun | src/main.rs:41-42 | as written, fresh misses from cursor `i` insert while the cursor climbs to 5, and the first miss at cursor 5 panics |
| PixmapStore.FreshRun | src/main.rs:41-42 | with the circular cursor, every fresh miss returns its entry and the cursor ends `n` slots on, modulo five; the run never panics |
| PixmapStore.SlotsAfterStep | src/main.rs:41-42 | writing one entry under the cursor and the rest from the next slot on places every entry as writing them all from the cursor does |
| PixmapStore.FreshRunSlots | src/main.rs:41-42 | after a run of fresh misses from cursor `i`, the `j`-th of the last five entries is in slot `(i + j) % 5`, and slots the run never reached are unchanged |
| PixmapStore.LastFiveCover | src/main.rs:42 | five consecutive circular writes reach every slot |
| PixmapStore.FreshRunSlotSources | src/main.rs:41-42 | after a run of fresh misses every slot holds one of the last five entries or what it held before |
| PixmapStore.OnlyOwnEntryAnswers | src/main.rs:47-56 | after such a run, a slot that answers the query for an area holds the entry made for that area, one of the last five |
| PixmapStore.FreshRunKeepsLastFive | src/main.rs:33-56 | the corrected store keeps the five most recent entries: after a run of fresh misses, a lookup of one of the last five areas finds its entry and a lookup of an earlier area misses |
| PixmapStore.SixthMissPanics | src/main.rs:17-42 | as written, from the default store, five distinct successful misses insert and the sixth indexes slot 5 of five and panics |
| PixmapStore.SixthMissPanicsWithEngine | src/main.rs:38-42 | the same for six distinct non-empty areas and an engine that accepts the face's document |
| PixmapStore.SixthMissEvictsFirst | src/main.rs:33-56 | with the corrected cursor the same six `get`s all return their entries; afterwards the first area misses and the other five hit |
| PixmapStore.ResizeScenario | src/main.rs:33-45 | area `a`, `a` again, then `b`: a miss into slot 0, a hit on it, a miss into slot 1 |
| PixmapStore.ViewportScenario | src/main.rs:33-45 | normal face at 40 x 20: a miss making a 40 x 40 buffer of 1600 pixels, then a hit; at 41 x 20 a miss into the next slot, leaving the 40 x 20 entry |
| PixmapStore.FacePixmapStore.constructor | src/main.rs:71-77 | the default store has five empty slots and cursor 0 |
| PixmapStore.FacePixmapStore.Get | src/main.rs:33-45 | `get` with the circular cursor updates the array and the cursor exactly as `GetSpec` says and keeps the store valid |
| PixmapStore.FacePixmapStore.GetAsWritten | src/main.rs:33-45 | `get` as written updates the array and the cursor as `GetAsWrittenSpec` says, panicking when the cursor is past the last slot |
| FaceWidget.Composite | src/widget/face.rs:36-58 | a fully transparent pair leaves the cell unchanged; otherwise the half block, with fg from an opaque top and bg from an opaque bottom, and a transparent half keeps its colour |
| FaceWidget.OpaquePairOverwrites | src/widget/face.rs:50-58 | two opaque pixels decide the whole cell, whatever it held |
| FaceWidget.ChunksExact | src/widget/face.rs:30 | `len / w` rows of exactly `w` pixels; the remainder is dropped |
| FaceWidget.ChunksAt | src/widget/face.rs:30 | row `k`, column `c` of the chunks is pixel `k * w + c` |
| FaceWidget.RowStartIsProduct | src/widget/face.rs:30 | row `k` of width `w` starts at `k * w` |
| FaceWidget.PairUp | src/widget/face.rs:31 | pair `r` is rows `2r` and `2r + 1`; an unpaired last row is dropped |
| FaceWidget.Zip | src/widget/face.rs:32 | element `c` of the zip pairs element `c` of both rows, up to the shorter row |
| FaceWidget.ZipRows | src/widget/face.rs:32-33 | flattening gives `w` pairs per pair of rows |
| FaceWidget.ZipRowsAt | src/widget/face.rs:32-33 | pair `c` of row pair `r` sits at `r * w + c` of the flattened sequence |
| FaceWidget.Pairs | src/widget/face.rs:28-34 | the enumeration has `len / w / 2` rows of `w` pairs |
| FaceWidget.PairsAtRow | src/widget/face.rs:28-34 | the pair for column `c` of cell row `r` is pixel `c` of rows `2r` (top) and `2r + 1` (bottom) |
| FaceWidget.CellRows | src/widget/face.rs:29-31 | the number of cell rows: complete pairs of `w`-pixel rows |
| FaceWidget.CellRowsBounds | src/widget/face.rs:29-31 | `2 * rows` full pixel rows fit in the buffer, and fewer than two rows are left over |
| FaceWidget.PairsAt | src/widget/face.rs:28-34 | pair `r * w + c` is `(p[2rw + c], p[(2r + 1)w + c])` |
| FaceWidget.CellOf | src/widget/face.rs:43-44 | pair `i`'s cell lies in the `w` columns from `left`, at or below `top` |
| FaceWidget.CellOfAsWritten | src/widget/face.rs:43-44 | as written, pair `i` still lands in the `w` columns from `left`, at or below `top` |
| FaceWidget.PairOf | src/widget/face.rs:43-44 | exactly the cells in the `w` columns from `left`, at or below `top`, have a pair |
| FaceWidget.CellOfPairOf | src/widget/face.rs:43-44 | pair to cell is one-to-one: the pair of the cell of `i` is `i`, and a cell's pair lands on that cell |
| FaceWidget.AsWrittenAgreesBelow | src/widget/face.rs:43-44 | below 65536 pairs the truncation changes nothing |
| FaceWidget.TruncatedPairOverwritesFirst | src/widget/face.rs:43-44 | at width 300, pair 65536 as written lands on pair 0's cell instead of `(left + 136, top + 218)` |
| FaceWidget.IndexIn | src/widget/face.rs:46-48 | a cell position has an index iff it lies in the buffer's area, and the index is in range |
| FaceWidget.PosIn | src/widget/face.rs:46-48 | the column and row of the `k`-th cell of the area, the inverse of `IndexIn` by the two round-trip lemmas |
| FaceWidget.PosIndexRoundTrip | src/widget/face.rs:46-48 | for an area inside the `u16` plane, every index names a position inside the area, whose index is that index |
| FaceWidget.IndexPosRoundTrip | src/widget/face.rs:46-48 | a position inside the area is the position of its own index |
| FaceWidget.PaintedUpToSpec | src/widget/face.rs:35-58 | once `n` pairs are drawn, a cell holds its old content composited with the one pair among them that lands on it, or is unchanged if none does |
| FaceWidget.PaintStep | src/widget/face.rs:35-59 | drawing pair `i` changes only its own cell, which no earlier pair touched |
| FaceWidget.DrawPair | src/widget/face.rs:46-58 | drawing one pair keeps the buffer's size, composites the cell at its position if the area has one, and leaves every other cell as it was |
| FaceWidget.DrawPairStep | src/widget/face.rs:35-59 | a buffer holding the first `i` pairs holds the first `i + 1` after pair `i` is drawn |
| FaceWidget.PaintPair | src/widget/face.rs:36-58 | one step of the loop writes only the pair's cell (if the buffer has it), with the per-cell rule |
| FaceWidget.RenderRef | src/widget/face.rs:23-60 | afterwards each cell holds its old content composited with the pair that lands on it, if any |
| FaceWidget.RenderedCell | src/widget/face.rs:28-58 | cell `(left + c, top + r)` ends as its old content composited with `p[2rw + c]` over `p[(2r + 1)w + c]` |
| FaceWidget.RenderedOutside | src/widget/face.rs:29-48 | cells outside the `w` x `len / w / 2` grid from `(left, top)` keep their content |
| FaceWidget.TwoByTwoScenario | src/widget/face.rs:23-60 | red over transparent and transparent over blue in a 2-wide area: the first cell gets `'▀'` with red fg and its old bg; the second gets `'▀'` with blue bg and its old fg |
| FaceWidget.Render | src/widget/face.rs:63-66 | `render` leaves the buffer exactly as `render_ref` does |

## Left out

- SVG parsing and drawing (`usvg::Tree::from_str`, `resvg::render`) are foreign libraries. The model takes them as the parameter `Raster.Engine`: a predicate for "the document parses" and a function giving each painted pixel.
- The `f32` division in the scale transform is modelled with reals. Single-precision rounding is not modelled.
- tiny_skia's premultiplied pixels are modelled as four plain bytes.
- `LazyLock`, `Cow` and `.leak()` on the named faces are replaced by the constants `NormalFace`, `HappyFace` and `AngryFace`. They have no effect on the strings. `NamedFaceConfigs` states the three constants, and the constructor's contract states `DefaultStore`, the default store.
- `Rc` sharing of cache entries is not modelled. Entries are immutable values, and single-threaded reference counting has no observable effect.
- `main`, `run` and the ratatui frame glue are I/O (src/main.rs:80-105) and are not modelled.
- Of ratatui's `Buffer` and `Cell`, the model keeps only the area, the row-major cell array, `cell_mut` returning nothing outside the area, and each cell's symbol, foreground and background. Modifiers, skip flags and the other colour variants are not modelled.
- FaceWidget.RenderRef: requires `area.x + area.width` and `area.y` plus the number of cell rows to stay within `u16`. Past that, `left + …` overflows (a panic in debug builds), and the model does not cover the wrap-around.
- FaceWidget.RenderRef: requires `area.width > 0`. With a zero width, `chunks_exact(0)` panics, and the model does not include that panic.
- FaceWidget.PaintPair: computes the cell from the untruncated pair index `i`, not from `i as u16` (see Findings). From pair 65536 on, the source draws into the cell of `i % 65536` instead, and the model does not cover that.
- FaceWidget.RenderRef: uses the corrected untruncated pair index (see Findings). It does not cover the as-written placement of pairs from 65536 on. That placement is modelled by `CellOfAsWritten` alone.
- PixmapStore.GetSpec: takes the rasterizer's answer `made` as a parameter instead of calling the engine. Only the class methods and the `...WithEngine`/`ViewportScenario`/`GetMissRasterizes` lemmas tie it to `Rasterize`.

## Findings

| source | as written | input that shows it | evidently intended | confidence | as-written member | corrected member |
|---|---|---|---|---|---|---|
| src/main.rs:42 | the cursor returns to 0 only when it equals `CACHE_SIZE` (5), so after five successful misses it is 5, and the next successful miss writes `caches[5]` of a 5-slot array (src/main.rs:41) and panics | default store, then six `get`s of one face at six different non-empty areas that all rasterize | the cursor wraps after the last slot (`index == CACHE_SIZE - 1`), overwriting the oldest entry | not executed | PixmapStore.SixthMissPanics | PixmapStore.SixthMissEvictsFirst |
| src/widget/face.rs:43-44 | `i as u16 % width` and `i as u16 / width` truncate the pair index to 16 bits before dividing, so pair 65536 lands on pair 0's cell | a 300-column area at least 219 cells tall with a full-size buffer: pair 65536 is drawn at `(left, top)` instead of `(left + 136, top + 218)` | the cell is computed from the untruncated index | not executed | FaceWidget.TruncatedPairOverwritesFirst | FaceWidget.CellOfPairOf |
