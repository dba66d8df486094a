# CollagePDFMaker packing core in Dafny

This project models the layout core of CollagePDFMaker, a tool that lays photos out on A4
pages. Two packers are covered.

- The greedy shelf packer of `placement.py` reuses free space. Images are sized to fit a
  user box, turned 90 degrees when their orientation disagrees with the box's, and sorted
  largest first. Each image is then placed:
  - `reposition` wraps the row or the page and records the gap left behind;
  - `use_unused` tries the recorded gaps (best fit at the right end of a row, then the first
    usable strip below a page's last row, then both again with the image turned);
  - only if no gap takes the image does `draw_image` put it at the cursor.
- The older shelf packer of `CollagePDFCreator.py` fills rows left to right and pages top
  to bottom, with no reuse.

Modules, one file each:

- `wrappers.dfy` (`Wrappers`): `Option`.
- `images.dfy` (`Images`): `VirtualImage`, its `__lt__`/`__eq__` order, `rotate`, and
  `sort(reverse=True)`.
- `sizing.dfy` (`Sizing`): `cm_to_points`, the shared fitting arithmetic, `resize_image`,
  the file-name filter, and `collect_and_resize_images` over an already enumerated file
  list. `cm_to_points` is the same formula in both files (`CollagePDFCreator.py:28-30`
  too).
- `spaces.dfy` (`Spaces`): `VirtualDocument`, `VirtualSpace`, and the gap lists as a class
  `SpaceList` whose `items` the packer updates in place. It also has `bisect_left`,
  `bisect_right`, `insort_right` and `pop` on lists sorted by `space`.
- `canvas.dfy` (`Canvas`): `VirtualCanvas`, a class with the source's `canvas`,
  `current_page` and `length`. A ghost log of every placement drawn, tagged with its page,
  ties the page lists together.
- `packing.dfy` (`Packing`): the reuse decisions as pure functions of the gap lists
  (`RightReuse`, `BottomReuse`, `ReuseAny`, `Repositioned`). One pass of the main loop is
  the pure `Step` and the whole loop the pure `Run`; the lemmas about them carry the gap-list
  invariants and containment. The imperative `try_use_unused_right`,
  `try_use_unused_bottom`, `use_unused`, `reposition` and `draw_image` update the lists, the
  cursor and the canvas in place. Each is proved to leave exactly the state its function
  computes. That includes one pass (`PlaceOne` equals `Step`) and the main loop
  (`PlaceImages` equals `Run`).
- `shelf.dfy` (`Shelf`): the resize and shelf loop of `CollagePDFCreator.py`. The loop's
  `c.drawImage` calls become a list of emitted draws. It is proved equal to a pure `Run`,
  about which no-overlap and containment are proved.
- `reuse_overlap.dfy` (`ReuseOverlap`): an input on which the reuse packer draws one image
  over another (see "## Findings"), traced through `Packing.Run` image by image.
- `row_reuse.dfy` (`RowReuse`): right-gap reuse with the height of the gap's row taken into
  account.

Geometry is exact `real` arithmetic. Python's `int()` on the non-negative scaled side is
`Floor`. The page size is a parameter (A4 in the source).

The code behaves as follows in four places where a reader might expect otherwise; the model
does the same:

- `resize_image` turns an image only when `(w - h) * (max_w - max_h) < 0`. It does not
  orient every image to portrait, and it does not normalise the box.
- `resize_image` never enlarges an image: the constrained side is `min(side, box side)`,
  not the box side.
- An unreadable file is not skipped: `placement.py` has no error handling there. The
  collector therefore requires every accepted file to be decodable.
- `draw_image` never raises the row height. `reposition` takes the row height from the
  first image of each row and keeps it across a page break.

## Model

| member | source | states |
|---|---|---|
| Images.LessIsStrictTotalOrder | placement.py:18-21 | `__lt__` (height, then width) is irreflexive, transitive, asymmetric and total up to `__eq__` (same width and height) |
| Images.RotateInvolution | placement.py:203-204 | `rotate` keeps the path and the area, never returns the same image, and turning twice gives back the original field by field |
| Images.Insert | placement.py:163 | inserting into a non-increasing list keeps it non-increasing and adds exactly that image (multiset) |
| Images.SortDescending | placement.py:163 | `sort(reverse=True)` yields a non-increasing list under `__lt__` that is a permutation of its input |
| Images.SizeClass | placement.py:18-21 | the images of one size, which `__lt__` cannot tell apart, in list order; never more than the list holds |
| Images.InsertStable | placement.py:163 | inserting `x` puts it ahead of the images of its own size and reorders no size class otherwise |
| Images.SortDescendingStable | placement.py:163 | the sort is stable: within every size class the images keep their input order |
| Images.SortDescendingMembers | placement.py:163 | sorting keeps exactly the images of its input |
| Sizing.CmToPoints | placement.py:125-127 | points are cm × 72 / 2.54, and are positive exactly when cm is |
| Sizing.Truncate | placement.py:144 | `int()` on a non-negative value is the largest integer not above it |
| Sizing.Scale | placement.py:141-148 | the fitted size lies in the box and never exceeds the image; in the wider-than-box case the width is `min(w, max_w)` and the height is exactly `int(min(w, max_w) / (w / h))`; otherwise the height is `min(h, max_h)` and the width exactly `int(min(h, max_h) * (w / h))` |
| Sizing.RatioCross | placement.py:142 | comparing `w/h` with `max_w/max_h` is comparing the cross products |
| Sizing.ResizeImage | placement.py:129-149 | `rotated` holds iff the image's orientation strictly disagrees with the box's; the result keeps the path, fits the box, and does not exceed the (swapped when rotated) pixel size |
| Sizing.SignOfProduct | placement.py:136 | the rotation test `(w-h)*(max_w-max_h) < 0` holds iff the factors have strictly opposite signs |
| Sizing.Lower | placement.py:158 | lower-casing keeps the length |
| Sizing.LowerIdempotent | placement.py:158 | lower-casing twice equals lower-casing once |
| Sizing.ExtensionIgnoresCase | placement.py:158 | the extension filter accepts a name iff it accepts its lower-cased form |
| Sizing.Sized | placement.py:156-162 | the collector appends at most one image per file |
| Sizing.SizedMembers | placement.py:156-162 | an image is collected exactly when it is the resize of some file whose lower-cased name has an accepted extension |
| Sizing.SmallestAppend | placement.py:161 | taking `min(min_size, width, height)` keeps `min_size` at most the box's smaller side and every collected side, and equal to one of them |
| Sizing.CollectAndResizeImages | placement.py:151-164 | the result is exactly the stable descending sort of the sized accepted files in walk order (so non-increasing, a permutation of them, and equal-size images in walk order); `min_size` is at most both box sides and every returned width and height, and equals one of them |
| Spaces.SpaceList.Pop | placement.py:171 | `pop(i)` returns entry `i` and leaves the list without it |
| Spaces.SpaceList.Insort | placement.py:178 | `insort_right` replaces the list by `InsortRight` of it |
| Spaces.SpaceList.Set | placement.py:193 | index assignment replaces exactly entry `i` |
| Spaces.SortedHead | placement.py:168 | the head of a sorted gap list is its smallest entry and its tail is sorted |
| Spaces.BisectLeft | placement.py:168 | `bisect_left` by `space`: every entry before the index is smaller than the key, every entry from it on is not |
| Spaces.BisectRight | placement.py:178 | `bisect_right` by `space`: entries before the index are at most the key, entries from it on exceed it |
| Spaces.InsortRight | placement.py:178 | `insort_right` keeps the list sorted, grows it by one, and adds `v` and nothing else |
| Spaces.InsortRightPlace | placement.py:178 | `insort_right` adds exactly `v` as a multiset, after every gap no larger and before every larger one |
| Spaces.InsertAtKeeps | placement.py:178 | inserting at a split point between smaller-or-equal and larger entries keeps the order and adds exactly `v` |
| Spaces.RemoveAt | placement.py:171 | `pop(i)` keeps the entries before `i` and shifts those after it down by one |
| Spaces.RemoveAtKeeps | placement.py:195 | `pop(i)` keeps a sorted list sorted and loses exactly entry `i` |
| Spaces.ReplaceKeepsSorted | placement.py:193 | replacing an entry by one with the same `space` keeps the list sorted |
| Canvas.OnPage | placement.py:45 | a page holds no more placements than were drawn |
| Canvas.TotalLengthAppend | placement.py:45-46 | appending to any one page adds one to the total count |
| Canvas.OnPageUnused | placement.py:39 | a page nothing was drawn on is empty |
| Canvas.SplitAppend | placement.py:42-45 | drawing onto page `q` appends to page `q` and changes no other page |
| Canvas.SplitGrow | placement.py:38-40 | opening a page nothing went to adds an empty page |
| Canvas.VirtualCanvas.constructor | placement.py:32-36 | a new canvas has one empty page, current page 0 and length 0 |
| Canvas.VirtualCanvas.ShowPage | placement.py:38-40 | `showPage` appends one empty page and advances `current_page`; `length` and the placements are unchanged; pages = current page + 1 and length = total of page lengths are kept |
| Canvas.VirtualCanvas.DrawImage | placement.py:42-46 | `drawImage` appends to the given page, or to the current page when none is given, changes no other page, and adds one to `length` |
| Packing.VirtualPosition.constructor | placement.py:108-113 | the cursor starts with the given fields |
| Packing.PlacedAt | placement.py:173 | an image taking a gap hangs from the gap's top-left corner on the gap's page |
| Packing.RightReuse | placement.py:167-181 | `try_use_unused_right` on values: when it succeeds, the index taken is in the list |
| Packing.RightReuseChoice | placement.py:167-181 | right-gap reuse succeeds iff some gap is at least as wide as the image; it takes the first such gap, which is also the narrowest, and places the image at its corner |
| Packing.RightReuseGaps | placement.py:171-178 | after right-gap reuse the list is sorted and has lost exactly the used gap, gaining the remainder only when at least `min_size` is left |
| Packing.FirstFit | placement.py:186-198 | the scan stops at the first index from its start whose gap leaves room for the width before `page_right`, or at the end |
| Packing.BottomReuse | placement.py:183-201 | `try_use_unused_bottom` on values: when it succeeds, the index taken is in the list |
| Packing.BottomReuseChoice | placement.py:183-201 | bottom-gap reuse succeeds iff some gap is tall enough and fits across; it takes the first such gap, and the gap is shifted right in place when at least `min_size` is left, popped otherwise |
| Packing.BottomReuseGaps | placement.py:186-196 | after bottom-gap reuse the list is still sorted, entries before the used one are untouched, and nothing new appears but the shifted gap |
| Packing.ReuseAny | placement.py:206-215 | `use_unused` on values changes at most one of the two lists |
| Packing.ReuseAnyChoice | placement.py:206-215 | `use_unused` fails iff no gap takes the image either way round; it draws the image or its rotation; an upright right fit wins and leaves the bottom list alone; an upright bottom fit is used upright |
| Packing.RightReuseKeeps | placement.py:175-178 | right-gap reuse keeps every right gap sorted, spanning to `page_right`, at least `min_size`, on an existing page, and draws on an existing page |
| Packing.RightReuseInside | placement.py:173-178 | with non-negative padding and width, right-gap reuse draws inside the left, right and top margins and keeps the gaps inside them |
| Packing.BottomReuseKeeps | placement.py:191-195 | bottom-gap reuse keeps every bottom gap sorted, at least `min_size`, on an existing page, and draws on an existing page |
| Packing.BottomReuseInside | placement.py:188-193 | with non-negative padding and width, bottom-gap reuse draws inside the left, right and top margins and keeps the gaps inside them |
| Packing.ReuseAnyKeeps | placement.py:206-215 | `use_unused` keeps both gap-list invariants and draws on an existing page |
| Packing.ReuseAnyInside | placement.py:206-215 | with non-negative sizes, `use_unused` draws inside the left, right and top margins |
| Packing.TryUseRight | placement.py:167-181 | the in-place `try_use_unused_right` returns true iff `RightReuse` succeeds, leaving its list and appending its placement; on false neither the list nor the canvas changes |
| Packing.UseRightGap | placement.py:171-179 | once a gap is chosen, it is popped, the image is drawn at its corner on its page, and the remainder goes back in order iff `new_x + min_size <= page_right`; the canvas's page count and current page are unchanged |
| Packing.KeepRightRemainder | placement.py:175-178 | the remainder goes back into the list, in order, iff `new_x + min_size <= page_right` |
| Packing.TryUseBottom | placement.py:183-201 | the in-place `try_use_unused_bottom` scan returns true iff `BottomReuse` succeeds, leaving its list and appending its placement; on false nothing changes |
| Packing.UseBottomGap | placement.py:187-196 | a fitting bottom gap gets the image at its corner and is shifted right in place or popped |
| Packing.UseUnused | placement.py:206-215 | the in-place `use_unused` does exactly what `ReuseAny` says, and nothing on failure |
| Packing.Record | placement.py:222-240 | a gap left behind is inserted in order iff it holds at least `min_size` |
| Packing.Repositioned | placement.py:218-243 | `reposition` on values: only sets the row height for the first image; changes nothing when the image fits across; otherwise wraps (recording the right gap, `x = margin`, `y -= row height + padding`, row height = image height) and, if the image is then too low, records the bottom gap, increments the page by one and goes to the top-left corner |
| Packing.RepositionedKeeps | placement.py:218-243 | `reposition` keeps both gap-list invariants, raises the page by at most one, and for a fitting image leaves the cursor inside the margins with room across and a positive row height |
| Packing.RecordGap | placement.py:223-240 | the in-place recording of a gap does what `Record` says |
| Packing.BreakPage | placement.py:232-243 | the page break records the bottom gap, shows a page, increments the page by one, moves to the top-left corner and keeps the row height |
| Packing.Reposition | placement.py:218-243 | the in-place `reposition` does exactly what `Repositioned` says, and the canvas follows the cursor's page without drawing |
| Packing.DrawImage | placement.py:246-248 | `draw_image` draws at `(x, y - h)` on the current page and advances only `x`, by width plus padding |
| Packing.ReuseAnySorted | placement.py:206-215 | after `use_unused` both lists are still sorted, and what it drew is the image or its rotation |
| Packing.Put | placement.py:283-284 | `use_unused`, else `draw_image`, on values: both lists stay sorted and the placement is of the image or its rotation |
| Packing.Step | placement.py:281-284 | one pass on values (`reposition`, then `Put`): both lists stay sorted and the placement is of the image or its rotation |
| Packing.PutChoice | placement.py:283-284 | when no gap takes the image either way round, the upright image is drawn at the cursor on the cursor's page, `x` advances by width plus padding, and neither list changes; otherwise the cursor stays put and the image or its rotation hangs from the corner of a gap of one of the lists |
| Packing.StepKeeps | placement.py:218-248 | a pass keeps both gap-list invariants, raises the page by at most one, and draws on a page no later than the cursor's |
| Packing.StepInside | placement.py:218-248 | for a fitting image a pass keeps the cursor and every gap inside the margins and draws inside the left, right and top margins |
| Packing.Run | placement.py:271-284 | the main loop on values from the top-left corner with no row and no gaps: one placement per image, in order, each of the image or its rotation; both lists sorted |
| Packing.RunKeeps | placement.py:271-284 | over the whole loop both gap-list invariants hold and every placement is on a page no later than the cursor's |
| Packing.RunInside | placement.py:271-284 | when every image fits, every placement of the loop is inside the left, right and top margins |
| Packing.PutImage | placement.py:283-284 | the in-place `use_unused` followed, on failure, by `draw_image` leaves exactly the cursor, lists and new placement of `Put` |
| Packing.PlaceOne | placement.py:281-284 | one in-place pass leaves exactly the cursor, lists and new placement of `Step`, with the canvas's current page equal to the cursor's |
| Packing.PlaceImages | placement.py:268-286 | the in-place main loop ends with exactly the placements, gap lists and page of `Run`; so `length` equals the number of images, one placement per image in order, each of the image or its rotation; both gap lists are sorted with entries of at least `min_size` on existing pages; with fitting images every placement is inside the left, right and top margins |
| Shelf.ResizeImage | CollagePDFCreator.py:32-41 | the unrotated resize keeps the path, fits the box, never enlarges, and keeps one side at the smaller of the image's and the box's |
| Shelf.ResizeAgreesUnrotated | CollagePDFCreator.py:32-41 | the two `resize_image`s agree whenever the one in `placement.py` does not rotate |
| Shelf.Place | CollagePDFCreator.py:62-72 | one pass emits one draw with the image's path and size; the cursor ends one margin right of it, level with its top; a wrap (the image does not fit across) puts it at the left margin, one row height plus the margin lower; a page break, taken exactly when the image does not fit above the bottom margin of that row, puts it on the next page hanging from the top margin at the left margin; otherwise it hangs from the (possibly wrapped) row; the row height becomes `max` of the image height and the old row height, or of the image height alone after a wrap or break; an image that fits at the cursor is drawn there |
| Shelf.Run | CollagePDFCreator.py:61-72 | the loop emits one draw per image, in order, with that image's path and size |
| Shelf.PlaceKeeps | CollagePDFCreator.py:62-72 | one pass keeps the layout invariant: the cursor is inside the top and left margins, earlier draws on its page lie above its row or inside it to its left, and no two draws overlap |
| Shelf.RunLayout | CollagePDFCreator.py:58-72 | with a non-negative margin and image sides, the layout invariant holds after any number of images; in particular no two draws overlap |
| Shelf.RunInside | CollagePDFCreator.py:62-70 | when every image fits an empty page, every draw lies inside all four margins |
| Shelf.RunSound | CollagePDFCreator.py:58-72 | the loop's draws: one per image with its path and size, pairwise disjoint for non-negative sizes, and inside the margins when every image fits |
| Shelf.Advance | CollagePDFCreator.py:62-72 | one pass of the loop on its local variables emits the draw and leaves the variables that `Place` describes |
| Shelf.PlaceImagesOnPdf | CollagePDFCreator.py:54-73 | the loop's draws are those of `Run`: one per image with its path and size, no two overlapping, and all inside the margins when every image fits an empty page |
| ReuseOverlap.Witness | placement.py:163 | five image sizes already in the order the collector sorts them |
| ReuseOverlap.FirstPass | placement.py:218-248 | the first pass only sets the row height and draws the image in the top-left corner |
| ReuseOverlap.DrawsAtCursor | placement.py:218-248 | with no gaps recorded and room across the row, a pass draws the image at the cursor and moves it right |
| ReuseOverlap.RunDraws | placement.py:281-284 | the same, stated for the loop: one more image that fits across extends the placements by one drawn at the cursor |
| ReuseOverlap.WitnessFirst | placement.py:268-284 | on A4 with margin 10 and `min_size` 80, the first witness image is drawn at the top-left corner |
| ReuseOverlap.SecondWraps | placement.py:221-230 | the second image wraps the row and the first row's right end is recorded as a gap |
| ReuseOverlap.SecondTurns | placement.py:167-215 | upright the second image is too wide for that gap; turned it takes it, hanging 300 points from a 100-point row, and no remainder is kept |
| ReuseOverlap.WitnessSecond | placement.py:268-284 | after two images the cursor is at the start of the second row with no gaps left |
| ReuseOverlap.WitnessThird | placement.py:268-284 | the third image starts the second row |
| ReuseOverlap.WitnessFourth | placement.py:268-284 | the fourth image follows it |
| ReuseOverlap.WitnessRest | placement.py:268-284 | the fifth image is drawn at x 430 of the second row, while the turned second image stays at x 420 of the first |
| ReuseOverlap.WitnessFits | placement.py:268-284 | every witness image fits between the side margins |
| ReuseOverlap.ReuseOverlaps | placement.py:268-284 | as written, the loop draws the fifth image over the turned second one on the first page, although the images are sorted and fit the margins |
| RowReuse.FirstTaker | placement.py:168-170 | the first gap from a start index that is both wide enough and no taller than its row, or the end |
| RowReuse.InsortRow | placement.py:178 | `insort_right` on row gaps keeps them sorted by width and adds exactly the new gap |
| RowReuse.HeadBelowInsortRow | placement.py:178 | the narrowest gap may stay in front of an insertion of a wider one |
| RowReuse.RowReuseAt | placement.py:167-181 | corrected right-gap reuse: the index used is in the list and the list stays sorted |
| RowReuse.RowReuseInRow | placement.py:167-181 | corrected right-gap reuse succeeds iff some gap is wide enough and no taller than its row, then uses the narrowest such gap and draws the image inside that gap's row band and within its width |
| RowReuse.RowReuseRefusesTallImage | placement.py:167-181 | the corrected reuse refuses the turned second witness image on the first row's gap |

## Left out

- I/O is not modelled: `os.walk`, `Image.open`, `os.path.join`, and the reportlab canvas
  (`canvas.Canvas`, `c.drawImage`, `c.showPage`, `c.save`). In `placement.py` this includes
  `makeItReal`, `drawReal`, `drawRealRotated` and `drawRealDirect`. The walk becomes a given
  file list with decoded pixel sizes. The shelf loop's draws become a returned list.
- The rotated-frame arithmetic of `drawRealRotated` (placement.py:88) is not modelled. It
  only matters to the renderer.
- Progress callbacks, `print` tracing and `time()` timing are not modelled. They are
  reporting only (placement.py:17, 67-72, 250-265).
- `CollagePDFMaker.py` is not part of this model. It is the Qt front end and its settings.
  The same goes for the `ImageToPDFConverter` class and the locale loaders in
  `CollagePDFCreator.py`.
- `collect_and_resize_images` of `CollagePDFCreator.py` (lines 43-52) is left out. It is the
  walk-and-resize loop of `placement.py` without sorting or `min_size`, and its one
  computation, `resize_image`, is modelled as `Shelf.ResizeImage`.
- `VirtualDocument` is constructed with A4 in the source. The page size is a parameter here.
- Floating point is not modelled. All geometry is exact `real`, and `int()` is `Floor` on
  the non-negative values it is applied to.
- Sizing.Lower: only ASCII letters are folded, not the whole of Unicode `str.lower`.
- Sizing.CollectAndResizeImages: every file the filter accepts must be decodable. An
  unreadable file raises in the source and is not modelled.
- Packing.PlaceImages: containment is proved for the left, right and top margins only, not
  the bottom one. A right gap is chosen by width alone, so an image (in particular a rotated
  one) taller than the row it joins can reach below the bottom margin. No-overlap does not
  hold for this packer; `ReuseOverlap.ReuseOverlaps` gives an input where it fails.
- Packing.ImageOk: containment needs a positive image height. `int()` can truncate a very
  flat image's height to 0. The next image then finds `max_row_height == 0`
  (placement.py:219-220), so it only sets the row height and skips the wrap check; it can be
  drawn past `page_right`. Zero-height images are therefore outside the containment lemmas;
  `Run` itself covers them.
- RowReuse.RowReuseAt: the corrected reuse is modelled on its own and not wired into
  `Packing.Run`. The main model keeps the code as written, so that it can exhibit the
  overlap.
- Shelf.PlaceImagesOnPdf: the page number of a draw counts the `showPage` calls made before
  it. Pages themselves are not modelled.

## Findings

| source | as written | input that shows it | evidently intended | confidence | as-written member | corrected member |
|---|---|---|---|---|---|---|
| placement.py:167-181 | `try_use_unused_right` takes the first right gap at least as wide as the image and ignores the height of the row the gap was cut from | A4, margin 10, `min_size` 80, images 400×100, 300×90, 200×80, 200×80, 150×80: the 300×90 image, turned to 90×300, takes the 165-point gap right of the first row and hangs 300 points into the second row, where the 150×80 image is then drawn over it | a right gap takes only images no taller than its row, so reused space stays inside that row | not executed | ReuseOverlap.ReuseOverlaps | RowReuse.RowReuseInRow |
