# zencodec: verified models of five components

This project models five self-contained components of zencodec in Dafny 4.11 and proves what their
code and comments promise.

- **EXIF/TIFF** (`Exif*.dfy`, from `src/exif.rs`). A blob is parsed into a tree of up to five directories and a
  thumbnail; the tree can be pruned by policy, edited, and laid out again with fresh offsets. Entries carry
  their bytes and where those bytes live, because values that alias the same bytes are written once.
  `ExifEntries` holds the list operations and the stable sort, `ExifLayout` the bytes of one directory, `ExifModel`
  and `ExifPolicy` the operations as functions; `ExifReading` tells what the reader makes of any bytes at all;
  `ExifReparse`, `ExifRoundTrip`, `ExifFixpoint` and `ExifCanonical` prove the round trip, `ExifOffsets` the offsets,
  `ExifPruning`, `ExifPatch` and `ExifRetention` the rewriting, `ExifSurvival` what a rewrite keeps and when a blob is
  dropped, `ExifAmplification` and `ExifFaithful` the size guard, `ExifEditing` the setters. `Exif.dfy` is the imperative form:
  reader loop, growing buffers, a class with the source's fields, and `retain_reconciled`.
- **Structural inventory** (`Inventory*.dfy`, `Ranges.dfy`, from `src/inventory.rs`). A tree of byte ranges in three
  parallel arrays with intrusive sibling lists. The class in `Inventory.dfy` keeps the arrays; the laws are about the
  part list they represent.
- **Timing quantizer** (`Timing.dfy`, `Divisibility.dfy`, from `src/animation.rs`). Exact rational phase in checked
  u128 arithmetic, proved equal to a step in unbounded arithmetic, about which the laws over whole runs are proved.
- **Gain-map metadata** (`GainMap*.dfy`, `ContinuedFraction.dfy`, `FractionAnswers.dfy`, from `src/gainmap.rs`). Four
  framings, full and common-denominator payloads, and the continued-fraction approximation that picks the fractions:
  `FractionAnswers` tells which numbers it refuses and what it answers on f32 numbers, `GainMapSingles` what that means
  for whole metadata. `GainMapFormat` is the format byte by byte: the inputs that parse, the errors of all others, and
  where the writer puts each number.
- **Core-identity search** (`CodecGraph.dfy`, from `scripts/check-codec-graph.py`). A recursive search with a
  path-local `seen` set over a graph that may have cycles.

`Words.dfy` and `Bytes.dfy` hold machine integers, option and result types, and integers as bytes; `Arithmetic.dfy` the
nonlinear steps of the timing and approximation proofs.

The formats are TIFF 6.0 (section 2: header, directories, 12-byte entries, values in place or by offset), CIPA
DC-008 (section 4.6: the Exif, GPS and Interoperability pointers) and ISO 21496-1 (Annex C).

## How to read the models

A function with the source's name says what an operation computes; a method of the imperative form is proved equal to
it; lemmas say what that means. Integers are unbounded: u16, u32, u64 and u128 are ranges (`Words`), `as u32` and
`as u16` are remainders, checked operations are options. A `usize` is that of a 64-bit target. Allocation succeeds.
Numbers in gain maps are exact reals.

In the EXIF model an entry's `origin` is the pointer identity that the source compares: the offset of a value
borrowed from the blob (which is also the source's `value_offset`), or the tag whose edit owns the bytes (each edit
allocates afresh, and only the first entry of a tag is ever replaced). `SameDir(a, b)` says that `b` is `a` stably sorted by tag,
with the same contents and the same values aliased; `SameTree` says it of whole trees.

## What the proofs found

- An in-range number can be refused by the fraction loop. A reduced fraction that the loop can reach is refused if and
  only if it is at most one and its numerator is above the cap on numerators (`RefusedIff`, `SmallFractionRefusedIff`;
  `SignedRangeRefusal` is an input). On f32 numbers, the only ones the source passes, nothing in range is refused, no
  numerator leaves its range and every answer is exact or near (`F32Approximation`, `SignedOfF32`). Other numbers can
  use up the turns with a numerator beyond i32::MAX: `SignFlips` names a positive one that would be written as a
  negative fraction.
- `fill_gaps` partitions the uncovered bytes exactly when no child range that runs backwards is in its way
  (`HolesPartitionIffClean`); ranges that only overlap or protrude are fine. `ReversedPartDoublesHoles` is a level that
  fails: three bytes lie in two holes each.
- The setters push entries without looking at the reader's cap of 1000. Any run of edits within 32
  bits is read back from the written bytes if and only if IFD0, with its pointers, has room for all the tags that the run
  adds (`EditsSurvive`); past the cap the whole blob no longer parses. `FullDirectoryIsLost` starts from a blob that parses and loses it with one
  `set_copyright`.
- A retain that keeps everything makes the blob say the wanted orientation if and only if it says so already or IFD0 has
  a SHORT or LONG orientation in its descriptor with at least one element (`KeepAllSetsOrientation`). An entry with a
  count of zero has its unused field overwritten and stays unreadable.
- The comment on the size guard says that a faithful prune never exceeds its source beyond alignment padding. That holds
  of every blob whose tables have a next link of their own behind them (`LinkedPruneAddsPadding`), and a blob that the
  source itself wrote for a sound tree never grows at all (`WrittenPruneNeverGrows`). Without the links it fails: `TableAtEndGrows` is a blob of 22
  bytes with nothing to pad that is rewritten to 26. Four bytes for each directory, and the padding, are then the bound
  (`FaithfulPruneIsSmall`).

## Model

| member | source | states |
|---|---|---|
| ExifRetention.RetainTwiceIsOnce | src/exif.rs:1745-1819 | Rewriting is idempotent byte for byte: for every blob, policy and wanted orientation, whatever retain returns is returned unchanged when retained again |
| ExifRetention.InPlaceTwice | src/exif.rs:1778-1787 | The keep-all path: an in-place rewrite keeps the length, parses again, and rewriting it again changes nothing |
| ExifRetention.PruneTwice | src/exif.rs:1788-1818 | The pruning path: what is written fits 32 bits, parses, and prunes and serializes to itself |
| ExifRetention.PrunedReadsBack | src/exif.rs:1788-1818 | A pruning rewrite's bytes have the previewed length and parse to the pruned tree, sorted |
| ExifRetention.RetainedWire | src/exif.rs:842-969 | The retained bytes parse to the filtered directories, sorted and with the same values aliased: IFD0, Exif and IFD1 filtered, Interop validated, GPS whole or not at all, and the thumbnail or none |
| ExifSurvival.RetainedSurvivors | src/exif.rs:842-969 | Under any policy and wanted orientation the retained bytes hold exactly the entries that survive, told by tag numbers, types and counts alone: in each directory, with their contents and tag by tag in their order; the Exif and Interop directories are there exactly when something in them is |
| ExifSurvival.FilteredIsPruned | src/exif.rs:842-969 | The same in memory: each directory of the pruned tree is the list of its survivors |
| ExifSurvival.KeepIffSurvives | src/exif.rs:843-894 | The filter keeps an entry if and only if it survives: a plain tag by the flag of its tag set, text notices in IFD0 and text creators in Exif, one valid orientation in IFD0, well-typed colour entries in Exif, never an offset or a maker note |
| ExifSurvival.InteropKept | src/exif.rs:909-923 | Of the Interop directory exactly a fixed index string and a version of four digits are kept |
| ExifSurvival.NoticesSurvive | src/exif.rs:886-892 | With rights kept, Copyright and Artist read from the retained bytes as from the source when they are text; they are gone with rights discarded, and never in the Exif directory |
| ExifSurvival.CreatorsSurvive | src/exif.rs:886-892 | Photographer and ImageEditor survive as text in the Exif directory and nowhere else |
| ExifSurvival.ColourSurvives | src/exif.rs:876-885 | A well-typed ColorSpace or Gamma survives in the Exif directory and nowhere else |
| ExifSurvival.PlainTagsSurvive | src/exif.rs:197-243 | Every other tag is kept whole or not at all by the flag whose tag set it is in |
| ExifSurvival.WantedIsRead | src/exif.rs:1788-1793 | The pruning path: the retained bytes say the wanted orientation exactly when an orientation entry survives the prune, and none otherwise |
| ExifSurvival.KeepAllSetsOrientation | src/exif.rs:1778-1787 | The keep-all path: the wanted orientation is read back exactly when it was there or a SHORT or LONG in its descriptor can hold it; without such an entry the bytes are the source |
| ExifSurvival.RetainReconciles | src/exif.rs:1745-1819 | Both paths at once, for every source, policy and orientation: idempotent, and the orientation said exactly when it can be |
| ExifSurvival.PrunedOutcome | src/exif.rs:1788-1818 | A pruning retain gives bytes if and only if the source fits 32 bits and parses, something survives, and the result has at most twice the source's bytes and 1024 more within 32 bits |
| ExifSurvival.OtherOutcomes | src/exif.rs:1750-1776 | Discarding everything gives nothing; keeping everything always gives bytes, the source itself when it is not parsed or no orientation is wanted |
| ExifRetention.NothingDiscardedReappears | src/exif.rs:842-969 | After any pruning retain no discarded category, maker note or offset-bearing tag is read from IFD0, Exif or IFD1, and no discarded GPS, Interop or thumbnail |
| ExifRetention.PatchIsLocal | src/exif.rs:1305-1376 | Orientation patching keeps the length, changes only bytes of the value field in the patched entry's own descriptor of IFD0, keeps every tag, type, count and value location of IFD0 on re-parse, and reads back exactly when the entry has a value |
| ExifPatch.IfdShape | src/exif.rs:354-403 | A change inside one inline value field leaves the parsed directory's tags, types, counts and locations alone, whatever the offsets are |
| ExifPatch.HeaderKept | src/exif.rs:1340-1357 | A patch beyond the first eight bytes cannot change byte order, magic or the offset of IFD0 |
| ExifCanonical.RewriteIsFixpoint | src/exif.rs:1042-1254 | Every blob that parses and fits 32 bits rewrites to bytes that parse to the same tree and rewrite to themselves |
| ExifCanonical.ParseIsCanonical | src/exif.rs:468-599 | Every parsed tree leaves room under the entry cap for its synthesized pointers, has true aliases, and keeps no structural tag that a later parse could mistake for a pointer |
| ExifCanonical.Ifd0TakenOk | src/exif.rs:494-585 | Taking the Exif and GPS pointers and sweeping duplicates leaves a sound IFD0, short pointers kept in place |
| ExifCanonical.ThumbDirOk | src/exif.rs:521-552 | IFD1 loses both thumbnail tags whether or not a thumbnail was captured, and has room for them when one was |
| ExifFixpoint.RoundTrip | src/exif.rs:1042-1165 | What is written for a canonical tree parses to that tree with stably sorted directories and the same aliases |
| ExifFixpoint.CanonicalFixpoint | src/exif.rs:1183-1188 | Serializing what was read back gives the same bytes |
| ExifFixpoint.SameBytes | src/exif.rs:1189-1254 | Trees that agree up to stable tag order and value locations serialize alike and to the same length |
| ExifFixpoint.TakeAllMeans | src/exif.rs:408-418 | The removed occurrence and the sweep together remove the tag, exactly when the first occurrence is offset-shaped |
| ExifRoundTrip.SerializedLenIsExact | src/exif.rs:1005-1034 | The length preview equals the length of the bytes, for every tree |
| ExifRoundTrip.TiffBytesLaid | src/exif.rs:1080-1165 | Every block and the thumbnail stand where the offset plan says |
| ExifRoundTrip.ItemsExtSize | src/exif.rs:1267-1285 | The deduplicated out-of-line size in insertion order equals that in tag-sorted order with pointers merged in |
| ExifRoundTrip.RereadSame | src/exif.rs:1189-1254 | A written directory read back, its pointers dropped, is the directory written, sorted |
| ExifRoundTrip.LinkIsFirst | src/exif.rs:1199-1210 | A synthesized pointer is the first entry with its tag when the directory has none of its own |
| ExifOffsets.OffsetsAreExact | src/exif.rs:1042-1165 | Every descriptor, pointer, next link and out-of-line offset written names the exact bytes, values on even offsets, the prefix not counted |
| ExifOffsets.BlockExact | src/exif.rs:1189-1254 | One block: count, tag-sorted descriptors whose values are in place or where they point, next link |
| ExifReparse.IfdReadsBack | src/exif.rs:354-403 | A directory block anywhere in a blob parses to its entries, moved, and to its next link |
| ExifReparse.ResolveBack | src/exif.rs:386-405 | A descriptor reads back as its entry, in either byte order, inline or out of line |
| ExifReading.IfdSalvages | src/exif.rs:354-380 | A directory is refused exactly for a missing count or one above 1000; else it is the entry of every descriptor below the count that describes one, in order, and a bad or cut-off descriptor removes no other; the next link is there or zero |
| ExifReading.ResolvesIff | src/exif.rs:321-329 | Twelve bytes resolve exactly to the entry they describe: known type, size by TIFF 6.0, value inline up to four bytes or at its offset, inside the blob |
| ExifReading.HeaderIff | src/exif.rs:476-487 | A header is read exactly for II and 42 or MM and 42 in the order it names, with the offset that follows |
| ExifReading.ParsesIff | src/exif.rs:468-489 | A blob parses exactly when its header is sound and IFD0's count is there and at most 1000, whatever else is malformed |
| ExifReading.TreeIsRead | src/exif.rs:490-599 | Which directory each branch of the tree is, from which pointer, and which entries the pointers take along; a branch that cannot be read is left out |
| ExifReading.ThumbnailIff | src/exif.rs:524-540 | A thumbnail exactly when the first offset and length entries are SHORT or LONG and name bytes of the blob: those bytes |
| ExifReading.OrientationIff | src/exif.rs:634-638 | The orientation is the number of the first orientation entry when that is 1 to 8 |
| Bytes.Dec32Positional | src/exif.rs:331-349 | The first byte is the most significant in big-endian order and the least in little-endian order |
| ExifLayout.ExtSizeIsWeight | src/exif.rs:1267-1285 | The out-of-line size is the aligned length of the set of alias groups, in any order |
| ExifLayout.PlaceHoldsValue | src/exif.rs:1213-1249 | The out-of-line area holds each value at its alias group's place |
| ExifLayout.PlaceApart | src/exif.rs:1213-1249 | Different alias groups are placed apart |
| ExifLayout.PlaceEven | src/exif.rs:1239-1243 | Every out-of-line value starts on an even place |
| ExifLayout.PaddingIsZero | src/exif.rs:1213-1249 | Unused bytes of a value field and the byte that makes a value even are zero |
| ExifLayout.RelaidBytes | src/exif.rs:1189-1254 | Where values came from is invisible in a block's bytes; only which of them are aliases matters |
| ExifEntries.SortIsStable | src/exif.rs:1207-1210 | Sorting by tag keeps the order of the entries of each tag and so the first of them |
| ExifEntries.SortedIsUnique | src/exif.rs:1207-1210 | Only one sorted list holds the same entries in the same order under every tag |
| ExifAmplification.FaithfulPruneIsSmall | src/exif.rs:1801-1815 | When header, tables, distinct out-of-line values and thumbnail are disjoint, any prune serializes to at most the source, the padding of odd values and four bytes a directory, so to at most len + len/17 + 20 |
| ExifAmplification.LinkedPruneAddsPadding | src/exif.rs:1801-1815 | When every table also has its own next link behind it, a prune exceeds its source by alignment padding only, as the comment says |
| ExifAmplification.TableAtEndGrows | src/exif.rs:1801-1815 | A concrete 22-byte blob with nothing to pad, disjoint ranges and no room for a next link, whose every orientation-keeping prune has 26 bytes |
| ExifAmplification.PruneNeverGrows | src/exif.rs:1801-1815 | Pruning only removes: for every tree, policy and orientation the pruned tree serializes to no more than the tree itself |
| ExifAmplification.GuardSparesFaithful | src/exif.rs:1801-1815 | Up to 3 GiB such a blob is dropped exactly when nothing survives the prune |
| ExifFaithful.WrittenIsSpread | src/exif.rs:1042-1254 | What is written for a canonical tree does not overlap itself: header, tables with their next links, distinct out-of-line values and thumbnail are disjoint and in the blob |
| ExifFaithful.WrittenPruneNeverGrows | src/exif.rs:1801-1815 | What is written for a canonical tree within 32 bits prunes, by any policy, to no more bytes than it has |
| ExifFaithful.RetainedPrunesFreely | src/exif.rs:1801-1815 | A retained blob, of any size, can be pruned again by any other policy: it never grows and is dropped only when nothing of it survives |
| ExifAmplification.DirBound | src/exif.rs:1005-1016 | One rewritten directory against the table and values it was read from |
| ExifPruning.CleanIffFixed | src/exif.rs:842-970 | Pruning changes a tree exactly when something in it is not to be kept |
| ExifPruning.FilterTwiceIsOnce | src/exif.rs:842-970 | Pruning is idempotent |
| ExifPruning.FilteredIsCanonical | src/exif.rs:842-970 | A pruned tree has no structural tag left and stays writable |
| ExifPruning.KeptCategory | src/exif.rs:843-894 | An entry that the filter keeps is of a kept category, no maker note, and bears no offset |
| ExifPruning.EditedIsClean | src/exif.rs:976-994 | Setting the orientation of a pruned tree leaves it pruned |
| ExifPruning.SameIsClean | src/exif.rs:1788-1818 | A pruned tree read back from its bytes is still pruned |
| ExifEditing.SetStringSurvives | src/exif.rs:779-787 | A set copyright or artist is read back from the written bytes, up to any NUL, if and only if IFD0 has the tag or room for one more entry |
| ExifEditing.SetOrientationSurvives | src/exif.rs:802-829 | A set orientation is read back from the written bytes if and only if IFD0 has the tag or room for one more entry |
| ExifEditing.EditsSurvive | src/exif.rs:779-829 | After any run of set_copyright, set_artist and set_orientation the written bytes parse if and only if IFD0 has room for the tags that are new, and then every string and the orientation read as in memory |
| ExifEditing.AuthoredReadsIff | src/exif.rs:355-358 | The bytes of an edited tree parse exactly when IFD0 and its pointers keep to the cap, and then to the same tree |
| ExifEditing.FullDirectoryIsLost | src/exif.rs:1412-1430 | A blob with a thousand entries parses, has no room, and no longer parses once a copyright is set |
| ExifEditing.NewIsCanonical | src/exif.rs:453-465 | A tree built from scratch meets everything that edits and rewrites ask of a parsed one |
| ExifEditing.SetStringReads | src/exif.rs:1382-1430 | A text reads back as set, up to any NUL and absent when nothing is left, and other strings are untouched |
| ExifEditing.SetStringWrites | src/exif.rs:1412-1430 | The entry written has type 2 or 129 by the encoding, and is the text and one NUL, counted |
| ExifEditing.OverfullUnreadable | src/exif.rs:355-358 | A directory written with more than 1000 entries makes the blob unreadable |
| ExifEditing.SetOrientationReads | src/exif.rs:814-829 | In memory the authoring setter always takes, repairing a carrier that is no integer, and leaves other tags alone |
| ExifEditing.SetOrientationTagReads | src/exif.rs:976-994 | The reconciling setter takes exactly on an integer entry and adds nothing |
| ExifEditing.OrientationWrites | src/exif.rs:814-829 | The entry written has one element of the carrier's own SHORT or LONG type, SHORT where there was none, and both setters write the same over an integer |
| ExifEditing.ParsedOwnsNothing | src/exif.rs:386-405 | Every value of a parsed IFD0 is the slice of the blob at its recorded offset |
| ExifStore.ReadIfd | src/exif.rs:354-380 | The entry loop: salvages a truncated table, skips unreadable entries, refuses a count that is missing or above 1000 and nothing else |
| ExifStore.ExtSizeOf | src/exif.rs:1267-1281 | The running total with its list of counted groups |
| ExifStore.WriteIfd | src/exif.rs:1189-1254 | The writing loop over growing `out`, `ext` and `placed` appends exactly the block |
| ExifStore.SweepsCommute | src/exif.rs:494-585 | Sweeping both structural tags at the end equals sweeping each after its pointer was taken |
| ExifStore.ReadExifDirs | src/exif.rs:494-511 | The Exif directory without its Interop pointers, and the Interop directory |
| ExifStore.ReadThumbDir | src/exif.rs:521-552 | IFD1 and the thumbnail, present only when both tags name bytes of the blob |
| ExifStore.SetIfd0String | src/exif.rs:1412-1430 | Replace the first entry of the tag in its slot, or push |
| ExifStore.Exif.Parse | src/exif.rs:468-599 | Parsing into the fields, pointers taken in the source's order |
| ExifStore.Exif.SetCopyright | src/exif.rs:779-781 | The new tree, and that the copyright reads back while the artist stays |
| ExifStore.Exif.SetArtist | src/exif.rs:785-787 | The new tree, and that the artist reads back while the copyright stays |
| ExifStore.Exif.SetOrientation | src/exif.rs:814-829 | The new tree, and that the orientation reads back |
| ExifStore.Exif.SetOrientationTag | src/exif.rs:976-994 | The new tree, never one entry more |
| ExifStore.Exif.Filtered | src/exif.rs:842-969 | A new object whose directories are the lists of what survives in them, which holds nothing that the policy discards, and which can be written whenever the original could |
| ExifStore.Exif.SerializedLen | src/exif.rs:1005-1034 | Exactly the length of the bytes |
| ExifStore.Exif.PlanOffsets | src/exif.rs:1080-1110 | The running cursor assigns every offset |
| ExifStore.Exif.ToBytes | src/exif.rs:1042-1165 | The appended blocks are the serialized tree |
| ExifStore.PatchInline | src/exif.rs:1333-1376 | The in-place patch, refusing non-integer and out-of-line carriers |
| ExifStore.RetainReconciled | src/exif.rs:1745-1819 | One parse and at most one rewrite compute retain: idempotently, and with the wanted orientation whenever there is a place for it |
| InventoryStore.Inventory.Push | src/inventory.rs:649-674 | A push links the part first in its parent's chain, or reports the cap and changes nothing |
| InventoryProofs.ListsRepresentTree | src/inventory.rs:649-755 | The intrusive lists represent the tree: each chain strictly decreases, never meets the sentinel, and holds exactly the parts recorded under its parent |
| InventoryStore.Inventory.ReserveParts | src/inventory.rs:676-692 | Reserving succeeds exactly when nothing is asked for or the parts with the additional ones keep to the cap, whose value the error names |
| InventoryStore.Inventory.TryChildren | src/inventory.rs:728-755 | Walking a chain returns the parts recorded under the parent, sorted |
| InventoryStore.Inventory.FillGaps | src/inventory.rs:766-806 | Adds the holes of the level in file order; an unknown parent or the cap changes no array |
| InventoryStore.Inventory.CheckLevel | src/inventory.rs:859-897 | Checks nesting, neighbours and tiling of one level |
| InventoryStore.Inventory.Validate | src/inventory.rs:817-857 | Ok exactly on full coverage, and an error names something that is really wrong |
| InventoryStore.Inventory.BytesByDisposition | src/inventory.rs:911-924 | One total per disposition name, its leaf bytes |
| InventoryModel.NamesTellApart | src/inventory.rs:286-299 | Two dispositions have one name only when they are the same or both metadata |
| InventoryStore.Inventory.WriteLevel | src/inventory.rs:926-957 | The display recursion visits the preorder of the tree with the right depths |
| InventoryStore.ValidTotalsAreExact | src/inventory.rs:911-924 | In a valid inventory no total wraps, and the totals with the header slack sum to the input length |
| InventoryLaws.HolesPartitionIffClean | src/inventory.rs:766-806 | The filled holes partition the uncovered bytes if and only if no backward child range is in the way |
| InventoryLaws.ReversedPartDoublesHoles | src/inventory.rs:766-806 | A concrete level that fails: one part at 5..2 in ten bytes puts bytes 2, 3 and 4 in two holes each |
| InventoryLaws.HolesAreMaximal | src/inventory.rs:766-806 | Among children that have bytes the holes come in file order with a byte between any two |
| InventoryLaws.ForwardLevelIsClean | src/inventory.rs:766-806 | Ranges that do not run backwards are never in the way, even overlapping or protruding |
| InventoryLaws.FillTwiceIsOnce | src/inventory.rs:766-806 | A second fill adds nothing |
| InventoryLaws.FilledTreeIsValid | src/inventory.rs:766-897 | Once the top level and every body are filled, in any order, the tree validates if and only if it was sound |
| InventoryLaws.PrefixIsSound | src/inventory.rs:817-857 | Only sound trees can be completed to a valid one |
| InventoryLaws.RealErrorsBreakCoverage | src/inventory.rs:817-897 | No error is reported of a covered tree |
| InventoryLaws.SortedNeighboursDecide | src/inventory.rs:859-897 | Comparing sorted neighbours decides whether all siblings are disjoint |
| InventoryLaws.OnePartPerByte | src/inventory.rs:817-897 | In a valid inventory each input byte lies in exactly one top-level part, and each byte of a declared body in exactly one child |
| InventoryLaws.ChildrenInside | src/inventory.rs:817-897 | Parts have bytes and lie in the input, children in their earlier parent and in its body |
| InventoryLaws.LeafBytesConserved | src/inventory.rs:911-924 | Leaf bytes and slack of the parts with children add up to the input length |
| InventoryModel.ChildrenAreSorted | src/inventory.rs:735-755 | The children are exactly the parts recorded under the parent, by start then id |
| InventoryWalk.PreorderVisits | src/inventory.rs:926-957 | The walk below a part visits exactly the parts below it, each once |
| InventoryWalk.WalkVisitsEveryPartOnce | src/inventory.rs:926-957 | The whole walk visits every part once, after its parent |
| InventoryWalk.WalkKeepsFileOrder | src/inventory.rs:926-957 | Of two siblings the earlier in file order is visited first, with everything below it before the other and everything below that |
| InventoryWalk.DepthCountsAncestors | src/inventory.rs:926-957 | The indentation of a part is the number of its ancestors |
| Timing.NeverDrifts | src/animation.rs:108-152 | After any successful run the total is the exact elapsed time rounded half up, within half a tick |
| Timing.Advance | src/animation.rs:108-152 | The checked u128 arithmetic equals the unbounded step; it fails only when the common denominator exceeds u128 or the ticks exceed the field |
| Timing.StepBounds | src/animation.rs:113-135 | Once the common denominator fits u128 every later product and sum fits too |
| Timing.TicksNonnegative | src/animation.rs:137-144 | Endpoints round monotonically, so subtracting the old rounding bit cannot underflow |
| Timing.TimingQuantizer.Quantize | src/animation.rs:108-152 | A step, or an overflow that leaves the state untouched |
| Timing.TimingQuantizer.New | src/animation.rs:89-100 | A zero clock is refused, anything else starts fresh |
| Timing.BoundedClocksNeverOverflow | src/animation.rs:108-152 | Runs whose tick denominators divide some number within u128 never overflow the phase |
| Timing.PhaseStaysInDivisors | src/animation.rs:108-152 | One step keeps the phase denominator among the divisors |
| Timing.EmittedTicksAgree | src/animation.rs:50-62 | What quantize emits is exactly representable, as the ticks it emitted |
| Timing.ExactRunIsIdentity | src/animation.rs:108-152 | A run of exactly representable durations passes unchanged and leaves no phase |
| Timing.ExactKeepsValid | src/animation.rs:79-85 | The phase stays reduced and below one tick |
| Timing.NewDuration | src/animation.rs:18-30 | A reduced duration of the same value, or a zero denominator |
| Timing.ReduceUnique | src/animation.rs:18-30 | The reduced form depends only on the value |
| Timing.GcdLoop | src/animation.rs:155-160 | Euclid's loop computes the greatest common divisor |
| Timing.TicksAt | src/animation.rs:50-62 | Ok exactly when a tick count in u64 denotes the duration, inexact exactly when no count does |
| ContinuedFraction.FloatToUnsignedFraction | src/gainmap.rs:711-753 | The loop: it fails if and only if the number is out of range or some convergent meets the refusal test; success stops exactly, on the cap or after all turns, with the true convergent denominators |
| ContinuedFraction.ApproximateCorrect | src/gainmap.rs:711-753 | The same, in both directions, of the function that the format model uses |
| ContinuedFraction.ConvergentError | src/gainmap.rs:728-747 | A convergent is off by at most one over the next denominator |
| ContinuedFraction.CappedError | src/gainmap.rs:739-743 | Stopping on the cap leaves an error below one over the cap |
| ContinuedFraction.NeverRefused | src/gainmap.rs:731-735 | No in-range number above one, for u32 numerators, or with a numerator in range meets the refusal test |
| ContinuedFraction.SignedRangeRefusal | src/gainmap.rs:731-735 | A concrete rational that the signed range refuses |
| FractionAnswers.RefusedIff | src/gainmap.rs:731-735 | A reduced fraction whose expansion ends within the turns is refused if and only if it is at most one and its numerator is out of range |
| FractionAnswers.SmallFractionRefusedIff | src/gainmap.rs:731-735 | The same, for every reduced fraction with a denominator below the fortieth Fibonacci number |
| FractionAnswers.F32Approximation | src/gainmap.rs:711-753 | On every f32, for both caps that the source passes: success if and only if in range, numerator and denominator within their limits, and the fraction exact or off by less than one over the denominator times its cap |
| FractionAnswers.F32EndsInTime | src/gainmap.rs:728-747 | The expansion of an f32 ends within the 39 turns |
| FractionAnswers.OverrunExample | src/gainmap.rs:749-752 | A concrete number that is no f32, below one, whose answer has a numerator beyond i32::MAX |
| GainMapSingles.SignedOfF32 | src/gainmap.rs:796-819 | A signed f32 keeps its sign, never wraps to i32, is exact or near in range, and 0/1 beyond it |
| GainMapSingles.UnsignedOfF32 | src/gainmap.rs:867-882 | An unsigned f32 is exact or near in range, and 0/1 beyond it |
| GainMapSingles.NegativeIsZero | src/gainmap.rs:867-868 | An unsigned field writes a negative number as zero |
| GainMapSingles.SignFlips | src/gainmap.rs:796-819 | Over arbitrary numbers the conversion to i32 can turn a positive number into a negative fraction |
| GainMapSingles.F32ParamsRoundTrip | src/gainmap.rs:1037-1119 | Metadata of f32 numbers in range comes back in every framing, each number exact or off by less than one over the cap on denominators |
| ContinuedFraction.QGrows | src/gainmap.rs:728-747 | Denominators grow at least like Fibonacci numbers |
| ContinuedFraction.SmallFractionsRoundTrip | src/gainmap.rs:711-753 | A fraction in range with a small denominator comes back as an equal fraction |
| FractionAnswers.NumeratorInRangeIff | src/gainmap.rs:735-752 | An answer's numerator is at most max_numerator if and only if the turns do not run out on a number that leaves the range |
| GainMapLaws.ParseInvertsSerialize | src/gainmap.rs:1037-1119 | In all four framings parsing gives each number as the value of its fraction, trailing bytes ignored |
| GainMapLaws.CompactEqualsFull | src/gainmap.rs:1202-1325 | A common-denominator payload means the full payload with that denominator repeated |
| GainMapLaws.ParsesToMeaning | src/gainmap.rs:1158-1325 | Every framing and either encoding parses to what its fractions mean, under any writer version and any unused flag bits, trailing bytes ignored |
| GainMapFormat.ParsesIff | src/gainmap.rs:1037-1325 | Exactly the inputs that parse, in every framing: the framing's own bytes, a minimum version of zero, as many bytes as the flags announce, and no zero denominator |
| GainMapFormat.RejectsByName | src/gainmap.rs:1120-1168 | A wrong URN, a version byte other than zero and a minimum version other than zero are each answered by their own error, with the version's low byte |
| GainMapFormat.ErrorsAreReal | src/gainmap.rs:1120-1325 | Every error holds of the input: a truncation tells its true length and a need within the announced one, a zero denominator its field |
| GainMapFormat.WrittenLayout | src/gainmap.rs:1328-1391 | The written bytes one by one: framing, zero versions, the flag bits, headrooms and channels at their offsets in two's complement, one channel for three equal ones |
| GainMapLaws.SizeIsExact | src/gainmap.rs:1361-1370 | The size preview equals the length written |
| GainMapLaws.PrefixesAreRejected | src/gainmap.rs:1037-1080 | No strict prefix of written metadata parses |
| GainMapLaws.SmallParamsRoundTrip | src/gainmap.rs:1037-1119 | Metadata made of fractions with small terms comes back exactly |
| GainMapCodec.ParseChannels | src/gainmap.rs:1202-1325 | The channel loop of both payloads, one channel replicated to three |
| GainMapCodec.ParsePayloadFull | src/gainmap.rs:1202-1242 | The full payload |
| GainMapCodec.ParsePayloadCommonDenominator | src/gainmap.rs:1249-1325 | The common-denominator payload |
| GainMapCodec.UnsignedFromF64Cf | src/gainmap.rs:867-882 | An unsigned fraction from a number, negatives clamped, refusals as 0/1 |
| GainMapCodec.SignedFromF64Cf | src/gainmap.rs:796-819 | A signed fraction from a number, refusals as 0/1 |
| GainMapCodec.WritePayload | src/gainmap.rs:1344-1357 | The payload, appended channel by channel |
| GainMapCodec.SerializeInto | src/gainmap.rs:1103-1119 | Existing contents are kept and the metadata appended |
| CodecGraph.Cores | scripts/check-codec-graph.py:25-34 | The path-local search finds exactly the cores on simple walks that avoid `seen`, and terminates on cycles |
| CodecGraph.ReachableCores | scripts/check-codec-graph.py:25-39 | From an empty `seen` it finds exactly the reachable cores |
| CodecGraph.FoundIsReachable | scripts/check-codec-graph.py:25-34 | Simple walks miss nothing that is reachable |
| CodecGraph.ClosedNeverBad | scripts/check-codec-graph.py:18-23 | In a closed graph no lookup of the search raises |
| CodecGraph.ClosedNeverRaises | scripts/check-codec-graph.py:18-57 | In a closed graph no lookup of the check raises |
| CodecGraph.NodeErrors | scripts/check-codec-graph.py:38-57 | One node: it raises exactly when a lookup it makes is missing; otherwise no mismatch exactly when it agrees with its core, and every mismatch is real |
| CodecGraph.Check | scripts/check-codec-graph.py:15-60 | No errors exactly when every node that reaches a core agrees, every error is real, the count is exact, and it raises exactly for a missing key of some node or when no node reaches a core |

## Left out

- Text views of EXIF strings, `Debug` and `Display` text, deprecation shims, the `has_*` queries and `entries`: no hard property.
- The policy presets other than keep-all and discard-all, and the `with_*` builders: finite tables of flags.
- `set_color_space`: it shares the in-place patch, whose locality is proved for the orientation.
- The generic library behind the source's stable sort, `position`, `find` and `retain`: modelled by functions.
- 32-bit targets: the source's `checked_add` and `checked_mul` on `usize` cannot fail on 64-bit ones for the values that occur.
- Allocation failure, `Cow` borrowing and capacity hints; only the identity of borrowed bytes is kept.
- Floating point: f32 and f64 rounding, NaN, `pow2` and the `linear_*` helpers of gain maps; numbers are exact reals, so
  the iteration count and the refusals are those of exact arithmetic. An f32 is the exact value it stands for.
- The dispatch of the gain-map parser over framings and its header reader are functions only; the payload loops and the writers are also methods.
- The gain-map params' `validate`, direction and presence types: one-step checks.
- Part kinds, tags, labels and details of the inventory, `set_disposition` and the setters of `Part`: data the algorithms do not look at.
- InventoryStore.Inventory.BytesByDisposition: totals of an inventory that is not valid are modelled as wrapping, as in a release build; `ValidTotalsAreExact` shows that valid ones never wrap.
- The JSON reading, message texts and exit codes of the graph script, and its sorted printing of sets.
- Other modules of the repository (colour, encode plans, capabilities, frames, errors): decision tables, builders and traits whose hard parts live elsewhere.
