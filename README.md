# TableViewTools in Dafny

TableViewTools is an iOS library. A `TableViewManager` stands between an app's model and a
`UITableView`, and acts as the table view's data source, delegate and prefetching data source.
- The model is an ordered list of section objects. Each section object owns an ordered list of cell
  items.
- The manager answers the table view's queries by locating the item at an index path. Where nothing
  is there, a query falls back to a fixed answer.
- Each change goes through one of the manager's mutators. A mutator registers the items' reuse
  types, opens `beginUpdates`, splices the model with the multi-index `Array` helpers, sends the
  matching insert/delete/reload delta and closes `endUpdates`.

This project models that core and proves properties of the model:

- `Foundation`: value types. It holds `Optional`, `IndexPath`, `IndexSet` (a strictly increasing
  `seq<nat>`) and its `insert`/`integerGreaterThanOrEqualTo`, and first-identity lookup
  (`index(where: { $0 === x })`).
- `ArrayAdditions`: the current `remove(at:)`, `insert(_:at:)` and `replace(_:at:)` as loops over
  sequences. Each is proved against an independent characterisation: `Without`, `IsInsertion` and
  `IsReplacement`, with uniqueness and round-trip lemmas.
- `LegacyArrayAdditions`: the two older insert algorithms. One inserts every element at the first
  position, reversed. The other indexes the elements by position.
- `TableView`: `ReuseType`, `register(by:)` and `update(_:)`. The table view is a class that
  records every command it is sent.
- `ViewBelief`: the row counts a table view believes, replayed from the commands it received. After
  a mutator, "the view is in step with the model" means this belief equals the model's row counts.
- `CellItems` and `SectionItems`: the cell-item and section-item objects. These include their
  protocol-extension defaults, the seven stored handlers, the optional edit capability
  (`as? TableViewCellItemEditActionsProtocol`), the optional header/footer-display capability and
  `TableViewSectionItem`'s title rules. An object's type may implement any requirement itself; the
  model carries those own answers, and falls back to the inherited body only where there is none.
- `Manager`: the `TableViewManager` class, with the `sectionItems` observer, lookups, every cell and
  section mutator, and scrolling.
- `DataSource`, `Delegate` and `Prefetching`: the manager's three table-view protocols.

Items and sections are classes, because the library shares them by reference. A change to
`cellItems` through any reference changes the one object. Assigning the manager's `sectionItems`,
including splicing it in place, runs its `didSet` observer. That observer registers every item and
sends `reloadData`. A section's `cellItems` changed through a protocol reference does not run it.
The table view's events are a log. Closures supplied by the app are opaque `Handler` values, and
running one is an `Invocation` value that the model returns.

## Model

| member | source | states |
|---|---|---|
| Foundation.Range | Sources/TableViewManager/TableViewManager.swift:171 | `IndexSet(integersIn: lo...lo+n-1)` is an index set of n consecutive positions starting at lo |
| Foundation.SetInsert | Sources/TableViewManager/TableViewManager.swift:111 | `IndexSet.insert` keeps the set sorted and repeat-free, adds exactly x, and grows by one exactly when x was absent |
| Foundation.LeastAtLeast | RSBTableViewManager/Extensions/Array+Additions.swift:21 | `integerGreaterThanOrEqualTo(x)` is the least member that is at least x, and nil exactly when every member is below x |
| Foundation.IndexOf | Sources/TableViewManager/TableViewManager.swift:78 | `index(where: { $0 === x })` finds the first position holding x, and nil exactly when x is absent |
| Foundation.IndexOfDistinct | Sources/TableViewManager/TableViewManager.swift:302-303 | with no repeated objects, the identity lookup of the object at i finds i |
| Foundation.PositionsCover | Sources/TableViewManager/TableViewManager.swift:106-112 | every item looked up by the removal loop has its first position in the collected index set |
| Foundation.PositionsFound | Sources/TableViewManager/TableViewManager.swift:106-112 | every position in the collected set is the first position of one of the looked-up items |
| Foundation.PositionsCount | Sources/TableViewManager/TableViewManager.swift:106-112 | distinct items give an index set with one position each, so none is lost |
| Foundation.PositionsBelow | Sources/TableViewManager/TableViewManager.swift:106-112 | the collected positions all lie inside the searched sequence |
| Foundation.PositionsOfItself | Sources/TableViewManager/TableViewManager.swift:220-224 | a repeat-free sequence looked up in itself yields the positions 0..n-1 |
| Foundation.SetInsertAbove | Sources/TableViewManager/TableViewManager.swift:111 | inserting a position above every member appends it |
| ArrayAdditions.RemoveAt | Sources/Extensions/Array+Additions.swift:13-17 | `remove(at:)` needs every position in range. It yields exactly the survivors in order, is shorter by \|P\|, and removes the originals at the positions from the largest down. The older `remove(at:)` (RSBTableViewManager/Extensions/Array+Additions.swift, lines 12-16) and `removeElementsAtIndexes` (rsbtableviewmanager-swift/Extensions/Array+Additions.swift, lines 11-15) are the same descending deletion with the same result |
| ArrayAdditions.WithoutLength | Sources/Extensions/Array+Additions.swift:13-17 | deleting \|P\| distinct valid positions shortens the sequence by exactly \|P\| |
| ArrayAdditions.WithoutMembers | Sources/Extensions/Array+Additions.swift:13-17 | in a repeat-free sequence, an element survives the deletion exactly when its position is not deleted |
| ArrayAdditions.KeptMembers | Sources/Extensions/Array+Additions.swift:13-17 | in a repeat-free stretch, s[i] is kept exactly when i is not deleted |
| ArrayAdditions.RemoveStep | Sources/Extensions/Array+Additions.swift:14-15 | deleting one position below all those already deleted removes the element originally there and leaves the prefix alone |
| ArrayAdditions.InsertAt | Sources/Extensions/Array+Additions.swift:19-23 | `insert(_:at:)` needs enough elements and each p_k at most \|S\|+k. It yields the unique insertion, so length grows by \|P\|, r[p_k] = e[k], the originals fill the other slots in order, and surplus elements are ignored |
| ArrayAdditions.InsertionUnique | Sources/Extensions/Array+Additions.swift:19-23 | the insertion characterisation leaves no freedom: two results of it are equal |
| ArrayAdditions.InsertAtRangeSplices | Sources/TableViewManager/TableViewManager.swift:170-172 | inserting n elements at n consecutive positions from f splices them in as one block, in argument order |
| ArrayAdditions.BlockIsInsertion | Sources/Extensions/Array+Additions.swift:19-23 | splicing a block in at f is an insertion at f..f+n-1 (the converse of the previous row) |
| ArrayAdditions.InsertAtTailAppends | Sources/TableViewManager/TableViewManager.swift:167-173 | inserting at count..count+n-1 appends the new elements at the tail in argument order |
| ArrayAdditions.WithoutRange | Sources/Extensions/Array+Additions.swift:13-23 | removing the positions of a block just inserted gives back the original sequence |
| ArrayAdditions.WithoutBlock | Sources/Extensions/Array+Additions.swift:13-17 | deleting a consecutive range keeps exactly what lies before and after it |
| ArrayAdditions.InsertOneAtFive | RSBTableViewManagerTests/RSBTableViewManagerSpec.swift:64-82 | one element inserted at position 5 of nine gives ten elements, among them the new one |
| ArrayAdditions.ReplaceAt | Sources/Extensions/Array+Additions.swift:25-29 | `replace(_:at:)` needs every position in range and enough elements. It keeps the length, writes e[k] at p_k and leaves every other position alone. The older `replace(_:at:)` (RSBTableViewManager/Extensions/Array+Additions.swift, lines 28-32) is the same algorithm with the same result |
| ArrayAdditions.ReplaceKeepsSurvivors | Sources/Extensions/Array+Additions.swift:25-29 | replacing touches only the listed positions, so deleting them afterwards gives what deleting them before did |
| LegacyArrayAdditions.Reversed | RSBTableViewManager/Extensions/Array+Additions.swift:18-26 | the reversal used to describe the older insert: same length, element i is the original's element n-1-i |
| LegacyArrayAdditions.InsertAtFirst | RSBTableViewManager/Extensions/Array+Additions.swift:18-26 | the older `insert(_:at:)` traps on an empty set, and with elements to insert needs `first` at most \|S\|. With no elements it returns S unchanged. Since `index` never moves, every element is inserted at `first`, leaving the block reversed there |
| LegacyArrayAdditions.SplicedReversedLayout | RSBTableViewManager/Extensions/Array+Additions.swift:18-26 | after the older insert, the originals before `first` stay, the block holds the elements in reverse order, and the rest shift right by \|e\| |
| LegacyArrayAdditions.SplicedReversedSingle | RSBTableViewManager/Extensions/Array+Additions.swift:18-26 | for a single element the older insert is an ordinary insertion at `first` |
| LegacyArrayAdditions.SplicedReversedMisplaces | RSBTableViewManager/Extensions/Array+Additions.swift:18-26 | two elements at {0, 1} of an empty array come out swapped, which is not the insertion |
| LegacyArrayAdditions.Picked | rsbtableviewmanager-swift/Extensions/Array+Additions.swift:17-21 | the elements the oldest insert takes: elements[p] for each position p |
| LegacyArrayAdditions.InsertElements | rsbtableviewmanager-swift/Extensions/Array+Additions.swift:17-21 | `insertElements` needs every p below \|elements\| and each p_k at most \|S\|+k. It is the insertion of elements[p_k] at p_k, so r[p] = elements[p] for every listed p, and the originals keep their order |
| LegacyArrayAdditions.InsertElementsAtHead | rsbtableviewmanager-swift/Extensions/Array+Additions.swift:17-21 | inserting n elements at {0..n-1} gives the elements followed by the original |
| TableView.ReuseTypeOfClass | Sources/Extensions/UITableView+Additions.swift:24-26 | `ReuseType(cellClass:)` is the class case, identified by the class name |
| TableView.Registration | Sources/Extensions/UITableView+Additions.swift:31-39 | `register(by:)` sends one registration under the type's identifier for a nib or a class, and none for a storyboard |
| TableView.TableViewStub.RegisterBy | Sources/Extensions/UITableView+Additions.swift:31-39 | registering appends the registration to the log and remembers nothing, so registering twice sends it twice |
| TableView.TableViewStub.Send | Sources/Extensions/UITableView+Additions.swift:48-52 | the table view records each command it receives, in order |
| TableView.SentBracketed | Sources/Extensions/UITableView+Additions.swift:48-52 | `update(_:)`, sending begin, the closure's command and end in turn, is the bracketed command |
| TableView.BracketedCloses | Sources/Extensions/UITableView+Additions.swift:48-52 | `update(_:)` opens exactly one batch and closes it again, with the closure's commands once in between |
| TableView.OpenBatchesAppend | Sources/Extensions/UITableView+Additions.swift:48-52 | the number of open batches adds up over concatenated logs |
| TableView.UnbracketedBalanced | Sources/Extensions/UITableView+Additions.swift:48-52 | commands that are not a begin or an end leave the batch count alone |
| ViewBelief.BeliefIgnoresRegistrations | Sources/TableViewManager/TableViewManager.swift:376-378 | registrations do not change what the table view believes about row counts |
| ViewBelief.BeliefOfBracket | Sources/Extensions/UITableView+Additions.swift:48-52 | a batch holding one delta leaves the view believing what the delta alone does |
| ViewBelief.InsertRowsInSection | Sources/TableViewManager/TableViewManager.swift:155-158 | n inserted rows in one existing section raise exactly that section's count by n |
| ViewBelief.DeleteRowsInSection | Sources/TableViewManager/TableViewManager.swift:114-117 | n deleted rows of a section holding at least n lower exactly that count by n |
| ViewBelief.DeleteTooManyRows | Sources/TableViewManager/TableViewManager.swift:114-117 | deleting more rows than a section holds leaves the view inconsistent |
| ViewBelief.DeleteBatch | Sources/TableViewManager/TableViewManager.swift:114-117 | a bracketed `deleteRows` of n rows takes n off that section's believed count |
| ViewBelief.InsertBatch | Sources/TableViewManager/TableViewManager.swift:155-158 | a bracketed `insertRows` of n rows adds n to that section's believed count |
| ViewBelief.ReloadBatch | Sources/TableViewManager/TableViewManager.swift:88-90 | a bracketed `reloadRows` of existing rows changes no count |
| CellItems.DefaultEditCapability | RSBTableViewManager/Source/TableViewManager/Protocols/CellItem/TableViewCellItemEditActionsProtocol.swift:129-145 | the edit-actions defaults: cannot edit or commit; style `.delete`; no delete title; indent while editing; no menu; no action; empty hooks. `editActions(in:at:)` is the adopter's own |
| CellItems.UnusedEditActions | RSBTableViewManager/Source/TableViewManager/Protocols/CellItem/TableViewCellItemEditActionsProtocol.swift:131 | the extension's differently shaped `editActions(in:)` answers nil and is not the requirement of line 36 |
| CellItems.RunAtRow | Sources/Protocols/CellItem/TableViewCellItemProtocol.swift:199-200 | an optional hook runs exactly when it is set, with the row it was given |
| CellItems.CellItem.constructor | Sources/Protocols/CellItem/TableViewCellItemProtocol.swift:190-228 | an item keeping the extension's defaults has estimated height 2, indentation 0, no moving, empty display notifications, overrides none of the handler-driven requirements and has no handler set |
| CellItems.CellItem.Overriding | Sources/Protocols/CellItem/TableViewCellItemProtocol.swift:35-139 | an item whose type implements the estimated height, the per-row `indentationLevel(in:at:)` and `canMoveRow(in:at:)` and the display requirements answers with the given values and functions of the row, implements exactly the given handler-driven requirements, and starts with no handler set |
| CellItems.CellItem.ShouldHighlightCell | Sources/Protocols/CellItem/TableViewCellItemProtocol.swift:63 | the type's own answer when it implements the requirement; otherwise the extension (193-198): the handler's answer when one is set, and true when none is |
| CellItems.CellItem.WillSelectCell | Sources/Protocols/CellItem/TableViewCellItemProtocol.swift:85 | the type's own answer when it implements the requirement; otherwise the extension (203-208): the handler's answer when one is set, and the path given when none is |
| CellItems.CellItem.WillDeselectCell | Sources/Protocols/CellItem/TableViewCellItemProtocol.swift:93 | the type's own answer when it implements the requirement; otherwise the extension (210-215): the handler's answer when one is set, and the path given when none is |
| CellItems.CellItem.DidHighlightCell | Sources/Protocols/CellItem/TableViewCellItemProtocol.swift:70 | the type's own body runs with the path when it implements the requirement; otherwise the extension (line 199) runs the did-highlight handler with the path exactly when one is set |
| CellItems.CellItem.DidUnhighlightCell | Sources/Protocols/CellItem/TableViewCellItemProtocol.swift:77 | the type's own body runs with the path when it implements the requirement; otherwise the extension (line 200) runs the did-unhighlight handler with the path exactly when one is set |
| CellItems.CellItem.DidSelectCell | Sources/Protocols/CellItem/TableViewCellItemProtocol.swift:100 | the type's own body runs with the path when it implements the requirement; otherwise the extension (line 217) runs the did-select handler with the path exactly when one is set |
| CellItems.CellItem.DidDeselectCell | Sources/Protocols/CellItem/TableViewCellItemProtocol.swift:107 | the type's own body runs with the path when it implements the requirement; otherwise the extension (line 218) runs the did-deselect handler with the path exactly when one is set |
| CellItems.CellItem.WillDisplayCell | Sources/Protocols/CellItem/TableViewCellItemProtocol.swift:221 | something runs exactly when the item's type implements `willDisplayCell`, and it is that body with the given path |
| CellItems.CellItem.DidEndDisplayingCell | Sources/Protocols/CellItem/TableViewCellItemProtocol.swift:222 | something runs exactly when the item's type implements `didEndDisplayingCell`, and it is that body with the given path |
| CellItems.CellItem.SetShouldHighlightHandler | Sources/Protocols/CellItem/TableViewCellItemProtocol.swift:155-158 | a read returns the value last set, and the other six handlers are unchanged (separate storage keys, lines 142-150) |
| CellItems.CellItem.SetDidHighlightHandler | Sources/Protocols/CellItem/TableViewCellItemProtocol.swift:160-163 | the value is stored and the other six handlers are unchanged |
| CellItems.CellItem.SetDidUnhighlightHandler | Sources/Protocols/CellItem/TableViewCellItemProtocol.swift:165-168 | the value is stored and the other six handlers are unchanged |
| CellItems.CellItem.SetWillSelectHandler | Sources/Protocols/CellItem/TableViewCellItemProtocol.swift:170-173 | the value is stored and the other six handlers are unchanged |
| CellItems.CellItem.SetWillDeselectHandler | Sources/Protocols/CellItem/TableViewCellItemProtocol.swift:175-178 | the value is stored and the other six handlers are unchanged |
| CellItems.CellItem.SetDidSelectHandler | Sources/Protocols/CellItem/TableViewCellItemProtocol.swift:180-183 | the value is stored and the other six handlers are unchanged |
| CellItems.CellItem.SetDidDeselectHandler | Sources/Protocols/CellItem/TableViewCellItemProtocol.swift:185-188 | the value is stored and the other six handlers are unchanged |
| SectionItems.SectionItem.constructor | Sources/Items/TableViewSectionItem.swift:17-23 | `init(cellItems:)` stores exactly the given items (`init()` is this with none), overrides nothing, and both titles start nil |
| SectionItems.SectionItem.Conforming | Sources/Protocols/SectionItem/TableViewSectionItemProtocol.swift:11-14 | a conformer of its own: it supplies `cellItems` and implements exactly the given header/footer requirements, optionally with the header/footer-display capability |
| SectionItems.SectionItem.Subclass | Sources/Items/TableViewSectionItem.swift:11 | an instance of a subclass of the open class, which overrides exactly the given header/footer requirements and inherits the rest from the class |
| SectionItems.SectionItem.TitleForHeader | Sources/Items/TableViewSectionItem.swift:25-27 | the type's own title when it implements it; inherited from the class, the force-unwrapped header title; inherited from the protocol extension (line 59), nil |
| SectionItems.SectionItem.TitleForFooter | Sources/Items/TableViewSectionItem.swift:40-42 | the type's own title when it implements it; inherited from the class, the force-unwrapped footer title; inherited from the protocol extension (line 62), nil |
| SectionItems.SectionItem.HeightForHeader | Sources/Items/TableViewSectionItem.swift:29-34 | the type's own height when it implements it; inherited, 22 exactly when the class supplies it and there is a header title, otherwise 0 (the protocol extension, line 60) |
| SectionItems.SectionItem.HeightForFooter | Sources/Items/TableViewSectionItem.swift:44-49 | the type's own height when it implements it; inherited, 22 exactly when the class supplies it and there is a footer title, otherwise 0 (the protocol extension, line 63) |
| SectionItems.SectionItem.ViewForHeader | Sources/Items/TableViewSectionItem.swift:36-38 | the type's own view when it implements it; inherited, no view from the class and from the protocol extension alike (line 61) |
| SectionItems.SectionItem.ViewForFooter | Sources/Items/TableViewSectionItem.swift:51-53 | the type's own view when it implements it; inherited, no view from the class and from the protocol extension alike (line 64) |
| SectionItems.StandardTitleAndHeightAgree | Sources/Items/TableViewSectionItem.swift:25-53 | a plain `TableViewSectionItem` with both titles set reports those titles, height 22 for header and footer, and no views |
| SectionItems.DefaultsAnswerNothing | Sources/Protocols/SectionItem/TableViewSectionItemProtocol.swift:57-64 | a conformer implementing none of the six requirements has no title, height 0 and no view, for header and footer |
| Manager.CountsOf | Sources/TableViewManager/Extensions/TableViewManager+UITableViewDataSource.swift:19-26 | the counts a reload carries: one per section, each that section's number of items |
| Manager.Registrations | Sources/TableViewManager/TableViewManager.swift:149 | `cellItems.forEach { registerCellItem($0) }` sends only registrations |
| Manager.SectionRegistrations | Sources/TableViewManager/TableViewManager.swift:372-374 | `registerSectionItem` for every section sends only registrations |
| Manager.RowPaths | Sources/TableViewManager/TableViewManager.swift:129 | `indexes.map { IndexPath(row: $0, section: s) }`: one path per position, in order, all in section s |
| Manager.PathsOf | Sources/TableViewManager/TableViewManager.swift:81-86 | the collected paths: for each item in argument order, its first row in the section |
| Manager.PathsOfExist | Sources/TableViewManager/TableViewManager.swift:106-110 | every collected path names an existing row of the section |
| Manager.RowPathsExist | Sources/TableViewManager/TableViewManager.swift:206 | paths built from positions below a section's count name existing rows |
| Manager.FindPositions | Sources/TableViewManager/TableViewManager.swift:219-224 | the lookup loop of `removeSectionItems` gathers the first position of each object into an index set |
| Manager.ShadowedRemovalDropsPrefix | Sources/TableViewManager/TableViewManager.swift:221 | looked up in the shadowing argument, distinct sections always name the first \|secs\| positions, whichever sections they are |
| Manager.ShadowedRemovalMisses | Sources/TableViewManager/TableViewManager.swift:221 | with sections [a, b], removing [b] as written removes a, where looking b up in the managed sections removes b |
| Manager.IntendedRemovalDropsArguments | Sources/TableViewManager/TableViewManager.swift:217-230 | looking each section up in the managed list and removing those positions leaves exactly the sections not named |
| Manager.InsertGuardRefusesTail | Sources/TableViewManager/TableViewManager.swift:253 | with three managed sections, position 3 for one new section meets the corrected guard (the managed count) but fails the guard as written (the argument's count) |
| Manager.ShadowedAppendMisplaces | Sources/TableViewManager/TableViewManager.swift:269-271 | appending one section to three as written puts it second, not last |
| Manager.TableViewManager.constructor | Sources/TableViewManager/TableViewManager.swift:44-50 | `init(tableView:)` keeps the table view and starts with no sections and no delegate |
| Manager.TableViewManager.SectionAt | Sources/TableViewManager/TableViewManager.swift:57-60 | `self[index]` is nil exactly when the index is past the last section, otherwise that section |
| Manager.TableViewManager.SectionItemFor | Sources/TableViewManager/TableViewManager.swift:363-368 | `sectionItem(for:)` is the section the path names, nil exactly when it is absent |
| Manager.TableViewManager.CellItemAt | Sources/TableViewManager/TableViewManager.swift:350-357 | `cellItem(for:)` and `self[indexPath]` (65-67) are non-nil exactly when both the section and the row exist, and then the item there |
| Manager.TableViewManager.EditingAt | Sources/TableViewManager/Extensions/TableViewManager+UITableViewDataSource.swift:70 | `self[indexPath] as? TableViewCellItemEditActionsProtocol` gives the capability exactly when an item is there and has it |
| Manager.TableViewManager.FrameForCellItem | Sources/TableViewManager/TableViewManager.swift:300-308 | nil unless both identity lookups succeed; otherwise the path of the first occurrences, whose rectangle is asked for |
| Manager.TableViewManager.FrameRoundTrip | Sources/TableViewManager/TableViewManager.swift:300-308 | the path found for an item of a managed section leads back to that item |
| Manager.TableViewManager.CellItemRoundTrip | Sources/TableViewManager/TableViewManager.swift:350-357 | with nothing repeated, looking up the objects at a path finds that same path |
| Manager.TableViewManager.RegisterCellItems | Sources/TableViewManager/TableViewManager.swift:376-378 | each item's reuse type is registered in turn |
| Manager.TableViewManager.RegisterSectionItems | Sources/TableViewManager/TableViewManager.swift:372-374 | every section's items are registered in turn |
| Manager.TableViewManager.DidSetSectionItems | Sources/TableViewManager/TableViewManager.swift:37-42 | the observer registers every item of every section, then reloads, which puts the view in step with the model |
| Manager.TableViewManager.SetSectionItems | Sources/TableViewManager/TableViewManager.swift:37-42 | assigning the sections stores them and runs the observer, so the view ends in step; the delegate is kept |
| Manager.TableViewManager.StoreCellItems | Sources/Protocols/SectionItem/TableViewSectionItemProtocol.swift:14 | writing one shared section's items changes only that section's count, and no count when the section is unmanaged or the length is kept; its titles are kept |
| Manager.TableViewManager.ReloadCellItems | Sources/TableViewManager/TableViewManager.swift:75-91 | fatal unless the section is managed and holds every item. One bracketed `reloadRows` goes to the items' first rows in argument order, the model is unchanged and the view stays in step |
| Manager.TableViewManager.FindRows | Sources/TableViewManager/TableViewManager.swift:106-112 | the removal loop collects each item's first row as a path and gathers the rows into an index set |
| Manager.TableViewManager.DeleteInBatch | Sources/TableViewManager/TableViewManager.swift:114-117 | inside one batch the positions leave the section and one `deleteRows` names the paths; the titles are kept. The view stays in step when the section is managed at that index only and there is one path per position |
| Manager.TableViewManager.RemoveCellItems | Sources/TableViewManager/TableViewManager.swift:99-118 | fatal unless the section is managed and holds every item. Exactly the first-found rows leave the section in one bracketed `deleteRows` for their paths, and the view stays in step when nothing repeats |
| Manager.TableViewManager.RemoveCellItemsAt | Sources/TableViewManager/TableViewManager.swift:126-135 | with no identity lookup, the positions leave section `sectionIndex` and `deleteRows` names (row, sectionIndex) for each. The titles are kept, and the view stays in step when no section is managed twice |
| Manager.TableViewManager.InsertInBatch | Sources/TableViewManager/TableViewManager.swift:155-158 | inside one batch the items are inserted at the positions and one `insertRows` names the paths; the titles are kept. The view stays in step when the section is managed at that index only and there is one path per position |
| Manager.TableViewManager.InsertCellItems | Sources/TableViewManager/TableViewManager.swift:144-159 | it needs a non-empty set whose first index is within the section, and registers every item first. An unmanaged section is left alone with no batch; otherwise it is the insertion plus a bracketed `insertRows` at exactly those indexes. The titles are kept, and the view stays in step when no section is managed twice |
| Manager.TableViewManager.AppendCellItems | Sources/TableViewManager/TableViewManager.swift:167-173 | it needs at least one item. In a managed section the items end at the tail in argument order, with `insertRows` at count..count+n-1; the titles are kept, and the view stays in step when no section is managed twice |
| Manager.TableViewManager.AppendCellItemsAt | Sources/TableViewManager/TableViewManager.swift:181-186 | nothing at all happens for a section index past the end; otherwise it is the append. The titles are kept, and the view stays in step when no section is managed twice |
| Manager.TableViewManager.ReplaceInBatch | Sources/TableViewManager/TableViewManager.swift:201-208 | inside one batch the positions are overwritten, and their rows are reloaded only for a managed section; the titles are kept |
| Manager.TableViewManager.ReplaceCellItems | Sources/TableViewManager/TableViewManager.swift:194-209 | it needs as many items as positions. Items are registered, the positions replaced, and `reloadRows` (never an insert or delete) is sent only for a managed section; the counts never change, so the view stays in step; the titles are kept |
| Manager.TableViewManager.RemoveSectionItems | Sources/TableViewManager/TableViewManager.swift:217-230 | as written, positions come from the argument, so the lookup cannot fail. That set is spliced out, the observer runs, and `deleteSections` names the same set; the delegate is kept |
| Manager.TableViewManager.RemoveSectionItemsIntended | Sources/TableViewManager/TableViewManager.swift:217-230 | with the lookups in the managed sections: every section named must be managed, and exactly their positions leave; the delegate is kept |
| Manager.TableViewManager.RemoveSectionItemsAt | Sources/TableViewManager/TableViewManager.swift:236-242 | the positions leave, the observer runs, and `deleteSections` names the same set, all in one batch; the delegate is kept |
| Manager.TableViewManager.DeleteSectionsInBatch | Sources/TableViewManager/TableViewManager.swift:226-229 | the splice, the observer's registrations and reload, then `deleteSections`, in one batch; the delegate is kept |
| Manager.TableViewManager.InsertSectionItems | Sources/TableViewManager/TableViewManager.swift:250-260 | as written, the first index is checked against the argument's count. It registers, inserts, runs the observer and sends `insertSections` at the same set; the delegate is kept |
| Manager.TableViewManager.InsertSectionItemsIntended | Sources/TableViewManager/TableViewManager.swift:250-260 | with the check against the managed count, the same insertion and batch; the delegate is kept |
| Manager.TableViewManager.InsertSectionsInBatch | Sources/TableViewManager/TableViewManager.swift:256-259 | the splice, the observer's registrations and reload, then `insertSections`, in one batch; the delegate is kept |
| Manager.TableViewManager.AppendSectionItems | Sources/TableViewManager/TableViewManager.swift:267-272 | as written, n new sections go to positions n..2n-1, which needs n managed sections already; the delegate is kept |
| Manager.TableViewManager.AppendSectionItemsIntended | Sources/TableViewManager/TableViewManager.swift:267-272 | counting the managed sections, the new ones end at the tail in argument order; the delegate is kept |
| Manager.TableViewManager.ReplaceSectionItems | Sources/TableViewManager/TableViewManager.swift:280-290 | it needs as many sections as positions, each managed. It registers, replaces, runs the observer and sends `reloadSections` at the same set; the delegate is kept |
| Manager.TableViewManager.ReplaceSectionsInBatch | Sources/TableViewManager/TableViewManager.swift:286-289 | the splice, the observer's registrations and reload, then `reloadSections`, in one batch; the delegate is kept |
| Manager.TableViewManager.ScrollToCellItem | Sources/TableViewManager/TableViewManager.swift:318-328 | nothing unless both lookups succeed; otherwise one `scrollToRow` at a path leading back to the item |
| Manager.TableViewManager.ScrollToTopAnimated | Sources/TableViewManager/TableViewManager.swift:333-342 | nothing without a first section holding an item; otherwise a scroll to row 0 of section 0, to the top |
| DataSource.NumberOfSections | Sources/TableViewManager/Extensions/TableViewManager+UITableViewDataSource.swift:19-21 | one section per section object |
| DataSource.NumberOfRowsInSection | Sources/TableViewManager/Extensions/TableViewManager+UITableViewDataSource.swift:23-26 | 0 for an absent section; the rows reported are exactly those the lookup resolves to an item |
| DataSource.ReloadCarriesReportedCounts | Sources/TableViewManager/TableViewManager.swift:40 | the counts a reload carries are the counts the data source reports |
| DataSource.CellForRowAt | Sources/TableViewManager/Extensions/TableViewManager+UITableViewDataSource.swift:28-32 | needs an item at the path (force unwrap), and the cell is asked of exactly the item at that row of that section |
| DataSource.TitleForHeaderInSection | Sources/TableViewManager/Extensions/TableViewManager+UITableViewDataSource.swift:34-36 | nil for an absent section, otherwise the section's own answer; when the section does not implement it, a title exactly for a `TableViewSectionItem` |
| DataSource.TitleForFooterInSection | Sources/TableViewManager/Extensions/TableViewManager+UITableViewDataSource.swift:38-40 | nil for an absent section, otherwise the section's own answer; when the section does not implement it, a title exactly for a `TableViewSectionItem` |
| DataSource.CanMoveRowAt | Sources/TableViewManager/Extensions/TableViewManager+UITableViewDataSource.swift:42-47 | the item's answer for the path it is given, false without an item |
| DataSource.SectionIndexTitles | Sources/TableViewManager/Extensions/TableViewManager+UITableViewDataSource.swift:49-54 | the delegate's answer, nil without a delegate |
| DataSource.SectionForSectionIndexTitle | Sources/TableViewManager/Extensions/TableViewManager+UITableViewDataSource.swift:56-61 | the delegate's answer, 0 without a delegate |
| DataSource.MoveRowAt | Sources/TableViewManager/Extensions/TableViewManager+UITableViewDataSource.swift:63-65 | the delegate is told exactly when there is one; the model is never touched |
| DataSource.CanEditRowAt | Sources/TableViewManager/Extensions/TableViewManager+UITableViewDataSource.swift:69-74 | true exactly for an existing item that has the edit capability and says yes |
| DataSource.DefaultsNeverEdit | RSBTableViewManager/Source/TableViewManager/Protocols/CellItem/TableViewCellItemEditActionsProtocol.swift:129-130 | an item keeping the edit defaults is neither editable nor deleted on commit |
| DataSource.Commit | Sources/TableViewManager/Extensions/TableViewManager+UITableViewDataSource.swift:76-94 | nothing unless it is a delete with section, item and capability present and `canCommit` true; only the addressed section may change, and its titles are kept. Otherwise the item's first row leaves in one bracketed `deleteRows` with `.automatic`, `didRemove` runs with the given path, and `didFinishRemovingAnimation` is deferred |
| DataSource.DropOne | Sources/TableViewManager/Extensions/TableViewManager+UITableViewDataSource.swift:88 | deleting the single position row drops exactly that element |
| Delegate.HeightForRowAt | Sources/TableViewManager/Extensions/TableViewManager+UITableViewDelegate.swift:13-15 | needs an item at the path (force unwrap) and gives its height |
| Delegate.EstimatedHeightForRowAt | Sources/TableViewManager/Extensions/TableViewManager+UITableViewDelegate.swift:118-123 | the item's estimate, 0 without an item |
| Delegate.IndentationLevelForRowAt | Sources/TableViewManager/Extensions/TableViewManager+UITableViewDelegate.swift:111-116 | the item's level for the path it is given, 0 without an item |
| Delegate.WillDisplay | Sources/TableViewManager/Extensions/TableViewManager+UITableViewDelegate.swift:17-19 | nothing without an item; otherwise the item's own `willDisplayCell`, which runs exactly when the type implements it |
| Delegate.DidEndDisplaying | Sources/TableViewManager/Extensions/TableViewManager+UITableViewDelegate.swift:21-23 | nothing without an item; otherwise the item's own `didEndDisplayingCell`, which runs exactly when the type implements it |
| Delegate.ShouldHighlightRowAt | Sources/TableViewManager/Extensions/TableViewManager+UITableViewDelegate.swift:25-30 | the item's answer, true without an item |
| Delegate.WillSelectRowAt | Sources/TableViewManager/Extensions/TableViewManager+UITableViewDelegate.swift:40-45 | the item's answer, the proposed path without an item |
| Delegate.WillDeselectRowAt | Sources/TableViewManager/Extensions/TableViewManager+UITableViewDelegate.swift:47-52 | the item's answer, the proposed path without an item |
| Delegate.DidHighlightRowAt | Sources/TableViewManager/Extensions/TableViewManager+UITableViewDelegate.swift:32-34 | nothing without an item; otherwise whatever the item's own requirement does at the path |
| Delegate.DidUnhighlightRowAt | Sources/TableViewManager/Extensions/TableViewManager+UITableViewDelegate.swift:36-38 | nothing without an item; otherwise whatever the item's own requirement does at the path |
| Delegate.DidSelectRowAt | Sources/TableViewManager/Extensions/TableViewManager+UITableViewDelegate.swift:54-56 | nothing without an item; otherwise whatever the item's own requirement does at the path |
| Delegate.DidDeselectRowAt | Sources/TableViewManager/Extensions/TableViewManager+UITableViewDelegate.swift:58-60 | nothing without an item; otherwise whatever the item's own requirement does at the path |
| Delegate.TargetIndexPathForMove | Sources/TableViewManager/Extensions/TableViewManager+UITableViewDelegate.swift:102-109 | the proposed destination without a delegate, otherwise the delegate's answer |
| Delegate.HeightForHeaderInSection | Sources/TableViewManager/Extensions/TableViewManager+UITableViewDelegate.swift:62-64 | needs the section to exist and gives its own answer; inherited, 22 exactly for a titled `TableViewSectionItem` header, otherwise 0 |
| Delegate.HeightForFooterInSection | Sources/TableViewManager/Extensions/TableViewManager+UITableViewDelegate.swift:66-68 | needs the section to exist and gives its own answer; inherited, 22 exactly for a titled `TableViewSectionItem` footer, otherwise 0 |
| Delegate.ViewForHeaderInSection | Sources/TableViewManager/Extensions/TableViewManager+UITableViewDelegate.swift:70-72 | needs the section to exist and gives its own answer; inherited, no view |
| Delegate.ViewForFooterInSection | Sources/TableViewManager/Extensions/TableViewManager+UITableViewDelegate.swift:74-76 | needs the section to exist and gives its own answer; inherited, no view |
| Delegate.DisplayingAt | Sources/TableViewManager/Extensions/TableViewManager+UITableViewDelegate.swift:79 | `self[section] as? TableViewSectionItemHeaderFooterDisplaying` gives the hooks exactly when the section exists and has the capability |
| Delegate.RunAtSection | Sources/Protocols/SectionItem/TableViewSectionItemHeaderFooterDisplaying.swift:42-48 | a section hook runs exactly when the adopter supplies it; the defaults are empty |
| Delegate.WillDisplayHeaderView | Sources/TableViewManager/Extensions/TableViewManager+UITableViewDelegate.swift:78-82 | reaches the section exactly when it has the capability and the hook |
| Delegate.WillDisplayFooterView | Sources/TableViewManager/Extensions/TableViewManager+UITableViewDelegate.swift:84-88 | reaches the section exactly when it has the capability and the hook |
| Delegate.DidEndDisplayingHeaderView | Sources/TableViewManager/Extensions/TableViewManager+UITableViewDelegate.swift:90-94 | reaches the section exactly when it has the capability and the hook |
| Delegate.DidEndDisplayingFooterView | Sources/TableViewManager/Extensions/TableViewManager+UITableViewDelegate.swift:96-100 | reaches the section exactly when it has the capability and the hook |
| Delegate.EditActionsForRowAt | Sources/TableViewManager/Extensions/TableViewManager+UITableViewDelegate.swift:127-132 | the capable item's actions, nil otherwise |
| Delegate.ShouldIndentWhileEditingRowAt | Sources/TableViewManager/Extensions/TableViewManager+UITableViewDelegate.swift:134-139 | the capable item's answer, true otherwise |
| Delegate.WillBeginEditingRowAt | Sources/TableViewManager/Extensions/TableViewManager+UITableViewDelegate.swift:141-145 | the capable item's hook runs exactly when it is there |
| Delegate.DidEndEditingRowAt | Sources/TableViewManager/Extensions/TableViewManager+UITableViewDelegate.swift:147-151 | nothing for a nil path; otherwise the capable item's hook runs exactly when it is there |
| Delegate.EditingStyleForRowAt | Sources/TableViewManager/Extensions/TableViewManager+UITableViewDelegate.swift:153-158 | the capable item's style, `.delete` otherwise |
| Delegate.TitleForDeleteConfirmationButton | Sources/TableViewManager/Extensions/TableViewManager+UITableViewDelegate.swift:160-165 | the capable item's title, nil otherwise |
| Delegate.ShouldShowMenuForRowAt | Sources/TableViewManager/Extensions/TableViewManager+UITableViewDelegate.swift:169-174 | the capable item's answer, false otherwise |
| Delegate.CanPerformAction | Sources/TableViewManager/Extensions/TableViewManager+UITableViewDelegate.swift:176-181 | the capable item's answer, false otherwise |
| Delegate.PerformAction | Sources/TableViewManager/Extensions/TableViewManager+UITableViewDelegate.swift:183-187 | the capable item's hook runs with the action exactly when it is there |
| Delegate.DefaultItemLooksAbsent | Sources/Protocols/CellItem/TableViewCellItemProtocol.swift:190-228 | an item implementing nothing beyond what is required and with no handler set answers the row and edit queries as a missing item would, except the estimated height (2 against 0) |
| Prefetching.ResolvedPaths | RSBTableViewManager/TableViewManager/TableViewManager+UITableViewDataSourcePrefetching.swift:14-19 | the paths that resolve to an item, in input order, no more of them than given |
| Prefetching.ResolvedPrefix | RSBTableViewManager/TableViewManager/TableViewManager+UITableViewDataSourcePrefetching.swift:14-19 | resolving a prefix of the paths gives a prefix of the resolved paths |
| Prefetching.AllResolvedKept | RSBTableViewManager/TableViewManager/TableViewManager+UITableViewDataSourcePrefetching.swift:14-19 | where every path resolves, none is skipped |
| Prefetching.AlignedWhilePrefixResolves | RSBTableViewManager/TableViewManager/TableViewManager+UITableViewDataSourcePrefetching.swift:20-22 | while no earlier path has failed to resolve, the k-th resolved path is the k-th path |
| Prefetching.GatherResolved | RSBTableViewManager/TableViewManager/TableViewManager+UITableViewDataSourcePrefetching.swift:14-19 | the first loop gathers the items the paths resolve to, in order, skipping the others |
| Prefetching.PrefetchRowsAt | RSBTableViewManager/TableViewManager/TableViewManager+UITableViewDataSourcePrefetching.swift:13-23 | one `prefetchData` per resolved path, items in input order; as written, the k-th item receives the k-th given path |
| Prefetching.PrefetchAlignedWhenAllResolve | RSBTableViewManager/TableViewManager/TableViewManager+UITableViewDataSourcePrefetching.swift:20-22 | when every path resolves, each item receives its own path |
| Prefetching.PrefetchMisaligned | RSBTableViewManager/TableViewManager/TableViewManager+UITableViewDataSourcePrefetching.swift:20-22 | a missing row followed by row 0: the item at row 0 is handed the missing row's path, which does not lead back to it |
| Prefetching.PrefetchRowsAtIntended | RSBTableViewManager/TableViewManager/TableViewManager+UITableViewDataSourcePrefetching.swift:13-23 | each resolved item is handed the path it was resolved from |
| Prefetching.CancelPrefetchingForRowsAt | RSBTableViewManager/TableViewManager/TableViewManager+UITableViewDataSourcePrefetching.swift:25-29 | each resolved item is told to cancel with its own path, and unresolved paths are skipped |

## Left out

- Cell creation and configuration are left out: `cell(for:at:)` and `dequeueReusableCell` belong to UIKit's rendering. `DataSource.CellForRowAt` stops at the item the cell is asked of.
- `rectForRow` geometry, scrolling, animation and header/footer views are left out. They are UIKit rendering; views are opaque `View` values and the rest are log entries.
- Heights (`CGFloat`) are Dafny `real`. Only the constants 0, 2 and 22 are involved and no arithmetic is done on them.
- `CATransaction` is left out. Its completion timing belongs to Core Animation, so `DataSource.Commit` returns `didFinishRemovingAnimation` as a deferred invocation instead of running it.
- `isPrefetchingEnabled` is left out, because its fatal path depends on the OS version at run time.
- The `scrollDelegate` pass-throughs are left out; they only forward `UIScrollView` callbacks.
- The init's wiring of `delegate` and `dataSource` is left out: `Manager.TableViewManager.constructor` keeps the table view, and the extensions take the manager as a parameter.
- The associated-object side table (`ClosureWrapper`) is not part of this model. The seven handlers are ordinary fields, each with its own storage.
- Closures supplied by the app are opaque. A void hook is returned as an `Invocation` value instead of being run. The delegate's and items' answering closures are Dafny functions.
- Swift `Int` indices are `nat`. A negative index cannot be formed, so a trap on one is not modelled. `self[section]` with a negative section is not modelled either.
- `Manager.TableViewManager.RemoveSectionItems`: the section delta is not simulated (belief becomes unknown), so the section mutators do not state that the view stays in step. The observer's `reloadData` inside the batch is modelled, but UIKit's way of reconciling it with the delta is not documented behaviour.
- `Manager.TableViewManager.RemoveCellItems`: "stays in step" is stated only when neither sections nor items repeat. With repeats the paths and positions differ in number, and UIKit would raise.
- `Manager.TableViewManager.InsertCellItems`, `Manager.TableViewManager.AppendCellItems`, `Manager.TableViewManager.AppendCellItemsAt` and `Manager.TableViewManager.RemoveCellItemsAt`: "stays in step" is stated only when no section object is managed twice. A section managed at two indexes changes at both, while the delta names only the first.
- `Manager.TableViewManager.DeleteInBatch` and `Manager.TableViewManager.InsertInBatch`: "stays in step" is stated only when the section is managed at that index alone and the delta names one path per position; their callers establish both.
- The `inout` section parameter of `removeCellItems`, `insertCellItems`, `appendCellItems` and `replaceCellItems` (TableViewManager.swift lines 100, 145, 168 and 196) is modelled as a shared section object held by the caller, as the local `guard var sectionItem` of the commit path holds one. The write-back of an `inout` argument taken from `&manager.sectionItems[i]`, which would run the `sectionItems` observer, and Swift's exclusive-access fault for such overlapping accesses (as in the test at RSBTableViewManagerTests/RSBTableViewManagerSpec.swift line 75) are not modelled.
- The header/footer height and view queries (TableViewManager+UITableViewDelegate.swift lines 62-76) call the section requirement on the optional `self[section]` without `?` or `!`. The model reads this as a force unwrap: `Delegate.HeightForHeaderInSection` and the other three require the section to exist.
- A section's own header/footer answers (`SectionItems.HeaderFooterAnswers`) a cell item's own handler-driven bodies (`CellItems.ResolverOverrides`) and its per-row indentation and moving answers are fixed values, or fixed functions of the row, chosen when the object is made. An override that computes its answer from the object's changing state is not modelled; the void overrides are returned as `Invocation` values like the handlers.
- `DataSource.Commit`: "stays in step" and "the deleted row is the given path" are stated only when neither sections nor the section's items repeat, for the same reason.
- The superseded manager snapshots are left out: RSBTableViewManager/TableViewManager/TableViewManager.swift, RSBTableViewManager/RSBTableViewManager/RSBTableViewManager.swift, and the older delegate and data-source extensions (RSBTableViewManager/TableViewManager/TableViewManager+UITableViewDelegate.swift, RSBTableViewManager/TableViewManager/Extensions/TableViewManager+UITableViewDataSource.swift). They call helpers their own trees do not define, so they do not form one program. The older duplicate item, protocol and `UITableView` extension files under `RSBTableViewManager/` and `rsbtableviewmanager-swift/` are left out too; the `Sources/` versions are modelled. From those older trees the model does take the prefetching extension (`Prefetching`), the two older `Array+Additions.swift` files (`LegacyArrayAdditions`) and the edit-actions defaults (`CellItems.DefaultEditCapability`).
- `TableViewManagerDelegate`'s own defaults are left out; they mirror the manager's no-delegate fallbacks, which are modelled. The editing and prefetching protocols are declarations without logic.
- The Example app, the test fakes and the ARC-lifetime test are left out; they are not library logic.
- Concurrency is left out: everything runs synchronously on the main thread.
- The data source asks `canCommit(_:in:)`, while the edit-actions protocol shown declares `canCommitEditingStyle`. Both are the one `canCommit` query of `CellItems.EditCapability`.

## Findings

| source | as written | input that shows it | evidently intended | confidence | as-written member | corrected member |
|---|---|---|---|---|---|---|
| RSBTableViewManager/Extensions/Array+Additions.swift:19-25 | `integerGreaterThanOrEqualTo(index)` always returns `first`, so every element is inserted at `first`, in reverse order | inserting [1, 2] at {0, 1} into [] gives [2, 1] | element k at the k-th position, as the current `insert(_:at:)` does | not executed | LegacyArrayAdditions.SplicedReversedMisplaces | ArrayAdditions.InsertAt |
| Sources/TableViewManager/TableViewManager.swift:221 | the parameter `sectionItems` shadows the property, so each section is looked up in the argument | managed [a, b], `removeSectionItems([b])` removes a | look each section up in the managed sections | not executed | Manager.ShadowedRemovalMisses | Manager.TableViewManager.RemoveSectionItemsIntended |
| Sources/TableViewManager/TableViewManager.swift:253 | the bound check uses the argument's count | three managed sections, one new section at position 3 is refused | check against the managed count | not executed | Manager.InsertGuardRefusesTail | Manager.TableViewManager.InsertSectionItemsIntended |
| Sources/TableViewManager/TableViewManager.swift:269 | `count` is the argument's count, so n new sections go to n..2n-1 | managed [1, 2, 3], appending [4] gives [1, 4, 2, 3] | the new sections at the tail | not executed | Manager.ShadowedAppendMisplaces | Manager.TableViewManager.AppendSectionItemsIntended |
| RSBTableViewManager/TableViewManager/TableViewManager+UITableViewDataSourcePrefetching.swift:20-22 | the k-th resolved item gets `indexPaths[k]`, the k-th path given, resolved or not | paths [missing row, row 0]: the item at row 0 is handed the missing path | each item handed the path it was resolved from | not executed | Prefetching.PrefetchMisaligned | Prefetching.PrefetchRowsAtIntended |
