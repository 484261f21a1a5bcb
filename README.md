# Touch-based coding prototypes, modelled in Dafny

This project models the two self-contained cores of the Touch-Based-Coding
prototypes and proves what their code promises.

**The block-program editor of `Code_Prototype_1.js`.**
A program is a list of LET, PRINT, IF and FOR nodes. IF and FOR nodes hold
nested lists. The editor session is the class `BlockSession.Session`. Its
fields are:

- the id counter;
- the root body;
- the selection;
- the add-inside target;
- the undo and redo stacks.

Its methods are the editing handlers: make a node, add at the root, add to
the selection, add inside, delete, move, reset, the ELSE toggle, apply a
field edit, push history, undo, redo and the boot sample. The source finds
nodes and parents by depth-first search and edits nested arrays in place.
In the model, the searches are the functions `Blocks.Find` and
`Blocks.FindParent`. The in-place edits are functions in module `Edits` that
rebuild the tree along the path to the target (`Edits.AddToSelected`,
`Edits.DeleteNode`, `Edits.MoveNode`, `Edits.ToggleElse`, `Edits.AddInside`,
`Edits.UpdateFirst`). Each session method assigns the body their result.
The code generator is `Transpile.Transpile`. The keypad of the field editor
is `Keypad.Press`.

The model keeps the code's own behaviour, quirks included:

- **`findParent` below depth 1.** For a node nested two or more levels deep,
  `findParent` answers the slot of its top-level ancestor
  (`Blocks.FindParentInsideSlot`). As a result, delete and move leave such a
  node alone, and adding after it inserts at the front of that ancestor slot.
- **Undo re-commits.** `undo` commits again after restoring. So `future` is
  always empty, which is part of the session invariant `Session.Valid`.
- **Uncommitted edits.** Field edits and the ELSE toggle are never committed.
- **The transpile separator.** The join separator is the two-character text
  backslash-`n`.

**The playground of `Code_Prototype_2.js`.**
The project file list is the class `Playground.Project`. It has
`setActive`, `removeFile`, rename, and the add-file buttons with
`suggestName` and its search loops. The text utilities are in module
`EditorText`:

- the HTML escape;
- the `</` escape applied before script and style injection;
- the line maps of indent, outdent and comment toggling;
- the line and column of the caret.

The bundle builders (`gatherJs`, `gatherCss`, `buildBundle`) and
`pickHtmlFile` are in `Playground`. Module `Strings` holds `join` and
`split` on a single character, with their round trips.

Fresh ids are parameters: `uid()` uses `Math.random`, and the session counter
is the class field. Strings are sequences of Unicode characters.

## Model

| member | source | states |
|---|---|---|
| Blocks.DefaultNode | Code_Prototype_1.js:9-16 | a new node has the given id and kind, empty nested lists, an enabled ELSE and the defaults LET `x = 0`, PRINT `"hello"`, IF `x < 10`, FOR `i` from `0` to `5` step `1` |
| Blocks.BootSampleIds | Code_Prototype_1.js:485-494 | the boot sample holds exactly the three ids minted for it, `k`, `k+1` and `k+2` |
| Blocks.IndexOf | Code_Prototype_1.js:19 | `indexOf` answers the first position holding the id, or -1 when no entry has it |
| Blocks.IndexOfUnique | Code_Prototype_1.js:19 | in a list with distinct ids, `indexOf` finds the very position of the node |
| Blocks.FindNode | Code_Prototype_1.js:20-33 | a falsy selection (null or 0) finds nothing; a node found has the selected id |
| Blocks.FindIsFirstInPreorder | Code_Prototype_1.js:20-33 | `findNode` is the first node with the id in depth-first order: container order, IF `then` before `elseBody`, FOR `body` |
| Blocks.FindSomeIff | Code_Prototype_1.js:20-33 | `findNode` succeeds exactly when the id occurs somewhere in the tree |
| Blocks.FindTop | Code_Prototype_1.js:20-33 | with distinct ids, a top-level node is found by its id |
| Blocks.FindInSlot | Code_Prototype_1.js:20-33 | with distinct ids, a node directly inside an IF or FOR slot is found by its id |
| Blocks.FindNeverRoot | Code_Prototype_1.js:20-33 | the root's own id 1 never resolves to a node when all node ids lie above it |
| Blocks.FindParentSomeIff | Code_Prototype_1.js:34-46 | `findParent` answers something exactly when `findNode` finds the id |
| Blocks.FindParentFromSomeIff | Code_Prototype_1.js:34-46 | the scan from position `i` answers exactly when the id occurs in the nodes from `i` on |
| Blocks.FindParentAtTop | Code_Prototype_1.js:36 | a top-level node's parent is the root |
| Blocks.FindParentInsideSlot | Code_Prototype_1.js:37-43 | any id inside a top-level node's slot, at whatever depth, gets that top-level slot as its parent |
| Blocks.FindParentSlotHolds | Code_Prototype_1.js:37-43 | the slot answered does hold the id, though possibly deeper than directly |
| Blocks.UniqueInSlot | Code_Prototype_1.js:34-46 | a slot of a tree with distinct ids has distinct ids, all of them ids of the tree |
| Edits.SetFieldOf | Code_Prototype_1.js:263 | the edited field takes the value; id, kind, nested lists and every other field stay |
| Edits.AssignHits | Code_Prototype_1.js:260-266 | after a field edit `findNode` resolves the id to the node with only that field changed, and every id of the tree keeps its depth-first position |
| Edits.UpdateHits | Code_Prototype_1.js:62-65 | an in-place change of the node `findNode` resolves shows up at that node |
| Edits.UpdateAbsent | Code_Prototype_1.js:62-65 | changing a node that is not found leaves the tree as it is |
| Edits.UpdateBag | Code_Prototype_1.js:62-65 | the tree's ids change exactly as the changed node's ids change |
| Edits.UpdateAt | Code_Prototype_1.js:22-31 | the edit rebuilds only the first top-level position whose subtree holds the id; every other entry is kept in place |
| Edits.UpdateSkip | Code_Prototype_1.js:260-266 | with distinct ids, editing a root-level node replaces that node alone and keeps the rest of the body as it was |
| Edits.UpdateInSlotEntry | Code_Prototype_1.js:260-266 | with distinct ids, editing an entry of a top-level slot replaces that entry alone; its owner keeps its other fields and slots, and every other node is kept |
| Edits.UpdateKeepsOrder | Code_Prototype_1.js:260-266 | a field assignment or re-enabling ELSE leaves every id of the tree in its depth-first position, at any depth |
| Edits.InsertAt | Code_Prototype_1.js:68 | `splice(i, 0, n)`: `n` at `i`, entries before stay, entries after shift by one |
| Edits.RemoveAt | Code_Prototype_1.js:81 | `splice(i, 1)`: the entry at `i` goes, the others keep their order |
| Edits.Swap | Code_Prototype_1.js:92 | the two positions trade entries and every other entry stays |
| Edits.RemoveInserted | Code_Prototype_1.js:68 | removing the entry just spliced in gives back the container |
| Edits.SwapBack | Code_Prototype_1.js:92 | swapping the same two positions again gives back the container |
| Edits.AddToSelectedBag | Code_Prototype_1.js:61-72 | `addToSelected` adds exactly the new node's ids to the tree, whichever branch it takes |
| Edits.AddToSelectedIf | Code_Prototype_1.js:64 | a selected IF gets the node appended to `then`, never to `elseBody` |
| Edits.AddToSelectedFor | Code_Prototype_1.js:65 | a selected FOR gets the node appended to its body |
| Edits.AddAfterTopLevel | Code_Prototype_1.js:66-69 | a selected top-level LET or PRINT gets the node inserted right after it |
| Edits.AddAfterInSlot | Code_Prototype_1.js:66-69 | a selected LET or PRINT directly in a slot gets the node right after it in that slot |
| Edits.AddDeepGoesToFront | Code_Prototype_1.js:67-68 | a selected LET or PRINT two or more levels deep makes the node go first in its top-level ancestor's slot |
| Edits.DeleteNodeBag | Code_Prototype_1.js:74-82 | deleting never adds ids to the tree |
| Edits.DeleteTopLevel | Code_Prototype_1.js:76-78 | deleting a top-level node removes exactly that entry and keeps the others in order |
| Edits.DeleteInSlot | Code_Prototype_1.js:79-82 | deleting a node directly in a slot removes exactly it from that slot |
| Edits.DeleteDeepIsNoOp | Code_Prototype_1.js:79-82 | deleting a node two or more levels deep changes nothing |
| Edits.DeleteAbsent | Code_Prototype_1.js:74-82 | deleting an id the tree does not hold changes nothing |
| Edits.MoveNodeBag | Code_Prototype_1.js:86-94 | a move keeps the tree's ids |
| Edits.MoveTopLevel | Code_Prototype_1.js:86-94 | a top-level move swaps positions `idx` and `idx+dir` when both exist, otherwise is refused |
| Edits.MoveInSlot | Code_Prototype_1.js:86-94 | a move inside a slot swaps the two slot positions when both exist, otherwise is refused |
| Edits.MoveDeepIsNoOp | Code_Prototype_1.js:86-94 | a move of a node two or more levels deep is refused |
| Edits.MoveThereAndBack | Code_Prototype_1.js:86-94 | moving a root-level node by `dir` and then by `-dir` restores the body |
| Edits.MoveThereAndBackInSlot | Code_Prototype_1.js:86-94 | moving an entry of a top-level slot by `dir` and then by `-dir` restores the body |
| Edits.ToggleNeedsIf | Code_Prototype_1.js:353-354 | the ELSE toggle leaves the tree alone unless the selection resolves to an IF |
| Edits.ToggleDisables | Code_Prototype_1.js:359-362 | disabling sets the flag and empties `elseBody`, nothing else on the node changes |
| Edits.ToggleEnables | Code_Prototype_1.js:356-358 | re-enabling only clears the flag |
| Edits.ToggleTwice | Code_Prototype_1.js:355-362 | toggling twice leaves the ELSE enabled but its branch lost |
| Edits.ToggleElseBag | Code_Prototype_1.js:352-365 | the toggle never adds ids |
| Edits.AddInsideSomeIff | Code_Prototype_1.js:464-472 | add-inside takes the node exactly when the selection resolves to an IF or a FOR |
| Edits.AddInsideIf | Code_Prototype_1.js:470 | into a selected IF the node goes at the end of `elseBody` when the target is ELSE, else of `then` |
| Edits.AddInsideBag | Code_Prototype_1.js:469-471 | add-inside adds exactly the new node's ids |
| Transpile.Indent | Code_Prototype_1.js:208 | the indentation for depth `d` is `2*d` spaces |
| Transpile.TranspileIsFlat | Code_Prototype_1.js:273-293 | the output is the flat list of emitted lines, each indented by its depth, joined by the separator |
| Transpile.BlockIsFlat | Code_Prototype_1.js:282-288 | a nested body contributes its own lines, or one empty entry when empty |
| Transpile.NodeIsFlat | Code_Prototype_1.js:276-290 | one node's entries join to the same text as its flat lines |
| Transpile.LinesAtLeast | Code_Prototype_1.js:273-293 | no line of a body transpiled at depth `d` is indented by fewer than `2*d` spaces |
| Transpile.NodeLinesAtLeast | Code_Prototype_1.js:276-290 | a node's first line is a code line at the node's own depth, and none of its lines is shallower |
| Transpile.EntriesAppend | Code_Prototype_1.js:274-291 | the entries of two bodies in sequence are the entries of each, in order |
| Transpile.TranspileAppend | Code_Prototype_1.js:292 | transpiling two non-empty bodies in sequence joins their outputs with the separator |
| Transpile.EnableElseKeepsOutput | Code_Prototype_1.js:280-285 | the ELSE flag does not affect the output: clearing it leaves the text unchanged |
| Transpile.BootSampleOutput | Code_Prototype_1.js:273-293 | the boot sample transpiles to the four expected lines joined by the separator |
| Transpile.BootSampleEntries | Code_Prototype_1.js:277-289 | the boot sample's entries are the LET line, the FOR header, the indented print and the closing brace |
| Transpile.BootLoopEntries | Code_Prototype_1.js:287-289 | the sample loop emits its header, its one-line body and `}` |
| Transpile.BootPrintOutput | Code_Prototype_1.js:279 | the sample print at depth 1 is `  console.log(i);` |
| BlockSession.AddFresh | Code_Prototype_1.js:9-16 | a tree that gains one freshly minted id keeps distinct, issued ids |
| BlockSession.Sub | Code_Prototype_1.js:74-94 | a tree whose ids are among a well-formed tree's ids is well formed |
| BlockSession.BootWellFormed | Code_Prototype_1.js:485-494 | the boot sample holds distinct ids, all issued by the counter |
| BlockSession.Session.constructor | Code_Prototype_1.js:3-7 | the counter starts past the root's id 1; empty body, no selection, THEN target, empty stacks |
| BlockSession.Session.MakeNode | Code_Prototype_1.js:9-16 | the node gets the counter's value, which moves on; its id is above every id in the body and in every snapshot |
| BlockSession.Session.PushHistory | Code_Prototype_1.js:51-53 | the current body goes on `past`, `future` is emptied, nothing else changes |
| BlockSession.Session.Undo | Code_Prototype_1.js:54 | nothing on an empty `past`; otherwise `past`'s top is restored and pushed again, so `past` is unchanged and `future` empty |
| BlockSession.Session.Redo | Code_Prototype_1.js:55 | nothing on an empty `future`; otherwise the body goes on `past` and `future`'s top is restored; the invariant holds |
| BlockSession.Session.AddAt | Code_Prototype_1.js:60 | the node goes at the end of the root body, and the result is committed |
| BlockSession.Session.AddToSelected | Code_Prototype_1.js:61-72 | the body becomes `Edits.AddToSelected`'s tree, committed, with ids still distinct |
| BlockSession.Session.AddBlock | Code_Prototype_1.js:477-480 | a button mints one node and adds it to the selection; the counter moves by one |
| BlockSession.Session.DeleteNode | Code_Prototype_1.js:74-85 | the body becomes `Edits.DeleteNode`'s tree; the selection is cleared only if it was that id; always committed |
| BlockSession.Session.MoveNode | Code_Prototype_1.js:86-94 | a refused move changes nothing and commits nothing; otherwise the swapped tree is committed |
| BlockSession.Session.ResetProgram | Code_Prototype_1.js:331-337 | empty body, no selection, the empty body committed |
| BlockSession.Session.ToggleElse | Code_Prototype_1.js:352-365 | the body becomes `Edits.ToggleElse`'s tree and neither stack changes |
| BlockSession.Session.AddInside | Code_Prototype_1.js:463-474 | an unresolved selection changes nothing; otherwise a node is minted, and the tree takes it (committed) exactly when the selection is a container |
| BlockSession.Session.Select | Code_Prototype_1.js:120 | selecting the selected node clears the selection, any other node becomes selected |
| BlockSession.Session.SetTarget | Code_Prototype_1.js:435-436 | the add-inside target becomes THEN or ELSE, nothing else changes |
| BlockSession.Session.ApplyEditor | Code_Prototype_1.js:260-266 | the field of the node with the id takes the value, uncommitted |
| BlockSession.Session.Boot | Code_Prototype_1.js:485-496 | an empty body becomes the boot sample with three fresh ids, committed; a non-empty body is left alone |
| Keypad.Press | Code_Prototype_1.js:242-254 | OK applies; CLR empties; the arrow drops the last character; the sign key strips or prepends one `-`; any other key appends its label |
| Keypad.SignTwice | Code_Prototype_1.js:248-252 | two sign presses restore the buffer exactly when it does not start with `--` |
| Keypad.BackUndoesText | Code_Prototype_1.js:247 | as many arrow presses as a typed label has characters undo the typing |
| Keypad.Erase | Code_Prototype_1.js:247 | `k` arrow presses leave a prefix `k` characters shorter, or the empty buffer |
| Strings.SplitLength | Code_Prototype_2.js:99 | `split('\n')` yields one more part than there are newlines |
| Strings.JoinSplit | Code_Prototype_2.js:129-130 | joining the parts of a split with the split character gives the text back |
| Strings.SplitJoin | Code_Prototype_2.js:129-130 | splitting a join of newline-free lines gives the lines back |
| Strings.JoinSplice | Code_Prototype_1.js:292 | a nested output joined into its parent equals joining the flattened entries |
| EditorText.EscapeHtml | Code_Prototype_2.js:186 | the escaped text contains no `<` and no `>` |
| EditorText.UnescapeEscape | Code_Prototype_2.js:186 | reading the entities back gives the original text, so the escape loses nothing |
| EditorText.EscapePlainText | Code_Prototype_2.js:186 | text without `&`, `<`, `>` comes through unchanged |
| EditorText.EscapeCloseTags | Code_Prototype_2.js:235 | after the `</` escape the text contains no `</` |
| EditorText.EscapeCloseTagsKeeps | Code_Prototype_2.js:205-206 | text without `</` comes through unchanged |
| EditorText.EscapeCloseTagsIdempotent | Code_Prototype_2.js:283 | escaping twice is escaping once |
| EditorText.PreviewEscapeNoBackslash | Code_Prototype_2.js:312 | the preview escape as written changes nothing in text without a backslash |
| EditorText.PreviewEscapeKeepsCloseTag | Code_Prototype_2.js:320 | the preview escape as written leaves `</script>` intact, while the intended escape removes it |
| EditorText.OutdentLine | Code_Prototype_2.js:130 | a line starting with two spaces loses them; any other line is kept |
| EditorText.IndentAll | Code_Prototype_2.js:130 | indenting prefixes every line with two spaces |
| EditorText.OutdentAll | Code_Prototype_2.js:130 | outdenting maps each line through the one-line outdent |
| EditorText.OutdentUndoesIndent | Code_Prototype_2.js:125-131 | outdenting an indented selection gives back the selection |
| EditorText.IndentLength | Code_Prototype_2.js:129-130 | indenting adds two characters per line of the selection |
| EditorText.Lead | Code_Prototype_2.js:142 | the leading `\s*` run: all whitespace, followed by a non-space or the end |
| EditorText.LeadBefore | Code_Prototype_2.js:142 | the leading run of whitespace followed by text is exactly that whitespace |
| EditorText.CommentedAfter | Code_Prototype_2.js:142 | commenting a line makes it commented and keeps its leading whitespace |
| EditorText.UncommentShortens | Code_Prototype_2.js:142 | uncommenting a commented line removes exactly two characters |
| EditorText.ToggleTwiceLeavesSpace | Code_Prototype_2.js:141-142 | commenting then uncommenting a line leaves one extra space after its indentation |
| EditorText.ToggleLines | Code_Prototype_2.js:141-142 | all lines uncommented when all are commented, otherwise all commented |
| EditorText.ToggleCommentsAll | Code_Prototype_2.js:137-142 | when some line is uncommented, the toggle comments every line and each grows by 3 |
| EditorText.ToggleUncommentsAll | Code_Prototype_2.js:137-142 | when every line is commented, the toggle shortens each line by 2 |
| EditorText.LastIndexOf | Code_Prototype_2.js:100 | the position of the last occurrence, or -1 when there is none |
| EditorText.CursorMeaning | Code_Prototype_2.js:96-102 | the line is one more than the newlines before the caret; the column is one more than the length of the caret's line so far |
| EditorText.SplitLast | Code_Prototype_2.js:100 | the last part of a split is the text after the last separator |
| EditorText.SplitOneIff | Code_Prototype_2.js:99-100 | a split yields one part exactly when the separator does not occur |
| Playground.LowerAll | Code_Prototype_2.js:62 | the case-insensitive match lower-cases character by character |
| Playground.IndexHtmlIsHtml | Code_Prototype_2.js:199 | a name matching `index.html` also ends in `.html` |
| Playground.NatToString | Code_Prototype_2.js:63 | a number's decimal text is one digit exactly below 10 |
| Playground.NatToStringInjective | Code_Prototype_2.js:63 | different numbers have different decimal texts |
| Playground.NumberedInjective | Code_Prototype_2.js:63 | different numbers give different numbered names |
| Playground.Names | Code_Prototype_2.js:63 | there are no more distinct names than files |
| Playground.Pigeonhole | Code_Prototype_2.js:63 | if the first `i` numbered names are all taken then `i` is at most the number of files |
| Playground.FirstFreeName | Code_Prototype_2.js:63 | the loop returns the first free numbered name, found by `i = |files|+1` |
| Playground.SuggestName | Code_Prototype_2.js:59-70 | `index.html` / `styles.css` when no file has the extension, otherwise the first free `page{i}.html` / `styles{i}.css` / `file{i}.js`; never a name in use |
| Playground.Sanitize | Code_Prototype_2.js:71 | same length; characters outside `[A-Za-z0-9_.-]` become `_`, the others stay |
| Playground.SanitizeKeeps | Code_Prototype_2.js:71 | a name already made of allowed characters is unchanged |
| Playground.SanitizeIdempotent | Code_Prototype_2.js:71 | sanitizing twice is sanitizing once |
| Playground.IndexOfId | Code_Prototype_2.js:75 | `findIndex` answers the first file with the id, or -1 exactly when none has it |
| Playground.FirstWhere | Code_Prototype_2.js:199 | `findIndex` with a name test answers the first match, or -1 when none matches |
| Playground.RemoveAt | Code_Prototype_2.js:76 | `splice(k, 1)` removes entry `k` and keeps the others in order |
| Playground.RemoveAtDistinct | Code_Prototype_2.js:76 | removing a file keeps the ids distinct |
| Playground.RemoveAtIds | Code_Prototype_2.js:76 | after the removal an id is present exactly when it was and was not the removed file's |
| Playground.AppendIds | Code_Prototype_2.js:53-55 | appending a file with a fresh id keeps ids distinct and adds exactly that id |
| Playground.PickHtmlFile | Code_Prototype_2.js:198-199 | an HTML file exactly when one exists; the first `index.html` in list order whenever a file has that name, otherwise the first `.html` file |
| Playground.Sections | Code_Prototype_2.js:217 | one section per file, in list order |
| Playground.Filter | Code_Prototype_2.js:200-201 | the kept files are exactly the files whose name passes the test |
| Playground.FilterAppend | Code_Prototype_2.js:200-201 | filtering keeps the list order |
| Playground.SectionsAppend | Code_Prototype_2.js:217 | sections of two lists in sequence are the sections of each |
| Playground.BundleAppend | Code_Prototype_2.js:216-218 | adding a file extends the bundle by a blank line and that file's section |
| Playground.GatherJsAppend | Code_Prototype_2.js:201 | a new `.js` file adds its section after a blank line (or alone); another file changes nothing |
| Playground.GatherCssAppend | Code_Prototype_2.js:200 | a new `.css` file adds its section after a blank line (or alone); another file changes nothing |
| Playground.GatherJsNone | Code_Prototype_2.js:201 | without `.js` files the gathered script is empty |
| Playground.Project.constructor | Code_Prototype_2.js:12-18 | the default project is one `main.js` holding the starter, and it is active |
| Playground.Project.Active | Code_Prototype_2.js:81 | `getActive` is a file of the project with the active id |
| Playground.Project.SetActive | Code_Prototype_2.js:79 | the active id becomes the given one and the files stay |
| Playground.Project.RemoveFile | Code_Prototype_2.js:73-77 | refused with one file left or an unknown id; otherwise exactly that file goes, order kept, and the first file becomes active if it was active |
| Playground.Project.AddFile | Code_Prototype_2.js:53-55 | a file with the fresh id, the suggested name and the kind's starter goes at the end and becomes active |
| Playground.Project.Rename | Code_Prototype_2.js:44 | the file takes the sanitized input, or keeps its name when the input is empty |

## Left out

- Rendering, the DOM and its widgets are not modelled. This covers `render`, the field-editor modal, tabs, snippets, toasts, theme and zoom. The zoom steps are floating point.
- Running code is not modelled. This covers `eval`, console patching, the iframe runner, the REPL and message delivery. They belong to a foreign runtime.
- Persistence and file transfer are not modelled. This covers `localStorage`, JSON import and export, downloads and the `FileReader`. Snapshots are copies of the body value, and a parse failure in `restore` cannot happen on such a copy.
- Trees loaded from storage or a file are not modelled. They can reuse ids, whereas the session invariant holds for trees built in one session.
- Task mode is not modelled. Its timing and log export depend on the clock.
- `uid()` is random. Fresh file ids are parameters, required to be unused.
- Caret and selection arithmetic in indent, comment toggling, the Tab key and `insertSnippet` is not modelled. The same goes for the gutter and for picking the caret's line when nothing is selected. The model works on the selected text.
- `buildHtmlPage`'s regex injection around `</head>`, `</body>` and `<html>`, and the logging shim, are not modelled. Only the `</` escape they apply is.
- The console filters, clipboard copy and the operator picker are not modelled.
- Strings are sequences of Unicode characters. JavaScript lengths count UTF-16 units, so a column can differ for characters outside the Basic Multilingual Plane (BMP), and `Sanitize` maps such a character to one `_` where the source's `/[^\w\.-]/g` replaces each of its two surrogates and gives `__`.
- BlockSession.Session.ApplyEditor: the source writes to the node object the editor was opened on. The model writes to the first node with that id, which is the same node while ids are distinct. Opening and closing the editor is left out.
- Playground.Project.Rename: `sanitizeFilename` also maps a missing (null) input to `''`. The input of a text field is always a string, so that case is not modelled.
- Playground.Project.SetActive: the source accepts any id. The model promises the project invariant only when the id belongs to a file, as it does for every tab.
- BlockSession.Session.AddToSelected: it requires a node straight from `makeNode`, with one fresh id and no children. That is how every button calls it.

## Findings

| source | as written | input that shows it | evidently intended | confidence | as-written member | corrected member |
|---|---|---|---|---|---|---|
| Code_Prototype_2.js:312 | the preview and build-HTML escape uses the pattern `/<\\\//g`, which matches `<\/` (with a backslash), not `</`; lines 312 and 320 alike | a JS-only project whose code contains `</script>`: the text passes through unchanged and closes the injected script early | the escape of lines 205-206, 235 and 283: every `</` becomes `<\/` | not executed | EditorText.PreviewEscapeKeepsCloseTag | EditorText.EscapeCloseTags |
