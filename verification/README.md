# zaptor IDE core in Dafny

zaptor is a browser IDE built from four React components. Under the JSX each
one keeps a small piece of state and changes it through pure updates. This
project models those updates as immutable Dafny datatypes and total functions,
and proves what they guarantee.

- **File explorer** (`FileExplorer`). The mock file tree is a forest of
  `FileNode`s. Folders can be toggled open or closed. A new file or folder can
  be appended under a parent folder. A node can be deleted together with its
  subtree. The explorer lists the visible nodes, each indented by 16 pixels per
  level.
- **Terminal** (`Terminal`). A simulated shell keeps the output lines, the
  input box, the command history with its browsing index, and the working
  directory. `executeCommand` trims, lowercases and splits the command, then
  dispatches on its first token. The key handler covers Enter, ArrowUp,
  ArrowDown and Tab completion.
- **Code editor** (`CodeEditor`). The editor keeps a list of open tabs and the
  id of the active one. It supports typing, new file, close, save, upload, tab
  selection and the theme switch.
- **IDE shell** (`Ide`). The shell keeps its own tab list. A file clicked in the
  explorer is opened there: an open tab with the same name becomes the active
  one, otherwise a new tab is appended and made active. This list is the
  shell's state only: it is never passed to the editor the shell renders.
- **Shared pieces.**
  - `Languages` maps a file name to an editor language by its extension.
  - `Strings` models the JavaScript string built-ins the source relies on:
    `trim`, ASCII `toLowerCase`, `split`, `join` and `substring`.
  - `Sequences` holds generic facts about sequences.
  - `Wrappers` defines `Option`, which models optional fields and `undefined`.

Ids that the source takes from `Date.now()` are parameters. So is the text
`date` prints. Optional fields of a `FileNode` are kept optional. `children` is
`Absent` or `Present(nodes)`, because `if (node.children)` also holds for an
empty array. `isExpanded` is an `Option<bool>` in which a missing flag counts
as closed.

## Model

| member | source | states |
|---|---|---|
| FileExplorer.Toggle | src/components/FileExplorer.tsx:88-98 | `toggleFolder`'s `updateNode` over a forest: the forest keeps its length; its meaning is pinned by the Toggle lemmas below |
| FileExplorer.ToggleNode | src/components/FileExplorer.tsx:90-95 | one node: a matching folder has its flag negated without visiting its children, any other node with a `children` array recurses (no contract; see the Toggle lemmas) |
| FileExplorer.ToggleKeepsShape | src/components/FileExplorer.tsx:88-98 | toggling never changes ids, names, kinds, contents, child order or node count: the trees agree once expansion flags are erased |
| FileExplorer.ToggleFlipsOnlyMatch | src/components/FileExplorer.tsx:89-96 | with unique ids, the flattened tree after a toggle is the old one with only the matching folder's flag negated (a missing flag read as closed) |
| FileExplorer.ToggleAbsent | src/components/FileExplorer.tsx:89-96 | toggling an id that names no folder (absent, or a file) returns the tree unchanged |
| FileExplorer.ToggleTwice | src/components/FileExplorer.tsx:89-96 | toggling the same id twice restores every expansion flag and everything else |
| FileExplorer.ToggleFindsFlipped | src/components/FileExplorer.tsx:90-92 | the first node with the id, when it is a folder, is afterwards the same folder with its flag negated |
| FileExplorer.Add | src/components/FileExplorer.tsx:127-141 | `addToParent` over a forest: the forest keeps its length; its effect is pinned by AddAbsent, AddAppendsLast and AddChangesOnlyParent, and AddGrowsByChild counts the ids |
| FileExplorer.AddNode | src/components/FileExplorer.tsx:128-138 | one node: a matching folder gets the new child and is expanded, any other node with children recurses (no contract; see the Add lemmas) |
| FileExplorer.AddAbsent | src/components/FileExplorer.tsx:127-141 | adding under an id that names no folder leaves the tree unchanged |
| FileExplorer.AddAppendsLast | src/components/FileExplorer.tsx:129-134 | the matching folder gets the new node as its last child, after its old children in order (missing children read as none), and is set expanded |
| FileExplorer.AddGrowsByChild | src/components/FileExplorer.tsx:127-141 | with unique ids and a matching folder, the multiset of ids grows by exactly the new subtree's ids |
| FileExplorer.AddChangesOnlyParent | src/components/FileExplorer.tsx:127-141 | with unique ids and a matching folder, the pre-order listing of every node's id, name, kind, content, flag and depth changes only in that folder's block: the folder becomes expanded and the new subtree follows its old descendants, and every other entry stays in place |
| FileExplorer.CreateNewFile | src/components/FileExplorer.tsx:119-145 | `new-file.js` with content `// New file\n` is appended under the parent folder; absent parent means no change; the node count grows by one; with unique ids every node outside the parent's block is listed as before |
| FileExplorer.CreateNewFolder | src/components/FileExplorer.tsx:147-174 | `new-folder`, empty and collapsed, is appended under the parent folder; absent parent means no change; the node count grows by one; with unique ids every node outside the parent's block is listed as before |
| FileExplorer.Remove | src/components/FileExplorer.tsx:177-187 | `removeNode` over a forest: matching nodes are filtered out and survivors recurse (no contract; see RemoveLeavesNoMatch, RemoveAbsent, RemoveKeepsOrder, RemoveDropsSubtree, RemoveCutsSubtree) |
| FileExplorer.RemoveBelow | src/components/FileExplorer.tsx:182-184 | a surviving node with a `children` array has the delete applied to its children (no contract; see the Remove lemmas) |
| FileExplorer.RemoveLeavesNoMatch | src/components/FileExplorer.tsx:177-187 | after delete no node anywhere in the tree has the deleted id |
| FileExplorer.RemoveAbsent | src/components/FileExplorer.tsx:178-186 | deleting an absent id returns the tree unchanged |
| FileExplorer.RemoveKeepsOrder | src/components/FileExplorer.tsx:178-186 | the surviving nodes' entries (id, name, kind, content, flag, depth) are a subsequence of the old listing: survivors are otherwise unchanged and keep their relative order; the same holds for the ids alone |
| FileExplorer.RemoveDropsSubtree | src/components/FileExplorer.tsx:179-185 | with unique ids, exactly the ids of the deleted node's subtree disappear and every other id stays |
| FileExplorer.RemoveCutsSubtree | src/components/FileExplorer.tsx:177-187 | with unique ids, the new listing is the old one with exactly the deleted node's block (the node and its descendants) cut out, every other entry kept in place |
| FileExplorer.Render | src/components/FileExplorer.tsx:193-231 | the rows `renderNode` draws for a forest, in order (no contract; RenderShowsOpenPaths characterises it) |
| FileExplorer.RenderNode | src/components/FileExplorer.tsx:193-231 | a node's own row at 16 × depth, then its children one level deeper when it is an expanded folder with a `children` array (no contract; see RenderShowsOpenPaths) |
| FileExplorer.HiddenListing | src/components/FileExplorer.tsx:228 | below a closed folder or a file nothing is shown, however deep |
| FileExplorer.ListingCoversTree | src/components/FileExplorer.tsx:193-194 | the placement of nodes visits every node of the tree once, in pre-order, each with indent 16 × depth |
| FileExplorer.RenderShowsOpenPaths | src/components/FileExplorer.tsx:228-231 | the rendered rows are exactly the nodes all of whose ancestors are expanded folders, in pre-order, each at indent 16 × depth |
| Strings.Trim | src/components/Terminal.tsx:115 | the result is `s` with only white space cut from its two ends, starting and ending in non-space; it is empty exactly for blank text |
| Strings.Lower | src/components/Terminal.tsx:115 | `toLowerCase` keeps the length and leaves every character already folded, so lowering again changes nothing |
| Strings.Split | src/components/Terminal.tsx:116 | splitting yields at least one piece |
| Strings.SplitPiecesFree | src/components/Terminal.tsx:116 | no piece of a split holds the separator |
| Strings.SplitAround | src/components/Terminal.tsx:116 | a separator splits the text into the pieces of its two sides, in order |
| Strings.Join | src/components/Terminal.tsx:159 | `parts.join(sep)` (no contract; JoinSplit and SplitJoin tie it to Split) |
| Strings.Substring | src/components/Terminal.tsx:198 | `substring(start)`: the first `start` characters followed by the result give the text back, and a start past the end gives the empty string |
| Strings.SubstringAfterPrefix | src/components/Terminal.tsx:198 | taking the substring after a known prefix gives back exactly what followed it |
| Strings.JoinSplit | src/components/Terminal.tsx:157-159 | joining the pieces of a split with the same separator gives the text back |
| Strings.SplitJoin | src/components/Terminal.tsx:157-159 | splitting a join of separator-free pieces gives the pieces back |
| Terminal.Initial | src/components/Terminal.tsx:20-38 | the terminal starts with empty history, index -1 and directory `/workspace` |
| Terminal.Tokens | src/components/Terminal.tsx:115-116 | the command trimmed, lowercased and split on spaces, always at least one token |
| Terminal.BaseIsFirstToken | src/components/Terminal.tsx:115-117 | the dispatch key is the longest space-free prefix of the trimmed, lowercased command |
| Terminal.Execute | src/components/Terminal.tsx:106-267 | `executeCommand`: the reply of the dispatch applied to the state (no contract; see the Execute lemmas below) |
| Terminal.Apply | src/components/Terminal.tsx:107-113 | the prompt echo, the history append for non-blank commands, and the reply's lines, `clear` or error lines (no contract; see ApplyErrorIffUnknown and the Execute lemmas) |
| Terminal.Dispatch | src/components/Terminal.tsx:119-266 | the `switch` on the first token with its fifteen cases, the empty case and the default (no contract; see DispatchKnowsCommands, OnlyCdMoves, EchoPrintsRaw, CdReportsOldDirectory) |
| Terminal.ExecuteEchoesPrompt | src/components/Terminal.tsx:108 | every command appends `cwd$ command` after the old lines, except `clear`, which leaves no lines at all |
| Terminal.ExecuteRecordsHistory | src/components/Terminal.tsx:111-113 | the command is appended verbatim at the end of the history exactly when it is not blank |
| Terminal.BlankCommandPrintsPrompt | src/components/Terminal.tsx:258-260 | a blank command adds the prompt line and changes nothing else |
| Terminal.DispatchKnowsCommands | src/components/Terminal.tsx:119-266 | a first token is unknown exactly when it is non-empty and not one of the fifteen commands |
| Terminal.ErrorIffUnknown | src/components/Terminal.tsx:262-265 | an error line appears exactly for an unknown command, and then the output is the prompt, `Command not found: X` and the help hint |
| Terminal.EchoPrintsRaw | src/components/Terminal.tsx:197-200 | `echo` prints the untrimmed, original-case command from its sixth character on |
| Terminal.OnlyCdMoves | src/components/Terminal.tsx:119-266 | no command other than `cd` changes the working directory |
| Terminal.CdReportsOldDirectory | src/components/Terminal.tsx:154-168 | `cd` with an argument moves and reports the directory it left; without one it stays and prints the usage line |
| Terminal.CdMoves | src/components/Terminal.tsx:154-165 | `cd` with an argument moves by the directory rule and prints the directory it left after the prompt line |
| Terminal.CdUsage | src/components/Terminal.tsx:154-168 | `cd` without an argument keeps the directory and prints the usage line after the prompt line |
| Terminal.ParentDirectory | src/components/Terminal.tsx:156-159 | split on `/`, drop the last piece, join, and `/` when that is empty (no contract; ParentCutsAtLastSlash characterises it) |
| Terminal.ChangeDirectory | src/components/Terminal.tsx:155-164 | the `..`, `/` and append rules of `cd` (no contract; see ChildThenParent and CdThenBack) |
| Terminal.ParentCutsAtLastSlash | src/components/Terminal.tsx:156-159 | `cd ..` cuts the directory at its last `/`, giving `/` when nothing is left |
| Terminal.ParentWithoutSlash | src/components/Terminal.tsx:156-159 | a directory without `/` has parent `/` |
| Terminal.ParentOfRoot | src/components/Terminal.tsx:156-159 | `cd ..` from `/` stays at `/` |
| Terminal.ChildThenParent | src/components/Terminal.tsx:156-163 | the parent of `cwd/name` is `cwd` for a slash-free name other than `..` |
| Terminal.CdInto | src/components/Terminal.tsx:154-164 | `cd name` for a space-free lowercase name moves by the `..`, `/` or append rule |
| Terminal.CdUp | src/components/Terminal.tsx:156-159 | `cd ..` moves to the parent directory |
| Terminal.CdThenBack | src/components/Terminal.tsx:154-165 | any `cd` whose argument is non-empty, holds no `/` and is not `..`, followed by `cd ..`, returns to a non-empty starting directory |
| Terminal.StartingWith | src/components/Terminal.tsx:297 | the candidates are exactly the listed commands the input is a prefix of |
| Terminal.CompleteFrom | src/components/Terminal.tsx:297-300 | the filter of names starting with the input, then `match + " "` for a single match (no contract; CompleteFromIffUnique characterises it) |
| Terminal.Complete | src/components/Terminal.tsx:294-300 | the same against the fifteen listed commands (no contract; see CompleteIffUnique) |
| Terminal.CompleteFromIffUnique | src/components/Terminal.tsx:297-300 | over distinct names, completion gives `match + " "` when exactly one name starts with the input, otherwise the input unchanged |
| Terminal.CompleteIffUnique | src/components/Terminal.tsx:296-300 | the same for the fifteen commands the terminal lists |
| Terminal.KeyDown | src/components/Terminal.tsx:269-302 | no key takes the history index below -1 or past the last history entry |
| Terminal.EnterRunsInput | src/components/Terminal.tsx:270-273 | Enter runs the input, then clears it and resets the index to -1 |
| Terminal.ArrowsBrowseHistory | src/components/Terminal.tsx:274-292 | arrows only move through history: lines, history and directory stay, and a new index shows its entry (or an empty input at -1) |
| Terminal.ArrowsIdle | src/components/Terminal.tsx:276-283 | ArrowUp with empty history and ArrowDown at index -1 do nothing |
| Terminal.ArrowUpWalksBack | src/components/Terminal.tsx:274-280 | n presses of ArrowUp start from the last entry (or the current one) and step back, stopping at 0 |
| Terminal.ArrowDownWalksForward | src/components/Terminal.tsx:281-292 | n presses of ArrowDown step forward and, past the last entry, reset to -1 with an empty input |
| Terminal.UpThenDown | src/components/Terminal.tsx:274-292 | ArrowDown undoes ArrowUp's move of the index unless ArrowUp was stuck at 0 |
| Terminal.Run | src/components/Terminal.tsx:269-302 | over any session of key presses and typing, the index stays in range and history only grows at its end |
| Languages.TablesAgree | src/components/CodeEditor.tsx:121-141 | the editor's table and the IDE's table are the same map |
| Languages.Extension | src/components/CodeEditor.tsx:119 | `split('.').pop().toLowerCase()`: the extension holds no dot and is no longer than the name |
| Languages.ExtensionAfterLastDot | src/components/CodeEditor.tsx:119 | the extension is the lowercased text after the last dot |
| Languages.ExtensionWithoutDot | src/components/CodeEditor.tsx:119 | a name without a dot is its own extension, lowercased |
| Languages.LanguageFor | src/components/CodeEditor.tsx:147 | an extension that is a key of the table gets its own entry, and any other extension gets `plaintext` |
| Languages.KnownExtension | src/components/CodeEditor.tsx:119-147 | a name ending in a listed extension, in any ASCII case, gets that extension's language |
| Languages.LanguageAsWritten | src/components/CodeEditor.tsx:147 | the lookup as written: a table value or `plaintext` unless the extension names an inherited object member |
| Languages.ConstructorLeaks | src/components/CodeEditor.tsx:147 | `<stem>.constructor` gets the inherited constructor as its language where the intent is `plaintext` |
| Languages.LeakIffPrototypeExtension | src/components/IDE.tsx:79 | the lookup as written, on either table, leaks exactly for the extensions `constructor` and `__proto__` |
| Languages.AsWrittenAgrees | src/components/IDE.tsx:79 | away from inherited member names the lookup as written and the corrected lookup agree |
| CodeEditor.Initial | src/components/CodeEditor.tsx:31-42 | the editor starts with one unmodified active tab on the dark theme |
| CodeEditor.InitialValid | src/components/CodeEditor.tsx:31-41 | the starting state has distinct ids and an active tab |
| CodeEditor.ToggleTheme | src/components/CodeEditor.tsx:239 | the theme button always changes the theme |
| CodeEditor.ToggleThemeTwice | src/components/CodeEditor.tsx:239 | pressing it twice restores the theme |
| CodeEditor.IndexOf | src/components/CodeEditor.tsx:51 | the lookup finds the first tab carrying the key, and no earlier tab carries it |
| CodeEditor.ActiveTab | src/components/CodeEditor.tsx:51 | the active tab is present exactly when some tab has the active id, and then it is an open tab with that id |
| CodeEditor.Edit | src/components/CodeEditor.tsx:57-65 | typing sets the content and the modified mark on the tabs with the active id only; an empty or missing value or no active id changes nothing |
| CodeEditor.EditReadsBack | src/components/CodeEditor.tsx:60-64 | after typing, the active tab shows exactly the typed text and is marked modified |
| CodeEditor.EditValid | src/components/CodeEditor.tsx:57-65 | typing keeps the ids distinct and the active tab present |
| CodeEditor.Save | src/components/CodeEditor.tsx:90-106 | save does nothing without an active tab; otherwise it only clears the modified mark of the active tab, keeping every content |
| CodeEditor.SaveTwice | src/components/CodeEditor.tsx:101-105 | saving twice is saving once |
| CodeEditor.SaveKeepsEdit | src/components/CodeEditor.tsx:57-105 | typing then saving leaves the typed text in the active tab, unmodified |
| CodeEditor.SaveValid | src/components/CodeEditor.tsx:101-105 | save keeps the invariant |
| CodeEditor.Open | src/components/CodeEditor.tsx:76-77 | a tab is appended at the end and made active, and with a fresh id it is the tab shown |
| CodeEditor.NewTab | src/components/CodeEditor.tsx:67-78 | new file appends one unmodified, empty `untitled.js` javascript tab and activates it |
| CodeEditor.NewTabValid | src/components/CodeEditor.tsx:67-78 | with a fresh id, new file keeps the invariant |
| CodeEditor.Upload | src/components/CodeEditor.tsx:112-155 | no file changes nothing; otherwise one unmodified tab with the file's name, text and language is appended and activated |
| CodeEditor.UploadValid | src/components/CodeEditor.tsx:143-152 | with a fresh id, upload keeps the invariant |
| CodeEditor.Without | src/components/CodeEditor.tsx:82 | no remaining tab has the closed id, and the list does not grow |
| CodeEditor.WithoutMembers | src/components/CodeEditor.tsx:82 | a tab remains exactly when it was open and has another id |
| CodeEditor.WithoutKeepsOrder | src/components/CodeEditor.tsx:82 | the remaining tabs keep their order |
| CodeEditor.WithoutAbsent | src/components/CodeEditor.tsx:82 | closing an id no tab has changes nothing |
| CodeEditor.Close | src/components/CodeEditor.tsx:80-88 | closing the active tab with tabs remaining activates the first one; otherwise the active id is kept |
| CodeEditor.NewThenClose | src/components/CodeEditor.tsx:67-88 | closing a just-created tab gives back the tabs from before |
| CodeEditor.CloseValid | src/components/CodeEditor.tsx:80-88 | closing any tab keeps the invariant |
| CodeEditor.Activate | src/components/CodeEditor.tsx:280 | clicking an open tab makes it the tab shown |
| CodeEditor.ActivateValid | src/components/CodeEditor.tsx:280 | clicking an open tab keeps the invariant |
| Ide.Initial | src/components/IDE.tsx:28-41 | the shell starts with one unmodified active tab on the dark theme |
| Ide.InitialNamesDistinct | src/components/IDE.tsx:32-40 | the starting tabs have distinct names |
| Ide.SwitchTheme | src/components/IDE.tsx:89-91 | the theme button changes the theme and nothing else |
| Ide.SwitchThemeTwice | src/components/IDE.tsx:89-91 | pressing it twice restores the state |
| Ide.SelectFile | src/components/IDE.tsx:43-87 | a folder or a file without content changes nothing; an open name activates its first tab; otherwise one unmodified tab with the node's name, content and language is appended and activated |
| Ide.SelectTwice | src/components/IDE.tsx:46-84 | selecting the same node again changes nothing |
| Ide.SelectActivatesFile | src/components/IDE.tsx:46-84 | with distinct ids and a fresh id, the selected file is afterwards the active tab of the shell's own list |
| Ide.SelectKeepsNamesDistinct | src/components/IDE.tsx:46-84 | a selection never opens a second tab with an open name |
| Ide.SelectAllKeepsNamesDistinct | src/components/IDE.tsx:46-84 | any number of selections keep the open names distinct |
| Ide.SelectValid | src/components/IDE.tsx:75-84 | with a fresh id, selection keeps the ids distinct and the active tab present |
| Ide.SelectMatchesUpload | src/components/IDE.tsx:52-81 | a new tab from the explorer is the tab an upload of the same file would open |
| Ide.Click | src/components/FileExplorer.tsx:102-108 | a folder click toggles the folder and leaves the tabs; a file click selects it and leaves the tree |

## Left out

- `src/app/page.tsx`, the Convex client provider and `SearchPanel.tsx` are not part of this model. They are thin wrappers over outside services, or mock search results.
- `runCode` evaluates user text as JavaScript, so it is not modelled.
- The I/O around saving, uploading and copying is not modelled: the Blob download, `FileReader` and the clipboard. Only the resulting state change is.
- Terminal resizing is not modelled, because it is DOM mouse handling with a floating-point bound.
- The delayed second line of `npm install`, which is printed by a timer, is not modelled.
- Terminal.Dispatch: the text `date` prints is the parameter `now`, because it comes from the clock.
- Ids made from `Date.now()` are parameters. Lemmas that need them fresh say so in their preconditions.
- The `id` and `timestamp` of each terminal line are dropped: only the rendering reads `id`, as the list key (src/components/Terminal.tsx:359), and rendering is not modelled.
- Strings.Lower: folds ASCII capitals and the Kelvin sign only, not the rest of Unicode `toLowerCase`.
- FileExplorer.Remove: models the result of `removeNode`, not its in-place update of `node.children`.
- FileExplorer.ToggleFlipsOnlyMatch, FileExplorer.AddGrowsByChild, FileExplorer.AddChangesOnlyParent, FileExplorer.RemoveDropsSubtree and FileExplorer.RemoveCutsSubtree assume unique ids, which the tree does not enforce. The operations themselves are defined for any tree.
- Terminal.CdThenBack: says nothing about an argument that holds `/` or is `..`, or about an empty working directory. These need not come back by `cd ..`: `cd a/b` then `cd ..` ends in `cwd/a`.
- Context-menu placement is not modelled. It is screen coordinates only.
- Editor settings (font size and word wrap) and fullscreen are not modelled. They do not touch the modelled state.
- The panel visibility toggles are not modelled. Hiding the explorer unmounts it (src/components/IDE.tsx:178-183), and showing it again restarts its tree from the mock tree (src/components/FileExplorer.tsx:30-79), dropping every toggle, add and delete. The model's explorer tree is that of one mounted explorer.
- The shell's tab list is never rendered: src/components/IDE.tsx:197 renders the code editor without props, and the editor keeps its own tabs. So selecting a file in the explorer changes no visible tab. The model keeps the shell's list and proves what happens to it.
- CodeEditor.Upload, Ide.SelectFile: build the tab's language with the corrected lookup Languages.LanguageFor. For an extension `constructor` or `__proto__` the source stores the inherited object member instead (see Findings; for Ide.SelectFile this is latent, since no explorer node has such an extension); Languages.LanguageAsWritten models that lookup as written.
- Styling and theme classes are not modelled.

## Findings

| source | as written | input that shows it | evidently intended | confidence | as-written member | corrected member |
|---|---|---|---|---|---|---|
| src/components/CodeEditor.tsx:147 | the language is read from a plain object and replaced by `plaintext` only when the read is falsy, so an extension naming an inherited `Object.prototype` member finds that member | uploading `app.constructor` gives the tab the `Object` function as its language | only the table's own keys count; anything else is `plaintext` | not executed | Languages.ConstructorLeaks | Languages.LanguageFor |
| src/components/IDE.tsx:79 | the same lookup on the IDE's own table; `__proto__` also leaks, and nothing else can, because the extension is lowercased | a file node named `x.__proto__` would get `Object.prototype` as its language, but no node the explorer can hold has such a name (the mock tree's files and `new-file.js` all have listed extensions), so no selection reaches it: the leak is latent | only the table's own keys count; anything else is `plaintext` | not executed | Languages.LeakIffPrototypeExtension | Languages.LanguageFor |
