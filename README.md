# Tabiko workspaces, modelled in Dafny

Tabiko is a browser extension that keeps links in named *workspaces*.
Its side panel holds the whole collection in memory as `allData`, an
object from workspace name to `{ tabs: [ entry ] }`. Each entry is
`{ id, type, url, title, notes[] }`. The panel edits that object in place
and writes it back to extension storage with `saveData`.

A background worker adds one more way in: a context-menu command,
"save link to workspace", which reads storage, appends an entry and
writes storage back.

This project models the engine behind both:
- the store mutations: create with a unique name, rename in place,
  delete a workspace, delete a note, add a note, delete a link, append
  a dropped link, save the current window, and backfill ids at load;
- the drag reorder;
- the search filter;
- the Markdown backup: the exported text, the backup's file name and
  the line scanner of import;
- the background click handler.

Modules:

- `Workspaces`: the data model.
  - `Mapping` is a sequence of `Workspace(name, tabs)` with distinct
    names, in key order; it stands for the JavaScript object.
  - `Entry` is one link; an absent field is `""`.
  - `Storage` is a class for the stored record.
  - `FreshId` stands for the id generator: it returns an id that is
    non-empty and not among the ids given.
- `Strings`: the string operations the code relies on: `trim`, `\s`,
  `toLowerCase`, `includes`, `indexOf`, `split`, `join`, `replace`,
  and the number-to-string conversion in the counter suffix.
- `Store`: each handler's effect on the mapping, as a function
  (`RenameResult`, `MoveResult`, …), with lemmas stating what it
  promises. Also the loops the handlers run: `UniqueName`, `FillIds`,
  `MintLinks`.
- `Search`: the match predicate, the result list, and the loop that
  builds it.
- `Markdown`: the export text, built by loops as `markdown +=` does.
  Also the three line patterns of import, written out by hand.
- `Import`: the line-by-line scanner as a state machine over
  `currentWs`/`currentLink`. It carries:
  - the invariant that import never removes or edits what was there;
  - the export-then-import round trip.
- `Panel`: the class `SidePanel`. Its `data` field is `allData`, and it
  has one method per handler. A method that edits the mapping is specified
  by the matching `Store`/`Import` function. `Save`, `Refresh`,
  `AddWorkspace` and `SaveWindow` state their new `data` and storage
  directly instead.
- `Background`: the click handler and the menu-id round trip.

## Model

| member | source | states |
|---|---|---|
| Store.UniqueName | sidepanel.js:257-262 | the counter loop ends with a name that is not a key; it is the base itself if that is free, else `base + " " + k` for the least k ≥ 1 that is free, and k ≤ number of keys (the loop stops within \|keys\|+1 tries) |
| Store.LeastFreeUnique | sidepanel.js:257-262 | the least free suffix is unique, so the chosen name is determined by the keys |
| Store.CreateTwice | sidepanel.js:254-264 | creating the same name twice yields the name itself, then `name + " 1"` |
| Store.RequestedName | sidepanel.js:254-255 | the requested name is the trimmed input, or "general" when that is empty; it is never empty and is trimmed |
| Panel.SidePanel.AddWorkspace | sidepanel.js:254-265 | the mapping gains exactly one workspace with empty `tabs`, after all existing ones, under the least free candidate name; storage is written |
| Store.RenameInPlace | sidepanel.js:278-286 | an accepted rename keeps the key order, puts `newName` where `oldName` was with the same list, and leaves every other workspace as it was |
| Store.RenameNoOp | sidepanel.js:273-277 | an empty new name, the same name, an existing name, or an absent old name leaves the mapping unchanged |
| Store.RenameBack | sidepanel.js:272-286 | renaming back undoes an accepted rename |
| Panel.SidePanel.RenameWorkspace | sidepanel.js:272-287 | the rebuild loop yields `RenameResult`; storage is written exactly when the rename passes the guards |
| Store.DeleteCascades | sidepanel.js:294 | after the delete the name is no key; every other key stays, with the same list, and the keys keep their order; deleting an absent name changes nothing; exactly the deleted workspace's entries leave the collection (as multisets) |
| Store.RemoveTabsOf | sidepanel.js:294 | removing one workspace leaves the list of every other key unchanged |
| Panel.SidePanel.DeleteWorkspace | sidepanel.js:292-299 | with confirmation the workspace is deleted and storage written; without it nothing changes |
| Store.DeleteNoteOnlyTarget | sidepanel.js:301-303 | exactly the note at `noteIndex` goes; the other notes keep their order; every other entry and workspace is unchanged |
| Panel.SidePanel.DeleteNote | sidepanel.js:301-306 | the mapping becomes `DeleteNoteResult`, and storage is written |
| Store.MoveAcross | sidepanel.js:316-317 | moving between two workspaces removes the item at `oldIndex` from the source, inserts it at `newIndex` in the target, and leaves all other workspaces and the key order alone |
| Store.MoveWithin | sidepanel.js:316-317 | a move within one list reads `newIndex` against the list after removal; the item ends at `newIndex` and the length is kept |
| Store.MoveConserves | sidepanel.js:316-317 | a move keeps the multiset of all entries |
| Store.MoveNoOp | sidepanel.js:314 | a missing workspace attribute or source workspace is a no-op without saving |
| Store.MoveToMissing | sidepanel.js:316-317 | a target that is no key still loses the item from the source, but nothing is saved (the insert throws) |
| Panel.SidePanel.MoveEntry | sidepanel.js:311-319 | the mapping and whether storage is written are those of `MoveResult` |
| Store.DropAppends | sidepanel.js:336-347 | a drop with a URL appends one entry at the end of the list: type 'tab', a fresh id, no notes, the dropped URL, the plain text or "New Link" as title; nothing else changes |
| Store.DropWithoutUrl | sidepanel.js:339 | a drop without a URL changes nothing |
| Panel.SidePanel.DropLink | sidepanel.js:331-350 | an internal drag changes nothing; otherwise the mapping is `DropResult`; storage is written exactly when a URL was dropped on an existing workspace |
| Store.AddNoteAppends | sidepanel.js:516-521 | a non-empty note is appended to the end of that entry's notes, even as a duplicate (its count grows by one); the workspace keeps its name, the entry keeps its id, type, URL and title, and every other workspace and entry is unchanged |
| Store.AddNoteNoOp | sidepanel.js:518 | empty text, or an entry that is not there, changes nothing |
| Panel.SidePanel.MenuAddNote | sidepanel.js:516-521 | the mapping becomes `AddNoteResult`; storage is written afterwards in every case |
| Store.DeleteLinkOnlyTarget | sidepanel.js:513-515 | only the matched entry leaves its list; the other entries keep their order; exactly that entry leaves the collection |
| Store.DeleteLinkNoOp | sidepanel.js:514-515 | deleting an entry that is not in the list changes nothing |
| Store.FindEntryIds | sidepanel.js:514 | the lookup of the clicked entry succeeds exactly when its id is in the list |
| Panel.SidePanel.MenuDeleteLink | sidepanel.js:512-515 | the mapping becomes `DeleteLinkResult`; storage is written unless the workspace is gone (the lookup throws) |
| Panel.SidePanel.MenuRename | sidepanel.js:545-547 | a non-empty answer renames to its trimmed form; storage is written in every case |
| Panel.SidePanel.MenuDeleteWorkspace | sidepanel.js:541-542 | a confirmed delete removes the workspace; storage is written in every case |
| Store.FillIds | sidepanel.js:53-58 | every entry of one list ends with a non-empty id; an existing id is kept; a new one is not among the ids in use; nothing but the id changes; the flag is set exactly when some id was missing |
| Store.BackfillIdentity | sidepanel.js:50-61 | the backfill changes the mapping exactly when some id was missing |
| Panel.SidePanel.Save | sidepanel.js:79-82 | the stored record becomes the in-memory mapping |
| Panel.SidePanel.Refresh | sidepanel.js:69-75 | on a reload request, the in-memory mapping becomes the stored one |
| Panel.SidePanel.Initialize | sidepanel.js:46-61 | after loading, every entry has a non-empty id and existing ids are kept; `needSave` holds exactly when an id was assigned; storage is written only then |
| Store.WindowLinksIff | sidepanel.js:580-590 | a link is saved for the window exactly when some tab passes the filter and gives that link |
| Store.WindowLinksWellFormed | sidepanel.js:581-590 | every saved link has a URL that is not a new-tab page, a non-empty title, type 'tab' and no notes |
| Store.MintLinks | sidepanel.js:580-590 | the mapped and filtered list, ids aside, is `WindowLinks`; its ids are non-empty, pairwise distinct and not in use |
| Panel.SidePanel.SaveWindow | sidepanel.js:570-597 | it saves exactly when a name was given and some tab passes the filter; then exactly one workspace is added at the end, named by the unique-name scheme from the trimmed name without the "general" default, holding the filtered links with fresh ids; otherwise nothing changes |
| Search.WorkspaceHits | sidepanel.js:159-174 | the inner loop yields exactly `HitsIn` for one workspace's items |
| Search.SearchResults | sidepanel.js:145-185 | the rendering loop yields `SearchView`: the full listing for an empty query, "no results", or the hits |
| Search.HitsIff | sidepanel.js:158-165 | a row is listed exactly when its item is in that workspace's list, has type 'tab', and the query occurs in the lower-cased `title url notes` |
| Search.HitsInIff | sidepanel.js:160-165 | the same, for one workspace's list |
| Search.HitsAppend | sidepanel.js:158 | rows come in workspace order: the hits of `a + b` are those of `a`, then those of `b` |
| Search.TitleMatch | sidepanel.js:163-165 | a tab whose lower-cased title contains the query is found |
| Search.UrlMatch | sidepanel.js:163-165 | a tab whose lower-cased URL contains the query is found |
| Search.NoteMatch | sidepanel.js:162-165 | a tab one of whose lower-cased notes contains the query is found |
| Search.OnlyTabs | sidepanel.js:161 | only entries of type 'tab' are listed |
| Search.QueryCaseInsensitive | sidepanel.js:146 | a query and its lower-case form give the same view |
| Markdown.CleanTitle | sidepanel.js:370 | an empty title becomes `Link`; the result holds no square bracket; a title without brackets is kept as it is |
| Strings.StripBracketsConcat | sidepanel.js:370 | bracket removal distributes over concatenation, so it acts on each character alone |
| Strings.StripBracketsChar | sidepanel.js:370 | a single `[` or `]` is dropped and any other character is kept |
| Markdown.EntryMarkdown | sidepanel.js:369-375 | the text written for one entry is its link line and note lines, each ended by a line feed, and nothing for a non-tab entry |
| Markdown.BlockMarkdown | sidepanel.js:366-377 | the text of one workspace is its heading, its entries and a blank line |
| Markdown.ExportMarkdown | sidepanel.js:357-378 | the whole backup is two blank lines followed by the blocks of the exported keys in order; a requested name that is no key is skipped |
| Markdown.BackupFileNameNoSpace | sidepanel.js:380-382 | the backup's file name never holds white space |
| Markdown.HeadingName | sidepanel.js:404-406 | a line read as a heading starts with `#` and has at least three characters; its name is trimmed |
| Markdown.HeadingAt | sidepanel.js:404-406 | a line of `#`, white space, and a non-empty rest without line terminators is read as a heading named by its trimmed tail |
| Markdown.LinkCaptures | sidepanel.js:411 | the lazy captures: the title holds no `](`; the URL holds no `)`; the segment starts with title, `](`, URL, `)` |
| Markdown.LinkMatch | sidepanel.js:411 | a link's captures hold no line terminator, the title no `](` and the URL no `)` |
| Markdown.NoteText | sidepanel.js:423-425 | a recognised note is trimmed |
| Markdown.ReadHeading | sidepanel.js:404-406 | a written heading reads back as its name and is no link and no note |
| Markdown.ReadLink | sidepanel.js:411 | a written link line is no heading and reads back as the cleaned title and the URL |
| Markdown.ReadNote | sidepanel.js:423-425 | a written note line is neither heading nor link and reads back as the note |
| Markdown.BlankLine | sidepanel.js:403-428 | a blank line matches none of the three patterns |
| Import.StepKeepsInv | sidepanel.js:403-428 | one line of the scanner keeps the import invariant |
| Import.ScanKeepsInv | sidepanel.js:403-428 | the whole scan keeps it |
| Import.ImportPreserves | sidepanel.js:398-428 | import never removes, renames, reorders or shortens a workspace or an entry that was there; it only appends workspaces, entries and notes |
| Import.NoteDeduplicated | sidepanel.js:426 | a note already on the current link adds nothing |
| Import.NotesIdempotent | sidepanel.js:423-427 | a run of notes all already on the current link leaves the scan state as it was |
| Import.ExportImportRoundTrip | sidepanel.js:356-428 | importing a full backup into a mapping that has none of its names appends the exported workspaces in order, each with its 'tab' entries: cleaned titles, URLs and notes in order; the ids are compared blanked out, so their freshness is not part of this statement |
| Import.ExportImportIdentity | sidepanel.js:356-428 | into an empty mapping, under the same conditions and with bracket-free non-empty titles, import gives back the mapping, ids aside |
| Panel.SidePanel.ReadLine | sidepanel.js:404-427 | one turn of the loop changes `allData`, `currentWs` and `currentLink` as the scanner's step says: a heading first, then a link under a workspace, then a note under a link |
| Panel.SidePanel.ImportText | sidepanel.js:398-429 | the loop over the split lines leaves `allData` as `ImportResult`, and storage is written |
| Strings.SplitJoin | sidepanel.js:399 | splitting the joined parts gives the parts back, when no part holds the separator |
| Strings.JoinSplit | sidepanel.js:399 | joining the split parts gives the text back |
| Background.MenuIdRoundTrip | background.js:30-52 | the id of the item for any name leads back to exactly that name |
| Background.MenuIdOnly | background.js:50-52 | every id the handler accepts is the item id of the name it finds |
| Background.ClickIgnored | background.js:50-56 | an id without the prefix, or a workspace that is gone, leaves storage unchanged |
| Background.ClickAppends | background.js:56-81 | a click on an existing workspace appends one entry at the end of its list: type 'tab', a fresh id, no notes, the link's URL else the page's, the selection else the link URL else the tab's title; everything else is unchanged |
| Background.OnMenuClicked | background.js:49-83 | the handler writes storage exactly when `ClickResult` is defined, and then writes that mapping |

## Left out

- The DOM and the UI are left out: rendering, Sortable wiring, list items, the menu's HTML, `showMenu`, `updateUIState` and the scrolling.
  - `prompt`, `confirm` and `alert` become parameters: the answer string and the `confirmed` flag.
- Storage is the `Storage` object. The `UPDATE_CONTEXT_MENUS` and `REFRESH_DATA` messages are left out.
  - `Refresh` stands for the reload on `REFRESH_DATA`.
  - The race between panel and worker (last write wins) is a concurrency matter and is not modelled.
- `generateId` and the worker's id (clock plus random) are replaced by `FreshId`, a deterministic supplier. The model promises only that its ids are non-empty and not in use.
- Files and browser APIs are left out: the download and the `FileReader`, the clipboard (`copy_link`), `open_window`, `chrome.tabs.query` (its result is the `tabs` parameter) and the favicon URL.
  - `export_ws` is covered only by `ExportMarkdown`'s scope argument and `BackupFileName`.
  - Context-menu registration in `updateContextMenus` is not modelled; only the ids it builds are.
- Search.SearchResults: `toLowerCase` maps only `A`-`Z`; other Unicode case mappings are not modelled.
- In search and in import, `\s` and `trim` use the full ECMAScript white-space and line-terminator set.
- A template literal renders a missing field as the text `undefined`: a missing `title` or `url` in the search text (sidepanel.js:163), and a missing `url` in the exported link (sidepanel.js:371). The model has no absent field: every missing string is the empty string, so that text is not produced.
- The JavaScript key order for integer-like names, where such keys come first, is not modelled: the mapping keeps plain insertion order.
  - Inherited prototype keys such as `constructor`, which make `allData[name]` truthy for an absent name, are not modelled.
- Panel.SidePanel.MoveEntry: drag indices are taken as indices into the whole `tabs` list. The rendered list shows only `type === 'tab'` items, so the indices differ when other types are present.
  - An out-of-range `oldIndex` is excluded by a precondition, because `splice` would insert `undefined`.
- Panel.SidePanel.AddWorkspace: the first click, which only reveals the input field, is left out.
- Panel.SidePanel.MenuRename and Panel.SidePanel.MenuDeleteWorkspace: the rename and the delete are called without `await`. Their in-memory change happens before the handler's own save, and the model runs them to completion first.
- Panel.SidePanel.MenuDeleteLink and Panel.SidePanel.MenuAddNote: the clicked entry is found by its id in the named workspace. The code's object identity can point at a stale entry after a reload, and that case is not modelled.
  - A stale `add_note` target changes no stored entry, and the model leaves the mapping unchanged.
- A file with CRLF line ends keeps a `\r` at the end of every line after the split, as in the code. Then headings and notes do not match (`.` stops at `\r`, and `$` is the end of the line), but links still do. The model reproduces this and states no round trip for such text.
- Import.ExportImportRoundTrip and Import.ExportImportIdentity: the round trip is stated with ids blanked, because each imported id is drawn from `FreshId` at the step that reads the link; that those ids are new is stated per step by `FreshId`'s own contract, not by these lemmas.
- Store.MintLinks: the `map` and the `filter` run as one pass. Every tab draws an id, as in the code, but the filtered-out ids are never seen.
- Entries whose `tabs` is absent, and non-string fields, are not modelled. A missing `notes` array is the empty sequence.
- The JS `replace(/\s+/g, '_')` in the file name is a run-by-run replacement, `ReplaceSpaceRuns`; nothing else about the file name is stated.
