/** The side panel's state and its handlers (sidepanel.js): the in-memory
    mapping `allData`, the stored copy that `saveData` overwrites, and one
    method per handler, each specified by the function in `Store`, `Import`
    or `Markdown` that says what it does to the mapping. */
module Panel {
  import opened Wrappers
  import opened Strings
  import opened Workspaces
  import opened Store
  import opened Markdown
  import opened Import

  class SidePanel {
    /** `allData`. */
    var data: Mapping
    /** `chrome.storage.local`, shared with the background worker. */
    const storage: Storage

    constructor (storage: Storage)
      ensures this.storage == storage && data == []
    {
      this.storage := storage;
      data := [];
    }

    /** `saveData` (sidepanel.js:79-82): the stored record becomes `allData`. */
    method Save()
      modifies storage
      ensures storage.workspaces == data
    {
      storage.workspaces := data;
    }

    /** `initialize` (sidepanel.js:46-61): load the stored mapping, give
        every entry without an id a fresh one, and save only if an id was
        assigned. */
    method Initialize() returns (needSave: bool)
      modifies this, storage
      ensures BackfilledFrom(old(storage.workspaces), data)
      ensures needSave <==> HasMissingId(old(storage.workspaces))
      ensures needSave ==> storage.workspaces == data
      ensures !needSave ==> data == old(storage.workspaces) && storage.workspaces == old(storage.workspaces)
    {
      data := storage.workspaces;
      ghost var d := data;
      needSave := false;
      var i := 0;
      while i < |data|
        invariant 0 <= i <= |data| && |data| == |d|
        invariant storage.workspaces == d
        invariant BackfilledUpTo(d, data, i)
        invariant needSave <==> MissingBelow(d, i)
      {
        var filled, filledAny := FillIds(data[i].tabs, AllIds(data));
        BackfillStep(d, data, i, filled);
        MissingStep(d, i);
        data := WithTabs(data, i, filled);
        needSave := needSave || filledAny;
        i := i + 1;
      }
      BackfillDone(d, data);
      if needSave {
        Save();
      } else {
        BackfillIdentity(d, data);
      }
    }

    /** The `REFRESH_DATA` listener (sidepanel.js:69-76): reload after the
        background worker has written. */
    method Refresh()
      modifies this
      ensures data == storage.workspaces
    {
      data := storage.workspaces;
    }

    /** `handleAddWorkspace` once the name field is shown (sidepanel.js:254-265). */
    method AddWorkspace(input: string)
      modifies this, storage
      ensures exists k: nat :: (k <= |old(data)| && LeastFree(old(data), RequestedName(input), k)
        && data == old(data) + [Workspace(Candidate(RequestedName(input), k), [])])
      ensures storage.workspaces == data
    {
      var name := Trim(input);
      if name == "" {
        name := "general";
      }
      assert name == RequestedName(input);
      var finalName := UniqueName(data, name);
      AppendKeepsMapping(data, Workspace(finalName, []));
      data := data + [Workspace(finalName, [])];
      Save();
    }

    /** `renameWorkspace` (sidepanel.js:272-287): saves only when the rename
        is accepted. */
    method RenameWorkspace(oldName: string, newName: string)
      modifies this, storage
      ensures data == RenameResult(old(data), oldName, newName)
      ensures storage.workspaces == if RenameAccepted(old(data), oldName, newName) then data else old(storage.workspaces)
    {
      if newName == "" || newName == oldName {
        return;
      }
      if newName in Names(data) {
        return;
      }
      var newData: seq<Workspace> := [];
      var i := 0;
      while i < |data|
        invariant 0 <= i <= |data|
        invariant newData == Renamed(data, oldName, newName)[..i]
      {
        if data[i].name == oldName {
          newData := newData + [Workspace(newName, data[i].tabs)];
        } else {
          newData := newData + [data[i]];
        }
        i := i + 1;
      }
      RenamedDistinct(data, oldName, newName);
      data := newData;
      Save();
    }

    /** `handleDeleteWorkspace` (sidepanel.js:292-299); `confirmed` is the
        answer to the confirmation dialog. */
    method DeleteWorkspace(name: string, confirmed: bool)
      modifies this, storage
      ensures data == if confirmed then DeleteResult(old(data), name) else old(data)
      ensures storage.workspaces == if confirmed then data else old(storage.workspaces)
    {
      if confirmed {
        var at := Find(data, name);
        if at.Some? {
          var i := at.value;
          RemoveKeepsMapping(data, i);
          data := data[..i] + data[i + 1..];
        }
        Save();
      }
    }

    /** `deleteNote` (sidepanel.js:301-306) on the entry rendered at `pos`
        of workspace `name`. */
    method DeleteNote(name: string, pos: nat, noteIndex: nat)
      modifies this, storage
      ensures data == DeleteNoteResult(old(data), name, pos, noteIndex)
      ensures storage.workspaces == data
    {
      var at := Find(data, name);
      if at.Some? && pos < |data[at.value].tabs| {
        var i := at.value;
        var item := data[i].tabs[pos];
        data := WithTabs(data, i, data[i].tabs[pos := item.(notes := SpliceOut(item.notes, noteIndex))]);
      }
      Save();
    }

    /** `handleInternalSort` (sidepanel.js:311-319). It saves only when both
        lists exist; a missing destination leaves the removal unsaved. */
    method MoveEntry(fromWs: string, oldIndex: nat, toWs: string, newIndex: nat) returns (saved: bool)
      requires fromWs in Names(data) ==> oldIndex < |TabsOf(data, fromWs)|
      modifies this, storage
      ensures data == MoveResult(old(data), fromWs, oldIndex, toWs, newIndex).data
      ensures saved == MoveResult(old(data), fromWs, oldIndex, toWs, newIndex).saved
      ensures storage.workspaces == if saved then data else old(storage.workspaces)
    {
      saved := false;
      if fromWs == "" || toWs == "" {
        return;
      }
      var from := Find(data, fromWs);
      if from.None? {
        return;
      }
      var i := from.value;
      var movedItem := data[i].tabs[oldIndex];
      data := WithTabs(data, i, RemoveAt(data[i].tabs, oldIndex));
      var to := Find(data, toWs);
      if to.None? {
        return;
      }
      var k := to.value;
      var at := if newIndex <= |data[k].tabs| then newIndex else |data[k].tabs|;
      data := WithTabs(data, k, InsertAt(data[k].tabs, at, movedItem));
      Save();
      saved := true;
    }

    /** The drop listener (sidepanel.js:331-350) on the list of workspace
        `name`; `internalDrag` is `isInternalDrag`. */
    method DropLink(name: string, uriList: string, plainText: string, internalDrag: bool)
      modifies this, storage
      ensures data == if internalDrag then old(data) else DropResult(old(data), name, uriList, plainText)
      ensures storage.workspaces ==
        if !internalDrag && uriList != "" && name in Names(old(data)) then data else old(storage.workspaces)
    {
      if internalDrag {
        return;
      }
      var url := uriList;
      var title := if plainText != "" then plainText else "New Link";
      if url != "" {
        var newItem := Entry(FreshId(AllIds(data)), "tab", url, title, []);
        var at := Find(data, name);
        if at.None? {
          return;
        }
        var i := at.value;
        data := WithTabs(data, i, data[i].tabs + [newItem]);
        Save();
      }
    }

    /** The context menu's `delete_link` (sidepanel.js:512-515, 551) on the
        entry with `id` in workspace `name`. A missing workspace stops the
        handler before its `saveData`. */
    method MenuDeleteLink(name: string, id: string)
      modifies this, storage
      ensures data == DeleteLinkResult(old(data), name, id)
      ensures storage.workspaces == if name in Names(old(data)) then data else old(storage.workspaces)
    {
      var at := Find(data, name);
      if at.None? {
        return;
      }
      var i := at.value;
      var idx := FindEntry(data[i].tabs, id);
      if idx.Some? {
        data := WithTabs(data, i, RemoveAt(data[i].tabs, idx.value));
      }
      Save();
    }

    /** The context menu's `add_note` (sidepanel.js:516-521, 551); `text` is
        the prompt's answer ("" when cancelled). */
    method MenuAddNote(name: string, id: string, text: string)
      modifies this, storage
      ensures data == AddNoteResult(old(data), name, id, text)
      ensures storage.workspaces == data
    {
      if text != "" {
        var at := Find(data, name);
        if at.Some? {
          var i := at.value;
          var idx := FindEntry(data[i].tabs, id);
          if idx.Some? {
            var item := data[i].tabs[idx.value];
            data := WithTabs(data, i, data[i].tabs[idx.value := item.(notes := item.notes + [text])]);
          }
        }
      }
      Save();
    }

    /** The context menu's `rename_ws` (sidepanel.js:545-547, 551): the
        answer, trimmed, is passed to `renameWorkspace`, and the handler
        saves in any case. */
    method MenuRename(wsName: string, answer: string)
      modifies this, storage
      ensures data == if answer != "" then RenameResult(old(data), wsName, Trim(answer)) else old(data)
      ensures storage.workspaces == data
    {
      if answer != "" {
        RenameWorkspace(wsName, Trim(answer));
      }
      Save();
    }

    /** The context menu's `delete_ws` (sidepanel.js:541-542, 551). */
    method MenuDeleteWorkspace(wsName: string, confirmed: bool)
      modifies this, storage
      ensures data == if confirmed then DeleteResult(old(data), wsName) else old(data)
      ensures storage.workspaces == data
    {
      DeleteWorkspace(wsName, confirmed);
      Save();
    }

    /** One turn of the reader's loop (sidepanel.js:404-427): `line` against
        the heading, link and note patterns, in that order. */
    method ReadLine(line: string, currentWs: string, currentLink: bool) returns (ws: string, linked: bool)
      modifies this
      ensures ScanState(data, ws, linked) == StepParsed(ScanState(old(data), currentWs, currentLink), Parse(line))
    {
      ws, linked := currentWs, currentLink;
      var wsMatch := HeadingName(line);
      if wsMatch.Some? {
        ws := wsMatch.value;
        if ws !in Names(data) {
          AppendKeepsMapping(data, Workspace(ws, []));
          data := data + [Workspace(ws, [])];
        }
        linked := false;
        return;
      }
      var linkMatch := LinkMatch(line);
      if linkMatch.Some? && ws != "" {
        var e := Entry(FreshId(AllIds(data)), "tab", linkMatch.value.url, linkMatch.value.title, []);
        data := AppendEntry(data, ws, e);
        linked := true;
        return;
      }
      var noteMatch := NoteText(line);
      if noteMatch.Some? && linked {
        data := AddImportedNote(data, ws, noteMatch.value);
      }
    }

    /** The reader's `onload` (sidepanel.js:398-429): the loop over the
        lines of the file, then one save. */
    method ImportText(text: string)
      modifies this, storage
      ensures data == ImportResult(old(data), text)
      ensures storage.workspaces == data
    {
      var lines := Split(text, '\n');
      ghost var ps := ParseAll(lines);
      ghost var st0 := ScanState(data, "", false);
      var currentWs := "";
      var currentLink := false;
      var k := 0;
      while k < |lines|
        invariant 0 <= k <= |lines|
        invariant ScanState(data, currentWs, currentLink) == Scan(st0, ps[..k])
      {
        ScanStep(st0, ps, k);
        currentWs, currentLink := ReadLine(lines[k], currentWs, currentLink);
        k := k + 1;
      }
      assert ps[..k] == ps;
      Save();
    }

    /** The "save window" button (sidepanel.js:570-597): `answer` is the
        prompt's answer, `tabs` what `chrome.tabs.query` reports. Nothing
        changes when the answer is empty or no tab passes the filter. */
    method SaveWindow(answer: string, tabs: seq<BrowserTab>) returns (saved: bool)
      modifies this, storage
      ensures saved <==> answer != "" && WindowLinks(tabs) != []
      ensures !saved ==> data == old(data) && storage.workspaces == old(storage.workspaces)
      ensures saved ==>
        && |data| == |old(data)| + 1 && data[..|old(data)|] == old(data)
        && (exists k: nat :: (k <= |old(data)| && LeastFree(old(data), Trim(answer), k)
              && data[|old(data)|].name == Candidate(Trim(answer), k)))
        && ForgetAll(data[|old(data)|].tabs) == WindowLinks(tabs)
        && FreshIds(data[|old(data)|].tabs, AllIds(old(data)))
        && storage.workspaces == data
    {
      saved := false;
      var name := answer;
      if name == "" {
        return;
      }
      var finalName := UniqueName(data, Trim(name));
      var newTabs := MintLinks(tabs, AllIds(data));
      if |newTabs| == 0 {
        return;
      }
      AppendKeepsMapping(data, Workspace(finalName, newTabs));
      data := data + [Workspace(finalName, newTabs)];
      Save();
      saved := true;
    }
  }
}
