/** The background worker's "save link to workspace" context-menu command
    (background.js:49-81). */
module Background {
  import opened Wrappers
  import opened Strings
  import opened Workspaces

  const MenuIdPrefix := "save-to-ws-"

  /** The id of the menu item for workspace `name` (background.js:30). */
  function MenuItemId(name: string): string {
    MenuIdPrefix + name
  }

  /** The workspace a clicked item names: the id with its first
      occurrence of the prefix removed, when it starts with the prefix. */
  function TargetWorkspace(menuItemId: string): Option<string> {
    if StartsWith(menuItemId, MenuIdPrefix) then Some(ReplaceFirst(menuItemId, MenuIdPrefix, ""))
    else None
  }

  /** A menu item's id leads back to exactly its workspace, whatever the name. */
  lemma MenuIdRoundTrip(name: string)
    ensures TargetWorkspace(MenuItemId(name)) == Some(name)
  {
    var id := MenuItemId(name);
    assert id[..|MenuIdPrefix|] == MenuIdPrefix;
    assert OccursAt(id, MenuIdPrefix, 0);
    IndexOfAt(id, MenuIdPrefix, 0);
    assert id[..0] + "" + id[0 + |MenuIdPrefix|..] == name;
  }

  /** Every id the handler accepts is the id of the item of the name it finds. */
  lemma MenuIdOnly(menuItemId: string)
    requires TargetWorkspace(menuItemId).Some?
    ensures menuItemId == MenuItemId(TargetWorkspace(menuItemId).value)
  {
    assert OccursAt(menuItemId, MenuIdPrefix, 0);
    IndexOfAt(menuItemId, MenuIdPrefix, 0);
    assert menuItemId == MenuIdPrefix + menuItemId[|MenuIdPrefix|..];
  }

  /** What the `info` argument of the click carries ("" for absent). */
  datatype ClickInfo = ClickInfo(menuItemId: string, linkUrl: string, pageUrl: string, selectionText: string)

  function ClickUrl(info: ClickInfo): string {
    if info.linkUrl != "" then info.linkUrl else info.pageUrl
  }

  /** The selected text, else the link's URL, else the tab's title. */
  function ClickTitle(info: ClickInfo, tabTitle: string): string {
    if info.selectionText != "" then info.selectionText
    else if info.linkUrl != "" then info.linkUrl
    else tabTitle
  }

  /** The stored mapping after the click, or `None` when the handler
      returns before writing. */
  function ClickResult(d: Mapping, info: ClickInfo, tabTitle: string): Option<Mapping> {
    match TargetWorkspace(info.menuItemId)
    case None => None
    case Some(target) =>
      if target !in Names(d) then None
      else Some(AppendEntry(d, target, Entry(FreshId(AllIds(d)), "tab", ClickUrl(info), ClickTitle(info, tabTitle), [])))
  }

  /** An id without the prefix, or a workspace that no longer exists,
      leaves storage as it was. */
  lemma ClickIgnored(d: Mapping, info: ClickInfo, tabTitle: string)
    requires !StartsWith(info.menuItemId, MenuIdPrefix)
      || ReplaceFirst(info.menuItemId, MenuIdPrefix, "") !in Names(d)
    ensures ClickResult(d, info, tabTitle) == None
  {
  }

  /** A click on the item of an existing workspace appends one entry at the
      end of that workspace's list: type "tab", a fresh id, no notes, the
      link's URL else the page's, the selection else the link's URL else
      the tab's title. Every other workspace and entry is unchanged. */
  lemma ClickAppends(d: Mapping, name: string, info: ClickInfo, tabTitle: string)
    requires info.menuItemId == MenuItemId(name) && name in Names(d)
    ensures ClickResult(d, info, tabTitle).Some?
    ensures var r := ClickResult(d, info, tabTitle).value;
      var before := TabsOf(d, name);
      && Names(r) == Names(d)
      && |TabsOf(r, name)| == |before| + 1 && TabsOf(r, name)[..|before|] == before
      && var e := TabsOf(r, name)[|before|];
      && e.kind == "tab" && e.notes == [] && e.id != "" && e.id !in AllIds(d)
      && e.url == (if info.linkUrl != "" then info.linkUrl else info.pageUrl)
      && (info.selectionText != "" ==> e.title == info.selectionText)
      && (info.selectionText == "" && info.linkUrl != "" ==> e.title == info.linkUrl)
      && (info.selectionText == "" && info.linkUrl == "" ==> e.title == tabTitle)
      && (forall j :: 0 <= j < |d| && d[j].name != name ==> r[j] == d[j])
  {
    MenuIdRoundTrip(name);
    var e := Entry(FreshId(AllIds(d)), "tab", ClickUrl(info), ClickTitle(info, tabTitle), []);
    AppendEntryFacts(d, name, e);
    var t := TabsOf(d, name);
    assert (t + [e])[..|t|] == t;
  }

  /** `contextMenus.onClicked`: reads the mapping, appends, writes it back.
      `saved` says whether storage was written (and the panel told to reload). */
  method OnMenuClicked(storage: Storage, info: ClickInfo, tabTitle: string) returns (saved: bool)
    modifies storage
    ensures saved == ClickResult(old(storage.workspaces), info, tabTitle).Some?
    ensures saved ==> storage.workspaces == ClickResult(old(storage.workspaces), info, tabTitle).value
    ensures !saved ==> storage.workspaces == old(storage.workspaces)
  {
    saved := false;
    if !StartsWith(info.menuItemId, MenuIdPrefix) {
      return;
    }
    var targetWorkspace := ReplaceFirst(info.menuItemId, MenuIdPrefix, "");
    var allData := storage.workspaces;
    var at := Find(allData, targetWorkspace);
    if at.None? {
      return;
    }
    var url := if info.linkUrl != "" then info.linkUrl else info.pageUrl;
    var title := info.selectionText;
    if title == "" {
      if info.linkUrl != "" {
        title := info.linkUrl;
      } else {
        title := tabTitle;
      }
    }
    var uniqueId := FreshId(AllIds(allData));
    var i := at.value;
    allData := WithTabs(allData, i, allData[i].tabs + [Entry(uniqueId, "tab", url, title, [])]);
    storage.workspaces := allData;
    saved := true;
  }
}
