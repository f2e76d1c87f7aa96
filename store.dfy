/** What the side panel's handlers do to the in-memory mapping `allData`,
    each as a function from the mapping before to the mapping after, with
    the properties each promises. The `SidePanel` class applies them. */
module Store {
  import opened Wrappers
  import opened Strings
  import opened Workspaces

  // ---------------------------------------------------------------------
  // Unique names: the counter loop of "add workspace" and "save window"

  /** The `k`-th name the counter loop tries: `name`, then `name 1`, `name 2`, ... */
  function Candidate(base: string, k: nat): string {
    if k == 0 then base else base + " " + NatToString(k)
  }

  /** `Candidate(base, k)` is free and every earlier candidate is taken. */
  predicate LeastFree(d: seq<Workspace>, base: string, k: nat) {
    Candidate(base, k) !in Names(d) && forall j :: 0 <= j < k ==> Candidate(base, j) in Names(d)
  }

  lemma CandidateInjective(base: string, j: nat, k: nat)
    requires Candidate(base, j) == Candidate(base, k)
    ensures j == k
  {
    var p := base + " ";
    if j != 0 && k != 0 {
      assert NatToString(j) == Candidate(base, j)[|p|..];
      assert NatToString(k) == Candidate(base, k)[|p|..];
      NatToStringInjective(j, k);
    }
  }

  lemma {:induction false} SeqToSetCard<T>(s: seq<T>)
    ensures |set x | x in s| <= |s|
    decreases |s|
  {
    if s != [] {
      SeqToSetCard(s[1..]);
      assert (set x | x in s) == (set x | x in s[1..]) + {s[0]};
    }
  }

  /** Pigeonhole: `k` distinct candidates that are all taken need `k` names. */
  lemma {:induction false} TakenBelow(S: set<string>, base: string, k: nat)
    requires forall j :: 0 <= j < k ==> Candidate(base, j) in S
    ensures k <= |S|
    decreases k
  {
    if k > 0 {
      var c := Candidate(base, k - 1);
      var S' := S - {c};
      forall j | 0 <= j < k - 1 ensures Candidate(base, j) in S' {
        if Candidate(base, j) == c { CandidateInjective(base, j, k - 1); }
      }
      TakenBelow(S', base, k - 1);
    }
  }

  /** The counter loop (sidepanel.js:257-262, 573-578): the least free
      candidate, found after at most one try per existing key plus one. */
  method UniqueName(d: seq<Workspace>, base: string) returns (finalName: string)
    ensures finalName !in Names(d)
    ensures exists k: nat :: k <= |d| && LeastFree(d, base, k) && finalName == Candidate(base, k)
  {
    finalName := base;
    var counter := 1;
    while finalName in Names(d)
      invariant 1 <= counter <= |d| + 1
      invariant finalName == Candidate(base, counter - 1)
      invariant forall j :: 0 <= j < counter - 1 ==> Candidate(base, j) in Names(d)
      decreases |d| + 1 - counter
    {
      TakenBelow((set x | x in Names(d)), base, counter);
      SeqToSetCard(Names(d));
      finalName := base + " " + NatToString(counter);
      counter := counter + 1;
    }
    assert LeastFree(d, base, counter - 1);
  }

  /** The least free candidate is unique: the loop's answer is determined. */
  lemma LeastFreeUnique(d: seq<Workspace>, base: string, j: nat, k: nat)
    requires LeastFree(d, base, j) && LeastFree(d, base, k)
    ensures j == k
  {
    assert j < k ==> Candidate(base, j) in Names(d);
    assert k < j ==> Candidate(base, k) in Names(d);
  }

  /** Creating the same name twice gives `x` and then `x 1`. */
  lemma CreateTwice(d: seq<Workspace>, x: string)
    requires x !in Names(d) && x + " 1" !in Names(d)
    ensures LeastFree(d, x, 0)
    ensures LeastFree(d + [Workspace(x, [])], x, 1)
  {
    var d' := d + [Workspace(x, [])];
    assert Names(d') == Names(d) + [x];
    assert Names(d')[|d|] == x;
    assert NatToString(1) == "1";
    assert Candidate(x, 1) == x + " 1";
  }

  /** The name "add workspace" starts from (sidepanel.js:254-255). */
  function RequestedName(input: string): (name: string)
    ensures name != "" && IsTrimmed(name)
    ensures Trim(input) != "" ==> name == Trim(input)
    ensures Trim(input) == "" ==> name == "general"
  {
    if Trim(input) == "" then "general" else Trim(input)
  }

  // ---------------------------------------------------------------------
  // Rename (sidepanel.js:272-286)

  /** The rebuilt object: every key copied, `oldName` replaced by `newName`. */
  function Renamed(d: seq<Workspace>, oldName: string, newName: string): seq<Workspace> {
    seq(|d|, i requires 0 <= i < |d| =>
      if d[i].name == oldName then Workspace(newName, d[i].tabs) else d[i])
  }

  lemma RenamedDistinct(d: Mapping, oldName: string, newName: string)
    requires newName !in Names(d)
    ensures NamesDistinct(Renamed(d, oldName, newName))
  {
    var r := Renamed(d, oldName, newName);
    assert forall i :: 0 <= i < |d| ==> Names(d)[i] == d[i].name;
  }

  /** `renameWorkspace(oldName, newName)` on the mapping. */
  function RenameResult(d: Mapping, oldName: string, newName: string): Mapping {
    if newName == "" || newName == oldName || newName in Names(d) then d
    else
      RenamedDistinct(d, oldName, newName);
      Renamed(d, oldName, newName)
  }

  predicate RenameAccepted(d: seq<Workspace>, oldName: string, newName: string) {
    newName != "" && newName != oldName && newName !in Names(d)
  }

  /** An accepted rename replaces the key in place: same position, same
      list, every other workspace as it was. */
  lemma RenameInPlace(d: Mapping, oldName: string, newName: string, i: nat)
    requires RenameAccepted(d, oldName, newName)
    requires i < |d| && d[i].name == oldName
    ensures Names(RenameResult(d, oldName, newName)) == Names(d)[i := newName]
    ensures forall j :: 0 <= j < |d| ==> RenameResult(d, oldName, newName)[j].tabs == d[j].tabs
    ensures forall j :: 0 <= j < |d| && j != i ==> RenameResult(d, oldName, newName)[j] == d[j]
  {
    var r := RenameResult(d, oldName, newName);
    assert |Names(r)| == |Names(d)[i := newName]|;
    forall j | 0 <= j < |d| ensures Names(r)[j] == Names(d)[i := newName][j] {
      if j != i { assert d[j].name != oldName; }
    }
  }

  /** A rejected rename, or one whose old name is absent, changes nothing. */
  lemma RenameNoOp(d: Mapping, oldName: string, newName: string)
    requires !RenameAccepted(d, oldName, newName) || oldName !in Names(d)
    ensures RenameResult(d, oldName, newName) == d
  {
    if RenameAccepted(d, oldName, newName) {
      var r := RenameResult(d, oldName, newName);
      forall j | 0 <= j < |d| ensures r[j] == d[j] {
        assert d[j].name == Names(d)[j];
      }
    }
  }

  /** Renaming back undoes an accepted rename. */
  lemma RenameBack(d: Mapping, oldName: string, newName: string)
    requires RenameAccepted(d, oldName, newName) && oldName in Names(d) && oldName != ""
    ensures RenameResult(RenameResult(d, oldName, newName), newName, oldName) == d
  {
    var i :| 0 <= i < |d| && Names(d)[i] == oldName;
    var r := RenameResult(d, oldName, newName);
    RenameInPlace(d, oldName, newName, i);
    assert oldName !in Names(r) by {
      forall j | 0 <= j < |r| ensures Names(r)[j] != oldName {
        if j != i { assert d[j].name != d[i].name; }
      }
    }
    assert RenameAccepted(r, newName, oldName);
    assert r[i].name == newName;
    RenameInPlace(r, newName, oldName, i);
    var r2 := RenameResult(r, newName, oldName);
    forall j | 0 <= j < |d| ensures r2[j] == d[j] {
      assert Names(r2)[j] == Names(d)[j];
    }
  }

  // ---------------------------------------------------------------------
  // Delete a workspace (sidepanel.js:294)

  /** `delete allData[name]`. */
  function DeleteResult(d: Mapping, name: string): Mapping {
    match Find(d, name)
    case None => d
    case Some(i) =>
      RemoveKeepsMapping(d, i);
      d[..i] + d[i + 1..]
  }

  /** The keys left after removing the workspace at `i` are the other keys. */
  lemma RemoveNames(d: Mapping, i: nat, n: string)
    requires i < |d|
    ensures n in Names(d[..i] + d[i + 1..]) <==> n in Names(d) && n != d[i].name
  {
    var r := d[..i] + d[i + 1..];
    assert Names(r) == Names(d)[..i] + Names(d)[i + 1..];
    assert Names(d) == Names(d)[..i] + [d[i].name] + Names(d)[i + 1..];
    assert d[i].name !in Names(r) by {
      forall a | 0 <= a < |r| ensures r[a].name != d[i].name {
        if a < i { assert r[a] == d[a]; } else { assert r[a] == d[a + 1]; }
      }
    }
  }

  /** Deleting a workspace removes that key and, with it, exactly its
      entries; the other keys keep their lists and their order. */
  lemma DeleteCascades(d: Mapping, name: string)
    ensures name !in Names(DeleteResult(d, name))
    ensures forall n :: n != name ==> (n in Names(DeleteResult(d, name)) <==> n in Names(d))
    ensures forall n :: n != name ==> TabsOf(DeleteResult(d, name), n) == TabsOf(d, n)
    ensures name !in Names(d) ==> DeleteResult(d, name) == d
    ensures name in Names(d) ==> (
      && |DeleteResult(d, name)| == |d| - 1
      && var i := Find(d, name).value;
      && DeleteResult(d, name)[..i] == d[..i] && DeleteResult(d, name)[i..] == d[i + 1..])
    ensures multiset(Flatten(DeleteResult(d, name))) + multiset(TabsOf(d, name)) == multiset(Flatten(d))
  {
    match Find(d, name)
    case None =>
    case Some(i) =>
      FlattenRemove(d, i);
      forall n ensures n in Names(d[..i] + d[i + 1..]) <==> n in Names(d) && n != name {
        RemoveNames(d, i, n);
      }
      forall n | n != name ensures TabsOf(d[..i] + d[i + 1..], n) == TabsOf(d, n) {
        RemoveTabsOf(d, i, n);
      }
  }

  /** Removing the workspace at `i` leaves the list of every other key alone. */
  lemma RemoveTabsOf(d: Mapping, i: nat, n: string)
    requires i < |d| && n != d[i].name
    ensures TabsOf(d[..i] + d[i + 1..], n) == TabsOf(d, n)
  {
    RemoveKeepsMapping(d, i);
    var r: Mapping := d[..i] + d[i + 1..];
    RemoveNames(d, i, n);
    match Find(d, n)
    case None =>
    case Some(k) =>
      var k' := if k < i then k else k - 1;
      assert r[k'] == d[k];
      FindKey(r, k');
  }

  // ---------------------------------------------------------------------
  // List surgery: `splice`

  function RemoveAt<T>(s: seq<T>, i: nat): (r: seq<T>)
    requires i < |s|
    ensures |r| == |s| - 1
    ensures forall k :: 0 <= k < i ==> r[k] == s[k]
    ensures forall k :: i <= k < |r| ==> r[k] == s[k + 1]
    ensures multiset(r) + multiset{s[i]} == multiset(s)
  {
    assert s == s[..i] + [s[i]] + s[i + 1..];
    s[..i] + s[i + 1..]
  }

  function InsertAt<T>(s: seq<T>, i: nat, x: T): (r: seq<T>)
    requires i <= |s|
    ensures |r| == |s| + 1 && r[i] == x
    ensures forall k :: 0 <= k < i ==> r[k] == s[k]
    ensures forall k :: i < k < |r| ==> r[k] == s[k - 1]
    ensures multiset(r) == multiset(s) + multiset{x}
  {
    assert s == s[..i] + s[i..];
    s[..i] + [x] + s[i..]
  }

  /** `list.splice(i, 1)`: removes the element at `i`, if there is one. */
  function SpliceOut<T>(s: seq<T>, i: nat): seq<T> {
    if i < |s| then RemoveAt(s, i) else s
  }

  // ---------------------------------------------------------------------
  // Notes and links

  /** `tabs.find(i => i.id === id)`: the first entry with that id. */
  function FindEntry(tabs: seq<Entry>, id: string): (r: Option<nat>)
    ensures r.Some? ==> r.value < |tabs| && tabs[r.value].id == id
    ensures r.Some? ==> forall k :: 0 <= k < r.value ==> tabs[k].id != id
    ensures r.None? ==> forall k :: 0 <= k < |tabs| ==> tabs[k].id != id
  {
    if tabs == [] then None
    else if tabs[0].id == id then Some(0)
    else
      match FindEntry(tabs[1..], id)
      case None => None
      case Some(k) => Some(k + 1)
  }

  /** An entry is found exactly when its id is in the list. */
  lemma FindEntryIds(tabs: seq<Entry>, id: string)
    ensures FindEntry(tabs, id).Some? <==> id in IdsOf(tabs)
  {
    if FindEntry(tabs, id).Some? {
      assert IdsOf(tabs)[FindEntry(tabs, id).value] == id;
    }
  }

  /** `deleteNote(workspaceName, item, noteIndex)` (sidepanel.js:301-303);
      the item object is the one rendered at position `pos` of the workspace. */
  function DeleteNoteResult(d: Mapping, name: string, pos: nat, noteIndex: nat): Mapping {
    match Find(d, name)
    case None => d
    case Some(i) =>
      if pos < |d[i].tabs| then
        var e := d[i].tabs[pos];
        WithTabs(d, i, d[i].tabs[pos := e.(notes := SpliceOut(e.notes, noteIndex))])
      else d
  }

  /** Deleting a note removes exactly the note at `noteIndex` of that one
      entry: the other notes keep their order, everything else is unchanged. */
  lemma DeleteNoteOnlyTarget(d: Mapping, name: string, pos: nat, noteIndex: nat, i: nat)
    requires i < |d| && d[i].name == name && pos < |d[i].tabs|
    requires noteIndex < |d[i].tabs[pos].notes|
    ensures var r := DeleteNoteResult(d, name, pos, noteIndex);
      var before, after := d[i].tabs[pos], r[i].tabs[pos];
      && |r| == |d| && (forall j :: 0 <= j < |d| && j != i ==> r[j] == d[j])
      && r[i].name == name && |r[i].tabs| == |d[i].tabs|
      && (forall k :: 0 <= k < |d[i].tabs| && k != pos ==> r[i].tabs[k] == d[i].tabs[k])
      && after.(notes := before.notes) == before
      && after.notes == before.notes[..noteIndex] + before.notes[noteIndex + 1..]
      && multiset(after.notes) + multiset{before.notes[noteIndex]} == multiset(before.notes)
  {
    FindKey(d, i);
    var e := d[i].tabs[pos];
    var r := DeleteNoteResult(d, name, pos, noteIndex);
    assert r == WithTabs(d, i, d[i].tabs[pos := e.(notes := RemoveAt(e.notes, noteIndex))]);
  }

  /** The context menu's `add_note` (sidepanel.js:516-521): the prompt's
      answer is appended as it is, unless it is empty. */
  function AddNoteResult(d: Mapping, name: string, id: string, text: string): Mapping {
    if text == "" then d
    else
      match Find(d, name)
      case None => d
      case Some(i) =>
        match FindEntry(d[i].tabs, id)
        case None => d
        case Some(k) =>
          var e := d[i].tabs[k];
          WithTabs(d, i, d[i].tabs[k := e.(notes := e.notes + [text])])
  }

  /** A non-empty note lands at the end of the entry's notes, even when the
      entry already carries the same text: the menu does not deduplicate. */
  lemma AddNoteAppends(d: Mapping, name: string, id: string, text: string, i: nat, k: nat)
    requires text != "" && i < |d| && d[i].name == name
    requires FindEntry(d[i].tabs, id) == Some(k)
    ensures var r := AddNoteResult(d, name, id, text);
      && |r| == |d| && (forall j :: 0 <= j < |d| && j != i ==> r[j] == d[j])
      && r[i].name == d[i].name && |r[i].tabs| == |d[i].tabs|
      && (forall m :: 0 <= m < |d[i].tabs| && m != k ==> r[i].tabs[m] == d[i].tabs[m])
      && r[i].tabs[k].(notes := d[i].tabs[k].notes) == d[i].tabs[k]
      && r[i].tabs[k].notes == d[i].tabs[k].notes + [text]
      && multiset(r[i].tabs[k].notes)[text] == multiset(d[i].tabs[k].notes)[text] + 1
  {
    FindKey(d, i);
  }

  /** An empty answer, or an entry that is no longer there, adds nothing. */
  lemma AddNoteNoOp(d: Mapping, name: string, id: string, text: string)
    requires text == "" || name !in Names(d) || id !in IdsOf(TabsOf(d, name))
    ensures AddNoteResult(d, name, id, text) == d
  {
    match Find(d, name)
    case None =>
    case Some(i) => FindEntryIds(d[i].tabs, id);
  }

  /** The context menu's `delete_link` (sidepanel.js:512-515): the entry
      the menu was opened on (the first with its id) is spliced out. When
      the workspace is gone, `allData[wsName].tabs` fails before anything
      changes. */
  function DeleteLinkResult(d: Mapping, name: string, id: string): Mapping {
    match Find(d, name)
    case None => d
    case Some(i) =>
      match FindEntry(d[i].tabs, id)
      case None => d
      case Some(k) => WithTabs(d, i, RemoveAt(d[i].tabs, k))
  }

  /** Deleting a link removes exactly that entry and nothing else. */
  lemma DeleteLinkOnlyTarget(d: Mapping, name: string, id: string, i: nat, k: nat)
    requires i < |d| && d[i].name == name && FindEntry(d[i].tabs, id) == Some(k)
    ensures var r := DeleteLinkResult(d, name, id);
      && Names(r) == Names(d) && (forall j :: 0 <= j < |d| && j != i ==> r[j] == d[j])
      && r[i].tabs == d[i].tabs[..k] + d[i].tabs[k + 1..]
      && multiset(Flatten(r)) + multiset{d[i].tabs[k]} == multiset(Flatten(d))
  {
    FindKey(d, i);
    var tabs := RemoveAt(d[i].tabs, k);
    WithTabsFacts(d, i, tabs);
    var r := WithTabs(d, i, tabs);
    assert multiset(d[i].tabs) == multiset(tabs) + multiset{d[i].tabs[k]};
    MultisetCancel(multiset(Flatten(r)) + multiset{d[i].tabs[k]}, multiset(tabs), multiset(Flatten(d)));
  }

  /** A link that is not in its workspace any more is not deleted. */
  lemma DeleteLinkNoOp(d: Mapping, name: string, id: string)
    requires id !in IdsOf(TabsOf(d, name))
    ensures DeleteLinkResult(d, name, id) == d
  {
    match Find(d, name)
    case None =>
    case Some(i) => FindEntryIds(d[i].tabs, id);
  }

  // ---------------------------------------------------------------------
  // Drag and drop

  /** What `handleInternalSort` leaves behind, and whether it reached `saveData`. */
  datatype Moved = Moved(data: Mapping, saved: bool)

  /** `handleInternalSort` (sidepanel.js:311-317): splice out at `oldIndex`
      from the source list, then splice in at `newIndex` (clamped to the
      length, as `splice` does) into the destination list as it is after
      the removal. A missing source makes `allData[fromWS].tabs` fail before
      any change; a missing destination fails after the removal. */
  function MoveResult(d: Mapping, fromWs: string, oldIndex: nat, toWs: string, newIndex: nat): Moved
    requires fromWs in Names(d) ==> oldIndex < |TabsOf(d, fromWs)|
  {
    if fromWs == "" || toWs == "" then Moved(d, false)
    else
      match Find(d, fromWs)
      case None => Moved(d, false)
      case Some(i) =>
        var item := d[i].tabs[oldIndex];
        var d1 := WithTabs(d, i, RemoveAt(d[i].tabs, oldIndex));
        match Find(d1, toWs)
        case None => Moved(d1, false)
        case Some(k) =>
          var at := if newIndex <= |d1[k].tabs| then newIndex else |d1[k].tabs|;
          Moved(WithTabs(d1, k, InsertAt(d1[k].tabs, at, item)), true)
  }

  /** A name that is empty, or a source workspace that is absent, makes the move a no-op. */
  lemma MoveNoOp(d: Mapping, fromWs: string, oldIndex: nat, toWs: string, newIndex: nat)
    requires fromWs in Names(d) ==> oldIndex < |TabsOf(d, fromWs)|
    requires fromWs == "" || toWs == "" || fromWs !in Names(d)
    ensures MoveResult(d, fromWs, oldIndex, toWs, newIndex) == Moved(d, false)
  {
  }

  /** A completed move neither loses nor duplicates an entry. */
  lemma MoveConserves(d: Mapping, fromWs: string, oldIndex: nat, toWs: string, newIndex: nat)
    requires fromWs in Names(d) ==> oldIndex < |TabsOf(d, fromWs)|
    requires MoveResult(d, fromWs, oldIndex, toWs, newIndex).saved
    ensures multiset(Flatten(MoveResult(d, fromWs, oldIndex, toWs, newIndex).data)) == multiset(Flatten(d))
  {
    var i := Find(d, fromWs).value;
    var item := d[i].tabs[oldIndex];
    var t1 := RemoveAt(d[i].tabs, oldIndex);
    var d1 := WithTabs(d, i, t1);
    WithTabsFacts(d, i, t1);
    var k := Find(d1, toWs).value;
    var at := if newIndex <= |d1[k].tabs| then newIndex else |d1[k].tabs|;
    var t2 := InsertAt(d1[k].tabs, at, item);
    WithTabsFacts(d1, k, t2);
    var d2 := WithTabs(d1, k, t2);
    assert MoveResult(d, fromWs, oldIndex, toWs, newIndex).data == d2;
    MoveBalance(multiset(Flatten(d)), multiset(Flatten(d1)), multiset(Flatten(d2)),
                multiset(d[i].tabs), multiset(t1), multiset(d1[k].tabs), multiset(t2), item);
  }

  /** The bookkeeping of a move: one list gives up `x`, another takes it. */
  lemma MoveBalance<T>(m0: multiset<T>, m1: multiset<T>, m2: multiset<T>,
                       s: multiset<T>, s1: multiset<T>, u: multiset<T>, u1: multiset<T>, x: T)
    requires m1 + s == m0 + s1 && s == s1 + multiset{x}
    requires m2 + u == m1 + u1 && u1 == u + multiset{x}
    ensures m2 == m0
  {
    forall y ensures m2[y] == m0[y] {
      assert (m1 + s)[y] == (m0 + s1)[y];
      assert (m2 + u)[y] == (m1 + u1)[y];
    }
  }

  /** Between two different workspaces: the source loses exactly the item
      at `oldIndex`, the destination gains it at `newIndex`, and no other
      workspace changes. */
  lemma MoveAcross(d: Mapping, fromWs: string, oldIndex: nat, toWs: string, newIndex: nat)
    requires fromWs != toWs && fromWs != "" && toWs != ""
    requires fromWs in Names(d) && toWs in Names(d)
    requires oldIndex < |TabsOf(d, fromWs)| && newIndex <= |TabsOf(d, toWs)|
    ensures var r := MoveResult(d, fromWs, oldIndex, toWs, newIndex);
      && r.saved && Names(r.data) == Names(d)
      && TabsOf(r.data, fromWs) == RemoveAt(TabsOf(d, fromWs), oldIndex)
      && TabsOf(r.data, toWs) == InsertAt(TabsOf(d, toWs), newIndex, TabsOf(d, fromWs)[oldIndex])
      && TabsOf(r.data, toWs)[newIndex] == TabsOf(d, fromWs)[oldIndex]
      && forall j :: 0 <= j < |d| && d[j].name != fromWs && d[j].name != toWs ==> r.data[j] == d[j]
  {
    var i := Find(d, fromWs).value;
    var t1 := RemoveAt(d[i].tabs, oldIndex);
    WithTabsFacts(d, i, t1);
    var d1 := WithTabs(d, i, t1);
    FindWithTabs(d, i, t1, toWs);
    var k := Find(d, toWs).value;
    assert k != i;
    var t2 := InsertAt(d[k].tabs, newIndex, d[i].tabs[oldIndex]);
    assert d1[k] == d[k];
    WithTabsFacts(d1, k, t2);
    var d2 := WithTabs(d1, k, t2);
    assert MoveResult(d, fromWs, oldIndex, toWs, newIndex) == Moved(d2, true);
    FindWithTabs(d1, k, t2, fromWs);
    FindWithTabs(d, i, t1, fromWs);
    FindWithTabs(d1, k, t2, toWs);
    assert d2[i] == d1[i];
    assert TabsOf(d2, fromWs) == t1;
    assert TabsOf(d2, toWs) == t2;
    assert Names(d2) == Names(d);
    forall j | 0 <= j < |d| && d[j].name != fromWs && d[j].name != toWs ensures d2[j] == d[j] {
      assert j != i && j != k;
      assert d2[j] == d1[j];
    }
    assert TabsOf(d, fromWs) == d[i].tabs && TabsOf(d, toWs) == d[k].tabs;
  }

  /** Within one workspace: `newIndex` counts positions in the list after
      the removal, so the item ends up at `newIndex` of the final list. */
  lemma MoveWithin(d: Mapping, ws: string, oldIndex: nat, newIndex: nat)
    requires ws != "" && ws in Names(d)
    requires oldIndex < |TabsOf(d, ws)| && newIndex < |TabsOf(d, ws)|
    ensures var r := MoveResult(d, ws, oldIndex, ws, newIndex);
      var s := TabsOf(d, ws);
      && r.saved && Names(r.data) == Names(d)
      && TabsOf(r.data, ws) == InsertAt(RemoveAt(s, oldIndex), newIndex, s[oldIndex])
      && TabsOf(r.data, ws)[newIndex] == s[oldIndex]
      && |TabsOf(r.data, ws)| == |s|
      && forall j :: 0 <= j < |d| && d[j].name != ws ==> r.data[j] == d[j]
  {
    var i := Find(d, ws).value;
    var t1 := RemoveAt(d[i].tabs, oldIndex);
    WithTabsFacts(d, i, t1);
    var d1 := WithTabs(d, i, t1);
    FindWithTabs(d, i, t1, ws);
    var t2 := InsertAt(t1, newIndex, d[i].tabs[oldIndex]);
    assert d1[i].tabs == t1;
    WithTabsFacts(d1, i, t2);
    var d2 := WithTabs(d1, i, t2);
    assert MoveResult(d, ws, oldIndex, ws, newIndex) == Moved(d2, true);
    FindWithTabs(d1, i, t2, ws);
    assert TabsOf(d2, ws) == t2 && TabsOf(d, ws) == d[i].tabs;
    forall j | 0 <= j < |d| && d[j].name != ws ensures d2[j] == d[j] {
      assert j != i;
      assert d2[j] == d1[j];
    }
  }

  /** A destination that has disappeared leaves the source without the
      item in memory, and storage is not written. */
  lemma MoveToMissing(d: Mapping, fromWs: string, oldIndex: nat, toWs: string, newIndex: nat)
    requires fromWs != "" && toWs != "" && fromWs in Names(d) && toWs !in Names(d)
    requires oldIndex < |TabsOf(d, fromWs)|
    ensures var r := MoveResult(d, fromWs, oldIndex, toWs, newIndex);
      && !r.saved && TabsOf(r.data, fromWs) == RemoveAt(TabsOf(d, fromWs), oldIndex)
  {
    var i := Find(d, fromWs).value;
    var t1 := RemoveAt(d[i].tabs, oldIndex);
    WithTabsFacts(d, i, t1);
  }

  /** The title of a link dropped from outside the panel (sidepanel.js:337). */
  function DropTitle(plainText: string): string {
    if plainText == "" then "New Link" else plainText
  }

  /** The drop handler (sidepanel.js:336-347): a non-empty `text/uri-list`
      becomes a new entry at the end of the workspace the list belongs to. */
  function DropResult(d: Mapping, name: string, uriList: string, plainText: string): Mapping {
    if uriList == "" then d
    else AppendEntry(d, name, Entry(FreshId(AllIds(d)), "tab", uriList, DropTitle(plainText), []))
  }

  /** A drop appends one fresh entry to its workspace and nothing else. */
  lemma DropAppends(d: Mapping, name: string, uriList: string, plainText: string)
    requires uriList != "" && name in Names(d)
    ensures var r := DropResult(d, name, uriList, plainText);
      && Names(r) == Names(d) && |TabsOf(r, name)| == |TabsOf(d, name)| + 1
      && TabsOf(r, name)[..|TabsOf(d, name)|] == TabsOf(d, name)
      && (forall j :: 0 <= j < |d| && d[j].name != name ==> r[j] == d[j])
      && var e := TabsOf(r, name)[|TabsOf(d, name)|];
      && e.id != "" && e.id !in AllIds(d) && e.kind == "tab" && e.url == uriList && e.notes == []
      && e.title == (if plainText != "" then plainText else "New Link")
  {
    var e := Entry(FreshId(AllIds(d)), "tab", uriList, DropTitle(plainText), []);
    AppendEntryFacts(d, name, e);
    var t := TabsOf(d, name);
    assert DropResult(d, name, uriList, plainText) == AppendEntry(d, name, e);
    assert (t + [e])[..|t|] == t && (t + [e])[|t|] == e;
  }

  /** Nothing is dropped when the drag carries no URL. */
  lemma DropWithoutUrl(d: Mapping, name: string, plainText: string)
    ensures DropResult(d, name, "", plainText) == d
  {
  }

  // ---------------------------------------------------------------------
  // Id backfill at load (sidepanel.js:50-61)

  /** Some entry is missing its id. */
  predicate HasMissingId(d: seq<Workspace>) {
    exists i, k :: 0 <= i < |d| && 0 <= k < |d[i].tabs| && d[i].tabs[k].id == ""
  }

  /** `r` is `d` with every missing id filled in: the same keys, the same
      entries apart from ids, every id that was there still there, and no
      entry without one. */
  predicate BackfilledFrom(d: seq<Workspace>, r: seq<Workspace>) {
    && |r| == |d|
    && (forall i :: 0 <= i < |d| ==> r[i].name == d[i].name && |r[i].tabs| == |d[i].tabs|)
    && (forall i, k :: 0 <= i < |d| && 0 <= k < |d[i].tabs| ==>
          && Forget(r[i].tabs[k]) == Forget(d[i].tabs[k])
          && r[i].tabs[k].id != ""
          && (d[i].tabs[k].id != "" ==> r[i].tabs[k].id == d[i].tabs[k].id))
  }

  /** The `forEach` over one `tabs` list (sidepanel.js:53-58): each entry
      without an id gets a fresh one, drawn so that it differs from `used`
      and from every id drawn before it. */
  method FillIds(tabs: seq<Entry>, used: seq<string>) returns (filled: seq<Entry>, filledAny: bool)
    ensures |filled| == |tabs|
    ensures forall k :: 0 <= k < |tabs| ==>
      && Forget(filled[k]) == Forget(tabs[k])
      && filled[k].id != ""
      && (tabs[k].id != "" ==> filled[k].id == tabs[k].id)
      && (tabs[k].id == "" ==> filled[k].id !in used)
    ensures filledAny <==> exists k :: 0 <= k < |tabs| && tabs[k].id == ""
  {
    filled := tabs;
    filledAny := false;
    var drawn := used;
    var k := 0;
    while k < |tabs|
      invariant 0 <= k <= |tabs| && |filled| == |tabs|
      invariant forall x :: x in used ==> x in drawn
      invariant forall m :: k <= m < |tabs| ==> filled[m] == tabs[m]
      invariant forall m :: 0 <= m < k ==>
        && Forget(filled[m]) == Forget(tabs[m])
        && filled[m].id != ""
        && (tabs[m].id != "" ==> filled[m].id == tabs[m].id)
        && (tabs[m].id == "" ==> filled[m].id !in used)
      invariant filledAny <==> exists m :: 0 <= m < k && tabs[m].id == ""
    {
      if filled[k].id == "" {
        var id := FreshId(drawn);
        filled := filled[k := filled[k].(id := id)];
        drawn := drawn + [id];
        filledAny := true;
      }
      k := k + 1;
    }
  }

  /** Some entry of the first `i` workspaces is missing its id. */
  predicate MissingBelow(d: seq<Workspace>, i: nat) {
    exists j, k :: 0 <= j < i && j < |d| && 0 <= k < |d[j].tabs| && d[j].tabs[k].id == ""
  }

  /** The backfill loop after `i` workspaces: those are filled in, the
      rest are untouched. */
  predicate BackfilledUpTo(d: seq<Workspace>, r: seq<Workspace>, i: nat) {
    && i <= |d| && |r| == |d|
    && (forall j :: 0 <= j < |d| ==> r[j].name == d[j].name && |r[j].tabs| == |d[j].tabs|)
    && (forall j :: i <= j < |d| ==> r[j] == d[j])
    && (forall j, k :: 0 <= j < i && 0 <= k < |d[j].tabs| ==>
          && Forget(r[j].tabs[k]) == Forget(d[j].tabs[k])
          && r[j].tabs[k].id != ""
          && (d[j].tabs[k].id != "" ==> r[j].tabs[k].id == d[j].tabs[k].id))
  }

  /** One more workspace filled in by `FillIds`. */
  lemma BackfillStep(d: seq<Workspace>, r: Mapping, i: nat, filled: seq<Entry>)
    requires BackfilledUpTo(d, r, i) && i < |d|
    requires |filled| == |d[i].tabs|
    requires forall k :: 0 <= k < |d[i].tabs| ==>
      && Forget(filled[k]) == Forget(d[i].tabs[k])
      && filled[k].id != ""
      && (d[i].tabs[k].id != "" ==> filled[k].id == d[i].tabs[k].id)
    ensures BackfilledUpTo(d, WithTabs(r, i, filled), i + 1)
  {
    var r' := WithTabs(r, i, filled);
    assert r[i] == d[i];
    assert r' == r[i := Workspace(d[i].name, filled)];
  }

  /** The missing ids below `i + 1` are those below `i` and those of workspace `i`. */
  lemma MissingStep(d: seq<Workspace>, i: nat)
    requires i < |d|
    ensures MissingBelow(d, i + 1) <==> MissingBelow(d, i) || exists k :: 0 <= k < |d[i].tabs| && d[i].tabs[k].id == ""
  {
    if MissingBelow(d, i + 1) {
      var j, k :| 0 <= j < i + 1 && j < |d| && 0 <= k < |d[j].tabs| && d[j].tabs[k].id == "";
      if j < i { assert MissingBelow(d, i); }
    }
    if exists k :: 0 <= k < |d[i].tabs| && d[i].tabs[k].id == "" {
      var k :| 0 <= k < |d[i].tabs| && d[i].tabs[k].id == "";
      assert MissingBelow(d, i + 1);
    }
  }

  /** The backfill loop leaves every key's list filled in: a backfill of `d`. */
  lemma BackfillDone(d: seq<Workspace>, r: seq<Workspace>)
    requires BackfilledUpTo(d, r, |d|)
    ensures BackfilledFrom(d, r)
    ensures MissingBelow(d, |d|) <==> HasMissingId(d)
  {
  }

  /** A mapping without missing ids is its own backfill, and one that lacks
      ids is not: so "some id was assigned" is exactly "some id was missing". */
  lemma BackfillIdentity(d: seq<Workspace>, r: seq<Workspace>)
    requires BackfilledFrom(d, r)
    ensures r == d <==> !HasMissingId(d)
  {
    if !HasMissingId(d) {
      forall i | 0 <= i < |d| ensures r[i] == d[i] {
        forall k | 0 <= k < |d[i].tabs| ensures r[i].tabs[k] == d[i].tabs[k] {
          assert Forget(r[i].tabs[k]) == Forget(d[i].tabs[k]);
        }
        assert r[i].tabs == d[i].tabs;
      }
    } else {
      var i, k :| 0 <= i < |d| && 0 <= k < |d[i].tabs| && d[i].tabs[k].id == "";
      assert r[i].tabs[k].id != "";
    }
  }

  // ---------------------------------------------------------------------
  // "Save window" (sidepanel.js:579-596)

  /** What `chrome.tabs.query` reports about one open tab ("" for absent). */
  datatype BrowserTab = BrowserTab(url: string, pendingUrl: string, title: string)

  function RealUrl(t: BrowserTab): string {
    if t.url != "" then t.url else t.pendingUrl
  }

  function RealTitle(t: BrowserTab): string {
    if t.title != "" then t.title else if RealUrl(t) != "" then RealUrl(t) else "No Title"
  }

  /** The filter of sidepanel.js:590. */
  predicate Savable(t: BrowserTab) {
    RealUrl(t) != "" && !StartsWith(RealUrl(t), "chrome://newtab")
  }

  /** The entry a tab becomes, before its id is drawn. */
  function TabLink(t: BrowserTab): Entry {
    Entry("", "tab", RealUrl(t), RealTitle(t), [])
  }

  /** The entries of the new workspace, ids aside, in window order. */
  function WindowLinks(tabs: seq<BrowserTab>): seq<Entry> {
    if tabs == [] then []
    else WindowLinks(tabs[..|tabs| - 1]) + (if Savable(tabs[|tabs| - 1]) then [TabLink(tabs[|tabs| - 1])] else [])
  }

  /** A link is saved exactly when its tab passes the filter. */
  lemma WindowLinksIff(tabs: seq<BrowserTab>, e: Entry)
    ensures e in WindowLinks(tabs) <==> exists k :: 0 <= k < |tabs| && Savable(tabs[k]) && e == TabLink(tabs[k])
  {
    if e in WindowLinks(tabs) {
      var k := WindowLinkSource(tabs, e);
    }
    if exists k :: 0 <= k < |tabs| && Savable(tabs[k]) && e == TabLink(tabs[k]) {
      var k :| 0 <= k < |tabs| && Savable(tabs[k]) && e == TabLink(tabs[k]);
      WindowLinkSaved(tabs, k);
    }
  }

  /** Every saved link comes from a tab that passes the filter. */
  lemma {:induction false} WindowLinkSource(tabs: seq<BrowserTab>, e: Entry) returns (k: nat)
    requires e in WindowLinks(tabs)
    ensures k < |tabs| && Savable(tabs[k]) && e == TabLink(tabs[k])
    decreases |tabs|
  {
    var init := tabs[..|tabs| - 1];
    var t := tabs[|tabs| - 1];
    assert WindowLinks(tabs) == WindowLinks(init) + (if Savable(t) then [TabLink(t)] else []);
    if e in WindowLinks(init) {
      k := WindowLinkSource(init, e);
      assert init[k] == tabs[k];
    } else {
      k := |tabs| - 1;
    }
  }

  /** Every tab that passes the filter gives a saved link. */
  lemma {:induction false} WindowLinkSaved(tabs: seq<BrowserTab>, k: nat)
    requires k < |tabs| && Savable(tabs[k])
    ensures TabLink(tabs[k]) in WindowLinks(tabs)
    decreases |tabs|
  {
    var init := tabs[..|tabs| - 1];
    var t := tabs[|tabs| - 1];
    assert WindowLinks(tabs) == WindowLinks(init) + (if Savable(t) then [TabLink(t)] else []);
    if k < |init| {
      assert init[k] == tabs[k];
      WindowLinkSaved(init, k);
    }
  }

  /** Every saved link has a real URL that is not a new-tab page, and a non-empty title. */
  lemma {:induction false} WindowLinksWellFormed(tabs: seq<BrowserTab>)
    ensures forall m :: 0 <= m < |WindowLinks(tabs)| ==>
      var e := WindowLinks(tabs)[m];
      e.url != "" && !StartsWith(e.url, "chrome://newtab") && e.title != "" && e.kind == "tab" && e.notes == []
    decreases |tabs|
  {
    if tabs != [] {
      WindowLinksWellFormed(tabs[..|tabs| - 1]);
    }
  }

  /** The ids of `es` are all present, none is in `used`, and no two are equal. */
  predicate FreshIds(es: seq<Entry>, used: seq<string>) {
    && (forall m :: 0 <= m < |es| ==> es[m].id != "" && es[m].id !in used)
    && (forall a, b :: 0 <= a < b < |es| ==> es[a].id != es[b].id)
  }

  /** The `map` and `filter` of sidepanel.js:580-590, in one pass: every tab
      gets an entry with a freshly drawn id, and those that fail the filter
      are dropped. */
  method MintLinks(tabs: seq<BrowserTab>, used: seq<string>) returns (links: seq<Entry>)
    ensures ForgetAll(links) == WindowLinks(tabs)
    ensures FreshIds(links, used)
  {
    links := [];
    var drawn := used;
    var k := 0;
    while k < |tabs|
      invariant 0 <= k <= |tabs|
      invariant ForgetAll(links) == WindowLinks(tabs[..k])
      invariant forall x :: x in used ==> x in drawn
      invariant forall m :: 0 <= m < |links| ==> links[m].id in drawn
      invariant FreshIds(links, used)
    {
      var t := tabs[k];
      var id := FreshId(drawn);
      var item := Entry(id, "tab", RealUrl(t), RealTitle(t), []);
      MintStep(tabs, k, links, item);
      if Savable(t) {
        FreshIdsSnoc(links, used, drawn, item);
        links := links + [item];
      }
      drawn := drawn + [id];
      k := k + 1;
    }
    TakeAll(tabs, k);
  }

  /** The links grow as `WindowLinks` does, one tab at a time. */
  lemma MintStep(tabs: seq<BrowserTab>, k: nat, links: seq<Entry>, item: Entry)
    requires k < |tabs| && ForgetAll(links) == WindowLinks(tabs[..k]) && Forget(item) == TabLink(tabs[k])
    ensures ForgetAll(links + (if Savable(tabs[k]) then [item] else [])) == WindowLinks(tabs[..k + 1])
  {
    assert tabs[..k + 1][..k] == tabs[..k];
    assert ForgetAll(links + [item]) == ForgetAll(links) + [Forget(item)];
    assert links + [] == links;
  }

  /** An id drawn outside everything drawn so far keeps the ids fresh. */
  lemma FreshIdsSnoc(links: seq<Entry>, used: seq<string>, drawn: seq<string>, item: Entry)
    requires FreshIds(links, used)
    requires forall x :: x in used ==> x in drawn
    requires forall m :: 0 <= m < |links| ==> links[m].id in drawn
    requires item.id != "" && item.id !in drawn
    ensures FreshIds(links + [item], used)
  {
  }
}
