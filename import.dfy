/** `importData` (sidepanel.js:395-429): the backup text read line by line
    into the mapping, and what reading back an exported backup gives. */
module Import {
  import opened Wrappers
  import opened Strings
  import opened Workspaces
  import opened Markdown

  /** The loop's variables: the mapping, `currentWs` ("" for `null`), and
      whether `currentLink` is set. `currentLink` is always the last entry
      of `currentWs`, so a flag is enough to say which entry it is. */
  datatype ScanState = ScanState(data: Mapping, cur: string, linked: bool)

  /** A note line under `currentLink`: its text is appended unless the
      entry already has it. */
  function AddImportedNote(d: Mapping, name: string, note: string): Mapping {
    match Find(d, name)
    case None => d
    case Some(i) =>
      var tabs := d[i].tabs;
      if tabs == [] || note in tabs[|tabs| - 1].notes then d
      else
        var last := tabs[|tabs| - 1];
        WithTabs(d, i, tabs[..|tabs| - 1] + [last.(notes := last.notes + [note])])
  }

  /** What the three patterns make of one line. */
  datatype Parsed = Parsed(heading: Option<string>, link: Option<Link>, note: Option<string>)

  function Parse(line: string): Parsed {
    Parsed(HeadingName(line), LinkMatch(line), NoteText(line))
  }

  /** One turn of the loop: a heading first; then a link, only under a
      workspace; then a note, only under a link. Any other line is skipped. */
  function StepParsed(st: ScanState, p: Parsed): ScanState {
    match p.heading
    case Some(n) =>
      if n in Names(st.data) then ScanState(st.data, n, false)
      else
        AppendKeepsMapping(st.data, Workspace(n, []));
        ScanState(st.data + [Workspace(n, [])], n, false)
    case None =>
      if p.link.Some? && st.cur != "" then
        var e := Entry(FreshId(AllIds(st.data)), "tab", p.link.value.url, p.link.value.title, []);
        ScanState(AppendEntry(st.data, st.cur, e), st.cur, true)
      else if p.note.Some? && st.linked then
        ScanState(AddImportedNote(st.data, st.cur, p.note.value), st.cur, true)
      else st
  }

  function ParseAll(lines: seq<string>): (r: seq<Parsed>)
    ensures |r| == |lines|
  {
    seq(|lines|, k requires 0 <= k < |lines| => Parse(lines[k]))
  }

  /** The loop over the parsed lines, in order. */
  function Scan(st: ScanState, ps: seq<Parsed>): ScanState {
    if ps == [] then st else StepParsed(Scan(st, ps[..|ps| - 1]), ps[|ps| - 1])
  }

  /** The mapping after importing `text` into `d`. */
  function ImportResult(d: Mapping, text: string): Mapping {
    Scan(ScanState(d, "", false), ParseAll(Split(text, '\n'))).data
  }

  /** One more line: the scan of the first `k + 1` lines is one step past
      the scan of the first `k`. */
  lemma ScanStep(st: ScanState, ps: seq<Parsed>, k: nat)
    requires k < |ps|
    ensures Scan(st, ps[..k + 1]) == StepParsed(Scan(st, ps[..k]), ps[k])
  {
    assert ps[..k + 1][..k] == ps[..k];
  }

  lemma {:induction false} ScanConcat(st: ScanState, a: seq<Parsed>, b: seq<Parsed>)
    ensures Scan(st, a + b) == Scan(Scan(st, a), b)
    decreases |b|
  {
    if b == [] {
      assert a + b == a;
    } else {
      var b' := b[..|b| - 1];
      assert (a + b)[..|a + b| - 1] == a + b';
      ScanConcat(st, a, b');
    }
  }

  lemma ParseAllConcat(a: seq<string>, b: seq<string>)
    ensures ParseAll(a + b) == ParseAll(a) + ParseAll(b)
  {
  }

  // ---------------------------------------------------------------------
  // Import only adds

  /** `r` holds every workspace of `d` at its position, each with its old
      entries, unchanged, at the front of its list. */
  predicate Extends(d: seq<Workspace>, r: seq<Workspace>) {
    && |r| >= |d|
    && forall i :: 0 <= i < |d| ==>
      && r[i].name == d[i].name
      && |r[i].tabs| >= |d[i].tabs|
      && r[i].tabs[..|d[i].tabs|] == d[i].tabs
  }

  /** What the loop keeps true: the old data is intact, `currentWs` is a
      key, and `currentLink` is an entry this import added. */
  predicate ScanInv(d: seq<Workspace>, st: ScanState) {
    && Extends(d, st.data)
    && (st.cur != "" ==> st.cur in Names(st.data))
    && (st.linked ==> st.cur != "" && StartedHere(d, st.data, st.cur))
  }

  /** The last entry of `name` in `r` was not there in `d`. */
  predicate StartedHere(d: seq<Workspace>, r: Mapping, name: string) {
    match Find(r, name)
    case None => false
    case Some(i) => |r[i].tabs| > (if i < |d| then |d[i].tabs| else 0)
  }

  lemma ExtendsWithTabs(d: seq<Workspace>, r: Mapping, i: nat, tabs: seq<Entry>)
    requires Extends(d, r) && i < |r|
    requires i < |d| ==> |tabs| >= |d[i].tabs| && tabs[..|d[i].tabs|] == d[i].tabs
    ensures Extends(d, WithTabs(r, i, tabs))
  {
  }

  lemma StepKeepsInv(d: seq<Workspace>, st: ScanState, p: Parsed)
    requires ScanInv(d, st)
    ensures ScanInv(d, StepParsed(st, p))
  {
    match p.heading
    case Some(n) =>
      if n !in Names(st.data) {
        var r := st.data + [Workspace(n, [])];
        assert Names(r) == Names(st.data) + [n];
      }
    case None =>
      if p.link.Some? && st.cur != "" {
        LinkKeepsInv(d, st, p.link.value);
      } else if p.note.Some? && st.linked {
        NoteKeepsInv(d, st, p.note.value);
      }
  }

  /** A link line adds an entry this import started. */
  lemma LinkKeepsInv(d: seq<Workspace>, st: ScanState, link: Link)
    requires ScanInv(d, st) && st.cur != ""
    ensures var e := Entry(FreshId(AllIds(st.data)), "tab", link.url, link.title, []);
      ScanInv(d, ScanState(AppendEntry(st.data, st.cur, e), st.cur, true))
  {
    var e := Entry(FreshId(AllIds(st.data)), "tab", link.url, link.title, []);
    var i := Find(st.data, st.cur).value;
    var tabs := st.data[i].tabs + [e];
    assert i < |d| ==> tabs[..|d[i].tabs|] == st.data[i].tabs[..|d[i].tabs|];
    ExtendsWithTabs(d, st.data, i, tabs);
    WithTabsFacts(st.data, i, tabs);
    FindKey(WithTabs(st.data, i, tabs), i);
  }

  /** A note line only touches the entry this import started last. */
  lemma NoteKeepsInv(d: seq<Workspace>, st: ScanState, note: string)
    requires ScanInv(d, st) && st.linked
    ensures ScanInv(d, ScanState(AddImportedNote(st.data, st.cur, note), st.cur, true))
  {
    var i := Find(st.data, st.cur).value;
    var tabs := st.data[i].tabs;
    if !(tabs == [] || note in tabs[|tabs| - 1].notes) {
      var last := tabs[|tabs| - 1];
      var tabs' := tabs[..|tabs| - 1] + [last.(notes := last.notes + [note])];
      var kept := if i < |d| then |d[i].tabs| else 0;
      assert kept < |tabs|;
      LastReplaced(tabs, last.(notes := last.notes + [note]), kept);
      ExtendsWithTabs(d, st.data, i, tabs');
      var r := WithTabs(st.data, i, tabs');
      assert r == AddImportedNote(st.data, st.cur, note);
      WithTabsFacts(st.data, i, tabs');
      FindKey(r, i);
      assert StartedHere(d, r, st.cur);
    }
  }

  /** Replacing the last element keeps every shorter prefix. */
  lemma LastReplaced<T>(s: seq<T>, x: T, m: nat)
    requires m < |s|
    ensures |s[..|s| - 1] + [x]| == |s| && (s[..|s| - 1] + [x])[..m] == s[..m]
  {
  }

  lemma {:induction false} ScanKeepsInv(d: seq<Workspace>, st: ScanState, ps: seq<Parsed>)
    requires ScanInv(d, st)
    ensures ScanInv(d, Scan(st, ps))
    decreases |ps|
  {
    if ps != [] {
      ScanKeepsInv(d, st, ps[..|ps| - 1]);
      StepKeepsInv(d, Scan(st, ps[..|ps| - 1]), ps[|ps| - 1]);
    }
  }

  /** Importing never removes, renames, reorders or edits what was there:
      each old workspace keeps its place and its entries, which stay at the
      front of its list; the file only adds workspaces, entries after them,
      and notes to entries it added. */
  lemma ImportPreserves(d: Mapping, text: string)
    ensures Extends(d, ImportResult(d, text))
  {
    ScanKeepsInv(d, ScanState(d, "", false), ParseAll(Split(text, '\n')));
  }

  // ---------------------------------------------------------------------
  // Reading back an export

  /** A note that reads back as itself. */
  predicate NoteExportable(note: string) {
    note != "" && IsTrimmed(note) && NoLineTerminator(note) && note[0] != '['
  }

  /** An entry whose link line and note lines read back as written. */
  predicate EntryExportable(e: Entry) {
    && NoLineTerminator(e.title) && NoLineTerminator(e.url) && ')' !in e.url
    && (forall k :: 0 <= k < |e.notes| ==> NoteExportable(e.notes[k]))
    && (forall j, k :: 0 <= j < k < |e.notes| ==> e.notes[j] != e.notes[k])
  }

  predicate WorkspaceExportable(w: Workspace) {
    && w.name != "" && IsTrimmed(w.name) && NoLineTerminator(w.name)
    && forall k :: 0 <= k < |w.tabs| ==> EntryExportable(w.tabs[k])
  }

  /** The entry an import creates from an exported one, id aside. */
  function ExpectedEntry(e: Entry): Entry {
    Entry("", "tab", e.url, CleanTitle(e.title), e.notes)
  }

  /** The tabs a workspace's block reads back as: tab entries only, in order. */
  function ExpectedTabs(tabs: seq<Entry>): seq<Entry> {
    if tabs == [] then []
    else
      var e := tabs[|tabs| - 1];
      ExpectedTabs(tabs[..|tabs| - 1]) + (if e.kind == "tab" then [ExpectedEntry(e)] else [])
  }

  function Expected(d: seq<Workspace>): seq<Workspace> {
    seq(|d|, i requires 0 <= i < |d| => Workspace(d[i].name, ExpectedTabs(d[i].tabs)))
  }

  lemma ForgetAllConcat(a: seq<Entry>, b: seq<Entry>)
    ensures ForgetAll(a + b) == ForgetAll(a) + ForgetAll(b)
  {
  }

  /** What the written lines parse as. */
  const Blank := Parsed(None, None, None)

  function NoteParses(notes: seq<string>): (r: seq<Parsed>)
    ensures |r| == |notes|
  {
    seq(|notes|, k requires 0 <= k < |notes| => Parsed(None, None, Some(notes[k])))
  }

  function ItemParses(e: Entry): seq<Parsed> {
    if e.kind == "tab" then [Parsed(None, Some(Link(CleanTitle(e.title), e.url)), None)] + NoteParses(e.notes)
    else []
  }

  function ItemsParses(tabs: seq<Entry>): seq<Parsed> {
    if tabs == [] then [] else ItemsParses(tabs[..|tabs| - 1]) + ItemParses(tabs[|tabs| - 1])
  }

  function BlockParses(w: Workspace): seq<Parsed> {
    [Parsed(Some(w.name), None, None)] + ItemsParses(w.tabs) + [Blank]
  }

  lemma ParseOne(line: string, p: Parsed)
    requires Parse(line) == p
    ensures ParseAll([line]) == [p]
  {
  }

  lemma ParseNotes(notes: seq<string>)
    requires forall k :: 0 <= k < |notes| ==> NoteExportable(notes[k])
    ensures ParseAll(NoteLines(notes)) == NoteParses(notes)
  {
    forall k | 0 <= k < |notes| ensures ParseAll(NoteLines(notes))[k] == NoteParses(notes)[k] {
      ReadNote(notes[k]);
    }
  }

  lemma ParseItem(e: Entry)
    requires EntryExportable(e)
    ensures ParseAll(ItemLines(e)) == ItemParses(e)
  {
    if e.kind == "tab" {
      ReadLink(e);
      ParseOne(LinkLine(e), Parsed(None, Some(Link(CleanTitle(e.title), e.url)), None));
      ParseNotes(e.notes);
      ParseAllConcat([LinkLine(e)], NoteLines(e.notes));
    }
  }

  lemma {:induction false} ParseItems(tabs: seq<Entry>)
    requires forall k :: 0 <= k < |tabs| ==> EntryExportable(tabs[k])
    ensures ParseAll(ItemsLines(tabs)) == ItemsParses(tabs)
    decreases |tabs|
  {
    if tabs != [] {
      ParseItems(tabs[..|tabs| - 1]);
      ParseItem(tabs[|tabs| - 1]);
      ParseAllConcat(ItemsLines(tabs[..|tabs| - 1]), ItemLines(tabs[|tabs| - 1]));
    }
  }

  lemma ParseBlock(w: Workspace)
    requires WorkspaceExportable(w)
    ensures ParseAll(BlockLines(w)) == BlockParses(w)
  {
    var h := HeadingLine(w.name);
    ReadHeading(w.name);
    ParseOne(h, Parsed(Some(w.name), None, None));
    BlankLine();
    ParseOne("", Blank);
    ParseItems(w.tabs);
    ParseAllConcat([h], ItemsLines(w.tabs));
    ParseAllConcat([h] + ItemsLines(w.tabs), [""]);
  }

  /** The last workspace `n`, with list `tabs`, after some `prefix`. */
  predicate EndsWith(st: ScanState, prefix: seq<Workspace>, n: string, tabs: seq<Entry>) {
    st.data == prefix + [Workspace(n, tabs)] && st.cur == n && n != ""
  }

  lemma FindLast(prefix: seq<Workspace>, d: Mapping, n: string, tabs: seq<Entry>)
    requires d == prefix + [Workspace(n, tabs)]
    ensures Find(d, n) == Some(|prefix|)
  {
    FindKey(d, |prefix|);
  }

  /** Reading note lines under a link appends them, when they are new. */
  lemma {:induction false} ScanNotes(st: ScanState, prefix: seq<Workspace>, n: string, tabs: seq<Entry>,
                                     e: Entry, notes: seq<string>)
    requires EndsWith(st, prefix, n, tabs + [e]) && st.linked
    requires forall j, k :: 0 <= j < k < |notes| ==> notes[j] != notes[k]
    requires forall k :: 0 <= k < |notes| ==> notes[k] !in e.notes
    ensures var r := Scan(st, NoteParses(notes));
      EndsWith(r, prefix, n, tabs + [e.(notes := e.notes + notes)]) && r.linked
    decreases |notes|
  {
    if notes == [] {
      assert e.(notes := e.notes + notes) == e;
    } else {
      var init := notes[..|notes| - 1];
      var x := notes[|notes| - 1];
      assert NoteParses(notes)[..|notes| - 1] == NoteParses(init);
      ScanNotes(st, prefix, n, tabs, e, init);
      var e1 := e.(notes := e.notes + init);
      assert x !in e1.notes;
      ScanNoteStep(Scan(st, NoteParses(init)), prefix, n, tabs, e1, x);
      assert e1.notes + [x] == e.notes + notes;
    }
  }

  /** One new note line under the last entry appends the note to it. */
  lemma ScanNoteStep(st: ScanState, prefix: seq<Workspace>, n: string, tabs: seq<Entry>, e: Entry, x: string)
    requires EndsWith(st, prefix, n, tabs + [e]) && st.linked && x !in e.notes
    ensures var r := StepParsed(st, Parsed(None, None, Some(x)));
      EndsWith(r, prefix, n, tabs + [e.(notes := e.notes + [x])]) && r.linked
  {
    FindLast(prefix, st.data, n, tabs + [e]);
    var i := |prefix|;
    assert st.data[i].tabs == tabs + [e];
    assert (tabs + [e])[..|tabs|] == tabs;
    var tabs' := tabs + [e.(notes := e.notes + [x])];
    assert AddImportedNote(st.data, n, x) == WithTabs(st.data, i, tabs');
    assert WithTabs(st.data, i, tabs') == prefix + [Workspace(n, tabs')];
  }

  /** A link line under the last workspace appends a new entry to it. */
  lemma ScanLinkStep(st: ScanState, prefix: seq<Workspace>, n: string, tabs: seq<Entry>, link: Link)
    requires EndsWith(st, prefix, n, tabs)
    ensures var r := StepParsed(st, Parsed(None, Some(link), None));
      var e := Entry(FreshId(AllIds(st.data)), "tab", link.url, link.title, []);
      EndsWith(r, prefix, n, tabs + [e]) && r.linked
  {
    FindLast(prefix, st.data, n, tabs);
    var e := Entry(FreshId(AllIds(st.data)), "tab", link.url, link.title, []);
    var i := |prefix|;
    assert st.data[i].tabs == tabs;
    assert AppendEntry(st.data, n, e) == WithTabs(st.data, i, tabs + [e]);
    assert WithTabs(st.data, i, tabs + [e]) == prefix + [Workspace(n, tabs + [e])];
  }

  /** Reading one entry's lines adds what `ExpectedTabs` says, id aside. */
  lemma ScanItem(st: ScanState, prefix: seq<Workspace>, n: string, tabs: seq<Entry>, e: Entry)
    returns (added: seq<Entry>)
    requires EndsWith(st, prefix, n, tabs) && EntryExportable(e)
    ensures EndsWith(Scan(st, ItemParses(e)), prefix, n, tabs + added)
    ensures ForgetAll(added) == ExpectedTabs([e])
  {
    assert ExpectedTabs([e]) == ExpectedTabs([]) + (if e.kind == "tab" then [ExpectedEntry(e)] else []);
    if e.kind != "tab" {
      added := [];
      assert tabs + [] == tabs;
    } else {
      var head := Parsed(None, Some(Link(CleanTitle(e.title), e.url)), None);
      var s1 := StepParsed(st, head);
      var e1 := Entry(FreshId(AllIds(st.data)), "tab", e.url, CleanTitle(e.title), []);
      ScanLinkStep(st, prefix, n, tabs, Link(CleanTitle(e.title), e.url));
      assert Scan(st, [head]) == s1;
      ScanConcat(st, [head], NoteParses(e.notes));
      ScanNotes(s1, prefix, n, tabs, e1, e.notes);
      added := [e1.(notes := e.notes)];
      assert e1.(notes := e1.notes + e.notes) == added[0];
      assert tabs + added == tabs + [added[0]];
      assert ForgetAll(added) == [ExpectedEntry(e)];
    }
  }

  lemma ExpectedTabsSnoc(init: seq<Entry>, e: Entry)
    ensures ExpectedTabs(init + [e]) == ExpectedTabs(init) + ExpectedTabs([e])
  {
    assert (init + [e])[..|init|] == init;
    assert [e][..0] == [];
  }

  /** Reading a workspace's entry lines adds what `ExpectedTabs` says, id aside. */
  lemma {:induction false} ScanItems(st: ScanState, prefix: seq<Workspace>, n: string, tabs: seq<Entry>,
                                     items: seq<Entry>)
    returns (added: seq<Entry>)
    requires EndsWith(st, prefix, n, tabs)
    requires forall k :: 0 <= k < |items| ==> EntryExportable(items[k])
    ensures EndsWith(Scan(st, ItemsParses(items)), prefix, n, tabs + added)
    ensures ForgetAll(added) == ExpectedTabs(items)
    decreases |items|
  {
    if items == [] {
      added := [];
      assert tabs + [] == tabs;
    } else {
      var init := items[..|items| - 1];
      var e := items[|items| - 1];
      var a1 := ScanItems(st, prefix, n, tabs, init);
      var s1 := Scan(st, ItemsParses(init));
      var a2 := ScanItem(s1, prefix, n, tabs + a1, e);
      assert ItemsParses(items) == ItemsParses(init) + ItemParses(e);
      ScanConcat(st, ItemsParses(init), ItemParses(e));
      SeqAssoc(tabs, a1, a2);
      ForgetAllConcat(a1, a2);
      assert init + [e] == items;
      ExpectedTabsSnoc(init, e);
      added := a1 + a2;
    }
  }

  lemma NamesOfForget(d: seq<Workspace>)
    ensures Names(ForgetIds(d)) == Names(d) && Names(Expected(d)) == Names(d)
  {
  }

  /** Reading a workspace's block adds that workspace, at the end, with
      its expected entries. */
  lemma ScanBlock(st: ScanState, w: Workspace)
    requires WorkspaceExportable(w) && w.name !in Names(st.data)
    ensures ForgetIds(Scan(st, BlockParses(w)).data) == ForgetIds(st.data) + [Workspace(w.name, ExpectedTabs(w.tabs))]
  {
    var head := Parsed(Some(w.name), None, None);
    var s1 := StepParsed(st, head);
    assert Scan(st, [head]) == s1;
    assert EndsWith(s1, st.data, w.name, []);
    var added := ScanItems(s1, st.data, w.name, [], w.tabs);
    var s2 := Scan(s1, ItemsParses(w.tabs));
    ScanConcat(st, [head], ItemsParses(w.tabs));
    ScanConcat(st, [head] + ItemsParses(w.tabs), [Blank]);
    assert Scan(s2, [Blank]) == s2;
    assert [] + added == added;
    assert s2.data == st.data + [Workspace(w.name, added)];
    ForgetIdsConcat(st.data, [Workspace(w.name, added)]);
    assert ForgetIds([Workspace(w.name, added)]) == [Workspace(w.name, ForgetAll(added))];
  }

  lemma ForgetIdsConcat(a: seq<Workspace>, b: seq<Workspace>)
    ensures ForgetIds(a + b) == ForgetIds(a) + ForgetIds(b)
  {
  }

  lemma ExpectedSnoc(d: seq<Workspace>, j: nat)
    requires 0 < j <= |d|
    ensures Expected(d[..j]) == Expected(d[..j - 1]) + [Workspace(d[j - 1].name, ExpectedTabs(d[j - 1].tabs))]
  {
  }

  lemma SeqAssoc<T>(a: seq<T>, b: seq<T>, c: seq<T>)
    ensures (a + b) + c == a + (b + c)
  {
  }

  /** Reading the blocks of `d`'s first `j` workspaces adds them in order. */
  lemma {:induction false} ScanBlocks(st: ScanState, d: Mapping, j: nat)
    requires j <= |d|
    requires forall i :: 0 <= i < |d| ==> WorkspaceExportable(d[i]) && d[i].name !in Names(st.data)
    ensures ForgetIds(Scan(st, ParseAll(BlocksOf(d, Names(d)[..j]))).data) == ForgetIds(st.data) + Expected(d[..j])
    decreases j
  {
    if j == 0 {
      assert Names(d)[..0] == [];
      assert d[..0] == [];
    } else {
      ScanBlocks(st, d, j - 1);
      var before := ParseAll(BlocksOf(d, Names(d)[..j - 1]));
      var s1 := Scan(st, before);
      ParseBlocksSnoc(d, j);
      ScanConcat(st, before, BlockParses(d[j - 1]));
      BlockNameFresh(st, d, j, s1);
      ScanBlock(s1, d[j - 1]);
      ExpectedSnoc(d, j);
      SeqAssoc(ForgetIds(st.data), Expected(d[..j - 1]), [Workspace(d[j - 1].name, ExpectedTabs(d[j - 1].tabs))]);
    }
  }

  lemma ParseBlocksSnoc(d: Mapping, j: nat)
    requires 0 < j <= |d| && WorkspaceExportable(d[j - 1])
    ensures ParseAll(BlocksOf(d, Names(d)[..j])) == ParseAll(BlocksOf(d, Names(d)[..j - 1])) + BlockParses(d[j - 1])
  {
    BlocksOfSnoc(d, Names(d), j - 1);
    assert Names(d)[j - 1] == d[j - 1].name;
    FindKey(d, j - 1);
    var before := BlocksOf(d, Names(d)[..j - 1]);
    ParseAllConcat(before, BlockLines(d[j - 1]));
    ParseBlock(d[j - 1]);
  }

  lemma BlockNameFresh(st: ScanState, d: Mapping, j: nat, s1: ScanState)
    requires 0 < j <= |d|
    requires forall i :: 0 <= i < |d| ==> d[i].name !in Names(st.data)
    requires ForgetIds(s1.data) == ForgetIds(st.data) + Expected(d[..j - 1])
    ensures d[j - 1].name !in Names(s1.data)
  {
    NamesOfForget(s1.data);
    NamesOfForget(st.data);
    NamesOfForget(d[..j - 1]);
    assert Names(s1.data) == Names(st.data) + Names(d[..j - 1]);
    assert Names(d[..j - 1]) == Names(d)[..j - 1];
    assert d[j - 1].name !in Names(d)[..j - 1] by {
      forall i | 0 <= i < j - 1 ensures Names(d)[i] != Names(d)[j - 1] {}
    }
  }

  /** Every line the export writes is free of line feeds. */
  lemma ExportLinesFeedFree(d: Mapping)
    requires forall i :: 0 <= i < |d| ==> WorkspaceExportable(d[i])
    ensures forall k :: 0 <= k < |ExportLines(d, "")| ==> '\n' !in ExportLines(d, "")[k]
  {
    BlocksFeedFree(d, Names(d));
  }

  lemma {:induction false} BlocksFeedFree(d: Mapping, names: seq<string>)
    requires forall i :: 0 <= i < |d| ==> WorkspaceExportable(d[i])
    ensures forall k :: 0 <= k < |BlocksOf(d, names)| ==> '\n' !in BlocksOf(d, names)[k]
    decreases |names|
  {
    if names != [] {
      BlocksFeedFree(d, names[..|names| - 1]);
      match Find(d, names[|names| - 1])
      case None =>
      case Some(i) => BlockFeedFree(d[i]);
    }
  }

  lemma BlockFeedFree(w: Workspace)
    requires WorkspaceExportable(w)
    ensures forall k :: 0 <= k < |BlockLines(w)| ==> '\n' !in BlockLines(w)[k]
  {
    assert HeadingLine(w.name)[0] == '#';
    assert '\n' !in HeadingLine(w.name) by {
      forall c | 0 <= c < |w.name| ensures HeadingLine(w.name)[c + 2] == w.name[c] {}
    }
    ItemsFeedFree(w.tabs);
  }

  lemma {:induction false} ItemsFeedFree(tabs: seq<Entry>)
    requires forall k :: 0 <= k < |tabs| ==> EntryExportable(tabs[k])
    ensures forall k :: 0 <= k < |ItemsLines(tabs)| ==> '\n' !in ItemsLines(tabs)[k]
    decreases |tabs|
  {
    if tabs != [] {
      ItemsFeedFree(tabs[..|tabs| - 1]);
      ItemFeedFree(tabs[|tabs| - 1]);
    }
  }

  lemma ItemFeedFree(e: Entry)
    requires EntryExportable(e)
    ensures forall k :: 0 <= k < |ItemLines(e)| ==> '\n' !in ItemLines(e)[k]
  {
    if e.kind == "tab" {
      var t := CleanTitle(e.title);
      StripBracketsKeepsLines(if e.title == "" then "Link" else e.title);
      var line := LinkLine(e);
      assert '\n' !in line by {
        forall c | 0 <= c < |line| ensures line[c] != '\n' {
          if 3 <= c < 3 + |t| { assert line[c] == t[c - 3]; }
          else if 5 + |t| <= c < 5 + |t| + |e.url| { assert line[c] == e.url[c - 5 - |t|]; }
        }
      }
      forall k | 0 <= k < |e.notes| ensures '\n' !in NoteLine(e.notes[k]) {
        var note := e.notes[k];
        forall c | 0 <= c < |NoteLine(note)| ensures NoteLine(note)[c] != '\n' {
          if c >= 4 { assert NoteLine(note)[c] == note[c - 4]; }
        }
      }
    }
  }

  /** Every workspace is exportable in the sense of reading back. */
  predicate Exportable(d: seq<Workspace>) {
    forall i :: 0 <= i < |d| ==> WorkspaceExportable(d[i])
  }

  /** Exporting everything and importing the file into a mapping that
      shares no key with it appends every workspace, in order, with every
      tab entry: the cleaned title, the URL and the notes come back; only
      the ids are new. */
  lemma ExportImportRoundTrip(d0: Mapping, d: Mapping)
    requires Exportable(d)
    requires forall i :: 0 <= i < |d| ==> d[i].name !in Names(d0)
    ensures ForgetIds(ImportResult(d0, ExportText(d, ""))) == ForgetIds(d0) + Expected(d)
  {
    var st := ScanState(d0, "", false);
    var ps := ParseAll(BlocksOf(d, Names(d)));
    ExportParses(d);
    BlanksSkipped(st, ps);
    TakeAll(Names(d), |d|);
    TakeAll(d, |d|);
    ScanBlocks(st, d, |d|);
  }

  /** The lines of a full export parse as two blank lines, the blocks, and
      the empty piece after the last line feed. */
  lemma ExportParses(d: Mapping)
    requires Exportable(d)
    ensures ParseAll(Split(ExportText(d, ""), '\n')) == [Blank, Blank] + ParseAll(BlocksOf(d, Names(d))) + [Blank]
  {
    var lines := ExportLines(d, "");
    var blocks := BlocksOf(d, Names(d));
    ExportLinesFeedFree(d);
    SplitTerminated(lines);
    assert Split(ExportText(d, ""), '\n') == lines + [""];
    assert lines + [""] == ["", ""] + blocks + [""];
    BlankLine();
    ParseOne("", Blank);
    ParseAllConcat([""], [""]);
    assert ["", ""] == [""] + [""];
    assert ParseAll(["", ""]) == [Blank, Blank];
    ParseAllConcat(["", ""], blocks);
    ParseAllConcat(["", ""] + blocks, [""]);
  }

  /** Blank lines leave the scan where it was. */
  lemma BlanksSkipped(st: ScanState, ps: seq<Parsed>)
    ensures Scan(st, [Blank, Blank] + ps + [Blank]) == Scan(st, ps)
  {
    ScanConcat(st, [Blank, Blank], ps);
    ScanConcat(st, [Blank, Blank] + ps, [Blank]);
    assert [Blank, Blank][..1] == [Blank];
    assert Scan(st, [Blank]) == st;
    assert Scan(st, [Blank, Blank]) == st;
  }

  /** When every entry is a tab with a non-empty title that has no square
      brackets, the round trip gives back the mapping itself, ids aside. */
  lemma ExportImportIdentity(d: Mapping)
    requires Exportable(d)
    requires forall i, k :: 0 <= i < |d| && 0 <= k < |d[i].tabs| ==>
      var e := d[i].tabs[k]; e.kind == "tab" && e.title != "" && '[' !in e.title && ']' !in e.title
    ensures ForgetIds(ImportResult([], ExportText(d, ""))) == ForgetIds(d)
  {
    ExportImportRoundTrip([], d);
    ExpectedPlain(d);
    assert ForgetIds([]) == [];
    assert [] + Expected(d) == Expected(d);
  }

  /** With only titled, bracket-free tabs, the expected import is the mapping, ids aside. */
  lemma ExpectedPlain(d: seq<Workspace>)
    requires forall i, k :: 0 <= i < |d| && 0 <= k < |d[i].tabs| ==>
      var e := d[i].tabs[k]; e.kind == "tab" && e.title != "" && '[' !in e.title && ']' !in e.title
    ensures Expected(d) == ForgetIds(d)
  {
    forall i | 0 <= i < |d| ensures Expected(d)[i] == ForgetIds(d)[i] {
      ExpectedTabsPlain(d[i].tabs);
    }
  }

  lemma {:induction false} ExpectedTabsPlain(tabs: seq<Entry>)
    requires forall k :: 0 <= k < |tabs| ==>
      tabs[k].kind == "tab" && tabs[k].title != "" && '[' !in tabs[k].title && ']' !in tabs[k].title
    ensures ExpectedTabs(tabs) == ForgetAll(tabs)
    decreases |tabs|
  {
    if tabs != [] {
      var init := tabs[..|tabs| - 1];
      var e := tabs[|tabs| - 1];
      ExpectedTabsPlain(init);
      StripBracketsIdentity(e.title);
      assert tabs == init + [e];
      ForgetAllConcat(init, [e]);
    }
  }

  /** A note line that repeats one of the current entry's notes adds nothing. */
  lemma NoteDeduplicated(st: ScanState, note: string)
    requires st.linked && st.cur != ""
    requires match Find(st.data, st.cur)
      case None => false
      case Some(i) => st.data[i].tabs != [] && note in st.data[i].tabs[|st.data[i].tabs| - 1].notes
    ensures StepParsed(st, Parsed(None, None, Some(note))) == st
  {
  }

  /** Reading the same note lines twice under one link adds them once. */
  lemma {:induction false} NotesIdempotent(st: ScanState, prefix: seq<Workspace>, n: string, tabs: seq<Entry>,
                                           e: Entry, notes: seq<string>)
    requires EndsWith(st, prefix, n, tabs + [e]) && st.linked
    requires forall k :: 0 <= k < |notes| ==> notes[k] in e.notes
    ensures Scan(st, NoteParses(notes)) == st
    decreases |notes|
  {
    if notes != [] {
      var init := notes[..|notes| - 1];
      assert NoteParses(notes)[..|notes| - 1] == NoteParses(init);
      NotesIdempotent(st, prefix, n, tabs, e, init);
      FindLast(prefix, st.data, n, tabs + [e]);
    }
  }
}
