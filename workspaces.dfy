/** The persisted data model: the `workspaces` record of extension storage,
    an ordered mapping from workspace name to `{ tabs: [ entry ] }`. */
module Workspaces {
  import opened Wrappers
  import opened Strings

  /** One saved link, an element of a workspace's `tabs` array. A missing
      `id` (a legacy record) is the empty string; `kind` is the `type`
      property, `'tab'` for every link the extension itself creates. */
  datatype Entry = Entry(id: string, kind: string, url: string, title: string, notes: seq<string>)

  /** One key of the mapping with its `tabs` list. */
  datatype Workspace = Workspace(name: string, tabs: seq<Entry>)

  function Names(d: seq<Workspace>): seq<string> {
    seq(|d|, i requires 0 <= i < |d| => d[i].name)
  }

  predicate NamesDistinct(d: seq<Workspace>) {
    forall i, j :: 0 <= i < j < |d| ==> d[i].name != d[j].name
  }

  /** A JavaScript object used as a dictionary: its keys are distinct, and
      they are enumerated in insertion order. */
  type Mapping = d: seq<Workspace> | NamesDistinct(d) witness []

  /** Position of the workspace `name` (`allData[name]`), if present. */
  function Find(d: seq<Workspace>, name: string): (r: Option<nat>)
    ensures r.Some? ==> r.value < |d| && d[r.value].name == name
    ensures r.Some? ==> forall j :: 0 <= j < r.value ==> d[j].name != name
    ensures r.None? <==> name !in Names(d)
  {
    if d == [] then None
    else if d[0].name == name then
      assert Names(d)[0] == name;
      Some(0)
    else
      match Find(d[1..], name)
      case None =>
        assert Names(d) == [d[0].name] + Names(d[1..]);
        None
      case Some(i) =>
        assert Names(d)[i + 1] == name;
        Some(i + 1)
  }

  /** In a mapping, every key is found at its own position. */
  lemma FindKey(d: Mapping, i: nat)
    requires i < |d|
    ensures Find(d, d[i].name) == Some(i)
  {
    assert Names(d)[i] == d[i].name;
  }

  /** Replacing one workspace by one with the same name keeps a mapping. */
  lemma UpdateKeepsMapping(d: Mapping, i: nat, w: Workspace)
    requires i < |d| && w.name == d[i].name
    ensures NamesDistinct(d[i := w])
  {
  }

  /** Adding a workspace under a name not yet used keeps a mapping. */
  lemma AppendKeepsMapping(d: Mapping, w: Workspace)
    requires w.name !in Names(d)
    ensures NamesDistinct(d + [w])
  {
    forall i | 0 <= i < |d| ensures d[i].name != w.name { assert d[i].name == Names(d)[i]; }
  }


  /** The `tabs` list of workspace `name` (`allData[name].tabs`); empty when absent. */
  function TabsOf(d: seq<Workspace>, name: string): seq<Entry> {
    match Find(d, name)
    case None => []
    case Some(i) => d[i].tabs
  }

  /** The mapping with the list of the workspace at `i` replaced. */
  function WithTabs(d: Mapping, i: nat, tabs: seq<Entry>): Mapping
    requires i < |d|
  {
    UpdateKeepsMapping(d, i, d[i].(tabs := tabs));
    d[i := d[i].(tabs := tabs)]
  }

  /** Removing one workspace keeps a mapping. */
  lemma RemoveKeepsMapping(d: Mapping, i: nat)
    requires i < |d|
    ensures NamesDistinct(d[..i] + d[i + 1..])
  {
    var r := d[..i] + d[i + 1..];
    forall a, b | 0 <= a < b < |r| ensures r[a].name != r[b].name {
      var a', b' := if a < i then a else a + 1, if b < i then b else b + 1;
      assert r[a] == d[a'] && r[b] == d[b'];
    }
  }

  /** `allData[name].tabs.push(e)`; nothing happens when `name` is absent
      (where the source would fail on `undefined`). */
  function AppendEntry(d: Mapping, name: string, e: Entry): Mapping
  {
    match Find(d, name)
    case None => d
    case Some(i) => WithTabs(d, i, d[i].tabs + [e])
  }

  /** Appending touches only the target list, at its end, and adds exactly
      one entry to the multiset of all entries. */
  lemma AppendEntryFacts(d: Mapping, name: string, e: Entry)
    ensures |AppendEntry(d, name, e)| == |d| && Names(AppendEntry(d, name, e)) == Names(d)
    ensures name in Names(d) ==> TabsOf(AppendEntry(d, name, e), name) == TabsOf(d, name) + [e]
    ensures forall j :: 0 <= j < |d| && d[j].name != name ==> AppendEntry(d, name, e)[j] == d[j]
    ensures name in Names(d) ==> multiset(Flatten(AppendEntry(d, name, e))) == multiset(Flatten(d)) + multiset{e}
    ensures name !in Names(d) ==> AppendEntry(d, name, e) == d
  {
    match Find(d, name)
    case None =>
    case Some(i) =>
      var tabs := d[i].tabs + [e];
      WithTabsFacts(d, i, tabs);
      var r := WithTabs(d, i, tabs);
      assert r == AppendEntry(d, name, e);
      forall j | 0 <= j < |d| && d[j].name != name ensures r[j] == d[j] {
        assert j != i;
      }
      assert multiset(tabs) == multiset(d[i].tabs) + multiset{e};
      MultisetCancel(multiset(Flatten(r)), multiset(d[i].tabs), multiset(Flatten(d)) + multiset{e});
  }

  lemma MultisetCancel<T>(x: multiset<T>, a: multiset<T>, y: multiset<T>)
    requires x + a == y + a
    ensures x == y
  {
    forall t ensures x[t] == y[t] {
      assert (x + a)[t] == (y + a)[t];
    }
  }

  lemma WithTabsFacts(d: Mapping, i: nat, tabs: seq<Entry>)
    requires i < |d|
    ensures |WithTabs(d, i, tabs)| == |d| && Names(WithTabs(d, i, tabs)) == Names(d)
    ensures TabsOf(WithTabs(d, i, tabs), d[i].name) == tabs
    ensures forall j :: 0 <= j < |d| && j != i ==> WithTabs(d, i, tabs)[j] == d[j]
    ensures multiset(Flatten(WithTabs(d, i, tabs))) + multiset(d[i].tabs) == multiset(Flatten(d)) + multiset(tabs)
  {
    var r := WithTabs(d, i, tabs);
    assert forall j :: 0 <= j < |d| ==> Names(r)[j] == Names(d)[j];
    FindKey(r, i);
    FlattenUpdate(d, i, r[i]);
  }

  /** `Find` sees only the keys. */
  lemma {:induction false} FindSameNames(a: seq<Workspace>, b: seq<Workspace>, name: string)
    requires Names(a) == Names(b)
    ensures Find(a, name) == Find(b, name)
    decreases |a|
  {
    if a != [] {
      assert |b| == |Names(b)| == |a|;
      assert a[0].name == Names(a)[0] == b[0].name;
      assert Names(a[1..]) == Names(a)[1..] == Names(b[1..]);
      FindSameNames(a[1..], b[1..], name);
    }
  }

  /** Replacing a list does not move any key. */
  lemma FindWithTabs(d: Mapping, i: nat, tabs: seq<Entry>, name: string)
    requires i < |d|
    ensures Find(WithTabs(d, i, tabs), name) == Find(d, name)
  {
    WithTabsFacts(d, i, tabs);
    FindSameNames(WithTabs(d, i, tabs), d, name);
  }

  /** An entry with its id blanked: what an entry is apart from its identity. */
  function Forget(e: Entry): Entry {
    e.(id := "")
  }

  function ForgetAll(es: seq<Entry>): seq<Entry> {
    seq(|es|, k requires 0 <= k < |es| => Forget(es[k]))
  }

  /** Every entry of every workspace with its id blanked. */
  function ForgetIds(d: seq<Workspace>): seq<Workspace> {
    seq(|d|, i requires 0 <= i < |d| => d[i].(tabs := ForgetAll(d[i].tabs)))
  }

  /** Every entry of every workspace, workspace by workspace. */
  function Flatten(d: seq<Workspace>): seq<Entry> {
    if d == [] then [] else Flatten(d[..|d| - 1]) + d[|d| - 1].tabs
  }

  lemma {:induction false} FlattenConcat(a: seq<Workspace>, b: seq<Workspace>)
    ensures Flatten(a + b) == Flatten(a) + Flatten(b)
    decreases |b|
  {
    if b == [] {
      assert a + b == a;
    } else {
      assert (a + b)[..|a + b| - 1] == a + b[..|b| - 1];
      FlattenConcat(a, b[..|b| - 1]);
    }
  }

  lemma FlattenSingle(w: Workspace)
    ensures Flatten([w]) == w.tabs
  {
    assert [w][..0] == [];
  }

  /** The entries of `a + [w] + b` are those of `a`, of `w` and of `b`. */
  lemma FlattenSplit(a: seq<Workspace>, w: Workspace, b: seq<Workspace>)
    ensures Flatten(a + [w] + b) == Flatten(a) + w.tabs + Flatten(b)
  {
    FlattenConcat(a + [w], b);
    FlattenConcat(a, [w]);
    FlattenSingle(w);
  }

  /** Replacing the list of one workspace swaps its entries in the multiset
      of all entries and leaves the rest of that multiset alone. */
  lemma FlattenUpdate(d: seq<Workspace>, i: nat, w: Workspace)
    requires i < |d|
    ensures multiset(Flatten(d[i := w])) + multiset(d[i].tabs)
         == multiset(Flatten(d)) + multiset(w.tabs)
  {
    assert d == d[..i] + [d[i]] + d[i + 1..];
    assert d[i := w] == d[..i] + [w] + d[i + 1..];
    FlattenSplit(d[..i], d[i], d[i + 1..]);
    FlattenSplit(d[..i], w, d[i + 1..]);
  }

  /** Removing a workspace removes exactly its entries from the multiset of all entries. */
  lemma FlattenRemove(d: seq<Workspace>, i: nat)
    requires i < |d|
    ensures multiset(Flatten(d[..i] + d[i + 1..])) + multiset(d[i].tabs) == multiset(Flatten(d))
  {
    assert d == d[..i] + [d[i]] + d[i + 1..];
    FlattenSplit(d[..i], d[i], d[i + 1..]);
    FlattenConcat(d[..i], d[i + 1..]);
    var x, y, z := Flatten(d[..i]), d[i].tabs, Flatten(d[i + 1..]);
    assert multiset(x + y + z) == multiset(x) + multiset(y) + multiset(z);
    assert multiset(x + z) == multiset(x) + multiset(z);
  }

  function IdsOf(es: seq<Entry>): seq<string> {
    seq(|es|, k requires 0 <= k < |es| => es[k].id)
  }

  /** Every id in use anywhere in the mapping. */
  function AllIds(d: seq<Workspace>): seq<string> {
    IdsOf(Flatten(d))
  }

  function MaxLength(ss: seq<string>): (m: nat)
    ensures forall k :: 0 <= k < |ss| ==> |ss[k]| <= m
  {
    if ss == [] then 0
    else
      var m := MaxLength(ss[..|ss| - 1]);
      if |ss[|ss| - 1]| > m then |ss[|ss| - 1]| else m
  }

  /** The id supplier. It stands for `generateId()` (a timestamp and a random
      suffix): an id that is non-empty (truthy) and not among `used`, here a
      string longer than every id in use, so it cannot collide. */
  function FreshId(used: seq<string>): (id: string)
    ensures id != "" && id !in used
  {
    var id := seq(MaxLength(used) + 1, _ => 'i');
    assert forall k :: 0 <= k < |used| ==> |used[k]| < |id|;
    id
  }

  /** `chrome.storage.local`, holding the `workspaces` record. */
  class Storage {
    var workspaces: Mapping

    constructor (initial: Mapping)
      ensures workspaces == initial
    {
      workspaces := initial;
    }
  }
}
