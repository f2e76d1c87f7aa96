/** The side panel's search box (sidepanel.js:145-185): a case-insensitive
    substring search over every link's title, URL and notes. */
module Search {
  import opened Strings
  import opened Workspaces

  /** One result row: the entry and the workspace it is listed under. */
  datatype Hit = Hit(item: Entry, workspace: string)

  /** What the list area shows. */
  datatype View = AllWorkspaces | NoResults | Results(hits: seq<Hit>)

  /** `query.toLowerCase().trim()`. */
  function NormalizeQuery(query: string): string {
    Trim(Lower(query))
  }

  /** `` `${title} ${url} ${notes.join(' ')}`.toLowerCase() ``. */
  function SearchBase(e: Entry): string {
    Lower(e.title + " " + e.url + " " + Join(e.notes, " "))
  }

  predicate Matches(e: Entry, q: string) {
    e.kind == "tab" && Contains(SearchBase(e), q)
  }

  /** The hits among one workspace's entries, in list order. */
  function HitsIn(tabs: seq<Entry>, name: string, q: string): seq<Hit> {
    if tabs == [] then []
    else
      var e := tabs[|tabs| - 1];
      HitsIn(tabs[..|tabs| - 1], name, q) + (if Matches(e, q) then [Hit(e, name)] else [])
  }

  /** The hits of the whole mapping: workspaces in key order, entries in list order. */
  function Hits(d: seq<Workspace>, q: string): seq<Hit> {
    if d == [] then []
    else Hits(d[..|d| - 1], q) + HitsIn(d[|d| - 1].tabs, d[|d| - 1].name, q)
  }

  /** What typing `query` into the search box shows. */
  function SearchView(d: seq<Workspace>, query: string): View {
    var q := NormalizeQuery(query);
    if q == "" then AllWorkspaces
    else if Hits(d, q) == [] then NoResults
    else Results(Hits(d, q))
  }

  /** The inner `items.forEach` of `renderSearchResults`: the rows one
      workspace contributes. */
  method WorkspaceHits(items: seq<Entry>, name: string, q: string) returns (rows: seq<Hit>)
    ensures rows == HitsIn(items, name, q)
  {
    rows := [];
    var j := 0;
    while j < |items|
      invariant 0 <= j <= |items|
      invariant rows == HitsIn(items[..j], name, q)
    {
      var item := items[j];
      if item.kind == "tab" {
        var base := Lower(item.title + " " + item.url + " " + Join(item.notes, " "));
        var hit := IndexOf(base, q);
        if hit.Some? {
          rows := rows + [Hit(item, name)];
        }
      }
      assert items[..j + 1][..j] == items[..j];
      j := j + 1;
    }
    assert items[..j] == items;
  }

  /** `renderSearchResults`: the loop over the keys, in order. */
  method SearchResults(d: seq<Workspace>, query: string) returns (view: View)
    ensures view == SearchView(d, query)
  {
    var q := NormalizeQuery(query);
    if q == "" {
      return AllWorkspaces;
    }
    var found := false;
    var results: seq<Hit> := [];
    var i := 0;
    while i < |d|
      invariant 0 <= i <= |d|
      invariant results == Hits(d[..i], q)
      invariant found <==> results != []
    {
      var rows := WorkspaceHits(d[i].tabs, d[i].name, q);
      if rows != [] {
        found := true;
      }
      results := results + rows;
      assert d[..i + 1][..i] == d[..i];
      i := i + 1;
    }
    assert d[..i] == d;
    if !found {
      return NoResults;
    }
    return Results(results);
  }

  /** An entry is a hit of its workspace exactly when it matches. */
  lemma {:induction false} HitsInIff(tabs: seq<Entry>, name: string, q: string, h: Hit)
    ensures h in HitsIn(tabs, name, q) <==> h.workspace == name && h.item in tabs && Matches(h.item, q)
    decreases |tabs|
  {
    if tabs != [] {
      var init := tabs[..|tabs| - 1];
      HitsInIff(init, name, q, h);
      assert tabs == init + [tabs[|tabs| - 1]];
    }
  }

  /** A row is shown exactly for a matching tab entry of some workspace,
      labelled with that workspace. */
  lemma {:induction false} HitsIff(d: seq<Workspace>, q: string, h: Hit)
    ensures h in Hits(d, q) <==>
      exists i :: 0 <= i < |d| && h.workspace == d[i].name && h.item in d[i].tabs && Matches(h.item, q)
    decreases |d|
  {
    if d != [] {
      var init := d[..|d| - 1];
      var last := d[|d| - 1];
      HitsIff(init, q, h);
      HitsInIff(last.tabs, last.name, q, h);
      if exists i :: 0 <= i < |d| && h.workspace == d[i].name && h.item in d[i].tabs && Matches(h.item, q) {
        var i :| 0 <= i < |d| && h.workspace == d[i].name && h.item in d[i].tabs && Matches(h.item, q);
        if i < |init| { assert init[i] == d[i]; }
      }
      if h in Hits(init, q) {
        var i :| 0 <= i < |init| && h.workspace == init[i].name && h.item in init[i].tabs && Matches(h.item, q);
        assert d[i] == init[i];
      }
    }
  }

  /** Results of earlier workspaces come first. */
  lemma {:induction false} HitsAppend(a: seq<Workspace>, b: seq<Workspace>, q: string)
    ensures Hits(a + b, q) == Hits(a, q) + Hits(b, q)
    decreases |b|
  {
    if b == [] {
      assert a + b == a;
    } else {
      var b' := b[..|b| - 1];
      assert (a + b)[..|a + b| - 1] == a + b';
      HitsAppend(a, b', q);
    }
  }

  /** A query is matched in the title regardless of case, and so a tab
      whose title contains the query is found. */
  lemma TitleMatch(e: Entry, q: string)
    requires e.kind == "tab" && Contains(Lower(e.title), q)
    ensures Matches(e, q)
  {
    var rest := " " + e.url + " " + Join(e.notes, " ");
    assert e.title + " " + e.url + " " + Join(e.notes, " ") == e.title + rest;
    LowerConcat(e.title, rest);
    ContainsLeft(Lower(e.title), Lower(rest), q);
  }

  /** A tab whose URL contains the query is found. */
  lemma UrlMatch(e: Entry, q: string)
    requires e.kind == "tab" && Contains(Lower(e.url), q)
    ensures Matches(e, q)
  {
    var pre := e.title + " ";
    var post := " " + Join(e.notes, " ");
    assert e.title + " " + e.url + " " + Join(e.notes, " ") == pre + (e.url + post);
    LowerConcat(pre, e.url + post);
    LowerConcat(e.url, post);
    ContainsLeft(Lower(e.url), Lower(post), q);
    ContainsRight(Lower(pre), Lower(e.url) + Lower(post), q);
  }

  /** A tab one of whose notes contains the query is found. */
  lemma NoteMatch(e: Entry, q: string, k: nat)
    requires e.kind == "tab" && k < |e.notes| && Contains(Lower(e.notes[k]), q)
    ensures Matches(e, q)
  {
    var notes := Join(e.notes, " ");
    JoinHasPart(e.notes, " ", k);
    ContainsLower(notes, e.notes[k]);
    ContainsTrans(Lower(notes), Lower(e.notes[k]), q);
    var pre := e.title + " " + e.url + " ";
    LowerConcat(pre, notes);
    ContainsRight(Lower(pre), Lower(notes), q);
  }

  /** Only tab entries are ever listed. */
  lemma OnlyTabs(d: seq<Workspace>, q: string, h: Hit)
    requires h in Hits(d, q)
    ensures h.item.kind == "tab"
  {
    HitsIff(d, q, h);
  }

  /** Case does not matter: a query and its lower-case form show the same. */
  lemma QueryCaseInsensitive(d: seq<Workspace>, query: string)
    ensures SearchView(d, Lower(query)) == SearchView(d, query)
  {
    LowerTwice(query);
    assert NormalizeQuery(Lower(query)) == NormalizeQuery(query);
  }
}
