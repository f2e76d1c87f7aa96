/** The Markdown backup format (sidepanel.js:356-382): the text "export"
    writes, and the three line patterns "import" recognises. */
module Markdown {
  import opened Wrappers
  import opened Strings
  import opened Workspaces

  // ---------------------------------------------------------------------
  // Writing

  /** `(title || "Link")` with every square bracket removed. */
  function CleanTitle(title: string): (r: string)
    ensures '[' !in r && ']' !in r
    ensures title == "" ==> r == "Link"
    ensures '[' !in title && ']' !in title && title != "" ==> r == title
  {
    var t := if title == "" then "Link" else title;
    if '[' !in t && ']' !in t then
      StripBracketsIdentity(t);
      StripBrackets(t)
    else StripBrackets(t)
  }

  function LinkLine(e: Entry): string {
    "- [" + CleanTitle(e.title) + "](" + e.url + ")"
  }

  function NoteLine(note: string): string {
    "  - " + note
  }

  function HeadingLine(name: string): string {
    "# " + name
  }

  function NoteLines(notes: seq<string>): (r: seq<string>)
    ensures |r| == |notes|
  {
    seq(|notes|, k requires 0 <= k < |notes| => NoteLine(notes[k]))
  }

  /** The lines of one entry: a tab becomes its link line and its notes;
      anything else is skipped. */
  function ItemLines(e: Entry): seq<string> {
    if e.kind == "tab" then [LinkLine(e)] + NoteLines(e.notes) else []
  }

  function ItemsLines(tabs: seq<Entry>): seq<string> {
    if tabs == [] then [] else ItemsLines(tabs[..|tabs| - 1]) + ItemLines(tabs[|tabs| - 1])
  }

  /** One workspace: its heading, its entries, and a blank line. */
  function BlockLines(w: Workspace): seq<string> {
    [HeadingLine(w.name)] + ItemsLines(w.tabs) + [""]
  }

  /** The keys exported: the one asked for, or all of them in order. */
  function ExportNames(d: seq<Workspace>, scope: string): seq<string> {
    if scope != "" then [scope] else Names(d)
  }

  /** The blocks of the named workspaces; a name that is not a key is skipped. */
  function BlocksOf(d: Mapping, names: seq<string>): seq<string> {
    if names == [] then []
    else
      BlocksOf(d, names[..|names| - 1])
      + match Find(d, names[|names| - 1])
        case None => []
        case Some(i) => BlockLines(d[i])
  }

  /** Every line of the backup, in order: two blank lines, then the blocks. */
  function ExportLines(d: Mapping, scope: string): seq<string> {
    ["", ""] + BlocksOf(d, ExportNames(d, scope))
  }

  /** The backup text: every line followed by a line feed. */
  function ExportText(d: Mapping, scope: string): string {
    Terminated(ExportLines(d, scope))
  }

  /** The lines of one entry, written out as `markdown +=` does. */
  method EntryMarkdown(e: Entry) returns (chunk: string)
    ensures chunk == Terminated(ItemLines(e))
  {
    chunk := "";
    if e.kind == "tab" {
      var cleanTitle := StripBrackets(if e.title == "" then "Link" else e.title);
      chunk := "- [" + cleanTitle + "](" + e.url + ")" + "\n";
      EntryStart(e);
      var k := 0;
      while k < |e.notes|
        invariant 0 <= k <= |e.notes|
        invariant chunk == Terminated([LinkLine(e)] + NoteLines(e.notes[..k]))
      {
        NoteStep(e, k);
        chunk := chunk + "  - " + e.notes[k] + "\n";
        k := k + 1;
      }
      TakeAll(e.notes, k);
    }
  }

  /** The text of an entry starts with its link line. */
  lemma EntryStart(e: Entry)
    ensures Terminated([LinkLine(e)] + NoteLines(e.notes[..0])) == LinkLine(e) + "\n"
  {
    assert [LinkLine(e)] + NoteLines(e.notes[..0]) == [] + [LinkLine(e)];
    TerminatedSnoc([], LinkLine(e));
    assert Terminated([]) + LinkLine(e) == LinkLine(e);
  }

  /** The text of an entry grows by one note line. */
  lemma NoteStep(e: Entry, k: nat)
    requires k < |e.notes|
    ensures Terminated([LinkLine(e)] + NoteLines(e.notes[..k + 1]))
      == Terminated([LinkLine(e)] + NoteLines(e.notes[..k])) + "  - " + e.notes[k] + "\n"
  {
    var lines := [LinkLine(e)] + NoteLines(e.notes[..k]);
    assert [LinkLine(e)] + NoteLines(e.notes[..k + 1]) == lines + [NoteLine(e.notes[k])];
    TerminatedSnoc(lines, NoteLine(e.notes[k]));
  }

  /** One workspace's block, written out entry by entry. */
  method BlockMarkdown(w: Workspace) returns (chunk: string)
    ensures chunk == Terminated(BlockLines(w))
  {
    chunk := "# " + w.name + "\n";
    TerminatedSnoc([], HeadingLine(w.name));
    var j := 0;
    while j < |w.tabs|
      invariant 0 <= j <= |w.tabs|
      invariant chunk == Terminated([HeadingLine(w.name)] + ItemsLines(w.tabs[..j]))
    {
      var c := EntryMarkdown(w.tabs[j]);
      BlockStep(w, j);
      chunk := chunk + c;
      j := j + 1;
    }
    BlockEnd(w, j);
    chunk := chunk + "\n";
  }

  /** The text of a block grows by one entry's text. */
  lemma BlockStep(w: Workspace, j: nat)
    requires j < |w.tabs|
    ensures Terminated([HeadingLine(w.name)] + ItemsLines(w.tabs[..j + 1]))
      == Terminated([HeadingLine(w.name)] + ItemsLines(w.tabs[..j])) + Terminated(ItemLines(w.tabs[j]))
  {
    var lines := [HeadingLine(w.name)] + ItemsLines(w.tabs[..j]);
    ItemsLinesSnoc(w.tabs, j);
    assert [HeadingLine(w.name)] + ItemsLines(w.tabs[..j + 1]) == lines + ItemLines(w.tabs[j]);
    TerminatedConcat(lines, ItemLines(w.tabs[j]));
  }

  /** A block's text ends with the blank line after its entries. */
  lemma BlockEnd(w: Workspace, j: nat)
    requires j == |w.tabs|
    ensures Terminated(BlockLines(w)) == Terminated([HeadingLine(w.name)] + ItemsLines(w.tabs[..j])) + "\n"
  {
    var lines := [HeadingLine(w.name)] + ItemsLines(w.tabs[..j]);
    TakeAll(w.tabs, j);
    assert BlockLines(w) == lines + [""];
    TerminatedSnoc(lines, "");
    assert Terminated(lines) + "" == Terminated(lines);
  }

  lemma ItemsLinesSnoc(tabs: seq<Entry>, j: nat)
    requires j < |tabs|
    ensures ItemsLines(tabs[..j + 1]) == ItemsLines(tabs[..j]) + ItemLines(tabs[j])
  {
    assert tabs[..j + 1][..j] == tabs[..j];
  }

  /** `exportData(specificWorkspaceName)`: the text of the backup file. */
  method ExportMarkdown(d: Mapping, scope: string) returns (markdown: string)
    ensures markdown == ExportText(d, scope)
  {
    markdown := "\n\n";
    var names := ExportNames(d, scope);
    var i := 0;
    while i < |names|
      invariant 0 <= i <= |names|
      invariant markdown == "\n\n" + Terminated(BlocksOf(d, names[..i]))
    {
      BlocksOfSnoc(d, names, i);
      match Find(d, names[i]) {
        case None =>
          assert BlocksOf(d, names[..i + 1]) == BlocksOf(d, names[..i]);
        case Some(k) =>
          var chunk := BlockMarkdown(d[k]);
          TerminatedConcat(BlocksOf(d, names[..i]), BlockLines(d[k]));
          ConcatAssoc("\n\n", Terminated(BlocksOf(d, names[..i])), chunk);
          markdown := markdown + chunk;
      }
      i := i + 1;
    }
    assert names[..i] == names;
    TerminatedConcat(["", ""], BlocksOf(d, names));
    TerminatedBlank();
  }

  lemma TerminatedBlank()
    ensures Terminated(["", ""]) == "\n\n"
  {
    TerminatedSnoc([], "");
    TerminatedSnoc([""], "");
  }

  lemma BlocksOfSnoc(d: Mapping, names: seq<string>, i: nat)
    requires i < |names|
    ensures BlocksOf(d, names[..i + 1]) == BlocksOf(d, names[..i]) +
      match Find(d, names[i]) case None => [] case Some(k) => BlockLines(d[k])
  {
    assert names[..i + 1][..i] == names[..i];
  }

  /** The name of the downloaded file: the workspace's name with every run
      of white space replaced by `_`, or the fixed name of the full backup. */
  function BackupFileName(scope: string): string {
    if scope != "" then ReplaceSpaceRuns(scope, "_") + "_backup.md" else "tab-saver-backup.md"
  }

  /** The file name never holds white space. */
  lemma BackupFileNameNoSpace(scope: string)
    ensures forall i :: 0 <= i < |BackupFileName(scope)| ==> !IsSpace(BackupFileName(scope)[i])
  {
    if scope != "" {
      ReplaceSpaceRunsNoSpace(scope, "_");
    }
  }

  // ---------------------------------------------------------------------
  // Reading: the three patterns of importData (sidepanel.js:404, 410, 422)

  /** `/^#\s+(.+)$/`, its capture trimmed: `#`, at least one space, then a
      non-empty tail without line terminators (the pattern has no `m` flag,
      so `$` is the end of the line). */
  function HeadingName(line: string): (r: Option<string>)
    ensures r.Some? ==> |line| >= 3 && line[0] == '#' && IsTrimmed(r.value)
  {
    if |line| >= 3 && line[0] == '#'
      && exists k | 2 <= k < |line| :: AllSpace(line[1..k]) && NoLineTerminator(line[k..])
    then Some(Trim(line[1..]))
    else None
  }

  /** One link recognised: the two captures of the link pattern. */
  datatype Link = Link(title: string, url: string)

  /** Length of the longest prefix of `s` without a line terminator. */
  function LineEnd(s: string): (n: nat)
    ensures n <= |s| && NoLineTerminator(s[..n])
    ensures n < |s| ==> IsLineTerminator(s[n])
  {
    if s == [] || IsLineTerminator(s[0]) then 0 else 1 + LineEnd(s[1..])
  }

  /** The two lazy captures `(.*?)\]\((.*?)\)` within one line segment:
      the title runs to the first `](`, the URL from there to the first `)`. */
  function LinkCaptures(seg: string): (r: Option<Link>)
    ensures r.Some? ==> !Contains(r.value.title, "](") && ')' !in r.value.url
    ensures r.Some? ==> |r.value.title| + 2 + |r.value.url| + 1 <= |seg|
    ensures r.Some? ==> seg[..|r.value.title| + 2 + |r.value.url| + 1] == r.value.title + "](" + r.value.url + ")"
  {
    match IndexOf(seg, "](")
    case None => None
    case Some(t) =>
      var tail := seg[t + 2..];
      match IndexOf(tail, ")")
      case None => None
      case Some(u) =>
        BeforeFirstChar(tail, ')', u);
        BeforeFirst(seg, "](", t);
        LinkSplit(seg, t, u);
        Some(Link(seg[..t], tail[..u]))
  }

  /** The matched prefix of a link segment is title, `](`, URL and `)`. */
  lemma LinkSplit(seg: string, t: nat, u: nat)
    requires OccursAt(seg, "](", t) && u < |seg| - t - 2 && seg[t + 2..][u] == ')'
    ensures seg[..t + 2 + u + 1] == seg[..t] + "](" + seg[t + 2..][..u] + ")"
  {
    var lhs := seg[..t + 2 + u + 1];
    var rhs := seg[..t] + "](" + seg[t + 2..][..u] + ")";
    assert seg[t..t + 2] == "](";
    forall i | 0 <= i < |lhs| ensures lhs[i] == rhs[i] {
      if i < t {
      } else if i < t + 2 {
        assert lhs[i] == seg[t..t + 2][i - t];
      } else if i < t + 2 + u {
      }
    }
    assert |lhs| == |rhs|;
  }

  /** `/^\s*-\s+\[(.*?)\]\((.*?)\)/`: optional spaces, `-`, at least one
      space, `[`; then, within the line (`.` stops at a line terminator),
      the shortest title followed by `](` and the shortest URL followed
      by `)`. Text after the `)` is ignored. */
  function LinkMatch(line: string): (r: Option<Link>)
    ensures r.Some? ==> NoLineTerminator(r.value.title) && NoLineTerminator(r.value.url)
    ensures r.Some? ==> !Contains(r.value.title, "](") && ')' !in r.value.url
  {
    var p := LeadingSpaces(line);
    if p < |line| && line[p] == '-' then
      var q := p + 1 + LeadingSpaces(line[p + 1..]);
      if q > p + 1 && q < |line| && line[q] == '[' then
        var rest := line[q + 1..];
        var seg := rest[..LineEnd(rest)];
        var r := LinkCaptures(seg);
        assert r.Some? ==> NoLineTerminator(r.value.title) && NoLineTerminator(r.value.url) by {
          if r.Some? {
            var n := |r.value.title| + 2 + |r.value.url| + 1;
            forall i | 0 <= i < |r.value.title| ensures !IsLineTerminator(r.value.title[i]) {
              assert r.value.title[i] == seg[..n][i];
            }
            forall i | 0 <= i < |r.value.url| ensures !IsLineTerminator(r.value.url[i]) {
              assert r.value.url[i] == seg[..n][|r.value.title| + 2 + i];
            }
          }
        }
        r
      else None
    else None
  }

  /** `/^\s+-\s+(.+)$/`, its capture trimmed: at least one space, `-`, at
      least one space, then a non-empty tail without line terminators. */
  function NoteText(line: string): (r: Option<string>)
    ensures r.Some? ==> IsTrimmed(r.value)
  {
    var p := LeadingSpaces(line);
    if p >= 1 && p < |line| && line[p] == '-'
      && exists k | p + 2 <= k < |line| :: AllSpace(line[p + 1..k]) && NoLineTerminator(line[k..])
    then Some(Trim(line[p + 1..]))
    else None
  }

  // ---------------------------------------------------------------------
  // The written lines read back as what they were written from

  /** A blank line matches nothing. */
  lemma BlankLine()
    ensures HeadingName("") == None && LinkMatch("") == None && NoteText("") == None
  {
  }

  /** A heading line gives back its name. */
  lemma ReadHeading(name: string)
    requires name != "" && IsTrimmed(name) && NoLineTerminator(name)
    ensures HeadingName(HeadingLine(name)) == Some(name)
    ensures LinkMatch(HeadingLine(name)) == None && NoteText(HeadingLine(name)) == None
  {
    var line := HeadingLine(name);
    assert line[1..2] == " " && line[2..] == name;
    assert AllSpace(line[1..2]);
    HeadingAt(line, 2);
    assert line[1..] == " " + name;
    TrimSpacePrefix(" ", name);
    TrimTrimmed(name);
    NotIndented(line);
  }

  /** The heading pattern matches as soon as some split of the line fits it. */
  lemma HeadingAt(line: string, k: nat)
    requires |line| >= 3 && line[0] == '#' && 2 <= k < |line|
    requires AllSpace(line[1..k]) && NoLineTerminator(line[k..])
    ensures HeadingName(line) == Some(Trim(line[1..]))
  {
  }

  /** A line that starts with neither white space nor `-` is no link and no note. */
  lemma NotIndented(line: string)
    requires line != [] && !IsSpace(line[0]) && line[0] != '-'
    ensures LinkMatch(line) == None && NoteText(line) == None
  {
    assert LeadingSpaces(line) == 0;
  }

  lemma {:induction false} LineEndWhole(s: string)
    requires NoLineTerminator(s)
    ensures LineEnd(s) == |s|
    decreases |s|
  {
    if s != [] {
      assert NoLineTerminator(s[1..]) by {
        forall i | 0 <= i < |s| - 1 ensures !IsLineTerminator(s[1..][i]) { assert s[1..][i] == s[i + 1]; }
      }
      LineEndWhole(s[1..]);
    }
  }

  /** Within `title](url)`, the first `](` ends the title when the title has no `]`. */
  lemma TitleEnd(t: string, rest: string)
    requires ']' !in t
    ensures IndexOf(t + "](" + rest, "](") == Some(|t|)
  {
    var seg := t + "](" + rest;
    assert seg[|t|..|t| + 2] == "](";
    assert OccursAt(seg, "](", |t|);
    forall i: nat | i < |t| ensures !OccursAt(seg, "](", i) {
      assert seg[i] == t[i];
    }
    IndexOfAt(seg, "](", |t|);
  }

  /** The first `)` ends the URL when the URL has no `)`. */
  lemma UrlEnd(u: string)
    requires ')' !in u
    ensures IndexOf(u + ")", ")") == Some(|u|)
  {
    var tail := u + ")";
    OccursAtChar(tail, ')', |u|);
    forall i: nat | i < |u| ensures !OccursAt(tail, ")", i) {
      OccursAtChar(tail, ')', i);
    }
    IndexOfAt(tail, ")", |u|);
  }

  /** `title](url)` gives back its title and URL, when the title has no
      `]` and the URL no `)`. */
  lemma ReadCaptures(t: string, u: string)
    requires ']' !in t && ')' !in u
    ensures LinkCaptures(t + "](" + u + ")") == Some(Link(t, u))
  {
    var seg := t + "](" + u + ")";
    TitleEnd(t, u + ")");
    assert seg == t + "](" + (u + ")");
    assert seg[|t| + 2..] == u + ")";
    UrlEnd(u);
    assert seg[..|t|] == t;
    assert (u + ")")[..|u|] == u;
  }

  /** A line `- [` followed by one line segment is a link line, whose
      captures are those of the segment. */
  lemma LinkMatchDash(seg: string)
    requires NoLineTerminator(seg)
    ensures LinkMatch("- [" + seg) == LinkCaptures(seg)
  {
    var line := "- [" + seg;
    assert LeadingSpaces(line) == 0;
    assert line[1..] == " " + ("[" + seg);
    LeadingSpacesPrefix(" ", "[" + seg);
    assert LeadingSpaces("[" + seg) == 0;
    assert line[3..] == seg;
    LineEndWhole(seg);
    TakeAll(seg, |seg|);
  }

  /** A link line is no heading, and its captures are the cleaned title and the URL. */
  lemma ReadLink(e: Entry)
    requires NoLineTerminator(e.title) && NoLineTerminator(e.url) && ')' !in e.url
    ensures HeadingName(LinkLine(e)) == None
    ensures LinkMatch(LinkLine(e)) == Some(Link(CleanTitle(e.title), e.url))
    ensures NoteText(LinkLine(e)) == None
  {
    var t := CleanTitle(e.title);
    var seg := t + "](" + e.url + ")";
    assert LinkLine(e) == "- [" + seg;
    StripBracketsKeepsLines(if e.title == "" then "Link" else e.title);
    assert NoLineTerminator(seg) by {
      forall i | 0 <= i < |seg| ensures !IsLineTerminator(seg[i]) {
        if i < |t| { assert seg[i] == t[i]; }
        else if |t| + 2 <= i < |t| + 2 + |e.url| { assert seg[i] == e.url[i - |t| - 2]; }
      }
    }
    LinkMatchDash(seg);
    ReadCaptures(t, e.url);
  }

  /** A note line is neither heading nor link, and gives back the note. */
  lemma ReadNote(note: string)
    requires note != "" && IsTrimmed(note) && NoLineTerminator(note) && note[0] != '['
    ensures HeadingName(NoteLine(note)) == None
    ensures LinkMatch(NoteLine(note)) == None
    ensures NoteText(NoteLine(note)) == Some(note)
  {
    NoteLineShape(note);
    NoteLineNoLink(note);
    NoteLineText(note);
  }

  /** The layout of a note line: two spaces, `-`, one space, the note. */
  lemma NoteLineShape(note: string)
    requires note != "" && IsTrimmed(note)
    ensures |NoteLine(note)| == 4 + |note| && NoteLine(note)[0] == ' ' && NoteLine(note)[2] == '-'
    ensures LeadingSpaces(NoteLine(note)) == 2
    ensures NoteLine(note)[3..] == " " + note && LeadingSpaces(NoteLine(note)[3..]) == 1
    ensures NoteLine(note)[4..] == note
  {
    var line := NoteLine(note);
    assert line == "  " + ("- " + note);
    LeadingSpacesPrefix("  ", "- " + note);
    assert LeadingSpaces("- " + note) == 0;
    assert line[3..] == " " + note;
    LeadingSpacesPrefix(" ", note);
    assert LeadingSpaces(note) == 0;
  }

  /** After the dash of a note line comes the note, whose first character is no `[`. */
  lemma NoteLineNoLink(note: string)
    requires note != "" && IsTrimmed(note) && note[0] != '['
    requires |NoteLine(note)| == 4 + |note| && NoteLine(note)[2] == '-'
    requires LeadingSpaces(NoteLine(note)) == 2 && LeadingSpaces(NoteLine(note)[3..]) == 1
    requires NoteLine(note)[4..] == note
    ensures LinkMatch(NoteLine(note)) == None
  {
    assert NoteLine(note)[4] == note[0];
  }

  /** The text of a note line is the note. */
  lemma NoteLineText(note: string)
    requires note != "" && IsTrimmed(note) && NoLineTerminator(note)
    requires |NoteLine(note)| == 4 + |note| && NoteLine(note)[2] == '-'
    requires LeadingSpaces(NoteLine(note)) == 2
    requires NoteLine(note)[3..] == " " + note && NoteLine(note)[4..] == note
    ensures NoteText(NoteLine(note)) == Some(note)
  {
    var line := NoteLine(note);
    assert line[3..4] == " ";
    assert AllSpace(line[3..4]) && NoLineTerminator(line[4..]);
    TrimSpacePrefix(" ", note);
    TrimTrimmed(note);
  }
}
