/** The string operations of JavaScript that the panel and the background
    worker rely on, over `string` = `seq<char>`. */
module Strings {
  import opened Wrappers

  /** JavaScript's `\s` class, which is also the set `trim` removes: the
      ECMAScript WhiteSpace and LineTerminator code points. */
  predicate IsSpace(c: char) {
    c == ' ' || c == '\t' || c == '\n' || c == '\r'
    || c as int == 0x0B || c as int == 0x0C || c as int == 0xA0
    || c as int == 0x1680 || (0x2000 <= c as int <= 0x200A)
    || c as int == 0x2028 || c as int == 0x2029 || c as int == 0x202F
    || c as int == 0x205F || c as int == 0x3000 || c as int == 0xFEFF
  }

  /** The characters a regular-expression `.` does not match. */
  predicate IsLineTerminator(c: char) {
    c == '\n' || c == '\r' || c as int == 0x2028 || c as int == 0x2029
  }

  predicate AllSpace(s: string) {
    forall i :: 0 <= i < |s| ==> IsSpace(s[i])
  }

  predicate NoLineTerminator(s: string) {
    forall i :: 0 <= i < |s| ==> !IsLineTerminator(s[i])
  }

  /** Neither end of `s` is white space. */
  predicate IsTrimmed(s: string) {
    s == [] || (!IsSpace(s[0]) && !IsSpace(s[|s| - 1]))
  }

  /** Length of the maximal run of white space at the start of `s`. */
  function LeadingSpaces(s: string): (n: nat)
    ensures n <= |s| && AllSpace(s[..n])
    ensures n < |s| ==> !IsSpace(s[n])
  {
    if s != [] && IsSpace(s[0]) then
      var m := LeadingSpaces(s[1..]);
      assert s[..1 + m] == [s[0]] + s[1..][..m];
      1 + m
    else 0
  }

  /** `s` without its trailing white-space run. */
  function TrimEnd(s: string): (r: string)
    ensures |r| <= |s| && r == s[..|r|] && AllSpace(s[|r|..])
    ensures r == [] || !IsSpace(r[|r| - 1])
  {
    if s != [] && IsSpace(s[|s| - 1]) then
      var init := s[..|s| - 1];
      var r := TrimEnd(init);
      assert s[|r|..] == init[|r|..] + [s[|s| - 1]];
      r
    else s
  }

  /** `String.prototype.trim`: `r` is what lies between the leading and the
      trailing white-space runs of `s`. */
  function Trim(s: string): (r: string)
    ensures IsTrimmed(r)
    ensures LeadingSpaces(s) + |r| <= |s|
    ensures r == s[LeadingSpaces(s)..LeadingSpaces(s) + |r|]
    ensures AllSpace(s[LeadingSpaces(s) + |r|..])
  {
    var k := LeadingSpaces(s);
    var t := s[k..];
    var r := TrimEnd(t);
    assert t[..|r|] == s[k..k + |r|];
    assert t[|r|..] == s[k + |r|..];
    r
  }

  lemma {:induction false} LeadingSpacesPrefix(w: string, s: string)
    requires AllSpace(w)
    ensures LeadingSpaces(w + s) == |w| + LeadingSpaces(s)
    decreases |w|
  {
    if w != [] {
      assert (w + s)[1..] == w[1..] + s;
      LeadingSpacesPrefix(w[1..], s);
    } else {
      assert w + s == s;
    }
  }

  /** White space in front of a string does not change its trimmed form. */
  lemma TrimSpacePrefix(w: string, s: string)
    requires AllSpace(w)
    ensures Trim(w + s) == Trim(s)
  {
    LeadingSpacesPrefix(w, s);
    assert (w + s)[|w| + LeadingSpaces(s)..] == s[LeadingSpaces(s)..];
  }

  /** `trim` leaves an already trimmed string alone. */
  lemma TrimTrimmed(s: string)
    requires IsTrimmed(s)
    ensures Trim(s) == s
  {
    if s != [] {
      assert LeadingSpaces(s) == 0;
      assert s[LeadingSpaces(s)..] == s;
    }
  }

  /** `toLowerCase`, on the ASCII letters. */
  function LowerChar(c: char): char {
    if 'A' <= c <= 'Z' then (c as int + 32) as char else c
  }

  function Lower(s: string): (r: string)
    ensures |r| == |s|
    ensures forall i :: 0 <= i < |s| ==> r[i] == LowerChar(s[i])
  {
    seq(|s|, i requires 0 <= i < |s| => LowerChar(s[i]))
  }

  /** Lower-casing twice is lower-casing once. */
  lemma LowerTwice(s: string)
    ensures Lower(Lower(s)) == Lower(s)
  {
    var l := Lower(s);
    forall i | 0 <= i < |s| ensures Lower(l)[i] == l[i] {
      assert l[i] == LowerChar(s[i]);
    }
  }

  lemma LowerConcat(a: string, b: string)
    ensures Lower(a + b) == Lower(a) + Lower(b)
  {
    forall i | 0 <= i < |a| + |b|
      ensures Lower(a + b)[i] == (Lower(a) + Lower(b))[i]
    {
      if i < |a| { assert (a + b)[i] == a[i]; } else { assert (a + b)[i] == b[i - |a|]; }
    }
  }

  predicate StartsWith(s: string, prefix: string) {
    |prefix| <= |s| && s[..|prefix|] == prefix
  }

  /** `pat` occurs in `s` at position `i`. */
  predicate OccursAt(s: string, pat: string, i: nat) {
    i + |pat| <= |s| && s[i..i + |pat|] == pat
  }

  /** `String.prototype.includes`. */
  predicate Contains(s: string, sub: string) {
    exists i: nat | i <= |s| :: OccursAt(s, sub, i)
  }

  lemma ContainsLeft(a: string, b: string, sub: string)
    requires Contains(a, sub)
    ensures Contains(a + b, sub)
  {
    var i: nat :| i <= |a| && OccursAt(a, sub, i);
    assert (a + b)[i..i + |sub|] == a[i..i + |sub|];
    assert OccursAt(a + b, sub, i);
  }

  lemma ContainsRight(a: string, b: string, sub: string)
    requires Contains(b, sub)
    ensures Contains(a + b, sub)
  {
    var i: nat :| i <= |b| && OccursAt(b, sub, i);
    assert (a + b)[|a| + i..|a| + i + |sub|] == b[i..i + |sub|];
    assert OccursAt(a + b, sub, |a| + i);
  }

  /** `String.prototype.indexOf`: the first position at which `pat` occurs. */
  function IndexOf(s: string, pat: string): (r: Option<nat>)
    ensures r.Some? ==> OccursAt(s, pat, r.value)
    ensures r.Some? ==> forall i: nat :: i < r.value ==> !OccursAt(s, pat, i)
    ensures r.None? ==> forall i: nat :: !OccursAt(s, pat, i)
    decreases |s|
  {
    if |s| < |pat| then None
    else if s[..|pat|] == pat then Some(0)
    else
      match IndexOf(s[1..], pat)
      case None =>
        assert forall i: nat :: i >= 1 ==> OccursAt(s, pat, i) == OccursAt(s[1..], pat, i - 1);
        None
      case Some(j) =>
        assert forall i: nat :: i >= 1 ==> OccursAt(s, pat, i) == OccursAt(s[1..], pat, i - 1);
        Some(j + 1)
  }

  /** An occurrence with none before it is the one `indexOf` reports. */
  lemma IndexOfAt(s: string, pat: string, i: nat)
    requires OccursAt(s, pat, i)
    requires forall j: nat :: j < i ==> !OccursAt(s, pat, j)
    ensures IndexOf(s, pat) == Some(i)
  {
  }

  /** Nothing before the first occurrence of `pat` contains `pat`. */
  lemma BeforeFirst(s: string, pat: string, t: nat)
    requires pat != [] && IndexOf(s, pat) == Some(t)
    ensures !Contains(s[..t], pat)
  {
    forall i: nat | i <= t ensures !OccursAt(s[..t], pat, i) {
      if OccursAt(s[..t], pat, i) {
        assert s[..t][i..i + |pat|] == s[i..i + |pat|];
        assert OccursAt(s, pat, i);
      }
    }
  }

  /** The first occurrence of `c` is the first position holding `c`. */
  lemma BeforeFirstChar(s: string, c: char, u: nat)
    requires IndexOf(s, [c]) == Some(u)
    ensures u < |s| && s[u] == c && c !in s[..u]
  {
    OccursAtChar(s, c, u);
    forall i: nat | i < u ensures s[i] != c { OccursAtChar(s, c, i); }
  }

  /** A one-character pattern occurs exactly where that character stands. */
  lemma OccursAtChar(s: string, c: char, i: nat)
    ensures OccursAt(s, [c], i) <==> i < |s| && s[i] == c
  {
    if i < |s| { assert s[i..i + 1] == [s[i]]; }
  }

  /** `String.prototype.split` with a one-character separator. */
  function Split(s: string, sep: char): (parts: seq<string>)
    ensures |parts| >= 1
    ensures forall k :: 0 <= k < |parts| ==> sep !in parts[k]
    decreases |s|
  {
    match IndexOf(s, [sep])
    case None =>
      forall j | 0 <= j < |s| ensures s[j] != sep { OccursAtChar(s, sep, j); }
      [s]
    case Some(i) =>
      forall j | 0 <= j < i ensures s[j] != sep { OccursAtChar(s, sep, j); }
      [s[..i]] + Split(s[i + 1..], sep)
  }

  /** `Array.prototype.join`. */
  function Join(parts: seq<string>, sep: string): string
  {
    if |parts| == 0 then ""
    else if |parts| == 1 then parts[0]
    else parts[0] + sep + Join(parts[1..], sep)
  }

  /** Each part occurs in the joined string. */
  lemma {:induction false} JoinHasPart(parts: seq<string>, sep: string, k: nat)
    requires k < |parts|
    ensures Contains(Join(parts, sep), parts[k])
    decreases |parts|
  {
    if |parts| == 1 {
      assert OccursAt(parts[0], parts[0], 0);
    } else if k == 0 {
      assert OccursAt(parts[0] + (sep + Join(parts[1..], sep)), parts[0], 0);
      assert parts[0] + sep + Join(parts[1..], sep) == parts[0] + (sep + Join(parts[1..], sep));
    } else {
      JoinHasPart(parts[1..], sep, k - 1);
      ContainsRight(parts[0] + sep, Join(parts[1..], sep), parts[k]);
    }
  }

  /** Containment is transitive. */
  lemma ContainsTrans(a: string, b: string, c: string)
    requires Contains(a, b) && Contains(b, c)
    ensures Contains(a, c)
  {
    var i: nat :| i <= |a| && OccursAt(a, b, i);
    var j: nat :| j <= |b| && OccursAt(b, c, j);
    assert a[i..i + |b|] == b;
    assert j + |c| <= |b|;
    forall m | 0 <= m < |c| ensures a[i + j + m] == c[m] {
      assert a[i + j + m] == a[i..i + |b|][j + m] == b[j + m];
      assert b[j..j + |c|][m] == b[j + m];
    }
    assert a[i + j..i + j + |c|] == c;
    assert OccursAt(a, c, i + j);
  }

  /** Lower-casing keeps an occurrence. */
  lemma ContainsLower(a: string, b: string)
    requires Contains(a, b)
    ensures Contains(Lower(a), Lower(b))
  {
    var i: nat :| i <= |a| && OccursAt(a, b, i);
    forall j | 0 <= j < |b| ensures Lower(a)[i..i + |b|][j] == Lower(b)[j] {
      assert a[i + j] == b[j];
    }
    assert Lower(a)[i..i + |b|] == Lower(b);
    assert OccursAt(Lower(a), Lower(b), i);
  }

  /** The first line feed of `a + [sep] + b` is the one after `a` when `a` holds none. */
  lemma IndexOfSeparator(a: string, sep: char, b: string)
    requires sep !in a
    ensures IndexOf(a + [sep] + b, [sep]) == Some(|a|)
  {
    var s := a + [sep] + b;
    OccursAtChar(s, sep, |a|);
    forall j: nat | j < |a| ensures !OccursAt(s, [sep], j) { OccursAtChar(s, sep, j); }
    IndexOfAt(s, [sep], |a|);
  }

  lemma NoSeparator(s: string, sep: char)
    requires sep !in s
    ensures IndexOf(s, [sep]) == None
  {
    if IndexOf(s, [sep]).Some? {
      OccursAtChar(s, sep, IndexOf(s, [sep]).value);
    }
  }

  /** Splitting a joined list gives the list back when no part holds the separator. */
  lemma {:induction false} SplitJoin(parts: seq<string>, sep: char)
    requires |parts| >= 1
    requires forall k :: 0 <= k < |parts| ==> sep !in parts[k]
    ensures Split(Join(parts, [sep]), sep) == parts
    decreases |parts|
  {
    if |parts| == 1 {
      NoSeparator(parts[0], sep);
    } else {
      var rest := Join(parts[1..], [sep]);
      var s := parts[0] + [sep] + rest;
      IndexOfSeparator(parts[0], sep, rest);
      assert s[..|parts[0]|] == parts[0];
      assert s[|parts[0]| + 1..] == rest;
      SplitJoin(parts[1..], sep);
    }
  }

  /** Joining the parts of a split gives the string back. */
  lemma {:induction false} JoinSplit(s: string, sep: char)
    ensures Join(Split(s, sep), [sep]) == s
    decreases |s|
  {
    match IndexOf(s, [sep])
    case None =>
    case Some(i) =>
      var rest := Split(s[i + 1..], sep);
      assert Split(s, sep) == [s[..i]] + rest;
      JoinSplit(s[i + 1..], sep);
      assert ([s[..i]] + rest)[1..] == rest;
      assert Join(Split(s, sep), [sep]) == s[..i] + [sep] + s[i + 1..];
      assert s == s[..i] + [sep] + s[i + 1..];
  }

  /** Each line followed by a line feed: the text a `\n`-terminated writer builds. */
  function Terminated(lines: seq<string>): string
  {
    if lines == [] then "" else Terminated(lines[..|lines| - 1]) + lines[|lines| - 1] + "\n"
  }

  lemma TakeAll<T>(s: seq<T>, n: nat)
    requires n == |s|
    ensures s[..n] == s
  {
  }

  lemma ConcatAssoc(a: string, b: string, c: string)
    ensures (a + b) + c == a + (b + c)
  {
  }

  lemma TerminatedSnoc(lines: seq<string>, line: string)
    ensures Terminated(lines + [line]) == Terminated(lines) + line + "\n"
  {
    assert (lines + [line])[..|lines|] == lines;
  }

  lemma {:induction false} TerminatedConcat(a: seq<string>, b: seq<string>)
    ensures Terminated(a + b) == Terminated(a) + Terminated(b)
    decreases |b|
  {
    if b == [] {
      assert a + b == a;
    } else {
      assert (a + b)[..|a + b| - 1] == a + b[..|b| - 1];
      TerminatedConcat(a, b[..|b| - 1]);
    }
  }

  lemma {:induction false} TerminatedIsJoin(lines: seq<string>)
    ensures Terminated(lines) == Join(lines + [""], "\n")
    decreases |lines|
  {
    if lines != [] {
      assert (lines + [""])[1..] == lines[1..] + [""];
      if |lines| == 1 {
        assert Terminated(lines) == Terminated([]) + lines[0] + "\n";
      } else {
        TerminatedIsJoin(lines[1..]);
        TerminatedConcat([lines[0]], lines[1..]);
        assert lines == [lines[0]] + lines[1..];
        assert Terminated([lines[0]]) == lines[0] + "\n" by {
          assert [lines[0]][..0] == [];
        }
      }
    }
  }

  /** Splitting a `\n`-terminated text at line feeds gives its lines and a
      final empty string, as `text.split('\n')` does. */
  lemma SplitTerminated(lines: seq<string>)
    requires forall k :: 0 <= k < |lines| ==> '\n' !in lines[k]
    ensures Split(Terminated(lines), '\n') == lines + [""]
  {
    TerminatedIsJoin(lines);
    SplitJoin(lines + [""], '\n');
  }

  function DigitChar(d: nat): char
    requires d < 10
  {
    ('0' as int + d) as char
  }

  /** The decimal form of `n`, as a template literal `${n}` writes it. */
  function NatToString(n: nat): (s: string)
    ensures |s| >= 1
    ensures forall i :: 0 <= i < |s| ==> '0' <= s[i] <= '9'
  {
    if n < 10 then [DigitChar(n)] else NatToString(n / 10) + [DigitChar(n % 10)]
  }

  lemma {:induction false} NatToStringInjective(a: nat, b: nat)
    requires NatToString(a) == NatToString(b)
    ensures a == b
    decreases a
  {
    var sa, sb := NatToString(a), NatToString(b);
    assert sa[|sa| - 1] == DigitChar(a % 10);
    assert sb[|sb| - 1] == DigitChar(b % 10);
    assert a % 10 == b % 10;
    if a >= 10 {
      assert |sa| >= 2;
      assert b >= 10;
      assert NatToString(a / 10) == sa[..|sa| - 1];
      assert NatToString(b / 10) == sb[..|sb| - 1];
      NatToStringInjective(a / 10, b / 10);
    } else {
      assert |sa| == 1;
      assert b < 10;
    }
  }

  /** `String.prototype.replace(pat, rep)` with a string pattern: only the
      first occurrence is replaced. */
  function ReplaceFirst(s: string, pat: string, rep: string): string
  {
    match IndexOf(s, pat)
    case None => s
    case Some(i) => s[..i] + rep + s[i + |pat|..]
  }

  /** `s.replace(/\s+/g, rep)`: every maximal run of white space becomes `rep`. */
  function ReplaceSpaceRuns(s: string, rep: string): (r: string)
    decreases |s|
  {
    if s == [] then []
    else if IsSpace(s[0]) then rep + ReplaceSpaceRuns(s[LeadingSpaces(s)..], rep)
    else [s[0]] + ReplaceSpaceRuns(s[1..], rep)
  }

  lemma {:induction false} ReplaceSpaceRunsNoSpace(s: string, rep: string)
    requires forall i :: 0 <= i < |rep| ==> !IsSpace(rep[i])
    ensures forall i :: 0 <= i < |ReplaceSpaceRuns(s, rep)| ==> !IsSpace(ReplaceSpaceRuns(s, rep)[i])
    decreases |s|
  {
    if s != [] {
      if IsSpace(s[0]) {
        ReplaceSpaceRunsNoSpace(s[LeadingSpaces(s)..], rep);
      } else {
        ReplaceSpaceRunsNoSpace(s[1..], rep);
      }
    }
  }

  lemma {:induction false} ReplaceSpaceRunsIdentity(s: string, rep: string)
    requires forall i :: 0 <= i < |s| ==> !IsSpace(s[i])
    ensures ReplaceSpaceRuns(s, rep) == s
    decreases |s|
  {
    if s != [] {
      ReplaceSpaceRunsIdentity(s[1..], rep);
    }
  }

  /** `s.replace(/[\[\]]/g, '')`. */
  function StripBrackets(s: string): (r: string)
    ensures '[' !in r && ']' !in r
    ensures |r| <= |s|
  {
    if s == [] then []
    else if s[0] == '[' || s[0] == ']' then StripBrackets(s[1..])
    else [s[0]] + StripBrackets(s[1..])
  }

  /** Bracket removal works character by character: it distributes over
      concatenation, drops a bracket and keeps any other character. */
  lemma {:induction false} StripBracketsConcat(a: string, b: string)
    ensures StripBrackets(a + b) == StripBrackets(a) + StripBrackets(b)
    decreases |a|
  {
    if a == [] {
      assert a + b == b;
    } else {
      assert (a + b)[0] == a[0] && (a + b)[1..] == a[1..] + b;
      StripBracketsConcat(a[1..], b);
    }
  }

  lemma StripBracketsChar(c: char)
    ensures StripBrackets([c]) == if c == '[' || c == ']' then [] else [c]
  {
    assert [c][1..] == [];
  }

  lemma {:induction false} StripBracketsIdentity(s: string)
    requires '[' !in s && ']' !in s
    ensures StripBrackets(s) == s
    decreases |s|
  {
    if s != [] {
      assert s[1..] <= s[1..];
      assert forall c :: c in s[1..] ==> c in s;
      StripBracketsIdentity(s[1..]);
    }
  }

  lemma {:induction false} StripBracketsKeepsLines(s: string)
    requires NoLineTerminator(s)
    ensures NoLineTerminator(StripBrackets(s))
    decreases |s|
  {
    if s != [] {
      StripBracketsKeepsLines(s[1..]);
      assert StripBrackets(s) == StripBrackets(s[1..]) || StripBrackets(s) == [s[0]] + StripBrackets(s[1..]);
    }
  }
}
