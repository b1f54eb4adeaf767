/**
 * The two line classifiers of the rule-file parser:
 *   comment_regex     = \s*;+\s*        (used with re.match: anchored at the start only)
 *   sectionname_regex = \s*;+\s*@(.*)   (group 1 is the section name text)
 * Both are written out as hand-made scanners, and each is proved equal to a
 * declarative description of what the pattern matches.
 */
module Classify {
  import opened Wrappers
  import opened SafeName

  /** The whitespace characters of Python's `str.isspace`, which `\s` in a str pattern
      and `str.strip()` also use. */
  predicate IsSpace(c: char) {
    || ('\t' <= c <= '\r')
    || ('\U{1C}' <= c <= '\U{1F}')
    || c == ' ' || c == '\U{85}' || c == '\U{A0}' || c == '\U{1680}'
    || ('\U{2000}' <= c <= '\U{200A}')
    || c == '\U{2028}' || c == '\U{2029}' || c == '\U{202F}' || c == '\U{205F}' || c == '\U{3000}'
  }

  ghost predicate AllSpace(s: string) {
    forall k :: 0 <= k < |s| ==> IsSpace(s[k])
  }

  ghost predicate AllSemi(s: string) {
    forall k :: 0 <= k < |s| ==> s[k] == ';'
  }

  /** The end of the run of whitespace that starts at i (greedy `\s*`). */
  function SkipSpaces(s: string, i: nat): (j: nat)
    requires i <= |s|
    ensures i <= j <= |s|
    ensures AllSpace(s[i..j])
    ensures j < |s| ==> !IsSpace(s[j])
    decreases |s| - i
  {
    if i < |s| && IsSpace(s[i]) then SkipSpaces(s, i + 1) else i
  }

  /** The end of the run of ';' that starts at i (greedy `;+` once one ';' is seen). */
  function SkipSemis(s: string, i: nat): (j: nat)
    requires i <= |s|
    ensures i <= j <= |s|
    ensures AllSemi(s[i..j])
    ensures j < |s| ==> s[j] != ';'
    decreases |s| - i
  {
    if i < |s| && s[i] == ';' then SkipSemis(s, i + 1) else i
  }

  /** The greedy `.*` of group 1: everything up to, not including, the first newline. */
  function RestOfLine(s: string): (r: string)
    ensures r <= s
    ensures '\n' !in r
    ensures |r| == |s| || s[|r|] == '\n'
  {
    if s == [] || s[0] == '\n' then [] else [s[0]] + RestOfLine(s[1..])
  }

  /** `comment_regex.match(line)` succeeds. */
  predicate IsComment(line: string) {
    var i := SkipSpaces(line, 0);
    i < |line| && line[i] == ';'
  }

  /** `sectionname_regex.match(line)`: None when it fails, otherwise group(1). */
  function HeaderName(line: string): Option<string> {
    var i := SkipSpaces(line, 0);
    if i < |line| && line[i] == ';' then
      var k := SkipSpaces(line, SkipSemis(line, i));
      if k < |line| && line[k] == '@' then Some(RestOfLine(line[k + 1..])) else None
    else None
  }

  predicate IsHeader(line: string) {
    HeaderName(line).Some?
  }

  /** A comment line that is not a section header: the only kind the parser holds back. */
  predicate IsPlainComment(line: string) {
    IsComment(line) && !IsHeader(line)
  }

  /** What `\s*;+\s*` matches at the start of a line, said declaratively. */
  ghost predicate CommentPattern(line: string) {
    exists i :: 0 <= i < |line| && AllSpace(line[..i]) && line[i] == ';'
  }

  /** The pieces of one match of `\s*;+\s*@(.*)`: whitespace line[..i], semicolons
      line[i..j], whitespace line[j..k], '@' at k, and group 1 = line[k + 1..m]. */
  ghost predicate HeaderSplit(line: string, i: nat, j: nat, k: nat, m: nat, name: string) {
    && i < j <= k < m <= |line|
    && AllSpace(line[..i]) && AllSemi(line[i..j]) && AllSpace(line[j..k]) && line[k] == '@'
    && name == line[k + 1..m] && '\n' !in name && (m == |line| || line[m] == '\n')
  }

  /** What `\s*;+\s*@(.*)` matches at the start of a line, with `name` as group 1. */
  ghost predicate HeaderPattern(line: string, name: string) {
    exists i: nat, j: nat, k: nat, m: nat :: HeaderSplit(line, i, j, k, m, name)
  }

  /** A whitespace run followed by a non-space ends exactly where SkipSpaces stops. */
  lemma {:induction false} SkipSpacesAt(s: string, i: nat, j: nat)
    requires i <= j <= |s| && AllSpace(s[i..j]) && (j < |s| ==> !IsSpace(s[j]))
    ensures SkipSpaces(s, i) == j
    decreases j - i
  {
    if i < j {
      assert s[i..j][0] == s[i];
      assert s[i + 1..j] == s[i..j][1..];
      SkipSpacesAt(s, i + 1, j);
    }
  }

  lemma {:induction false} SkipSemisAt(s: string, i: nat, j: nat)
    requires i <= j <= |s| && AllSemi(s[i..j]) && (j < |s| ==> s[j] != ';')
    ensures SkipSemis(s, i) == j
    decreases j - i
  {
    if i < j {
      assert s[i..j][0] == s[i];
      assert s[i + 1..j] == s[i..j][1..];
      SkipSemisAt(s, i + 1, j);
    }
  }

  lemma RestOfLineAt(s: string, m: nat)
    requires m <= |s| && '\n' !in s[..m] && (m == |s| || s[m] == '\n')
    ensures RestOfLine(s) == s[..m]
    decreases m
  {
    if m > 0 {
      assert s[0] == s[..m][0];
      assert s[1..][..m - 1] == s[..m][1..];
      RestOfLineAt(s[1..], m - 1);
    }
  }

  /** The scanner IsComment accepts exactly the lines the comment pattern matches. */
  lemma CommentMatchesPattern(line: string)
    ensures IsComment(line) <==> CommentPattern(line)
  {
    if CommentPattern(line) {
      var i :| 0 <= i < |line| && AllSpace(line[..i]) && line[i] == ';';
      assert line[0..i] == line[..i];
      SkipSpacesAt(line, 0, i);
    }
    if IsComment(line) {
      var i := SkipSpaces(line, 0);
      assert line[..i] == line[0..i];
    }
  }

  lemma PatternGivesName(line: string, i: nat, j: nat, k: nat, m: nat, name: string)
    requires HeaderSplit(line, i, j, k, m, name)
    ensures HeaderName(line) == Some(name)
  {
    assert line[0..i] == line[..i];
    SkipSpacesAt(line, 0, i);
    assert line[i..j][0] == line[i];
    assert j < |line| ==> line[j] != ';' by {
      if j < |line| {
        if j < k { assert line[j..k][0] == line[j]; } else { assert line[j] == '@'; }
      }
    }
    SkipSemisAt(line, i, j);
    SkipSpacesAt(line, j, k);
    var rest := line[k + 1..];
    assert rest[..m - (k + 1)] == name;
    RestOfLineAt(rest, m - (k + 1));
  }

  lemma NameGivesPattern(line: string, name: string)
    requires HeaderName(line) == Some(name)
    ensures HeaderPattern(line, name)
  {
    var i := SkipSpaces(line, 0);
    var j := SkipSemis(line, i);
    var k := SkipSpaces(line, j);
    var m := k + 1 + |RestOfLine(line[k + 1..])|;
    assert line[..i] == line[0..i];
    assert name == line[k + 1..m];
    assert HeaderSplit(line, i, j, k, m, name);
  }

  /** HeaderName returns Some(name) exactly when the header pattern matches with group 1 = name. */
  lemma HeaderMatchesPattern(line: string, name: string)
    ensures HeaderName(line) == Some(name) <==> HeaderPattern(line, name)
  {
    if HeaderPattern(line, name) {
      var i: nat, j: nat, k: nat, m: nat :| HeaderSplit(line, i, j, k, m, name);
      PatternGivesName(line, i, j, k, m, name);
    }
    if HeaderName(line) == Some(name) {
      NameGivesPattern(line, name);
    }
  }

  /** Whatever the whitespace around them and however many ';' there are, a line
      "<space>;...;<space>@name" followed by a newline has group 1 = name. */
  lemma HeaderLineName(ws1: string, semis: string, ws2: string, name: string)
    requires AllSpace(ws1) && semis != [] && AllSemi(semis) && AllSpace(ws2) && '\n' !in name
    ensures HeaderName(ws1 + semis + ws2 + "@" + name + "\n") == Some(name)
  {
    var line := ws1 + semis + ws2 + "@" + name + "\n";
    var i := |ws1|;
    var j := i + |semis|;
    var k := j + |ws2|;
    var m := k + 1 + |name|;
    assert line[..i] == ws1;
    assert line[i..j] == semis;
    assert line[j..k] == ws2;
    assert line[k] == '@';
    assert line[k + 1..m] == name;
    assert line[m] == '\n';
    PatternGivesName(line, i, j, k, m, name);
  }

  /** Every section-header line also matches the comment pattern; the parser tests the
      header pattern first, so the header reading wins. */
  lemma HeaderIsComment(line: string)
    ensures IsHeader(line) ==> IsComment(line)
  {
  }

  /** What the loop body of the parser learns about one line. */
  datatype LineKind =
    | SectionHeader(key: string)   // the header pattern matched; key = get_safe_filename(group 1)
    | Comment                      // only the comment pattern matched
    | Ordinary                     // neither matched

  /** The classification the parser applies: the header test comes first, so a line
      matching both patterns is a section header. */
  function KindOf(line: string): (k: LineKind)
    ensures k.SectionHeader? <==> IsHeader(line)
    ensures k.Comment? <==> IsPlainComment(line)
    ensures k.Ordinary? <==> !IsComment(line)
    ensures k.SectionHeader? ==> k.key == SafeFilename(HeaderName(line).value) && k.key != "_header"
  {
    match HeaderName(line)
    case Some(n) => SafeFilenameNotHeaderKey(n); SectionHeader(SafeFilename(n))
    case None => if IsComment(line) then Comment else Ordinary
  }
}
