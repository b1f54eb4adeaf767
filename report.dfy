/**
 * The decisions `report` makes about a parsed rule file, with its messages replaced by the
 * values behind them: whether there is a header, how many mod sections there are, whether
 * their names are in case-insensitive order, and which names have other than one version.
 */
module Report {
  import opened Wrappers
  import opened Classify
  import opened SafeName
  import opened Sectioning
  import opened OrderedDict
  import RuleFile

  // ---------------------------------------------------------------------------
  // Comparing names as `sort(key = str.lower)` does.

  function LowerChar(c: char): char {
    if 'A' <= c <= 'Z' then (c as int + 32) as char else c
  }

  /** `str.lower` on ASCII text; section keys are safe filenames, which are ASCII. */
  function Lower(s: string): string {
    if s == [] then [] else [LowerChar(s[0])] + Lower(s[1..])
  }

  /** Python's `<` on str: the first differing character decides, and a proper prefix
      comes first. */
  predicate Less(a: string, b: string) {
    |b| > 0 && (|a| == 0 || a[0] < b[0] || (a[0] == b[0] && Less(a[1..], b[1..])))
  }

  lemma {:induction false} LessIrreflexive(a: string)
    ensures !Less(a, a)
  {
    if |a| > 0 { LessIrreflexive(a[1..]); }
  }

  lemma {:induction false} LessAsymmetric(a: string, b: string)
    requires Less(a, b)
    ensures !Less(b, a)
  {
    if |a| > 0 && a[0] == b[0] { LessAsymmetric(a[1..], b[1..]); }
  }

  lemma {:induction false} LessTransitive(a: string, b: string, c: string)
    requires Less(a, b) && Less(b, c)
    ensures Less(a, c)
  {
    if |a| > 0 && a[0] == b[0] && b[0] == c[0] { LessTransitive(a[1..], b[1..], c[1..]); }
  }

  lemma {:induction false} LessTotal(a: string, b: string)
    ensures a == b || Less(a, b) || Less(b, a)
  {
    if |a| > 0 && |b| > 0 && a[0] == b[0] {
      LessTotal(a[1..], b[1..]);
      if a[1..] == b[1..] {
        assert a == [a[0]] + a[1..] && b == [b[0]] + b[1..];
      }
    }
  }

  /** The sort comparison: a goes strictly before b when its lower-cased form is smaller. */
  predicate Before(a: string, b: string) {
    Less(Lower(a), Lower(b))
  }

  /** Non-decreasing under lower-casing: no name goes strictly before the one in front of it. */
  ghost predicate SortedCI(s: seq<string>) {
    SortedBetween(s, 0, |s|)
  }

  /** s[lo..hi] is non-decreasing under lower-casing. */
  ghost predicate SortedBetween(s: seq<string>, lo: int, hi: int) {
    forall k :: lo < k < hi && 0 < k < |s| ==> !Before(s[k], s[k - 1])
  }

  /** Sorted by neighbours means sorted by every pair. */
  lemma {:induction false} SortedCIPairwise(s: seq<string>, i: nat, j: nat)
    requires SortedCI(s) && i < j < |s|
    ensures !Before(s[j], s[i])
    decreases j - i
  {
    if i + 1 < j {
      SortedCIPairwise(s, i, j - 1);
      var x, y, z := Lower(s[i]), Lower(s[j - 1]), Lower(s[j]);
      LessTotal(x, y);
      LessTotal(y, z);
      if Less(x, y) && Less(y, z) {
        LessTransitive(x, y, z);
        LessAsymmetric(x, z);
      } else if Less(x, y) {
        LessAsymmetric(x, z);
      } else if Less(y, z) {
        LessAsymmetric(x, z);
      }
    }
  }

  /** One swap of the inner loop: the name at j moves left past the larger one at j - 1. */
  lemma SwapStep(s: seq<string>, i: nat, j: nat)
    requires 0 < j <= i < |s|
    requires SortedBetween(s, 0, j) && SortedBetween(s, j, i + 1)
    requires j < i ==> !Before(s[j + 1], s[j - 1])
    requires Before(s[j], s[j - 1])
    ensures var t := s[j - 1 := s[j]][j := s[j - 1]];
      && SortedBetween(t, 0, j - 1) && SortedBetween(t, j - 1, i + 1)
      && (0 < j - 1 ==> !Before(t[j], t[j - 2]))
      && multiset(t) == multiset(s) && |t| == |s|
      && SameTies(t, s)
  {
    LessAsymmetric(Lower(s[j]), Lower(s[j - 1]));
    LessIrreflexive(Lower(s[j]));
    SwapKeepsTies(s, j);
  }

  /** The names of s whose lower-cased form is low, in the order they appear in s. */
  function WithLower(s: seq<string>, low: string): seq<string> {
    if s == [] then []
    else WithLower(s[..|s| - 1], low) + (if Lower(s[|s| - 1]) == low then [s[|s| - 1]] else [])
  }

  /** Names equal under lower-casing appear in s and t in the same relative order. */
  ghost predicate SameTies(s: seq<string>, t: seq<string>) {
    forall low :: WithLower(s, low) == WithLower(t, low)
  }

  lemma {:induction false} WithLowerAppend(s: seq<string>, t: seq<string>, low: string)
    ensures WithLower(s + t, low) == WithLower(s, low) + WithLower(t, low)
    decreases |t|
  {
    if t == [] {
      assert s + t == s;
    } else {
      var init := t[..|t| - 1];
      assert (s + t)[..|s + t| - 1] == s + init;
      assert (s + t)[|s + t| - 1] == t[|t| - 1];
      WithLowerAppend(s, init, low);
    }
  }

  /** Exchanging two neighbours with different lower-cased forms keeps every tie in order. */
  lemma SwapKeepsTies(s: seq<string>, j: nat)
    requires 0 < j < |s| && Lower(s[j - 1]) != Lower(s[j])
    ensures SameTies(s[j - 1 := s[j]][j := s[j - 1]], s)
  {
    var t := s[j - 1 := s[j]][j := s[j - 1]];
    var p, x, y, q := s[..j - 1], s[j - 1], s[j], s[j + 1..];
    assert s == p + [x] + [y] + q;
    assert t == p + [y] + [x] + q;
    forall low ensures WithLower(t, low) == WithLower(s, low) {
      WithLowerFour(p, x, y, q, low);
      WithLowerFour(p, y, x, q, low);
    }
  }

  lemma WithLowerFour(p: seq<string>, x: string, y: string, q: seq<string>, low: string)
    ensures WithLower(p + [x] + [y] + q, low)
         == WithLower(p, low) + (if Lower(x) == low then [x] else [])
            + (if Lower(y) == low then [y] else []) + WithLower(q, low)
  {
    WithLowerAppend(p + [x] + [y], q, low);
    assert (p + [x] + [y])[..|p| + 1] == p + [x];
    assert (p + [x])[..|p|] == p;
  }

  /** A name among the ties of s for a lower-cased form is a name of s with that form. */
  lemma {:induction false} WithLowerIn(s: seq<string>, low: string, x: string)
    requires x in WithLower(s, low)
    ensures x in s && Lower(x) == low
  {
    var init := s[..|s| - 1];
    if x in WithLower(init, low) {
      WithLowerIn(init, low, x);
      var k :| 0 <= k < |init| && init[k] == x;
      assert s[k] == x;
    }
  }

  /** Removing the same last name from two orders with the same ties leaves the same ties. */
  lemma DropLastTie(s: seq<string>, t: seq<string>)
    requires |s| == |t| > 0 && s[|s| - 1] == t[|t| - 1] && SameTies(s, t)
    ensures SameTies(s[..|s| - 1], t[..|t| - 1])
  {
    var x := s[|s| - 1];
    var si, ti := s[..|s| - 1], t[..|t| - 1];
    forall low ensures WithLower(si, low) == WithLower(ti, low) {
      var a, b := WithLower(si, low), WithLower(ti, low);
      var e := if Lower(x) == low then [x] else [];
      assert WithLower(s, low) == a + e && WithLower(t, low) == b + e;
      assert (a + e)[..|a|] == a && (b + e)[..|b|] == b;
    }
  }

  /** Any two orders of the same names that are both case-insensitively sorted and keep
      every tie in the same order are equal: the result of a stable sort is determined. */
  lemma {:induction false} StableOrderUnique(s: seq<string>, t: seq<string>)
    requires |s| == |t| && SortedCI(s) && SortedCI(t) && SameTies(s, t)
    ensures s == t
    decreases |s|
  {
    if |s| > 0 {
      var n := |s|;
      SameLastName(s, t);
      DropLastTie(s, t);
      SortedPrefix(s);
      SortedPrefix(t);
      StableOrderUnique(s[..n - 1], t[..n - 1]);
      assert s == s[..n - 1] + [s[n - 1]] && t == t[..n - 1] + [t[n - 1]];
    }
  }

  /** Two sorted orders with the same ties end in the same name. */
  lemma SameLastName(s: seq<string>, t: seq<string>)
    requires |s| == |t| > 0 && SortedCI(s) && SortedCI(t) && SameTies(s, t)
    ensures s[|s| - 1] == t[|t| - 1]
  {
    var n := |s|;
    var x, y := s[n - 1], t[n - 1];
    assert WithLower(t, Lower(y)) == WithLower(t[..n - 1], Lower(y)) + [y];
    WithLowerIn(s, Lower(y), y);
    assert WithLower(s, Lower(x)) == WithLower(s[..n - 1], Lower(x)) + [x];
    WithLowerIn(t, Lower(x), x);
    var i :| 0 <= i < n && s[i] == y;
    var k :| 0 <= k < n && t[k] == x;
    LessIrreflexive(Lower(x));
    if i < n - 1 { SortedCIPairwise(s, i, n - 1); }
    if k < n - 1 { SortedCIPairwise(t, k, n - 1); }
    LessTotal(Lower(x), Lower(y));
    var low := Lower(x);
    var a, b := WithLower(s[..n - 1], low), WithLower(t[..n - 1], low);
    assert WithLower(s, low) == a + [x] && WithLower(t, low) == b + [y];
    assert (a + [x])[|a|] == x && (b + [y])[|b|] == y;
  }

  lemma SortedPrefix(s: seq<string>)
    requires |s| > 0 && SortedCI(s)
    ensures SortedCI(s[..|s| - 1])
  {
    var si := s[..|s| - 1];
    forall q | 0 < q < |si| ensures !Before(si[q], si[q - 1]) {
      assert si[q] == s[q] && si[q - 1] == s[q - 1];
    }
  }

  /** The inner loop stops: the name at j is in place. */
  lemma InsertDone(s: seq<string>, i: nat, j: nat)
    requires j <= i < |s|
    requires SortedBetween(s, 0, j) && SortedBetween(s, j, i + 1)
    requires j == 0 || !Before(s[j], s[j - 1])
    ensures SortedBetween(s, 0, i + 1)
  {
  }

  /** The in-place `sort(key = str.lower)` as a stable insertion sort: names move left only
      past names that go strictly after them, so names equal under lower-casing keep their
      order, and a list already in order stays as it is. */
  method SortCaseInsensitive(a: array<string>)
    modifies a
    ensures SortedCI(a[..])
    ensures multiset(a[..]) == multiset(old(a[..]))
    ensures forall low :: WithLower(a[..], low) == WithLower(old(a[..]), low)
    ensures SortedCI(old(a[..])) ==> a[..] == old(a[..])
  {
    ghost var orig := a[..];
    for i := 0 to a.Length
      invariant SortedBetween(a[..], 0, i)
      invariant multiset(a[..]) == multiset(orig)
      invariant SameTies(a[..], orig)
      invariant SortedCI(orig) ==> a[..] == orig
    {
      var j := i;
      while j > 0 && Before(a[j], a[j - 1])
        invariant 0 <= j <= i
        invariant SortedBetween(a[..], 0, j) && SortedBetween(a[..], j, i + 1)
        invariant 0 < j < i ==> !Before(a[j + 1], a[j - 1])
        invariant multiset(a[..]) == multiset(orig)
        invariant SameTies(a[..], orig)
        invariant SortedCI(orig) ==> a[..] == orig && j == i
        decreases j
      {
        SwapStep(a[..], i, j);
        a[j - 1], a[j] := a[j], a[j - 1];
        j := j - 1;
      }
      InsertDone(a[..], i, j);
    }
  }

  // ---------------------------------------------------------------------------
  // What report decides.

  /** The values behind report's messages. */
  datatype Summary = Summary(hasHeader: bool, sectionCount: nat, sorted: bool, warnings: seq<(string, nat)>)

  /** The distinct section names of the file, the header key aside. */
  ghost function ModNames(lines: seq<string>): set<string> {
    var bs := Blocks(KindOf, lines);
    (set b | 0 <= b < |bs| :: bs[b].key) - {HeaderKey}
  }

  /** `list(sections.keys())` after the header entry is popped. */
  function SectionNames(lines: seq<string>): seq<string> {
    Pop(RuleFile.Parse(lines), HeaderKey).1.keys
  }

  /** Each name whose number of versions is not 1, with that number, in the given order. */
  function WarningsOf(names: seq<string>, d: RuleFile.Sections): seq<(string, nat)> {
    if names == [] then []
    else
      var k := names[|names| - 1];
      var n := |Get(d, k, [])|;
      WarningsOf(names[..|names| - 1], d) + (if n != 1 then [(k, n)] else [])
  }

  /** The warnings report prints for a file. */
  function Warnings(lines: seq<string>): seq<(string, nat)> {
    var rest := Pop(RuleFile.Parse(lines), HeaderKey).1;
    WarningsOf(rest.keys, rest)
  }

  /** A duplicate-free sequence has as many elements as its set. */
  lemma {:induction false} DistinctCard(s: seq<string>)
    requires Distinct(s)
    ensures |set x | x in s| == |s|
  {
    if s != [] {
      var init := s[..|s| - 1];
      var last := s[|s| - 1];
      assert Distinct(init);
      DistinctCard(init);
      assert last !in init by {
        forall i | 0 <= i < |init| ensures init[i] != last {
          assert init[i] == s[i];
        }
      }
      assert (set x | x in s) == (set x | x in init) + {last} by {
        assert s == init + [last];
      }
    }
  }

  /** The keys of the grouped dict are the keys of the versions. */
  lemma GroupKeySet(bs: seq<Version>)
    ensures (set x | x in RuleFile.Group(bs).keys) == (set b | 0 <= b < |bs| :: bs[b].key)
  {
    var d := RuleFile.Group(bs);
    forall x ensures x in d.keys <==> x in (set b | 0 <= b < |bs| :: bs[b].key) {
      RuleFile.GroupVersions(bs, x);
    }
  }

  /** The names report works with: every key after "_header", in the order the keys were
      first seen, each once, and each a section name of the file. */
  lemma SectionNamesAre(lines: seq<string>)
    ensures SectionNames(lines) == RuleFile.Parse(lines).keys[1..]
    ensures Distinct(SectionNames(lines))
    ensures (set x | x in SectionNames(lines)) == ModNames(lines)
    ensures |SectionNames(lines)| == |ModNames(lines)|
  {
    var d := RuleFile.Parse(lines);
    var bs := Blocks(KindOf, lines);
    assert SectionNames(lines) == d.keys[1..] by {
      RuleFile.ParseHeader(lines);
      PopFirst(d);
    }
    assert Distinct(d.keys[1..]) by {
      RuleFile.ParseHeader(lines);
      PopFirst(d);
      PopValid(d, HeaderKey);
    }
    assert (set x | x in d.keys[1..]) == ModNames(lines) by {
      RuleFile.ParseHeader(lines);
      GroupKeySet(bs);
      TailSet(d.keys);
    }
    DistinctCard(d.keys[1..]);
  }

  /** Every section name is a safe filename, so it is ASCII and ASCII lower-casing is
      what `str.lower` does to it. */
  lemma SectionNamesSafe(lines: seq<string>)
    ensures forall x :: x in SectionNames(lines) ==> AllSafe(x)
  {
    var bs := Blocks(KindOf, lines);
    SectionNamesAre(lines);
    RuleFile.BlockKeys(lines);
    forall x | x in SectionNames(lines) ensures AllSafe(x) {
      assert x in ModNames(lines);
      var b :| 0 <= b < |bs| && bs[b].key == x && x != HeaderKey;
      RuleFile.VersionShape(lines, b);
    }
  }

  /** Without its first element, a duplicate-free sequence holds the other elements. */
  lemma TailSet(s: seq<string>)
    requires Distinct(s) && |s| >= 1
    ensures (set x | x in s[1..]) == (set x | x in s) - {s[0]}
  {
    forall x | x in s && x != s[0] ensures x in s[1..] {
      var j :| 0 <= j < |s| && s[j] == x;
      assert s[1..][j - 1] == x;
    }
    forall x | x in s[1..] ensures x != s[0] {
      var j :| 0 <= j < |s[1..]| && s[1..][j] == x;
      assert s[j + 1] == x;
    }
  }

  /** Membership in WarningsOf: a listed name whose value has other than one element. */
  lemma {:induction false} WarningsOfIn(names: seq<string>, d: RuleFile.Sections, name: string, n: nat)
    ensures (name, n) in WarningsOf(names, d) <==> name in names && n == |Get(d, name, [])| && n != 1
  {
    if names != [] {
      var init := names[..|names| - 1];
      WarningsOfIn(init, d, name, n);
      assert names == init + [names[|names| - 1]];
    }
  }

  /** report warns exactly about the section names that occur more than once, and gives the
      number of versions kept for each. */
  lemma WarningsAre(lines: seq<string>, name: string, n: nat)
    ensures (name, n) in Warnings(lines) <==>
      var vs := RuleFile.VersionsOf(Blocks(KindOf, lines), name);
      name in ModNames(lines) && n == |vs| && n > 1
  {
    var bs := Blocks(KindOf, lines);
    var d := RuleFile.Parse(lines);
    var rest := Pop(d, HeaderKey).1;
    SectionNamesAre(lines);
    WarningsOfIn(rest.keys, rest, name, n);
    RuleFile.GroupGet(bs, name);
    if name in rest.keys {
      assert name != HeaderKey;
      assert Get(rest, name, []) == Get(d, name, []);
    }
  }

  /** Sorts a copy of the names and compares it with the original: the names count as
      sorted exactly when they are already in case-insensitive order. */
  method IsSortedCI(names: seq<string>) returns (sorted: bool)
    ensures sorted <==> SortedCI(names)
  {
    var a := new string[|names|](i requires 0 <= i < |names| => names[i]);
    assert a[..] == names;
    SortCaseInsensitive(a);
    sorted := names == a[..];
    assert !SortedCI(names) ==> !sorted;
  }

  /** The loop over `zip(section_names, entries)` that prints the warnings. */
  method CollectWarnings(names: seq<string>, d: RuleFile.Sections) returns (warnings: seq<(string, nat)>)
    ensures warnings == WarningsOf(names, d)
  {
    warnings := [];
    for i := 0 to |names|
      invariant warnings == WarningsOf(names[..i], d)
    {
      assert names[..i + 1][..i] == names[..i];
      var num := |Get(d, names[i], [])|;
      if num != 1 {
        warnings := warnings + [(names[i], num)];
      }
    }
    assert names[..|names|] == names;
  }

  /** report, with each message replaced by the value it is printed from. The names are
      sorted on a copy, and they count as sorted when the sort left them as they were. */
  method Report(lines: seq<string>) returns (r: Summary)
    ensures r.hasHeader
    ensures r.sectionCount == |ModNames(lines)|
    ensures r.sorted <==> SortedCI(SectionNames(lines))
    ensures r.warnings == Warnings(lines)
  {
    var sections := RuleFile.ParseRulefile(lines);
    var popped := Pop(sections, HeaderKey);
    var header, rest := popped.0, popped.1;
    var hasHeader := header.Some? && |header.value| > 0;
    RuleFile.ParseHeader(lines);
    SectionNamesAre(lines);

    var names := rest.keys;
    var count := |names|;

    var sorted := IsSortedCI(names);

    var warnings := CollectWarnings(names, rest);
    r := Summary(hasHeader, count, sorted, warnings);
  }
}
