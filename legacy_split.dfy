/**
 * The older parsing loop inside split: the same pass as parse_rulefile, but each closed
 * version is saved with `sections[name] = section`, so a key that appears again replaces
 * the lines stored under it and keeps its place in the key order.
 */
module LegacySplit {
  import opened Classify
  import opened SafeName
  import opened Sectioning
  import opened OrderedDict
  import RuleFile

  /** Each key with the one list of raw lines stored under it. */
  type Sections = Dict<seq<string>>

  /** The dict after assigning each version's lines to its key, one after another. */
  function Overwrite(bs: seq<Version>): (d: Sections)
    ensures Valid(d)
  {
    if bs == [] then Empty() else Put(Overwrite(bs[..|bs| - 1]), bs[|bs| - 1].key, bs[|bs| - 1].lines)
  }

  /** What the loop in split leaves in `sections` for the given lines. */
  function SplitParse(lines: seq<string>): Sections {
    Overwrite(Blocks(KindOf, lines))
  }

  function Length(ls: seq<string>): nat {
    |ls|
  }

  /** The number of lines stored in the dict. */
  function StoredLines(d: Sections): nat {
    SumOver(d.keys, d.items, Length)
  }

  // ---------------------------------------------------------------------------
  // Overwriting against grouping.

  /** Overwriting keeps the keys, in the order grouping gives them, and under each key only
      the lines of its last version. */
  lemma OverwriteKeepsLast(bs: seq<Version>, k: string)
    ensures Overwrite(bs).keys == RuleFile.Group(bs).keys
    ensures k in Overwrite(bs).items <==> RuleFile.VersionsOf(bs, k) != []
    ensures k in Overwrite(bs).items ==>
      var vs := RuleFile.VersionsOf(bs, k); Overwrite(bs).items[k] == vs[|vs| - 1]
  {
    OverwriteKeys(bs);
    RuleFile.GroupGet(bs, k);
    OverwriteLast(bs, k);
  }

  lemma {:induction false} OverwriteKeys(bs: seq<Version>)
    ensures Overwrite(bs).keys == RuleFile.Group(bs).keys
  {
    if bs != [] {
      OverwriteKeys(bs[..|bs| - 1]);
    }
  }

  lemma {:induction false} OverwriteLast(bs: seq<Version>, k: string)
    ensures k in Overwrite(bs).items ==>
      var vs := RuleFile.VersionsOf(bs, k); |vs| > 0 && Overwrite(bs).items[k] == vs[|vs| - 1]
  {
    if bs != [] {
      OverwriteLast(bs[..|bs| - 1], k);
    }
  }

  /** The key "_header" comes first and holds the header block of the file. */
  lemma SplitHeader(lines: seq<string>)
    ensures var d := SplitParse(lines);
      && |d.keys| >= 1 && d.keys[0] == HeaderKey && HeaderKey in d.items
      && d.items[HeaderKey] == Blocks(KindOf, lines)[0].lines
  {
    var bs := Blocks(KindOf, lines);
    RuleFile.BlockKeys(lines);
    RuleFile.GroupFirstKey(bs);
    RuleFile.VersionsOfFirstOnly(bs, HeaderKey);
    OverwriteKeepsLast(bs, HeaderKey);
  }

  /** With every key distinct, overwriting stores every version whole: each key holds the
      lines of its one version, and the dict holds as many lines as the versions. */
  lemma {:induction false} OverwriteTotal(bs: seq<Version>)
    requires forall i, j :: 0 <= i < j < |bs| ==> bs[i].key != bs[j].key
    ensures forall i :: 0 <= i < |bs| ==> bs[i].key in Overwrite(bs).items && Overwrite(bs).items[bs[i].key] == bs[i].lines
    ensures StoredLines(Overwrite(bs)) == |Flatten(bs)|
  {
    OverwriteEach(bs);
    if bs != [] {
      var init := bs[..|bs| - 1];
      var v := bs[|bs| - 1];
      assert forall i, j :: 0 <= i < j < |init| ==> init[i].key != init[j].key by {
        forall i, j | 0 <= i < j < |init| ensures init[i].key != init[j].key {
          assert init[i] == bs[i] && init[j] == bs[j];
        }
      }
      OverwriteTotal(init);
      assert v.key !in Overwrite(init).items by {
        OverwriteKeepsLast(init, v.key);
        KeyNotRepeated(bs);
      }
      SumOverPut(Overwrite(init), Length, v.key, v.lines);
    }
  }

  lemma {:induction false} OverwriteEach(bs: seq<Version>)
    requires forall i, j :: 0 <= i < j < |bs| ==> bs[i].key != bs[j].key
    ensures forall i :: 0 <= i < |bs| ==> bs[i].key in Overwrite(bs).items && Overwrite(bs).items[bs[i].key] == bs[i].lines
  {
    if bs != [] {
      var init := bs[..|bs| - 1];
      forall i, j | 0 <= i < j < |init| ensures init[i].key != init[j].key {
        assert init[i] == bs[i] && init[j] == bs[j];
      }
      OverwriteEach(init);
      forall i | 0 <= i < |bs| - 1 ensures bs[i].key != bs[|bs| - 1].key && bs[i] == init[i] {
      }
    }
  }

  lemma KeyNotRepeated(bs: seq<Version>)
    requires bs != [] && forall i, j :: 0 <= i < j < |bs| ==> bs[i].key != bs[j].key
    ensures RuleFile.VersionsOf(bs[..|bs| - 1], bs[|bs| - 1].key) == []
  {
    var init := bs[..|bs| - 1];
    var k := bs[|bs| - 1].key;
    forall a | 0 <= a < |init| ensures init[a].key != k {
      assert init[a] == bs[a];
    }
    NoVersions(init, k);
  }

  lemma {:induction false} NoVersions(bs: seq<Version>, k: string)
    requires forall a :: 0 <= a < |bs| ==> bs[a].key != k
    ensures RuleFile.VersionsOf(bs, k) == []
  {
    if bs != [] {
      var init := bs[..|bs| - 1];
      forall a | 0 <= a < |init| ensures init[a].key != k {
        assert init[a] == bs[a];
      }
      NoVersions(init, k);
    }
  }

  /** When no section name repeats, split stores every line of the file. Lines are lost
      only at a repeated key, whose earlier versions are replaced (OverwriteKeepsLast). */
  lemma SplitKeepsAllLines(lines: seq<string>)
    requires var bs := Blocks(KindOf, lines);
      forall i, j :: 1 <= i < j < |bs| ==> bs[i].key != bs[j].key
    ensures StoredLines(SplitParse(lines)) == |lines|
  {
    var bs := Blocks(KindOf, lines);
    RuleFile.BlockKeys(lines);
    RuleFile.ParseKeepsAllLines(lines);
    OverwriteTotal(bs);
  }

  // ---------------------------------------------------------------------------
  // The loop inside split.

  /** The loop as written: `sections[sectionname] = section` at each header line and after
      the final flush of the held-back comments. */
  method SplitSections(lines: seq<string>) returns (sections: Sections)
    ensures sections == SplitParse(lines)
  {
    sections := Empty();
    var sectionname := HeaderKey;
    var section: seq<string> := [];
    var comments: seq<string> := [];
    ghost var closed: seq<Version> := [];
    for i := 0 to |lines|
      invariant Scan(KindOf, lines[..i]) == ScanState(closed, sectionname, section, comments)
      invariant sections == Overwrite(closed)
    {
      var line := lines[i];
      assert lines[..i + 1] == lines[..i] + [line];
      assert Scan(KindOf, lines[..i + 1]) == Step(KindOf, Scan(KindOf, lines[..i]), line);
      var sectionname_match := HeaderName(line);
      var comment_match := IsComment(line);
      if sectionname_match.Some? {
        var v := Version(sectionname, section);
        sections := Put(sections, sectionname, section);
        assert (closed + [v])[..|closed|] == closed;
        closed := closed + [v];
        sectionname := SafeFilename(sectionname_match.value);
        section := comments;
        comments := [];
        section := section + [line];
      } else if comment_match {
        comments := comments + [line];
      } else {
        section := section + comments;
        comments := [];
        section := section + [line];
      }
    }
    assert lines[..|lines|] == lines;
    if |comments| > 0 {
      section := section + comments;
    } else {
      assert section + comments == section;
    }
    var v := Version(sectionname, section);
    sections := Put(sections, sectionname, section);
    assert (closed + [v])[..|closed|] == closed;
  }
}
