/**
 * parse_rulefile of the command-line tool: every closed version is stored under its key
 * with `sections.get(name, [])`, append, store, so a key that appears again collects one
 * more version, and keys stay in the order they first appear.
 */
module RuleFile {
  import opened Classify
  import opened SafeName
  import opened Sectioning
  import opened OrderedDict

  /** What parse_rulefile returns: each key with its versions, each a list of raw lines. */
  type Sections = Dict<seq<seq<string>>>

  /** Saving a closed version: get the versions of its key (none yet: empty), append, store. */
  function Store(d: Sections, v: Version): (r: Sections)
    ensures Valid(d) ==> Valid(r)
  {
    Put(d, v.key, Get(d, v.key, []) + [v.lines])
  }

  /** The dict after saving the versions bs one after another into an empty dict. */
  function Group(bs: seq<Version>): (d: Sections)
    ensures Valid(d)
  {
    if bs == [] then Empty() else Store(Group(bs[..|bs| - 1]), bs[|bs| - 1])
  }

  /** Saving under a new key appends the key with a single version. */
  lemma StoreNew(d: Sections, v: Version)
    requires v.key !in d.items
    ensures Store(d, v) == Dict(d.keys + [v.key], d.items[v.key := [v.lines]])
  {
    assert Get(d, v.key, []) + [v.lines] == [v.lines];
  }

  /** Saving under a key already present adds one version at the end and keeps the order. */
  lemma StoreOld(d: Sections, v: Version)
    requires v.key in d.items
    ensures Store(d, v) == Dict(d.keys, d.items[v.key := d.items[v.key] + [v.lines]])
  {
  }

  lemma GroupSnoc(bs: seq<Version>, v: Version)
    ensures Group(bs + [v]) == Store(Group(bs), v)
  {
    assert (bs + [v])[..|bs|] == bs;
  }

  /** What parse_rulefile returns for the given lines. */
  function Parse(lines: seq<string>): Sections {
    Group(Blocks(KindOf, lines))
  }

  // ---------------------------------------------------------------------------
  // Reference definitions, independent of the dict.

  /** The lines of the versions with key k, in the order they appear. */
  function VersionsOf(bs: seq<Version>, k: string): seq<seq<string>> {
    if bs == [] then []
    else VersionsOf(bs[..|bs| - 1], k) + (if bs[|bs| - 1].key == k then [bs[|bs| - 1].lines] else [])
  }

  /** Some version before index b has key k. */
  ghost predicate SeenBefore(bs: seq<Version>, b: int, k: string) {
    exists a :: 0 <= a < b && a < |bs| && bs[a].key == k
  }

  /** The total number of lines kept in the versions of the dict. */
  function TotalLines(d: Sections): nat {
    SumOver(d.keys, d.items, Size)
  }

  function Size(vs: seq<seq<string>>): nat {
    if vs == [] then 0 else Size(vs[..|vs| - 1]) + |vs[|vs| - 1]|
  }

  // ---------------------------------------------------------------------------
  // Properties of Group.

  /** Each key holds exactly the versions with that key, in the order they were closed;
      a key is present exactly when some version has it. */
  lemma GroupVersions(bs: seq<Version>, k: string)
    ensures Get(Group(bs), k, []) == VersionsOf(bs, k)
    ensures k in Group(bs).items <==> SeenBefore(bs, |bs|, k)
  {
    GroupGet(bs, k);
    VersionsOfSeen(bs, k);
  }

  lemma {:induction false} GroupGet(bs: seq<Version>, k: string)
    ensures Get(Group(bs), k, []) == VersionsOf(bs, k)
    ensures k in Group(bs).items <==> VersionsOf(bs, k) != []
  {
    if bs != [] {
      GroupGet(bs[..|bs| - 1], k);
    }
  }

  /** A key has versions exactly when some version has that key. */
  lemma {:induction false} VersionsOfSeen(bs: seq<Version>, k: string)
    ensures VersionsOf(bs, k) != [] <==> SeenBefore(bs, |bs|, k)
  {
    if bs != [] {
      var init := bs[..|bs| - 1];
      VersionsOfSeen(init, k);
      SeenBeforeLast(bs, k);
    }
  }

  lemma SeenBeforeLast(bs: seq<Version>, k: string)
    requires bs != []
    ensures SeenBefore(bs, |bs|, k) <==> SeenBefore(bs[..|bs| - 1], |bs| - 1, k) || bs[|bs| - 1].key == k
  {
    var init := bs[..|bs| - 1];
    if SeenBefore(init, |init|, k) {
      var a :| 0 <= a < |init| && init[a].key == k;
      assert bs[a].key == k;
    }
    if SeenBefore(bs, |bs|, k) && bs[|bs| - 1].key != k {
      var a :| 0 <= a < |bs| && bs[a].key == k;
      assert init[a].key == k;
    }
  }

  /** The first key is the key of the first version. */
  lemma {:induction false} GroupFirstKey(bs: seq<Version>)
    requires |bs| >= 1
    ensures |Group(bs).keys| >= 1 && Group(bs).keys[0] == bs[0].key
  {
    if |bs| > 1 {
      GroupFirstKey(bs[..|bs| - 1]);
    }
  }

  /** The keys of the versions, each once, in the order they first appear. */
  function FirstSeen(bs: seq<Version>): seq<string> {
    if bs == [] then []
    else
      var ks := FirstSeen(bs[..|bs| - 1]);
      var k := bs[|bs| - 1].key;
      if k in ks then ks else ks + [k]
  }

  /** The dict's key order is the order in which keys first appear. */
  lemma {:induction false} GroupKeys(bs: seq<Version>)
    ensures Group(bs).keys == FirstSeen(bs)
  {
    if bs != [] {
      GroupKeys(bs[..|bs| - 1]);
    }
  }

  lemma {:induction false} FirstSeenMembers(bs: seq<Version>, k: string)
    ensures k in FirstSeen(bs) <==> SeenBefore(bs, |bs|, k)
  {
    if bs != [] {
      FirstSeenMembers(bs[..|bs| - 1], k);
      SeenBeforeLast(bs, k);
    }
  }

  /** Keys are in first-appearance order: wherever the j-th key occurs, every earlier key
      has occurred before. */
  lemma GroupOrder(bs: seq<Version>)
    ensures var keys := Group(bs).keys;
      forall i, j, b :: 0 <= i < j < |keys| && 0 <= b < |bs| && bs[b].key == keys[j] ==> SeenBefore(bs, b, keys[i])
  {
    GroupKeys(bs);
    FirstSeenOrder(bs);
  }

  lemma {:induction false} FirstSeenOrder(bs: seq<Version>)
    ensures var keys := FirstSeen(bs);
      forall i, j, b :: 0 <= i < j < |keys| && 0 <= b < |bs| && bs[b].key == keys[j] ==> SeenBefore(bs, b, keys[i])
  {
    if bs != [] {
      FirstSeenOrder(bs[..|bs| - 1]);
      var keys := FirstSeen(bs);
      forall i, j, b | 0 <= i < j < |keys| && 0 <= b < |bs| && bs[b].key == keys[j]
        ensures SeenBefore(bs, b, keys[i])
      {
        FirstSeenStep(bs, i, j, b);
      }
    }
  }

  /** One step of FirstSeenOrder: from the order for all but the last version to one pair. */
  lemma FirstSeenStep(bs: seq<Version>, i: nat, j: nat, b: nat)
    requires bs != []
    requires i < j < |FirstSeen(bs)| && b < |bs| && bs[b].key == FirstSeen(bs)[j]
    requires var init := bs[..|bs| - 1]; var keys := FirstSeen(init);
      j < |keys| ==> forall b :: 0 <= b < |init| && init[b].key == keys[j] ==> SeenBefore(init, b, keys[i])
    ensures SeenBefore(bs, b, FirstSeen(bs)[i])
  {
    var n := |bs|;
    var init := bs[..n - 1];
    var old_keys := FirstSeen(init);
    var keys := FirstSeen(bs);
    var k := keys[i];
    assert k == old_keys[i];
    if b == n - 1 {
      FirstSeenMembers(init, k);
      SeenBeforeLift(bs, b, k);
    } else if j < |old_keys| {
      assert keys[j] == old_keys[j];
      assert init[b] == bs[b];
      assert SeenBefore(init, b, k);
      SeenBeforeLift(bs, b, k);
    } else {
      FirstSeenMembers(init, bs[n - 1].key);
      NotSeenAt(init, bs[n - 1].key, b);
      assert false;
    }
  }

  /** An occurrence before b in all but the last version is one in the whole sequence. */
  lemma SeenBeforeLift(bs: seq<Version>, b: nat, k: string)
    requires bs != [] && SeenBefore(bs[..|bs| - 1], b, k)
    ensures SeenBefore(bs, b, k)
  {
    var a :| 0 <= a < b && a < |bs| - 1 && bs[..|bs| - 1][a].key == k;
    assert bs[a].key == k;
  }

  lemma NotSeenAt(bs: seq<Version>, k: string, b: nat)
    requires !SeenBefore(bs, |bs|, k) && b < |bs|
    ensures bs[b].key != k
  {
  }

  lemma SizeAppend(vs: seq<seq<string>>, x: seq<string>)
    ensures Size(vs + [x]) == Size(vs) + |x|
  {
    assert (vs + [x])[..|vs|] == vs;
  }

  /** Grouping loses no line: the dict holds as many lines as the versions. */
  lemma {:induction false} GroupTotal(bs: seq<Version>)
    ensures TotalLines(Group(bs)) == |Flatten(bs)|
  {
    if bs != [] {
      var init := bs[..|bs| - 1];
      var v := bs[|bs| - 1];
      var d := Group(init);
      GroupTotal(init);
      var old_vs := Get(d, v.key, []);
      SumOverPut(d, Size, v.key, old_vs + [v.lines]);
      SizeAppend(old_vs, v.lines);
    }
  }
  // ---------------------------------------------------------------------------
  // Properties of the parsed rule file.

  /** Only the first version has the key "_header": a header key is a safe filename,
      and `_` is not a safe character. */
  lemma BlockKeys(lines: seq<string>)
    ensures var bs := Blocks(KindOf, lines);
      |bs| >= 1 && bs[0].key == HeaderKey && forall i :: 1 <= i < |bs| ==> bs[i].key != HeaderKey
  {
    var bs := Blocks(KindOf, lines);
    BlocksSegmentation(KindOf, lines);
    forall i | 1 <= i < |bs| ensures bs[i].key != HeaderKey {
      var p: nat :| OpensAt(KindOf, bs[i], p);
    }
  }

  /** Every version after the "_header" one is plain comment lines, then one header line
      whose name, filtered to a safe filename, is the version's key, then lines that are not
      header lines; the "_header" version has no header line. */
  lemma VersionShape(lines: seq<string>, i: nat)
    requires i < |Blocks(KindOf, lines)|
    ensures var v := Blocks(KindOf, lines)[i];
      if i == 0 then
        v.key == HeaderKey && forall q :: 0 <= q < |v.lines| ==> !IsHeader(v.lines[q])
      else
        exists p :: && 0 <= p < |v.lines|
                    && (forall q :: 0 <= q < p ==> IsPlainComment(v.lines[q]))
                    && IsHeader(v.lines[p]) && v.key == SafeFilename(HeaderName(v.lines[p]).value)
                    && (forall q :: p < q < |v.lines| ==> !IsHeader(v.lines[q]))
  {
    var v := Blocks(KindOf, lines)[i];
    BlocksSegmentation(KindOf, lines);
    if i > 0 {
      var p: nat :| OpensAt(KindOf, v, p);
      OpenedShape(v, p);
    }
  }

  lemma OpenedShape(v: Version, p: nat)
    requires OpensAt(KindOf, v, p)
    ensures forall q :: 0 <= q < p ==> IsPlainComment(v.lines[q])
    ensures IsHeader(v.lines[p]) && v.key == SafeFilename(HeaderName(v.lines[p]).value)
    ensures forall q :: p < q < |v.lines| ==> !IsHeader(v.lines[q])
  {
    forall q | 0 <= q < p ensures IsPlainComment(v.lines[q]) {
      assert v.lines[..p][q] == v.lines[q];
    }
    forall q | p < q < |v.lines| ensures !IsHeader(v.lines[q]) {
      assert v.lines[p + 1..][q - p - 1] == v.lines[q];
    }
  }

  lemma {:induction false} VersionsOfFirstOnly(bs: seq<Version>, k: string)
    requires |bs| >= 1 && bs[0].key == k && forall i :: 1 <= i < |bs| ==> bs[i].key != k
    ensures VersionsOf(bs, k) == [bs[0].lines]
  {
    if |bs| > 1 {
      VersionsOfFirstOnly(bs[..|bs| - 1], k);
    }
  }

  /** "_header" is always the first key and always has exactly one version, the header
      block of the file (see Sectioning.HeaderBlock). */
  lemma ParseHeader(lines: seq<string>)
    ensures var d := Parse(lines);
      && |d.keys| >= 1 && d.keys[0] == HeaderKey && HeaderKey in d.items
      && d.items[HeaderKey] == [Blocks(KindOf, lines)[0].lines]
  {
    var bs := Blocks(KindOf, lines);
    BlockKeys(lines);
    GroupFirstKey(bs);
    GroupVersions(bs, HeaderKey);
    VersionsOfFirstOnly(bs, HeaderKey);
  }

  /** An empty rule file gives `{"_header": [[]]}`. */
  lemma ParseEmpty()
    ensures Parse([]) == Dict([HeaderKey], map[HeaderKey := [[]]])
  {
    BlocksOfNothing(KindOf);
    GroupOne(Version(HeaderKey, []));
  }

  lemma GroupOne(v: Version)
    ensures Group([v]) == Dict([v.key], map[v.key := [v.lines]])
  {
    assert [v][..0] == [];
    assert Group([v]) == Store(Empty(), v);
    assert Get(Empty<seq<seq<string>>>(), v.key, []) + [v.lines] == [v.lines];
  }

  /** Every line is kept exactly once: the versions, in the order they are closed, give back
      the file, so the dict holds as many lines as the file. */
  lemma ParseKeepsAllLines(lines: seq<string>)
    ensures Flatten(Blocks(KindOf, lines)) == lines
    ensures TotalLines(Parse(lines)) == |lines|
  {
    BlocksSegmentation(KindOf, lines);
    GroupTotal(Blocks(KindOf, lines));
  }

  /** A key holds its versions in file order, and keys are listed in first-appearance order. */
  lemma ParseVersions(lines: seq<string>, k: string)
    ensures var bs := Blocks(KindOf, lines);
      && Get(Parse(lines), k, []) == VersionsOf(bs, k)
      && (k in Parse(lines).keys <==> exists i :: 0 <= i < |bs| && bs[i].key == k)
  {
    GroupVersions(Blocks(KindOf, lines), k);
  }

  /** Parse stores exactly the one segmentation of the file. */
  lemma ParseOfSegmentation(lines: seq<string>, bs: seq<Version>)
    requires IsSegmentation(KindOf, lines, bs)
    ensures Parse(lines) == Group(bs)
  {
    BlocksUnique(KindOf, lines, bs);
  }

  // ---------------------------------------------------------------------------
  // The loop of parse_rulefile.

  /** The loop as written: the header test before the comment test, the held-back comments
      becoming the new section, and the final flush and save after the loop. */
  method ParseRulefile(lines: seq<string>) returns (sections: Sections)
    ensures sections == Parse(lines)
  {
    sections := Empty();
    var sectionname := HeaderKey;
    var section: seq<string> := [];
    var comments: seq<string> := [];
    ghost var closed: seq<Version> := [];
    for i := 0 to |lines|
      invariant Scan(KindOf, lines[..i]) == ScanState(closed, sectionname, section, comments)
      invariant sections == Group(closed)
    {
      var line := lines[i];
      assert lines[..i + 1] == lines[..i] + [line];
      assert Scan(KindOf, lines[..i + 1]) == Step(KindOf, Scan(KindOf, lines[..i]), line);
      var sectionname_match := HeaderName(line);
      var comment_match := IsComment(line);
      if sectionname_match.Some? {
        var v := Version(sectionname, section);
        var section_versions := Get(sections, sectionname, []);
        section_versions := section_versions + [section];
        sections := Put(sections, sectionname, section_versions);
        assert (closed + [v])[..|closed|] == closed;
        closed := closed + [v];
        sectionname := SafeFilename(sectionname_match.value);
        section := comments;
        comments := [];
        section := section + [line];
      } else if comment_match {
        comments := comments + [line];
      } else {
        section := section + comments;
        comments := [];
        section := section + [line];
      }
    }
    assert lines[..|lines|] == lines;
    if |comments| > 0 {
      section := section + comments;
    } else {
      assert section + comments == section;
    }
    var v := Version(sectionname, section);
    var section_versions := Get(sections, sectionname, []);
    section_versions := section_versions + [section];
    sections := Put(sections, sectionname, section_versions);
    assert (closed + [v])[..|closed|] == closed;
  }
}
