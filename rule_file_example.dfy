/**
 * A worked example after the repository's own parser test: the header lines
 * "; @mod2 [author2]" and ";; @mod2   [author2]" give the same key, which then holds two
 * versions, in file order.
 */
module RuleFileExample {
  import opened Classify
  import opened SafeName
  import opened Sectioning
  import opened OrderedDict
  import opened RuleFile

  /** The key of a header "name  [author]": the name and the author, run together. */
  lemma HeaderKeyOf(name: string, sp: string, author: string)
    requires AllSafe(name) && AllSafe(author)
    requires forall c :: c in sp ==> !IsSafeChar(c)
    ensures SafeFilename(name + sp + "[" + author + "]") == name + author
  {
    var p1 := name + sp;
    assert SafeFilename(p1) == name by {
      SafeFilenameOfSafe(name);
      SafeFilenameDropsUnsafe(sp);
      SafeFilenameAppend(name, sp);
      assert name + [] == name;
    }
    var p2 := p1 + "[";
    assert SafeFilename(p2) == name by {
      SafeFilenameDropsUnsafe("[");
      SafeFilenameAppend(p1, "[");
      assert name + [] == name;
    }
    var p3 := p2 + author;
    assert SafeFilename(p3) == name + author by {
      SafeFilenameOfSafe(author);
      SafeFilenameAppend(p2, author);
    }
    assert SafeFilename(p3 + "]") == name + author by {
      SafeFilenameDropsUnsafe("]");
      SafeFilenameAppend(p3, "]");
      assert name + author + [] == name + author;
    }
  }

  /** However many spaces separate the name from the author, the key is "mod2author2". */
  lemma Mod2Key(sp: string)
    requires forall c :: c in sp ==> c == ' '
    ensures SafeFilename("mod2" + sp + "[author2]") == "mod2author2"
  {
    assert AllSafe("mod2") && AllSafe("author2");
    assert "[author2]" == "[" + "author2" + "]";
    assert "mod2" + sp + "[author2]" == "mod2" + sp + "[" + "author2" + "]";
    HeaderKeyOf("mod2", sp, "author2");
  }

  lemma FirstMod2Header()
    ensures KindOf("; @mod2 [author2]\n") == SectionHeader("mod2author2")
  {
    var name := "mod2" + " " + "[author2]";
    assert "; @mod2 [author2]\n" == "" + ";" + " " + "@" + name + "\n";
    HeaderLineName("", ";", " ", name);
    Mod2Key(" ");
  }

  lemma SecondMod2Header()
    ensures KindOf(";; @mod2   [author2]\n") == SectionHeader("mod2author2")
  {
    var name := "mod2" + "   " + "[author2]";
    assert ";; @mod2   [author2]\n" == "" + ";;" + " " + "@" + name + "\n";
    HeaderLineName("", ";;", " ", name);
    Mod2Key("   ");
  }

  lemma SemicolonLine()
    ensures KindOf(";;;;\n") == Comment
  {
    var s := ";;;;\n";
    assert SkipSpaces(s, 0) == 0;
    assert SkipSemis(s, 0) == 4 by {
      assert SkipSemis(s, 4) == 4;
      assert SkipSemis(s, 3) == 4;
      assert SkipSemis(s, 2) == 4;
      assert SkipSemis(s, 1) == 4;
    }
    assert SkipSpaces(s, 4) == 5;
  }

  /** A line that starts with neither whitespace nor ';' is ordinary content. */
  lemma ContentLine(s: string)
    requires |s| > 0 && !IsSpace(s[0]) && s[0] != ';'
    ensures KindOf(s) == Ordinary
  {
    assert SkipSpaces(s, 0) == 0;
  }

  /** The cut: an empty "_header", then two versions each opened by its comment and header. */
  lemma RepeatedKeyBlocks(kind: Classifier, c1: string, h1: string, x1: string, c2: string, h2: string, x2: string, k: string)
    requires kind(c1) == Comment && kind(h1) == SectionHeader(k) && kind(x1) == Ordinary
    requires kind(c2) == Comment && kind(h2) == SectionHeader(k) && kind(x2) == Ordinary
    ensures Blocks(kind, [c1, h1, x1, c2, h2, x2])
         == [Version(HeaderKey, []), Version(k, [c1, h1, x1]), Version(k, [c2, h2, x2])]
  {
    var v0 := Version(HeaderKey, []);
    var v1 := Version(k, [c1, h1, x1]);
    var s1 := ScanState([v0], k, [c1, h1, x1], []);
    assert Scan(kind, [c1, h1, x1]) == s1 by {
      assert Scan(kind, []) == Start;
      CommentHeaderLine(kind, [], Start, c1, h1, x1, k);
      assert [] + [c1, h1, x1] == [c1, h1, x1];
    }
    assert Scan(kind, [c1, h1, x1, c2, h2, x2]) == ScanState([v0, v1], k, [c2, h2, x2], []) by {
      CommentHeaderLine(kind, [c1, h1, x1], s1, c2, h2, x2, k);
      assert [c1, h1, x1] + [c2, h2, x2] == [c1, h1, x1, c2, h2, x2];
      assert [v0] + [v1] == [v0, v1];
    }
    assert [c2, h2, x2] + [] == [c2, h2, x2];
    assert [v0, v1] + [Version(k, [c2, h2, x2])] == [v0, v1, Version(k, [c2, h2, x2])];
  }

  /** A comment, a header and a content line close the open section and open k. */
  lemma CommentHeaderLine(kind: Classifier, pre: seq<string>, st: ScanState, c: string, h: string, x: string, k: string)
    requires Scan(kind, pre) == st && st.comments == []
    requires kind(c) == Comment && kind(h) == SectionHeader(k) && kind(x) == Ordinary
    ensures Scan(kind, pre + [c, h, x]) == ScanState(st.closed + [Version(st.name, st.section)], k, [c, h, x], [])
  {
    ScanSnoc(kind, pre, c);
    ScanSnoc(kind, pre + [c], h);
    ScanSnoc(kind, pre + [c] + [h], x);
    assert pre + [c] + [h] + [x] == pre + [c, h, x];
    assert [] + [c] + [h] == [c, h];
    assert [c, h] + [] + [x] == [c, h, x];
  }

  /** The header version and the first version of k: two keys, one version each. */
  lemma FirstKeyGroup(k: string, a: seq<string>)
    requires k != HeaderKey
    ensures Group([Version(HeaderKey, []), Version(k, a)])
         == Dict([HeaderKey, k], map[HeaderKey := [[]], k := [a]])
  {
    var v0 := Version(HeaderKey, []);
    var v1 := Version(k, a);
    assert [v0, v1][..1] == [v0];
    GroupOne(v0);
    StoreNew(Dict([HeaderKey], map[HeaderKey := [[]]]), v1);
  }

  /** Storing those versions: the second one is appended to the key's list. */
  lemma RepeatedKeyGroup(k: string, a: seq<string>, b: seq<string>)
    requires k != HeaderKey
    ensures Group([Version(HeaderKey, []), Version(k, a), Version(k, b)])
         == Dict([HeaderKey, k], map[HeaderKey := [[]], k := [a, b]])
  {
    var v0 := Version(HeaderKey, []);
    var v1 := Version(k, a);
    var v2 := Version(k, b);
    var d2 := Dict([HeaderKey, k], map[HeaderKey := [[]], k := [a]]);
    AppendOld(d2, v2, a, b);
    assert [v0, v1, v2][..2] == [v0, v1];
    FirstKeyGroup(k, a);
  }

  /** A second version stored under a key that holds one. */
  lemma AppendOld(d: Sections, v: Version, a: seq<string>, b: seq<string>)
    requires v.key in d.items && d.items[v.key] == [a] && v.lines == b
    ensures Store(d, v) == Dict(d.keys, d.items[v.key := [a, b]])
  {
    StoreOld(d, v);
    assert [a] + [b] == [a, b];
  }

  /** Any file of that shape: the key collects both versions, after an empty "_header". */
  lemma ParseRepeatedKey(c1: string, h1: string, x1: string, c2: string, h2: string, x2: string, k: string)
    requires KindOf(c1) == Comment && KindOf(h1) == SectionHeader(k) && KindOf(x1) == Ordinary
    requires KindOf(c2) == Comment && KindOf(h2) == SectionHeader(k) && KindOf(x2) == Ordinary
    ensures Parse([c1, h1, x1, c2, h2, x2])
         == Dict([HeaderKey, k], map[HeaderKey := [[]], k := [[c1, h1, x1], [c2, h2, x2]]])
  {
    RepeatedKeyBlocks(KindOf, c1, h1, x1, c2, h2, x2, k);
    RepeatedKeyGroup(k, [c1, h1, x1], [c2, h2, x2]);
  }

  /** How the comment and content lines of the example file are classified. */
  lemma ExampleOtherKinds()
    ensures KindOf(";;;;\n") == Comment
    ensures KindOf("abc_mod.esp\n") == Ordinary && KindOf("mod2.esp\n") == Ordinary
  {
    SemicolonLine();
    ContentLine("abc_mod.esp\n");
    ContentLine("mod2.esp\n");
  }

  /** Two versions of "mod2 [author2]", each with the comment line before its header. */
  lemma TestFileExample()
    ensures Parse([";;;;\n", "; @mod2 [author2]\n", "abc_mod.esp\n", ";;;;\n", ";; @mod2   [author2]\n", "mod2.esp\n"])
         == Dict(["_header", "mod2author2"],
                 map["_header" := [[]],
                     "mod2author2" := [[";;;;\n", "; @mod2 [author2]\n", "abc_mod.esp\n"],
                                       [";;;;\n", ";; @mod2   [author2]\n", "mod2.esp\n"]]])
  {
    FirstMod2Header();
    SecondMod2Header();
    ExampleOtherKinds();
    ParseRepeatedKey(";;;;\n", "; @mod2 [author2]\n", "abc_mod.esp\n", ";;;;\n", ";; @mod2   [author2]\n", "mod2.esp\n", "mod2author2");
  }
}
