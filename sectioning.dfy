/**
 * The single forward pass shared by both rule-file parsers (parse_rulefile in the
 * command-line tool and the loop inside the older split command). It cuts the lines of
 * a rule file into versions: a leading "_header" block, then one version per section
 * header line. Comment lines are held back while they are read; a header line claims
 * the held-back comments as the start of its own version, any other line (or the end
 * of the file) flushes them into the version that is open.
 *
 * Scan is that pass as a left fold; Blocks is the sequence of versions in the order
 * they are closed. The two parsers differ only in how they store each closed version
 * into their dict (RuleFile, LegacySplit).
 *
 * Everything here takes the line classifier as a parameter `kind`; the parsers apply
 * it to Classify.KindOf. The cut into versions is a matter of which lines are headers
 * (and their keys) and which are comments, so the properties below hold whatever the
 * classifier's regular expressions are.
 */
module Sectioning {
  import opened Classify

  type Classifier = string -> LineKind

  /** The key of the block that precedes the first section header. */
  const HeaderKey: string := "_header"

  /** One version of a section: the key it is stored under and its raw lines. */
  datatype Version = Version(key: string, lines: seq<string>)

  /** The loop state: the versions closed so far, the key and lines of the open section
      (`sectionname`, `section`) and the held-back comment lines (`comments`). */
  datatype ScanState = ScanState(closed: seq<Version>, name: string, section: seq<string>, comments: seq<string>)

  const Start: ScanState := ScanState([], HeaderKey, [], [])

  /** One iteration of the loop body. */
  function Step(kind: Classifier, st: ScanState, line: string): ScanState {
    match kind(line)
    case SectionHeader(key) => ScanState(st.closed + [Version(st.name, st.section)], key, st.comments + [line], [])
    case Comment => st.(comments := st.comments + [line])
    case Ordinary => st.(section := st.section + st.comments + [line], comments := [])
  }

  /** The loop state after the given lines. */
  function Scan(kind: Classifier, lines: seq<string>): ScanState {
    if lines == [] then Start else Step(kind, Scan(kind, lines[..|lines| - 1]), lines[|lines| - 1])
  }

  /** Reading one more line is one more step. */
  lemma ScanSnoc(kind: Classifier, lines: seq<string>, line: string)
    ensures Scan(kind, lines + [line]) == Step(kind, Scan(kind, lines), line)
  {
    assert (lines + [line])[..|lines|] == lines;
  }

  /** After the loop: held-back comments go to the open section, which is then closed. */
  function Close(st: ScanState): seq<Version> {
    st.closed + [Version(st.name, st.section + st.comments)]
  }

  /** All versions of a rule file, in the order the parser closes them. */
  function Blocks(kind: Classifier, lines: seq<string>): seq<Version> {
    Close(Scan(kind, lines))
  }

  /** No lines: just the empty "_header" block. */
  lemma BlocksOfNothing(kind: Classifier)
    ensures Blocks(kind, []) == [Version(HeaderKey, [])]
  {
    assert Scan(kind, []) == Start;
    assert Start.section + Start.comments == [];
  }

  /** The lines of the versions, one after another. */
  function Flatten(vs: seq<Version>): seq<string> {
    if vs == [] then [] else Flatten(vs[..|vs| - 1]) + vs[|vs| - 1].lines
  }

  lemma FlattenAppend(vs: seq<Version>, v: Version)
    ensures Flatten(vs + [v]) == Flatten(vs) + v.lines
  {
    assert (vs + [v])[..|vs|] == vs;
  }

  // ---------------------------------------------------------------------------
  // What a correct cut into versions looks like, independently of the loop.

  predicate IsHeaderLine(kind: Classifier, line: string) {
    kind(line).SectionHeader?
  }

  predicate IsHeldComment(kind: Classifier, line: string) {
    kind(line).Comment?
  }

  ghost predicate NoHeaders(kind: Classifier, ls: seq<string>) {
    forall q :: 0 <= q < |ls| ==> !IsHeaderLine(kind, ls[q])
  }

  ghost predicate AllComments(kind: Classifier, ls: seq<string>) {
    forall q :: 0 <= q < |ls| ==> IsHeldComment(kind, ls[q])
  }

  /** A version that does not end in a held-back comment line: the comments right before
      a header never stay behind in the version before it. */
  ghost predicate Settled(kind: Classifier, ls: seq<string>) {
    ls == [] || !IsHeldComment(kind, ls[|ls| - 1])
  }

  /** v is plain comment lines, then at index p the one header line that gives v its key,
      then lines that are not headers. */
  ghost predicate OpensAt(kind: Classifier, v: Version, p: nat) {
    && p < |v.lines| && AllComments(kind, v.lines[..p]) && kind(v.lines[p]) == SectionHeader(v.key)
    && NoHeaders(kind, v.lines[p + 1..])
  }

  ghost predicate Opens(kind: Classifier, v: Version) {
    exists p: nat :: OpensAt(kind, v, p)
  }

  /** bs cuts `lines` into a header block without header lines and versions that each
      open with their header, and no version but the last ends in a plain comment. */
  ghost predicate IsSegmentation(kind: Classifier, lines: seq<string>, bs: seq<Version>) {
    && |bs| >= 1 && Flatten(bs) == lines
    && bs[0].key == HeaderKey && NoHeaders(kind, bs[0].lines)
    && (forall i :: 1 <= i < |bs| ==> Opens(kind, bs[i]))
    && (forall i :: 0 <= i < |bs| - 1 ==> Settled(kind, bs[i].lines))
  }

  // ---------------------------------------------------------------------------
  // The loop keeps a segmentation of what it has consumed.

  /** What holds of the loop state after reading `lines`. */
  ghost predicate ScanInv(kind: Classifier, lines: seq<string>, st: ScanState) {
    && Flatten(st.closed) + st.section + st.comments == lines
    && AllComments(kind, st.comments)
    && Settled(kind, st.section)
    && IsSegmentation(kind, Flatten(st.closed) + st.section, st.closed + [Version(st.name, st.section)])
  }

  /** Lines that are not headers can be added to the last version of a segmentation. */
  lemma ExtendLast(kind: Classifier, lines: seq<string>, bs: seq<Version>, extra: seq<string>)
    requires IsSegmentation(kind, lines, bs) && NoHeaders(kind, extra)
    ensures var n := |bs|;
      IsSegmentation(kind, lines + extra, bs[..n - 1] + [Version(bs[n - 1].key, bs[n - 1].lines + extra)])
  {
    var n := |bs|;
    var init := bs[..n - 1];
    var last := Version(bs[n - 1].key, bs[n - 1].lines + extra);
    var bs' := init + [last];
    FlattenAppend(init, last);
    assert Flatten(bs) == Flatten(init) + bs[n - 1].lines;
    assert Flatten(bs') == lines + extra;
    if n == 1 {
      assert NoHeaders(kind, last.lines) by {
        forall q | 0 <= q < |last.lines| ensures !IsHeaderLine(kind, last.lines[q]) {
          if q >= |bs[0].lines| { assert last.lines[q] == extra[q - |bs[0].lines|]; }
        }
      }
      assert bs'[0] == last;
    } else {
      var p: nat :| OpensAt(kind, bs[n - 1], p);
      assert last.lines[..p] == bs[n - 1].lines[..p];
      assert last.lines[p + 1..] == bs[n - 1].lines[p + 1..] + extra;
      assert OpensAt(kind, last, p);
      assert bs'[0] == bs[0];
    }
    assert forall i :: 1 <= i < |bs'| ==> Opens(kind, bs'[i]) by {
      forall i | 1 <= i < |bs'| ensures Opens(kind, bs'[i]) {
        if i < n - 1 { assert bs'[i] == bs[i]; }
      }
    }
    assert forall i :: 0 <= i < |bs'| - 1 ==> Settled(kind, bs'[i].lines) by {
      forall i | 0 <= i < |bs'| - 1 ensures Settled(kind, bs'[i].lines) {
        assert bs'[i] == bs[i];
      }
    }
  }

  /** A settled segmentation can be followed by a new version that opens with its header. */
  lemma AddVersion(kind: Classifier, lines: seq<string>, bs: seq<Version>, v: Version)
    requires IsSegmentation(kind, lines, bs) && Settled(kind, bs[|bs| - 1].lines) && Opens(kind, v)
    ensures IsSegmentation(kind, lines + v.lines, bs + [v])
  {
    FlattenAppend(bs, v);
    var bs' := bs + [v];
    forall i | 1 <= i < |bs'| ensures Opens(kind, bs'[i]) {
      if i < |bs| { assert bs'[i] == bs[i]; }
    }
    forall i | 0 <= i < |bs'| - 1 ensures Settled(kind, bs'[i].lines) {
      assert bs'[i] == bs[i];
    }
  }

  /** A header line closes the open section and opens a version with the held-back comments. */
  lemma StepHeaderInv(kind: Classifier, lines: seq<string>, st: ScanState, line: string)
    requires ScanInv(kind, lines, st) && IsHeaderLine(kind, line)
    ensures ScanInv(kind, lines + [line], Step(kind, st, line))
  {
    var key := kind(line).key;
    var open := Version(st.name, st.section);
    var v := Version(key, st.comments + [line]);
    var consumed := Flatten(st.closed) + st.section;
    assert Step(kind, st, line) == ScanState(st.closed + [open], key, v.lines, []);
    assert Flatten(st.closed + [open]) == consumed by {
      FlattenAppend(st.closed, open);
    }
    assert consumed + v.lines + [] == lines + [line] by {
      Assoc(consumed, st.comments, [line]);
    }
    assert Settled(kind, v.lines) by {
      assert v.lines[|v.lines| - 1] == line;
    }
    assert IsSegmentation(kind, consumed + v.lines, st.closed + [open] + [v]) by {
      assert OpensAt(kind, v, |st.comments|) by {
        assert v.lines[..|st.comments|] == st.comments;
        assert v.lines[|st.comments| + 1..] == [];
      }
      AddVersion(kind, consumed, st.closed + [open], v);
    }
  }

  /** A plain comment line is held back. */
  lemma StepCommentInv(kind: Classifier, lines: seq<string>, st: ScanState, line: string)
    requires ScanInv(kind, lines, st) && IsHeldComment(kind, line)
    ensures ScanInv(kind, lines + [line], Step(kind, st, line))
  {
    var st' := Step(kind, st, line);
    assert st' == st.(comments := st.comments + [line]);
    Assoc(Flatten(st.closed) + st.section, st.comments, [line]);
    assert AllComments(kind, st.comments + [line]) by {
      forall q | 0 <= q < |st.comments| + 1 ensures IsHeldComment(kind, (st.comments + [line])[q]) {
        if q < |st.comments| { assert (st.comments + [line])[q] == st.comments[q]; }
      }
    }
  }

  /** Any other line flushes the held-back comments into the open section and joins it. */
  lemma StepOrdinaryInv(kind: Classifier, lines: seq<string>, st: ScanState, line: string)
    requires ScanInv(kind, lines, st) && kind(line).Ordinary?
    ensures ScanInv(kind, lines + [line], Step(kind, st, line))
  {
    var extra := st.comments + [line];
    var open := Version(st.name, st.section);
    var st' := Step(kind, st, line);
    assert st'.section == st.section + st.comments + [line];
    assert st' == ScanState(st.closed, st.name, st.section + extra, []) by {
      Assoc(st.section, st.comments, [line]);
    }
    assert NoHeaders(kind, extra) by {
      forall q | 0 <= q < |extra| ensures !IsHeaderLine(kind, extra[q]) {
        if q < |st.comments| { assert extra[q] == st.comments[q]; }
      }
    }
    ExtendLast(kind, Flatten(st.closed) + st.section, st.closed + [open], extra);
    assert (st.closed + [open])[..|st.closed|] == st.closed;
    Assoc(Flatten(st.closed), st.section, extra);
    Assoc(Flatten(st.closed) + st.section, st.comments, [line]);
    assert (st.section + extra)[|st.section + extra| - 1] == line;
  }

  lemma SliceAppend(a: seq<string>, x: seq<string>, p: nat)
    requires p < |x|
    ensures (a + x)[|a| + p] == x[p] && (a + x)[|a| + p + 1..] == x[p + 1..] && (a + x)[|a|..|a| + p] == x[..p]
    ensures |a| > 0 ==> (a + x)[|a| - 1] == a[|a| - 1]
  {
  }

  lemma SplitAt(a: seq<string>, x: seq<string>)
    ensures (a + x)[|a|..] == x && (a + x)[..|a|] == a
  {
  }

  lemma Assoc(a: seq<string>, b: seq<string>, c: seq<string>)
    ensures a + b + c == a + (b + c)
  {
  }

  lemma {:induction false} ScanKeepsInv(kind: Classifier, lines: seq<string>)
    ensures ScanInv(kind, lines, Scan(kind, lines))
    decreases |lines|
  {
    if lines == [] {
      FlattenAppend([], Version(HeaderKey, []));
    } else {
      var prev := lines[..|lines| - 1];
      var line := lines[|lines| - 1];
      assert lines == prev + [line];
      ScanKeepsInv(kind, prev);
      var st := Scan(kind, prev);
      match kind(line)
      case SectionHeader(_) => StepHeaderInv(kind, prev, st, line);
      case Comment => StepCommentInv(kind, prev, st, line);
      case Ordinary => StepOrdinaryInv(kind, prev, st, line);
    }
  }

  /** The versions of a rule file form a segmentation of it. In particular:
      every line is kept, once and in order (Flatten(Blocks(kind, lines)) == lines);
      "_header" comes first and holds no header line; every later version is a run of
      comment lines, its header line, and lines that are not headers; and comment lines
      held back before a header never stay in the version before it. */
  lemma BlocksSegmentation(kind: Classifier, lines: seq<string>)
    ensures IsSegmentation(kind, lines, Blocks(kind, lines))
  {
    var st := Scan(kind, lines);
    ScanKeepsInv(kind, lines);
    var bs := st.closed + [Version(st.name, st.section)];
    assert NoHeaders(kind, st.comments);
    ExtendLast(kind, Flatten(st.closed) + st.section, bs, st.comments);
    assert bs[..|bs| - 1] == st.closed;
  }

  // ---------------------------------------------------------------------------
  // The segmentation is unique: it is determined by the lines alone.

  /** Index just after the last header line of s[..hi], or 0 when there is none. */
  function AfterLastHeader(kind: Classifier, s: seq<string>, hi: nat): (e: nat)
    requires hi <= |s|
    ensures e <= hi && NoHeaders(kind, s[e..hi]) && (e > 0 ==> IsHeaderLine(kind, s[e - 1]))
    decreases hi
  {
    if hi > 0 && !IsHeaderLine(kind, s[hi - 1]) then
      var e := AfterLastHeader(kind, s, hi - 1);
      assert s[e..hi] == s[e..hi - 1] + [s[hi - 1]];
      e
    else hi
  }

  /** Start of the run of plain comment lines that ends at hi. */
  function RunStart(kind: Classifier, s: seq<string>, hi: nat): (e: nat)
    requires hi <= |s|
    ensures e <= hi && AllComments(kind, s[e..hi]) && (e > 0 ==> !IsHeldComment(kind, s[e - 1]))
    decreases hi
  {
    if hi > 0 && IsHeldComment(kind, s[hi - 1]) then
      var e := RunStart(kind, s, hi - 1);
      assert s[e..hi] == s[e..hi - 1] + [s[hi - 1]];
      e
    else hi
  }

  lemma {:induction false} AfterLastHeaderAt(kind: Classifier, s: seq<string>, e: nat, hi: nat)
    requires e <= hi <= |s| && NoHeaders(kind, s[e..hi]) && (e > 0 ==> IsHeaderLine(kind, s[e - 1]))
    ensures AfterLastHeader(kind, s, hi) == e
    decreases hi
  {
    if e < hi {
      assert s[e..hi][hi - 1 - e] == s[hi - 1];
      assert s[e..hi - 1] == s[e..hi][..hi - 1 - e];
      AfterLastHeaderAt(kind, s, e, hi - 1);
    }
  }

  lemma {:induction false} RunStartAt(kind: Classifier, s: seq<string>, e: nat, hi: nat)
    requires e <= hi <= |s| && AllComments(kind, s[e..hi]) && (e > 0 ==> !IsHeldComment(kind, s[e - 1]))
    ensures RunStart(kind, s, hi) == e
    decreases hi
  {
    if e < hi {
      assert s[e..hi][hi - 1 - e] == s[hi - 1];
      assert s[e..hi - 1] == s[e..hi][..hi - 1 - e];
      RunStartAt(kind, s, e, hi - 1);
    }
  }

  /** Where the last version of any segmentation with a header line starts. */
  function LastStart(kind: Classifier, lines: seq<string>): nat
    requires AfterLastHeader(kind, lines, |lines|) > 0
  {
    RunStart(kind, lines, AfterLastHeader(kind, lines, |lines|) - 1)
  }

  /** The key the last header line of the file gives. */
  function LastKey(kind: Classifier, lines: seq<string>): string
    requires AfterLastHeader(kind, lines, |lines|) > 0
  {
    kind(lines[AfterLastHeader(kind, lines, |lines|) - 1]).key
  }

  /** A segmentation whose blocks before the last are settled and non-empty (except the
      first) ends, when it has lines at all, with a line that is not a plain comment. */
  lemma FlattenSettled(kind: Classifier, bs: seq<Version>)
    requires |bs| >= 1
    requires forall i :: 0 <= i < |bs| ==> Settled(kind, bs[i].lines)
    requires forall i :: 1 <= i < |bs| ==> bs[i].lines != []
    ensures Settled(kind, Flatten(bs))
  {
    var m := |bs|;
    var init := bs[..m - 1];
    var last := bs[m - 1].lines;
    assert Flatten(bs) == Flatten(init) + last;
    if last == [] {
      assert m == 1 && |init| == 0;
      assert Flatten(bs) == [];
    } else {
      SettledAppend(kind, Flatten(init), last);
    }
  }

  lemma SettledAppend(kind: Classifier, a: seq<string>, x: seq<string>)
    requires x != [] && Settled(kind, x)
    ensures Settled(kind, a + x)
  {
    assert (a + x)[|a + x| - 1] == x[|x| - 1];
  }

  /** The shape of any segmentation is fixed by the lines: one block when there is no
      header line, and otherwise a last version that starts at LastStart(kind, lines), with
      LastKey(kind, lines) as its key, after a segmentation of the lines before it. */
  lemma SegmentationShape(kind: Classifier, lines: seq<string>, bs: seq<Version>)
    requires IsSegmentation(kind, lines, bs)
    ensures (|bs| == 1) == (AfterLastHeader(kind, lines, |lines|) == 0)
    ensures |bs| == 1 ==> bs == [Version(HeaderKey, lines)]
    ensures |bs| > 1 ==>
      && bs[|bs| - 1] == Version(LastKey(kind, lines), lines[LastStart(kind, lines)..])
      && IsSegmentation(kind, lines[..LastStart(kind, lines)], bs[..|bs| - 1])
  {
    if |bs| == 1 {
      assert Flatten(bs) == Flatten(bs[..0]) + bs[0].lines;
      assert |bs[..0]| == 0;
      assert lines[0..|lines|] == bs[0].lines;
      AfterLastHeaderAt(kind, lines, 0, |lines|);
    } else {
      SegmentationLast(kind, lines, bs);
    }
  }

  /** Without its last version, a segmentation is a settled segmentation of fewer lines. */
  lemma DropLast(kind: Classifier, lines: seq<string>, bs: seq<Version>)
    requires IsSegmentation(kind, lines, bs) && |bs| > 1
    ensures IsSegmentation(kind, Flatten(bs[..|bs| - 1]), bs[..|bs| - 1])
    ensures Settled(kind, Flatten(bs[..|bs| - 1]))
  {
    var pre := bs[..|bs| - 1];
    assert pre[0] == bs[0];
    forall i | 1 <= i < |pre| ensures Opens(kind, pre[i]) && pre[i].lines != [] {
      assert pre[i] == bs[i];
      var q: nat :| OpensAt(kind, bs[i], q);
    }
    forall i | 0 <= i < |pre| ensures Settled(kind, pre[i].lines) {
      assert pre[i] == bs[i];
    }
    FlattenSettled(kind, pre);
  }

  lemma SegmentationLast(kind: Classifier, lines: seq<string>, bs: seq<Version>)
    requires IsSegmentation(kind, lines, bs) && |bs| > 1
    ensures AfterLastHeader(kind, lines, |lines|) > 0
    ensures bs[|bs| - 1] == Version(LastKey(kind, lines), lines[LastStart(kind, lines)..])
    ensures IsSegmentation(kind, lines[..LastStart(kind, lines)], bs[..|bs| - 1])
  {
    var n := |bs|;
    var a := Flatten(bs[..n - 1]);
    var x := bs[n - 1].lines;
    assert lines == a + x;
    DropLast(kind, lines, bs);
    var p: nat :| OpensAt(kind, bs[n - 1], p);
    LastVersionAt(kind, a, bs[n - 1], p);
    SplitAt(a, x);
  }

  /** After settled lines, a version that opens at p is found again from the lines alone. */
  lemma LastVersionAt(kind: Classifier, a: seq<string>, v: Version, p: nat)
    requires Settled(kind, a) && OpensAt(kind, v, p)
    ensures AfterLastHeader(kind, a + v.lines, |a + v.lines|) == |a| + p + 1
    ensures LastStart(kind, a + v.lines) == |a| && LastKey(kind, a + v.lines) == v.key
  {
    LastHeaderOf(kind, a, v, p);
    CommentRunOf(kind, a, v, p);
    SliceAppend(a, v.lines, p);
  }

  lemma LastHeaderOf(kind: Classifier, a: seq<string>, v: Version, p: nat)
    requires OpensAt(kind, v, p)
    ensures AfterLastHeader(kind, a + v.lines, |a + v.lines|) == |a| + p + 1
  {
    SliceAppend(a, v.lines, p);
    AfterLastHeaderAt(kind, a + v.lines, |a| + p + 1, |a + v.lines|);
  }

  lemma CommentRunOf(kind: Classifier, a: seq<string>, v: Version, p: nat)
    requires Settled(kind, a) && OpensAt(kind, v, p)
    ensures RunStart(kind, a + v.lines, |a| + p) == |a|
  {
    var lines := a + v.lines;
    SliceAppend(a, v.lines, p);
    assert AllComments(kind, lines[|a|..|a| + p]);
    assert |a| > 0 ==> !IsHeldComment(kind, lines[|a| - 1]);
    RunStartAt(kind, lines, |a|, |a| + p);
  }

  /** Two segmentations of the same lines are equal. Together with BlocksSegmentation this
      says the parser's cut is the only one that keeps every line in order, gives every
      section version exactly its own header, attaches comments right before a header to
      that header's version and all other comments to the version before them. */
  lemma {:induction false} SegmentationUnique(kind: Classifier, lines: seq<string>, a: seq<Version>, b: seq<Version>)
    requires IsSegmentation(kind, lines, a) && IsSegmentation(kind, lines, b)
    ensures a == b
    decreases |a|
  {
    SegmentationShape(kind, lines, a);
    SegmentationShape(kind, lines, b);
    if AfterLastHeader(kind, lines, |lines|) > 0 {
      SegmentationUnique(kind, lines[..LastStart(kind, lines)], a[..|a| - 1], b[..|b| - 1]);
      SameInitSameLast(a, b);
    }
  }

  lemma SameInitSameLast(a: seq<Version>, b: seq<Version>)
    requires |a| == |b| >= 1 && a[..|a| - 1] == b[..|b| - 1] && a[|a| - 1] == b[|b| - 1]
    ensures a == b
  {
    assert a == a[..|a| - 1] + [a[|a| - 1]];
    assert b == b[..|b| - 1] + [b[|b| - 1]];
  }

  /** Blocks(kind, lines) is the one segmentation of lines. */
  lemma BlocksUnique(kind: Classifier, lines: seq<string>, bs: seq<Version>)
    requires IsSegmentation(kind, lines, bs)
    ensures bs == Blocks(kind, lines)
  {
    BlocksSegmentation(kind, lines);
    SegmentationUnique(kind, lines, bs, Blocks(kind, lines));
  }
  // ---------------------------------------------------------------------------
  // The header block.

  lemma {:induction false} FlattenFront(vs: seq<Version>)
    requires |vs| >= 1
    ensures Flatten(vs) == vs[0].lines + Flatten(vs[1..])
  {
    var init := vs[..|vs| - 1];
    var last := vs[|vs| - 1].lines;
    if |vs| == 1 {
      assert |init| == 0 && |vs[1..]| == 0;
    } else {
      FlattenFront(init);
      assert init[0] == vs[0];
      assert vs[1..][..|vs| - 2] == init[1..];
      assert Flatten(vs[1..]) == Flatten(init[1..]) + last;
      Assoc(vs[0].lines, Flatten(init[1..]), last);
    }
  }

  /** The "_header" block is the longest run of lines before the first header line that
      does not end in the comments right before that header; with no header line at all
      it is the whole file. */
  lemma HeaderBlock(kind: Classifier, lines: seq<string>)
    ensures var h := Blocks(kind, lines)[0].lines;
      && h <= lines && NoHeaders(kind, h)
      && (NoHeaders(kind, lines) ==> h == lines)
      && (!NoHeaders(kind, lines) ==>
            && Settled(kind, h)
            && exists p :: |h| <= p < |lines| && IsHeaderLine(kind, lines[p]) && AllComments(kind, lines[|h|..p]))
  {
    var bs := Blocks(kind, lines);
    BlocksSegmentation(kind, lines);
    var h := bs[0].lines;
    FlattenFront(bs);
    if |bs| == 1 {
      assert |bs[1..]| == 0;
      assert lines == h;
    } else {
      var rest := bs[1..];
      FlattenFront(rest);
      assert rest[0] == bs[1];
      var x := bs[1].lines;
      var p: nat :| OpensAt(kind, bs[1], p);
      Assoc(h, x, Flatten(rest[1..]));
      var tail := x + Flatten(rest[1..]);
      assert lines == h + tail;
      assert lines[|h| + p] == x[p];
      assert lines[|h|..|h| + p] == x[..p];
      assert !NoHeaders(kind, lines) by {
        assert IsHeaderLine(kind, lines[|h| + p]);
      }
    }
  }
}
