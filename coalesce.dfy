/**
 * coalesce_lines: join a section's lines and strip whitespace from both ends of the text,
 * as `"".join(lines).strip()` does (split writes each section version this way).
 */
module Coalesce {
  import opened Classify

  /** `"".join(lines)`. */
  function Concat(lines: seq<string>): (text: string)
    ensures lines == [] ==> text == []
  {
    if lines == [] then [] else Concat(lines[..|lines| - 1]) + lines[|lines| - 1]
  }

  /** The end of `s[lo..hi]` once trailing whitespace is removed. */
  function TrimEnd(s: string, lo: nat, hi: nat): (e: nat)
    requires lo <= hi <= |s|
    ensures lo <= e <= hi
    ensures AllSpace(s[e..hi])
    ensures e > lo ==> !IsSpace(s[e - 1])
    decreases hi
  {
    if hi > lo && IsSpace(s[hi - 1]) then
      var e := TrimEnd(s, lo, hi - 1);
      assert s[e..hi] == s[e..hi - 1] + [s[hi - 1]];
      e
    else hi
  }

  /** A whitespace run ending at hi and preceded by a non-space starts where TrimEnd stops. */
  lemma {:induction false} TrimEndAt(s: string, lo: nat, e: nat, hi: nat)
    requires lo <= e <= hi <= |s| && AllSpace(s[e..hi]) && (e > lo ==> !IsSpace(s[e - 1]))
    ensures TrimEnd(s, lo, hi) == e
    decreases hi
  {
    if e < hi {
      SpaceRunShrink(s, e, hi);
      TrimEndAt(s, lo, e, hi - 1);
    }
  }

  /** A whitespace run minus its last character is still a whitespace run. */
  lemma SpaceRunShrink(s: string, e: nat, hi: nat)
    requires e < hi <= |s| && AllSpace(s[e..hi])
    ensures AllSpace(s[e..hi - 1]) && IsSpace(s[hi - 1])
  {
    var t, u := s[e..hi - 1], s[e..hi];
    assert u[hi - 1 - e] == s[hi - 1];
    forall k | 0 <= k < |t| ensures IsSpace(t[k]) {
      assert t[k] == u[k];
    }
  }

  /** r is s with the whitespace s[..i] and s[j..] cut off, and r neither starts nor ends
      with whitespace. */
  ghost predicate Trimmed(s: string, i: nat, j: nat, r: string) {
    && i <= j <= |s| && r == s[i..j] && AllSpace(s[..i]) && AllSpace(s[j..])
    && (r != [] ==> !IsSpace(r[0]) && !IsSpace(r[|r| - 1]))
  }

  /** `str.strip()` with no argument. */
  function Strip(s: string): (r: string)
    ensures exists i: nat, j: nat :: Trimmed(s, i, j, r)
  {
    var i := SkipSpaces(s, 0);
    var j := TrimEnd(s, i, |s|);
    assert s[..i] == s[0..i];
    assert s[j..] == s[j..|s|];
    assert Trimmed(s, i, j, s[i..j]);
    s[i..j]
  }

  /** Only one piece of s fits that description, and Strip returns it: cutting whitespace
      off both ends is determined by s alone. */
  lemma TrimmedIsStrip(s: string, i: nat, j: nat, r: string)
    requires Trimmed(s, i, j, r)
    ensures r == Strip(s)
  {
    if r != [] {
      assert s[i] == r[0];
      assert s[0..i] == s[..i];
      SkipSpacesAt(s, 0, i);
      assert s[j - 1] == r[|r| - 1];
      assert s[j..|s|] == s[j..];
      TrimEndAt(s, i, j, |s|);
    } else {
      assert AllSpace(s) by {
        forall k | 0 <= k < |s| ensures IsSpace(s[k]) {
          if k < i { assert s[..i][k] == s[k]; } else { assert s[j..][k - j] == s[k]; }
        }
      }
      assert s[0..|s|] == s;
      SkipSpacesAt(s, 0, |s|);
    }
  }

  /** Stripping a stripped text changes nothing. */
  lemma StripIdempotent(s: string)
    ensures Strip(Strip(s)) == Strip(s)
  {
    var r := Strip(s);
    assert Trimmed(r, 0, |r|, r) by {
      assert r[..0] == [] && r[|r|..] == [] && r[0..|r|] == r;
    }
    TrimmedIsStrip(r, 0, |r|, r);
  }

  /** `coalesce_lines(lines)`: the joined lines without whitespace at either end. */
  function CoalesceLines(lines: seq<string>): (text: string)
    ensures exists i: nat, j: nat :: Trimmed(Concat(lines), i, j, text)
  {
    Strip(Concat(lines))
  }

  /** Coalescing the coalesced text again gives the same text. */
  lemma CoalesceIdempotent(lines: seq<string>)
    ensures CoalesceLines([CoalesceLines(lines)]) == CoalesceLines(lines)
  {
    var t := CoalesceLines(lines);
    assert Concat([t]) == Concat([]) + t;
    StripIdempotent(Concat(lines));
  }
}
