/**
 * get_safe_filename: keep only ASCII letters, digits, '.' and '-' of a name, in order.
 * The parser uses it to turn the text after '@' of a section header into the section key.
 */
module SafeName {

  /** Membership in `ascii_lowercase + ascii_uppercase + digits + '.-'`. */
  predicate IsSafeChar(c: char) {
    ('a' <= c <= 'z') || ('A' <= c <= 'Z') || ('0' <= c <= '9') || c == '.' || c == '-'
  }

  ghost predicate AllSafe(s: string) {
    forall k :: 0 <= k < |s| ==> IsSafeChar(s[k])
  }

  /** a can be obtained from b by deleting characters. */
  ghost predicate IsSubsequence(a: string, b: string)
    decreases |b|
  {
    a == [] || (b != [] && ((a[0] == b[0] && IsSubsequence(a[1..], b[1..])) || IsSubsequence(a, b[1..])))
  }

  /** `''.join([c for c in name if c in safechars])`. */
  function SafeFilename(name: string): (r: string)
    ensures |r| <= |name|
    ensures AllSafe(r)
  {
    if name == [] then [] else (if IsSafeChar(name[0]) then [name[0]] else []) + SafeFilename(name[1..])
  }

  /** Filtering a concatenation is filtering each part. */
  lemma {:induction false} SafeFilenameAppend(a: string, b: string)
    ensures SafeFilename(a + b) == SafeFilename(a) + SafeFilename(b)
  {
    if a == [] {
      assert a + b == b;
    } else {
      assert (a + b)[0] == a[0];
      assert (a + b)[1..] == a[1..] + b;
      SafeFilenameAppend(a[1..], b);
    }
  }

  /** A name made only of safe characters is returned unchanged. */
  lemma {:induction false} SafeFilenameOfSafe(name: string)
    requires AllSafe(name)
    ensures SafeFilename(name) == name
  {
    if name != [] {
      SafeFilenameOfSafe(name[1..]);
    }
  }

  /** Applying the filter twice is the same as applying it once. */
  lemma SafeFilenameIdempotent(name: string)
    ensures SafeFilename(SafeFilename(name)) == SafeFilename(name)
  {
    SafeFilenameOfSafe(SafeFilename(name));
  }

  /** The result is obtained from the name by deleting characters. */
  lemma {:induction false} SafeFilenameIsSubsequence(name: string)
    ensures IsSubsequence(SafeFilename(name), name)
  {
    if name != [] {
      var rest := SafeFilename(name[1..]);
      SafeFilenameIsSubsequence(name[1..]);
      if IsSafeChar(name[0]) {
        assert SafeFilename(name)[1..] == rest;
      } else {
        assert SafeFilename(name) == rest;
      }
    }
  }

  /** Every safe character of the name survives, as often as it occurs; no other character does. */
  lemma {:induction false} SafeFilenameCounts(name: string, c: char)
    ensures multiset(SafeFilename(name))[c] == if IsSafeChar(c) then multiset(name)[c] else 0
  {
    if name != [] {
      assert name == [name[0]] + name[1..];
      SafeFilenameCounts(name[1..], c);
    } else if !IsSafeChar(c) {
      assert c !in SafeFilename(name);
    }
  }

  /** '_' is not safe, so no header line can produce the reserved key of the leading block. */
  lemma SafeFilenameNotHeaderKey(name: string)
    ensures SafeFilename(name) != "_header"
  {
    assert !IsSafeChar("_header"[0]);
  }

  /** A name with no safe character filters to the empty string. */
  lemma {:induction false} SafeFilenameDropsUnsafe(s: string)
    requires forall c :: c in s ==> !IsSafeChar(c)
    ensures SafeFilename(s) == []
  {
    if s != [] {
      assert s[0] in s;
      assert forall c :: c in s[1..] ==> c in s;
      SafeFilenameDropsUnsafe(s[1..]);
    }
  }
}
