/**
 The two path operations the converter calls, as the POSIX flavour of
 Python's `os.path` defines them: `join` of two components and `splitext`.
 */
module PosixPath {
  import opened Text

  const Sep: char := '/'
  const ExtSep: char := '.'

  /** `b` is an absolute path. */
  predicate IsAbsolute(b: string) {
    |b| > 0 && b[0] == Sep
  }

  /**
   `os.path.join(a, b)`: an absolute `b` replaces `a`; otherwise `b` is
   appended to `a`, with a separator between them unless `a` is empty or
   already ends with one.
   */
  function Join(a: string, b: string): (r: string)
  {
    if IsAbsolute(b) then b
    else if a == [] || a[|a| - 1] == Sep then a + b
    else a + [Sep] + b
  }

  /**
   The final component of a joined path is the component joined on: cutting
   `Join(a, b)` after its last separator gives back `b` (what
   `os.path.basename` would return), and a non-empty `a` is kept in front,
   followed by a separator.
   */
  lemma JoinBasename(a: string, b: string)
    requires Sep !in b
    ensures var j := Join(a, b);
            var s := LastIndexOf(j, Sep);
            && j[s + 1..] == b
            && (a != [] ==> 0 <= s && |a| <= |j| && j[..|a|] == a)
  {
    var j := Join(a, b);
    assert !IsAbsolute(b) by {
      if |b| > 0 {
        assert b[0] in b;
      }
    }
    var k := if a == [] then -1 else if a[|a| - 1] == Sep then |a| - 1 else |a|;
    assert forall i :: k < i < |j| ==> j[i] == b[i - k - 1];
    LastIndexOfIs(j, Sep, k);
    assert j[k + 1..] == b;
  }

  /**
   The scan that skips the leading dots of the final component: some
   character of p[lo..hi] is not a '.'.
   */
  predicate NonDotBetween(p: string, lo: int, hi: int)
    requires 0 <= lo && hi <= |p|
    decreases hi - lo
  {
    lo < hi && (p[lo] != ExtSep || NonDotBetween(p, lo + 1, hi))
  }

  /** NonDotBetween holds exactly when p[lo..hi] contains a character other than '.'. */
  lemma {:induction false} NonDotBetweenMeaning(p: string, lo: int, hi: int)
    requires 0 <= lo && hi <= |p|
    ensures NonDotBetween(p, lo, hi) <==> exists k :: lo <= k < hi && p[k] != ExtSep
    decreases hi - lo
  {
    if lo < hi {
      NonDotBetweenMeaning(p, lo + 1, hi);
    }
  }

  /**
   `os.path.splitext(p)`: `p` is split before the last '.' of its final
   component, unless every character of that component before the '.' is
   itself a '.' (a leading run of dots, as in ".png" or "..png"); then the
   extension is empty.
   */
  function Splitext(p: string): (string, string) {
    var sepIndex := LastIndexOf(p, Sep);
    var dotIndex := LastIndexOf(p, ExtSep);
    if sepIndex < dotIndex && NonDotBetween(p, sepIndex + 1, dotIndex) then
      (p[..dotIndex], p[dotIndex..])
    else
      (p, [])
  }

  /**
   The two parts of Splitext put back together give the path, and the
   extension is empty or a '.' followed by characters that are neither '.'
   nor a separator.
   */
  lemma SplitextParts(p: string)
    ensures Splitext(p).0 + Splitext(p).1 == p
    ensures var ext := Splitext(p).1;
            ext == [] || (ext[0] == ExtSep && ExtSep !in ext[1..] && Sep !in ext)
  {
    var sepIndex := LastIndexOf(p, Sep);
    var dotIndex := LastIndexOf(p, ExtSep);
    LastIndexOfMeaning(p, Sep);
    LastIndexOfMeaning(p, ExtSep);
    if sepIndex < dotIndex && NonDotBetween(p, sepIndex + 1, dotIndex) {
      var ext := p[dotIndex..];
      assert forall j :: 0 <= j < |ext| ==> ext[j] == p[dotIndex + j];
    }
  }

  /**
   An independent description of "p has an extension that starts at d": d is
   a '.' in the final component with no '.' after it, and some character of
   that component before d is not a '.'.
   */
  ghost predicate ExtensionAt(p: string, d: int) {
    && 0 <= d < |p|
    && p[d] == ExtSep
    && (forall j :: d < j < |p| ==> p[j] != ExtSep && p[j] != Sep)
    && exists m :: 0 <= m < d && p[m] != ExtSep && p[m] != Sep
                   && forall j :: m < j < d ==> p[j] != Sep
  }

  /** Splitext finds the extension exactly when ExtensionAt describes one, and splits there. */
  lemma {:induction false} SplitextMeaning(p: string)
    ensures Splitext(p).1 != [] <==> exists d :: ExtensionAt(p, d)
    ensures forall d :: ExtensionAt(p, d) ==> Splitext(p) == (p[..d], p[d..])
  {
    var sepIndex := LastIndexOf(p, Sep);
    var dotIndex := LastIndexOf(p, ExtSep);
    LastIndexOfMeaning(p, Sep);
    LastIndexOfMeaning(p, ExtSep);
    if sepIndex < dotIndex {
      NonDotBetweenMeaning(p, sepIndex + 1, dotIndex);
    }
    if Splitext(p).1 != [] {
      var k :| sepIndex < k < dotIndex && p[k] != ExtSep;
      assert ExtensionAt(p, dotIndex);
    }
    forall d | ExtensionAt(p, d)
      ensures Splitext(p) == (p[..d], p[d..])
    {
      LastIndexOfIs(p, ExtSep, d);
      var m :| 0 <= m < d && p[m] != ExtSep && p[m] != Sep
               && forall j :: m < j < d ==> p[j] != Sep;
      assert sepIndex < m;
    }
  }
}
