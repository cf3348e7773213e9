/**
 Path and key text utilities used by the loader: trailing-separator removal,
 POSIX `basename`/`dirname`, the remote-key join and Python's `str.replace`.
 Paths and keys are plain strings; local paths use `/` as their separator.
 */
module Paths {

  /** The two characters the loader treats as a trailing separator. */
  predicate IsSeparator(c: char) {
    c == '/' || c == '\\'
  }

  /** Removes at most one trailing `/` or `\` (the loader's `remove_last_seperator`). */
  function RemoveLastSeparator(p: string): (r: string)
    ensures r <= p
    ensures |r| == |p| - 1 <==> |p| > 0 && IsSeparator(p[|p| - 1])
    ensures |r| == |p| <==> !(|p| > 0 && IsSeparator(p[|p| - 1]))
  {
    if p == "" then p
    else if IsSeparator(p[|p| - 1]) then p[..|p| - 1]
    else p
  }

  /** The number of separators `p` ends with. */
  function TrailingSeparators(p: string): (n: nat)
    ensures n <= |p|
  {
    if p != [] && IsSeparator(p[|p| - 1]) then 1 + TrailingSeparators(p[..|p| - 1]) else 0
  }

  /** `RemoveLastSeparator` applied `n` times in a row. */
  function StripN(p: string, n: nat): string {
    if n == 0 then p else RemoveLastSeparator(StripN(p, n - 1))
  }

  function Min(a: nat, b: nat): nat {
    if a <= b then a else b
  }

  /** Stripping `n` times removes `n` separators, but never more than the string ends with. */
  lemma {:induction false} StripNRemovesTrailing(p: string, n: nat)
    ensures StripN(p, n) == p[..|p| - Min(n, TrailingSeparators(p))]
  {
    if n > 0 {
      StripNRemovesTrailing(p, n - 1);
      var q := p[..|p| - Min(n - 1, TrailingSeparators(p))];
      TrailingSeparatorsOfPrefix(p, Min(n - 1, TrailingSeparators(p)));
      assert StripN(p, n) == RemoveLastSeparator(q);
      if n - 1 < TrailingSeparators(p) {
        assert q[..|q| - 1] == p[..|p| - n];
      }
    }
  }

  /** With at most one trailing separator, any number of strips gives the same as one. */
  lemma StripNSettles(p: string, n: nat)
    requires TrailingSeparators(p) <= 1 && n >= 1
    ensures StripN(p, n) == RemoveLastSeparator(p)
  {
    StripNRemovesTrailing(p, n);
    StripNRemovesTrailing(p, 1);
    assert StripN(p, 1) == RemoveLastSeparator(p);
  }

  /** Dropping `k` of the trailing separators leaves the rest of them in place. */
  lemma {:induction false} TrailingSeparatorsOfPrefix(p: string, k: nat)
    requires k <= TrailingSeparators(p)
    ensures TrailingSeparators(p[..|p| - k]) == TrailingSeparators(p) - k
  {
    if k > 0 {
      assert TrailingSeparators(p) == 1 + TrailingSeparators(p[..|p| - 1]);
      var q := p[..|p| - 1];
      TrailingSeparatorsOfPrefix(q, k - 1);
      assert q[..|q| - (k - 1)] == p[..|p| - k];
    } else {
      assert p[..|p| - k] == p;
    }
  }

  /**
   A second removal changes nothing exactly when the string does not end in two
   separators: the removal is idempotent only on such strings.
   */
  lemma RemoveLastSeparatorIdempotentIff(p: string)
    ensures RemoveLastSeparator(RemoveLastSeparator(p)) == RemoveLastSeparator(p)
            <==> !(|p| >= 2 && IsSeparator(p[|p| - 1]) && IsSeparator(p[|p| - 2]))
  {
    if |p| >= 2 && IsSeparator(p[|p| - 1]) {
      assert p[..|p| - 1][|p| - 2] == p[|p| - 2];
    }
  }

  /** The index of the last `/` in `p`, or -1 when there is none. */
  function LastSlash(p: string): (i: int)
    ensures -1 <= i < |p|
    ensures 0 <= i ==> p[i] == '/'
    ensures forall j :: i < j < |p| ==> p[j] != '/'
  {
    if p == "" then -1
    else if p[|p| - 1] == '/' then |p| - 1
    else LastSlash(p[..|p| - 1])
  }

  /** POSIX `os.path.basename`: the text after the last `/`. */
  function Basename(p: string): (b: string)
    ensures '/' !in b
    ensures |b| <= |p| && b == p[|p| - |b|..]
    ensures |b| < |p| ==> p[|p| - |b| - 1] == '/'
  {
    p[LastSlash(p) + 1..]
  }

  /** True when every character of `s` is `/`. */
  predicate AllSlashes(s: string) {
    forall i :: 0 <= i < |s| ==> s[i] == '/'
  }

  /** Python's `s.rstrip("/")`. */
  function RStripSlashes(s: string): (r: string)
    ensures r <= s
    ensures r == [] || r[|r| - 1] != '/'
    ensures AllSlashes(s[|r|..])
  {
    if s != [] && s[|s| - 1] == '/' then RStripSlashes(s[..|s| - 1]) else s
  }

  /**
   POSIX `os.path.dirname`: everything up to the last `/`, with trailing slashes
   removed unless the head consists of slashes only.
   */
  function Dirname(p: string): (r: string)
    ensures r <= p[..LastSlash(p) + 1] && r <= p
    ensures '/' !in p ==> r == ""
    ensures AllSlashes(p[..LastSlash(p) + 1]) ==> r == p[..LastSlash(p) + 1]
    ensures !AllSlashes(p[..LastSlash(p) + 1]) ==>
              r != [] && r[|r| - 1] != '/' && AllSlashes(p[|r|..LastSlash(p) + 1])
  {
    var head := p[..LastSlash(p) + 1];
    if head != [] && !AllSlashes(head) then
      var r := RStripSlashes(head);
      assert head[|r|..] == p[|r|..LastSlash(p) + 1];
      r
    else head
  }

  /** Splitting `d + "/" + b` gives back `d` and `b` when `d` is a proper directory name. */
  lemma DirnameBasenameOfJoin(d: string, b: string)
    requires d != [] && d[|d| - 1] != '/'
    requires '/' !in b
    ensures Dirname(d + "/" + b) == d
    ensures Basename(d + "/" + b) == b
  {
    var p := d + "/" + b;
    BasenameAfterSlash(d, b);
    assert LastSlash(p) == |d|;
    var head := p[..|d| + 1];
    assert head == d + "/";
    assert !AllSlashes(head) by { assert head[|d| - 1] != '/'; }
    assert RStripSlashes(head) == RStripSlashes(d);
  }

  /** Being a prefix is transitive. */
  lemma PrefixTransitive(a: string, b: string, c: string)
    requires a <= b && b <= c
    ensures a <= c
  {
    assert a == b[..|a|];
    assert b == c[..|b|];
    assert c[..|b|][..|a|] == c[..|a|];
  }

  /** The loader's key join: the leaf alone under an empty prefix, else `prefix/leaf`. */
  function Join(prefix: string, leaf: string): (r: string)
    ensures |r| == if prefix == [] then |leaf| else |prefix| + 1 + |leaf|
    ensures leaf == r[|r| - |leaf|..]
    ensures prefix <= r
    ensures prefix != [] ==> r[|prefix|] == '/'
  {
    if prefix == "" then leaf else prefix + "/" + leaf
  }

  /** Whatever precedes a `/`, the text after it is the basename when it holds no `/`. */
  lemma BasenameAfterSlash(d: string, leaf: string)
    requires '/' !in leaf
    ensures Basename(d + "/" + leaf) == leaf
  {
    var p := d + "/" + leaf;
    assert p[|d|] == '/';
  }

  /** The last path component of a joined key is the leaf, when the leaf has no `/`. */
  lemma BasenameOfJoin(prefix: string, leaf: string)
    requires '/' !in leaf
    ensures Basename(Join(prefix, leaf)) == leaf
  {
    if prefix != "" {
      BasenameAfterSlash(prefix, leaf);
    } else {
      assert LastSlash(leaf) == -1;
    }
  }

  /** `pat` occurs in `s` starting at index `i`. */
  predicate OccursAt(s: string, pat: string, i: int) {
    0 <= i && i + |pat| <= |s| && s[i..i + |pat|] == pat
  }

  predicate Occurs(s: string, pat: string) {
    exists i | 0 <= i <= |s| :: OccursAt(s, pat, i)
  }

  /**
   Python's `s.replace(pat, rep)`: every non-overlapping occurrence of `pat`,
   scanning left to right, is replaced by `rep`; an empty `pat` matches before
   every character and at the end.
   */
  function ReplaceAll(s: string, pat: string, rep: string): (r: string)
    ensures pat != [] && |rep| <= |pat| ==> |r| <= |s|
    ensures pat != [] && |rep| == |pat| ==> |r| == |s|
    decreases |s|
  {
    if pat == [] then
      if s == [] then rep else rep + [s[0]] + ReplaceAll(s[1..], pat, rep)
    else if |s| < |pat| then s
    else if s[..|pat|] == pat then rep + ReplaceAll(s[|pat|..], pat, rep)
    else [s[0]] + ReplaceAll(s[1..], pat, rep)
  }

  /** Replacing a non-empty pattern that does not occur leaves the string unchanged. */
  lemma {:induction false} ReplaceAllAbsent(s: string, pat: string, rep: string)
    requires pat != []
    requires !Occurs(s, pat)
    ensures ReplaceAll(s, pat, rep) == s
  {
    if |s| >= |pat| {
      assert !OccursAt(s, pat, 0);
      assert !Occurs(s[1..], pat) by {
        forall i | OccursAt(s[1..], pat, i) ensures false {
          assert s[1..][i..i + |pat|] == s[i + 1..i + 1 + |pat|];
          assert OccursAt(s, pat, i + 1);
        }
      }
      ReplaceAllAbsent(s[1..], pat, rep);
    }
  }

  /**
   Deleting a pattern that occurs only at the very start removes exactly that
   leading copy.
   */
  lemma ReplaceAllLeadingOnly(pat: string, t: string)
    requires pat != []
    requires !Occurs(t, pat)
    ensures ReplaceAll(pat + t, pat, "") == t
  {
    assert (pat + t)[..|pat|] == pat;
    assert (pat + t)[|pat|..] == t;
    ReplaceAllAbsent(t, pat, "");
  }
}
