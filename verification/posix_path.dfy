/**
 * The two functions of Node's POSIX `path` module that the upload server uses
 * to split a client's file name: `path.extname` and `path.basename(p, ext)`.
 * Node computes both with a right-to-left scan over the characters; here the
 * scan is written as the path pieces it finds: the path without its trailing
 * slashes, the last segment of that, and the last dot in the segment.
 */
module PosixPath {
  import opened Wrappers

  /** `p` without its trailing run of '/'. */
  function TrimTrailingSlashes(p: string): (q: string)
    ensures q <= p
    ensures q == [] || q[|q| - 1] != '/'
    ensures forall i :: |q| <= i < |p| ==> p[i] == '/'
  {
    if p != [] && p[|p| - 1] == '/' then TrimTrailingSlashes(p[..|p| - 1]) else p
  }

  /** Where the last segment of `q` starts: just after its last '/', or 0. */
  function SegmentStart(q: string): (k: nat)
    ensures k <= |q|
    ensures '/' !in q[k..]
    ensures k > 0 ==> q[k - 1] == '/'
  {
    if q == [] then 0
    else if q[|q| - 1] == '/' then |q|
    else
      var k := SegmentStart(q[..|q| - 1]);
      assert q[k..] == q[..|q| - 1][k..] + [q[|q| - 1]];
      k
  }

  /** The last segment of `p`, trailing slashes ignored ("" for "" and for "///"). */
  function LastSegment(p: string): (seg: string)
    ensures '/' !in seg
    ensures |seg| <= |p|
  {
    var q := TrimTrailingSlashes(p);
    q[SegmentStart(q)..]
  }

  /** The index of the last `c` in `s`, if any. */
  function LastIndexOf(s: string, c: char): (r: Option<nat>)
    ensures r.None? <==> c !in s
    ensures r.Some? ==> r.value < |s| && s[r.value] == c && c !in s[r.value + 1..]
  {
    if s == [] then None
    else if s[|s| - 1] == c then Some(|s| - 1)
    else
      var r := LastIndexOf(s[..|s| - 1], c);
      assert r.Some? ==> s[r.value + 1..] == s[..|s| - 1][r.value + 1..] + [s[|s| - 1]];
      r
  }

  /**
   * `path.extname(p)`: the last segment from its last '.' to its end; "" when
   * the segment has no '.', when its last '.' is its first character
   * (".bashrc") or when the segment is "..".
   */
  function ExtName(p: string): (ext: string)
    ensures ext == [] || (ext[0] == '.' && '.' !in ext[1..] && '/' !in ext)
    ensures |ext| < |p| || ext == []
  {
    var seg := LastSegment(p);
    match LastIndexOf(seg, '.')
    case None => ""
    case Some(dot) => if dot == 0 || seg == ".." then "" else seg[dot..]
  }

  /**
   * `path.basename(p, suffix)`: the last segment, with `suffix` cut off when
   * the segment ends with it and is longer than it. The remaining branches
   * are the corner cases of Node's scan: a suffix equal to the whole path
   * gives "", a non-empty suffix on a path of slashes only gives the path back,
   * and a segment that is a proper tail of the suffix comes back together
   * with the path's trailing slashes.
   */
  function BaseName(p: string, suffix: string): (base: string)
    ensures |base| <= |p|
    ensures suffix == [] ==> base == LastSegment(p)
    ensures '/' in base ==> suffix != [] && base[|base| - 1] == '/'
  {
    var q := TrimTrailingSlashes(p);
    var start := SegmentStart(q);
    var seg := q[start..];
    if suffix == [] || |suffix| > |p| then seg
    else if suffix == p then ""
    else if seg == [] then p
    else if |suffix| < |seg| && seg[|seg| - |suffix|..] == suffix then seg[..|seg| - |suffix|]
    else if |seg| < |suffix| && suffix[|suffix| - |seg|..] == seg then p[start..]
    else seg
  }

  /** The segment has a '.' somewhere after its first character. */
  predicate HasInnerDot(seg: string)
  {
    exists i :: 0 < i < |seg| && seg[i] == '.'
  }

  /**
   * What `extname` returns, stated without the scan: it is empty exactly when
   * the last segment has no '.' after its first character or is ".."; otherwise
   * it is the tail of that segment that starts with a '.' and holds no other '.',
   * shorter than the segment, so no '/' either.
   */
  lemma ExtNameCharacterised(p: string)
    ensures var seg, ext := LastSegment(p), ExtName(p);
      && (ext == [] <==> !HasInnerDot(seg) || seg == "..")
      && (ext != [] ==>
            && |ext| < |seg|
            && seg[|seg| - |ext|..] == ext
            && ext[0] == '.'
            && '.' !in ext[1..]
            && '/' !in ext)
  {
    var seg := LastSegment(p);
    match LastIndexOf(seg, '.')
    case None =>
      assert !HasInnerDot(seg);
    case Some(dot) =>
      if dot != 0 && seg != ".." {
        assert seg[dot..][1..] == seg[dot + 1..];
      }
  }

  /** A last segment with no '.' after its first character has no extension. */
  lemma ExtNameWithoutInnerDot(p: string)
    requires !HasInnerDot(LastSegment(p))
    ensures ExtName(p) == []
  {
  }

  /** With a suffix that is a proper tail of the last segment, `basename` cuts it off. */
  lemma BaseNameCutsSuffix(p: string, suffix: string)
    requires suffix != []
    requires |suffix| < |LastSegment(p)|
    requires LastSegment(p)[|LastSegment(p)| - |suffix|..] == suffix
    ensures BaseName(p, suffix) + suffix == LastSegment(p)
  {
    var seg := LastSegment(p);
    assert BaseName(p, suffix) == seg[..|seg| - |suffix|];
  }

  /**
   * At the call `basename(p, extname(p))` none of the corner cases fire:
   * the base and the extension put back together give the last segment.
   */
  lemma BaseNameWithExtName(p: string)
    ensures BaseName(p, ExtName(p)) + ExtName(p) == LastSegment(p)
  {
    ExtNameCharacterised(p);
    if ExtName(p) != [] {
      BaseNameCutsSuffix(p, ExtName(p));
    }
  }

  /** `extname` on the documented corner cases: "a." has extension ".", ".b" and ".." have none. */
  lemma ExtNameCornerCases()
    ensures ExtName("a.") == "."
    ensures ExtName(".b") == ""
    ensures ExtName("..") == ""
  {
    assert TrimTrailingSlashes("a.") == "a." && SegmentStart("a.") == 0;
    assert TrimTrailingSlashes(".b") == ".b" && SegmentStart(".b") == 0;
    assert TrimTrailingSlashes("..") == ".." && SegmentStart("..") == 0;
  }
}
