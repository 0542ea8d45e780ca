/**
 * The two POSIX path operations the loader loop uses: `os.path.splitext`
 * (the extension of a file name) and `os.path.join` (the path handed to a loader).
 */
module Paths {
  import opened Text

  /** Some character of `s` is not a dot. */
  predicate HasNonDot(s: string)
  {
    exists k :: 0 <= k < |s| && s[k] != '.'
  }

  /**
   * `os.path.splitext(p)` on POSIX: the extension runs from the last dot of the
   * last path component to the end, unless everything in that component before
   * the dot is a dot as well (leading dots do not start an extension).
   */
  function SplitExt(p: string): (r: (string, string))
    ensures r.0 + r.1 == p
  {
    var sepIndex := LastIndex(p, '/');
    var dotIndex := LastIndex(p, '.');
    if dotIndex > sepIndex && HasNonDot(p[sepIndex + 1..dotIndex]) then
      TakeDrop(p, dotIndex);
      (p[..dotIndex], p[dotIndex..])
    else
      (p, "")
  }

  /** A string is its prefix up to `i` followed by the rest. */
  lemma TakeDrop(p: string, i: nat)
    requires i <= |p|
    ensures p[..i] + p[i..] == p
  {
  }

  /** `os.path.splitext(p)[1]`. */
  function Ext(p: string): (r: string)
    ensures exists stem :: stem + r == p
    ensures r == [] || r[0] == '.'
  {
    SplitExt(p).1
  }

  /**
   * An independent description of an extension: a non-empty suffix `e` of `p`
   * that starts with a dot, holds no other dot and no separator, and is preceded,
   * within the last path component, by some character that is not a dot.
   */
  ghost predicate IsExtensionOf(e: string, p: string)
  {
    var d := |p| - |e|;
    0 < |e| <= |p| && p[d..] == e && e[0] == '.'
    && (forall m :: d < m < |p| ==> p[m] != '.' && p[m] != '/')
    && exists k :: 0 <= k < d && p[k] != '.' && p[k] != '/' && NoSepBetween(p, k, d)
  }

  predicate NoSepBetween(p: string, lo: int, hi: int)
    requires 0 <= lo <= hi <= |p|
  {
    forall m :: lo <= m < hi ==> p[m] != '/'
  }

  /** A non-empty result of `SplitExt` is an extension in the sense above. */
  lemma ExtIsExtension(p: string)
    requires Ext(p) != ""
    ensures IsExtensionOf(Ext(p), p)
  {
    var sepIndex := LastIndex(p, '/');
    var dotIndex := LastIndex(p, '.');
    assert dotIndex > sepIndex && HasNonDot(p[sepIndex + 1..dotIndex]);
    assert Ext(p) == p[dotIndex..];
    NonDotWithin(p, sepIndex + 1, dotIndex);
    var k :| sepIndex + 1 <= k < dotIndex && p[k] != '.';
    ExtensionShape(p, sepIndex, dotIndex, k);
  }

  /** A slice that holds a character other than a dot holds one at some position of `p`. */
  lemma NonDotWithin(p: string, lo: nat, hi: nat)
    requires lo <= hi <= |p| && HasNonDot(p[lo..hi])
    ensures exists k :: lo <= k < hi && p[k] != '.'
  {
    var j :| 0 <= j < hi - lo && p[lo..hi][j] != '.';
    assert p[lo + j] != '.';
  }

  lemma ExtensionShape(p: string, sepIndex: int, dotIndex: int, k: int)
    requires -1 <= sepIndex < k < dotIndex < |p|
    requires p[dotIndex] == '.' && p[k] != '.'
    requires forall m :: sepIndex < m < |p| ==> p[m] != '/'
    requires forall m :: dotIndex < m < |p| ==> p[m] != '.'
    ensures IsExtensionOf(p[dotIndex..], p)
  {
    assert NoSepBetween(p, k, dotIndex);
  }

  /** An extension in the sense above is the one `SplitExt` finds; so there is at most one. */
  lemma ExtUnique(p: string, e: string)
    requires IsExtensionOf(e, p)
    ensures Ext(p) == e
  {
    var d := |p| - |e|;
    var k :| 0 <= k < d && p[k] != '.' && p[k] != '/' && NoSepBetween(p, k, d);
    assert p[d] == e[0] == '.';
    LastIndexAt(p, '.', d);
    assert NoSepBetween(p, k, |p|);
    LastIndexBefore(p, '/', k);
    var sepIndex := LastIndex(p, '/');
    assert p[sepIndex + 1..d][k - sepIndex - 1] == p[k];
    assert HasNonDot(p[sepIndex + 1..d]);
    assert Ext(p) == p[d..];
  }

  /**
   * A name made of a stem that starts with an ordinary character and holds no
   * separator, followed by a dot and characters other than dots and
   * separators, has that dotted suffix as its extension.
   */
  lemma StemExtension(stem: string, e: string)
    requires |stem| > 0 && stem[0] != '.' && forall m :: 0 <= m < |stem| ==> stem[m] != '/'
    requires |e| > 0 && e[0] == '.' && forall m :: 0 < m < |e| ==> e[m] != '.' && e[m] != '/'
    ensures Ext(stem + e) == e
  {
    var p := stem + e;
    var d := |stem|;
    assert p[d..] == e;
    assert forall m :: d < m < |p| ==> p[m] == e[m - d];
    assert forall m :: 0 <= m < d ==> p[m] == stem[m];
    assert NoSepBetween(p, 0, d);
    assert IsExtensionOf(e, p);
    ExtUnique(p, e);
  }

  /** A name whose only dot is its first character, as a hidden file's, has no extension. */
  lemma LeadingDotIsNotExtension(p: string)
    requires |p| > 0 && p[0] == '.'
    requires forall m :: 0 < m < |p| ==> p[m] != '.' && p[m] != '/'
    ensures Ext(p) == ""
  {
    LastIndexAbsent(p, '/');
    LastIndexAt(p, '.', 0);
    assert p[0..0] == [];
    assert !HasNonDot(p[0..0]);
  }

  /** `os.path.join(root, name)` for a single name on POSIX. */
  function JoinPath(root: string, name: string): (r: string)
    ensures |name| <= |r| && r[|r| - |name|..] == name
    ensures name != [] && name[0] == '/' ==> r == name
    ensures (name == [] || name[0] != '/') ==> |root| <= |r| && r[..|root|] == root
    ensures (name == [] || name[0] != '/') && (root == [] || root[|root| - 1] == '/') ==> |r| == |root| + |name|
    ensures (name == [] || name[0] != '/') && root != [] && root[|root| - 1] != '/' ==>
              |r| == |root| + 1 + |name| && r[|root|] == '/'
  {
    if |name| > 0 && name[0] == '/' then name
    else if root == [] || root[|root| - 1] == '/' then root + name
    else root + "/" + name
  }

  /**
   * The extension of a path is that of its last component: what follows the
   * last separator decides it alone.
   */
  lemma ExtAfterSeparator(dir: string, name: string)
    requires dir == [] || dir[|dir| - 1] == '/'
    requires forall m :: 0 <= m < |name| ==> name[m] != '/'
    ensures Ext(dir + name) == Ext(name)
  {
    LastIndexConcat(dir, name, '/');
    LastIndexConcat(dir, name, '.');
    LastIndexAbsent(name, '/');
    if dir != [] {
      LastIndexAt(dir, '/', |dir| - 1);
    }
    var d := LastIndex(name, '.');
    if d >= 0 {
      ExtShifted(dir, name, d);
    } else {
      NoExtShifted(dir, name);
    }
  }

  lemma ExtShifted(dir: string, name: string, d: nat)
    requires LastIndex(dir + name, '/') == |dir| - 1 && LastIndex(name, '/') == -1
    requires d < |name| && LastIndex(name, '.') == d && LastIndex(dir + name, '.') == |dir| + d
    ensures Ext(dir + name) == Ext(name)
  {
    var p := dir + name;
    assert p[|dir|..|dir| + d] == name[0..d];
    assert p[|dir| + d..] == name[d..];
  }

  lemma NoExtShifted(dir: string, name: string)
    requires LastIndex(dir + name, '/') == |dir| - 1 && LastIndex(name, '/') == -1
    requires LastIndex(name, '.') == -1 && LastIndex(dir + name, '.') == LastIndex(dir, '.')
    ensures Ext(dir + name) == "" && Ext(name) == ""
  {
  }

  /**
   * The loader is chosen by the file name's extension but called on the joined
   * path; both have the same extension.
   */
  lemma ExtOfJoinedPath(root: string, name: string)
    requires name != [] && forall m :: 0 <= m < |name| ==> name[m] != '/'
    ensures Ext(JoinPath(root, name)) == Ext(name)
  {
    var r := JoinPath(root, name);
    var dir := r[..|r| - |name|];
    assert r == dir + name;
    if root != [] && root[|root| - 1] != '/' {
      assert dir == root + "/";
    } else {
      assert dir == root;
    }
    ExtAfterSeparator(dir, name);
  }

  /** Lower-casing touches neither dots nor separators, so it commutes with taking the extension. */
  lemma ExtOfLower(p: string)
    ensures Ext(ToLower(p)) == ToLower(Ext(p))
  {
    var q := ToLower(p);
    LastIndexOfLower(p, '/');
    LastIndexOfLower(p, '.');
    var sepIndex := LastIndex(p, '/');
    var dotIndex := LastIndex(p, '.');
    if dotIndex > sepIndex {
      HasNonDotOfLower(p, sepIndex + 1, dotIndex);
      if HasNonDot(p[sepIndex + 1..dotIndex]) {
        LowerSuffix(p, dotIndex);
        assert Ext(q) == q[dotIndex..];
      } else {
        assert Ext(q) == "";
      }
    } else {
      assert Ext(q) == "";
    }
  }

  lemma HasNonDotOfLower(p: string, lo: nat, hi: nat)
    requires lo <= hi <= |p|
    ensures HasNonDot(ToLower(p)[lo..hi]) == HasNonDot(p[lo..hi])
  {
    var q := ToLower(p);
    if HasNonDot(p[lo..hi]) {
      var j :| 0 <= j < hi - lo && p[lo..hi][j] != '.';
      assert q[lo..hi][j] != '.';
    }
    if HasNonDot(q[lo..hi]) {
      var j :| 0 <= j < hi - lo && q[lo..hi][j] != '.';
      assert p[lo..hi][j] != '.';
    }
  }

  lemma LastIndexOfLower(p: string, c: char)
    requires c == '/' || c == '.'
    ensures LastIndex(ToLower(p), c) == LastIndex(p, c)
  {
    var q := ToLower(p);
    var i, j := LastIndex(q, c), LastIndex(p, c);
    assert j >= 0 ==> q[j] == c;
    assert i >= 0 ==> p[i] == c;
  }

  lemma LowerSuffix(p: string, d: nat)
    requires d <= |p|
    ensures ToLower(p)[d..] == ToLower(p[d..])
  {
  }
}
