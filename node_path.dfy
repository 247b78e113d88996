/**
 * The three functions of Node's `path` module that the plugin relies on,
 * for POSIX paths: `extname`, `join` and `basename` (with a suffix).
 * Only what the plugin feeds them is modelled: directory entries and
 * paths built from them, none of which ends in a separator.
 */
module NodePath {
  import opened Base

  const Sep: char := '/'

  /** Index of the last `c` in `s`, or -1 when `s` has none. */
  function LastIndexOf(s: string, c: char): (r: int)
    ensures -1 <= r < |s|
    ensures r >= 0 ==> s[r] == c
    ensures forall i :: r < i < |s| ==> s[i] != c
    ensures r == -1 <==> c !in s
  {
    if |s| == 0 then -1
    else if s[|s| - 1] == c then |s| - 1
    else LastIndexOf(s[..|s| - 1], c)
  }

  /** The last segment of a path: everything after its last separator. */
  function Segment(p: string): (seg: string)
    ensures Sep !in seg
    ensures EndsWith(p, seg)
    ensures Sep !in p ==> seg == p
    ensures |seg| < |p| ==> p[|p| - |seg| - 1] == Sep
  {
    p[LastIndexOf(p, Sep) + 1..]
  }

  /**
   * `path.extname(p)`: from the last '.' of the last segment to its end;
   * empty when the segment has no '.', when its only leading character is
   * the last '.', or when the segment is "..".
   */
  function ExtName(p: string): string {
    var seg := Segment(p);
    var dot := LastIndexOf(seg, '.');
    if dot <= 0 || seg == ".." then "" else seg[dot..]
  }

  /**
   * `path.join(dir, name)` without normalisation of "." and ".." segments
   * or of repeated separators.
   */
  function Join(dir: string, name: string): string {
    if dir == "" then name
    else if name == "" then dir
    else if dir[|dir| - 1] == Sep then dir + name
    else dir + [Sep] + name
  }

  /**
   * `path.basename(p, ext)`: the last segment, with `ext` removed when the
   * segment ends with it and is longer than it. Node gives "" when the whole
   * path equals `ext` (`basename('.svg', '.svg')`); this model gives ".svg"
   * there, an input the plugin never passes, since its paths are joined
   * onto the source folder.
   */
  function BaseName(p: string, ext: string): string {
    var seg := Segment(p);
    if |ext| < |seg| && EndsWith(seg, ext) then seg[..|seg| - |ext|] else seg
  }

  /** A directory entry whose extension is exactly ".svg". */
  predicate HasSvgSuffix(name: string) {
    |name| > 4 && name[|name| - 4..] == ".svg"
  }

  lemma {:induction false} LastIndexOfAppend(a: string, b: string, c: char)
    requires c !in b
    ensures LastIndexOf(a + b, c) == LastIndexOf(a, c)
  {
    if b != [] {
      var b' := b[..|b| - 1];
      assert (a + b)[..|a + b| - 1] == a + b';
      LastIndexOfAppend(a, b', c);
    } else {
      assert a + b == a;
    }
  }

  /**
   * For a file name without separators, `extname(name) === '.svg'` holds
   * exactly when the name is longer than ".svg" and ends with it.
   */
  lemma ExtNameIsSvg(name: string)
    requires Sep !in name
    ensures ExtName(name) == ".svg" <==> HasSvgSuffix(name)
  {
    var dot := LastIndexOf(name, '.');
    if HasSvgSuffix(name) {
      var k := |name| - 4;
      assert name[k] == '.';
      assert name[k + 1] == 's' && name[k + 2] == 'v' && name[k + 3] == 'g';
      assert dot == k;
      assert name != "..";
    }
    if ExtName(name) == ".svg" {
      assert dot > 0 && name[dot..] == ".svg";
      assert |name| == dot + 4;
    }
  }

  /** An upper-case extension is not ".svg". */
  lemma UpperCaseSvgRejected()
    ensures ExtName("X.SVG") != ".svg"
  {
    var n := "X.SVG";
    assert Sep !in n by { assert forall i :: 0 <= i < |n| ==> n[i] != Sep; }
    ExtNameIsSvg(n);
    assert n[|n| - 4..][1] == 'S';
  }

  /** A trailing extension after ".svg" hides it. */
  lemma BackupSvgRejected()
    ensures ExtName("a.svg.bak") != ".svg"
  {
    var n := "a.svg.bak";
    assert Sep !in n by { assert forall i :: 0 <= i < |n| ==> n[i] != Sep; }
    ExtNameIsSvg(n);
    assert n[|n| - 4..][1] == 'b';
  }

  /** A dot file named ".svg" has no extension at all. */
  lemma DotFileSvgRejected()
    ensures ExtName(".svg") == ""
  {
    var n := ".svg";
    assert Sep !in n by { assert forall i :: 0 <= i < |n| ==> n[i] != Sep; }
    assert LastIndexOf(n, '.') == 0;
  }

  /** "..svg" does have the extension ".svg": only ".." itself is special. */
  lemma DoubleDotSvgAccepted()
    ensures ExtName("..svg") == ".svg"
  {
    var n := "..svg";
    assert Sep !in n by { assert forall i :: 0 <= i < |n| ==> n[i] != Sep; }
    ExtNameIsSvg(n);
  }

  /** The last segment of a joined path is the separator-free name that was joined. */
  lemma SegmentOfJoin(dir: string, name: string)
    requires Sep !in name && name != ""
    ensures Segment(Join(dir, name)) == name
  {
    var p := Join(dir, name);
    if dir == "" {
    } else if dir[|dir| - 1] == Sep {
      LastIndexOfAppend(dir, name, Sep);
      assert LastIndexOf(dir, Sep) == |dir| - 1;
      assert p[|dir|..] == name;
    } else {
      LastIndexOfAppend(dir + [Sep], name, Sep);
      assert LastIndexOf(dir + [Sep], Sep) == |dir|;
      assert p == (dir + [Sep]) + name;
      assert p[|dir| + 1..] == name;
    }
  }

  /**
   * Joining a directory and a separator-free ".svg" name, then taking the
   * base name without ".svg", gives back the name stripped of ".svg".
   */
  lemma BaseNameOfJoin(dir: string, name: string)
    requires Sep !in name && HasSvgSuffix(name)
    ensures BaseName(Join(dir, name), ".svg") == name[..|name| - 4]
  {
    SegmentOfJoin(dir, name);
  }

  /** Joining onto a non-empty directory keeps the directory in front and puts a separator in the path. */
  lemma JoinKeepsDir(dir: string, name: string)
    requires dir != "" && name != ""
    ensures IsPrefix(dir, Join(dir, name))
    ensures Sep in Join(dir, name)
  {
    var p := Join(dir, name);
    if dir[|dir| - 1] == Sep {
      assert p[|dir| - 1] == Sep;
    } else {
      assert p[|dir|] == Sep;
    }
    assert p[..|dir|] == dir;
  }
}
