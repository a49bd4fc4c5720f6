/**
 * POSIX path handling as the ignore-baseline code uses it: `os.path.join`,
 * `os.path.abspath`, `os.path.relpath` and `os.path.commonpath`. A
 * normalised absolute path is the sequence of its components.
 */
module Paths {
  import opened Wrappers
  import opened Text

  /** A component of a normalised path. */
  predicate IsName(x: string) {
    x != "" && x != "." && x != ".." && '/' !in x
  }

  predicate AllNames(xs: seq<string>) {
    forall i :: 0 <= i < |xs| ==> IsName(xs[i])
  }

  /** A normalised absolute path, as `os.path.abspath` returns it, by its components. */
  type Path = xs: seq<string> | AllNames(xs)

  predicate NoSlash(xs: seq<string>) {
    forall i :: 0 <= i < |xs| ==> '/' !in xs[i]
  }

  /** Index of the first '/' in `s`, or `|s|`. */
  function SlashIndex(s: string): (n: nat)
    ensures n <= |s| && '/' !in s[..n]
    ensures n < |s| ==> s[n] == '/'
  {
    if s == [] || s[0] == '/' then 0 else 1 + SlashIndex(s[1..])
  }

  /** `s.split("/")`. */
  function SplitSlash(s: string): (parts: seq<string>)
    decreases |s|
    ensures |parts| >= 1 && NoSlash(parts)
  {
    var n := SlashIndex(s);
    if n == |s| then [s] else [s[..n]] + SplitSlash(s[n + 1..])
  }

  /**
   * The components `os.path.normpath` keeps for an absolute path, pushed on
   * `stack`: "" and "." vanish, ".." drops the previous component (and
   * nothing at the root).
   */
  function NormalizeFrom(stack: Path, parts: seq<string>): Path
    requires NoSlash(parts)
    decreases |parts|
  {
    if parts == [] then stack
    else
      var c := parts[0];
      if c == "" || c == "." then NormalizeFrom(stack, parts[1..])
      else if c == ".." then NormalizeFrom(if stack == [] then [] else stack[..|stack| - 1], parts[1..])
      else NormalizeFrom(stack + [c], parts[1..])
  }

  /** `os.path.abspath(s)` for an absolute path `s`. */
  function AbsPath(s: string): Path {
    NormalizeFrom([], SplitSlash(s))
  }

  /** The components `os.path.commonpath` compares: all but "" and "." (".." stays). */
  function Components(parts: seq<string>): (r: seq<string>)
    ensures forall i :: 0 <= i < |r| ==> r[i] != "" && r[i] != "."
    ensures NoSlash(parts) ==> NoSlash(r)
  {
    if parts == [] then []
    else if parts[0] == "" || parts[0] == "." then Components(parts[1..])
    else [parts[0]] + Components(parts[1..])
  }

  /** The text of a normalised absolute path. */
  function PathString(p: Path): string {
    "/" + Join("/", p)
  }

  /** `os.path.join(a, b)`. */
  function JoinPath(a: string, b: string): string {
    if StartsWith(b, "/") then b
    else if a == "" || EndsWith(a, "/") then a + b
    else a + "/" + b
  }

  /** Length of the longest common prefix of `a` and `b`. */
  function CommonPrefixLength(a: seq<string>, b: seq<string>): (n: nat)
    ensures n <= |a| && n <= |b| && a[..n] == b[..n]
    ensures n < |a| && n < |b| ==> a[n] != b[n]
  {
    if a == [] || b == [] || a[0] != b[0] then 0
    else
      var n := CommonPrefixLength(a[1..], b[1..]);
      assert a[..n + 1] == [a[0]] + a[1..][..n];
      assert b[..n + 1] == [b[0]] + b[1..][..n];
      n + 1
  }

  function Repeat(x: string, n: nat): (r: seq<string>)
    ensures |r| == n && forall i :: 0 <= i < n ==> r[i] == x
  {
    if n == 0 then [] else [x] + Repeat(x, n - 1)
  }

  /** `os.path.relpath(p, start)` for normalised absolute paths. */
  function RelPath(p: Path, start: Path): string {
    var i := CommonPrefixLength(start, p);
    var rel := Repeat("..", |start| - i) + p[i..];
    if rel == [] then "." else Join("/", rel)
  }

  /**
   * The relative path under which `main` files an ignore entry for a root:
   * `relpath(entry, root)`, kept only when it is not "." and starts neither
   * with ".." nor with "/".
   */
  function RootRelative(entry: string, root: Path): Option<string> {
    var rel := RelPath(AbsPath(entry), root);
    if rel != "." && !StartsWith(rel, "..") && !StartsWith(rel, "/") then Some(rel) else None
  }

  /** `os.path.commonpath([root, entry]) == root`. */
  predicate UnderRoot(entry: string, root: Path) {
    CommonPrefixLength(root, Components(SplitSlash(entry))) == |root|
  }

  // ---------------------------------------------------------------------
  // Facts about splitting and joining

  lemma JoinStartsWithFirst(sep: string, xs: seq<string>)
    requires xs != []
    ensures StartsWith(Join(sep, xs), xs[0])
  {
  }

  /** The first slash of `a + "/" + b` is the first slash of `a`, or the one added. */
  lemma {:induction false} SlashIndexAppend(a: string, b: string)
    ensures SlashIndex(a + "/" + b) == SlashIndex(a)
    decreases |a|
  {
    if a != [] && a[0] != '/' {
      assert (a + "/" + b)[1..] == a[1..] + "/" + b;
      SlashIndexAppend(a[1..], b);
    }
  }

  lemma AppendSlices(a: string, b: string, n: nat)
    requires n <= |a|
    ensures (a + "/" + b)[..n] == a[..n]
    ensures n < |a| ==> (a + "/" + b)[n + 1..] == a[n + 1..] + "/" + b
    ensures n == |a| ==> (a + "/" + b)[n + 1..] == b
  {
  }

  lemma {:induction false} SplitSlashAppend(a: string, b: string)
    ensures SplitSlash(a + "/" + b) == SplitSlash(a) + SplitSlash(b)
    decreases |a|
  {
    var n := SlashIndex(a);
    if n < |a| {
      SplitSlashAppend(a[n + 1..], b);
      SplitSlashAppendInner(a, b);
    } else {
      SplitSlashAppendLast(a, b);
    }
  }

  /** The step of `SplitSlashAppend` when `a` holds a slash. */
  lemma SplitSlashAppendInner(a: string, b: string)
    requires SlashIndex(a) < |a|
    requires SplitSlash(a[SlashIndex(a) + 1..] + "/" + b) == SplitSlash(a[SlashIndex(a) + 1..]) + SplitSlash(b)
    ensures SplitSlash(a + "/" + b) == SplitSlash(a) + SplitSlash(b)
  {
    var n := SlashIndex(a);
    var s := a + "/" + b;
    SlashIndexAppend(a, b);
    AppendSlices(a, b, n);
    var x, y := SplitSlash(a[n + 1..]), SplitSlash(b);
    assert SplitSlash(a) == [a[..n]] + x;
    assert SplitSlash(s) == [s[..n]] + SplitSlash(s[n + 1..]);
    ConsAssoc(a[..n], x, y);
  }

  /** The base of `SplitSlashAppend`: `a` holds no slash. */
  lemma SplitSlashAppendLast(a: string, b: string)
    requires SlashIndex(a) == |a|
    ensures SplitSlash(a + "/" + b) == SplitSlash(a) + SplitSlash(b)
  {
    SlashIndexAppend(a, b);
    AppendSlices(a, b, |a|);
    assert (a + "/" + b)[..|a|] == a;
  }

  lemma {:induction false} SplitSlashJoin(xs: seq<string>)
    requires xs != [] && NoSlash(xs)
    ensures SplitSlash(Join("/", xs)) == xs
  {
    SlashFree(xs[0]);
    if |xs| > 1 {
      assert Join("/", xs) == xs[0] + "/" + Join("/", xs[1..]);
      SplitSlashJoin(xs[1..]);
      SplitSlashAppend(xs[0], Join("/", xs[1..]));
    }
  }

  lemma SlashFree(x: string)
    requires '/' !in x
    ensures SplitSlash(x) == [x]
  {
    assert SlashIndex(x) == |x|;
  }

  lemma {:induction false} NormalizeNames(stack: Path, parts: seq<string>)
    requires AllNames(parts)
    ensures NormalizeFrom(stack, parts) == stack + parts
    decreases |parts|
  {
    if parts != [] {
      NormalizeNames(stack + [parts[0]], parts[1..]);
    }
  }

  lemma StartsWithDotDot(xs: seq<string>)
    requires xs != [] && AllNames(xs)
    ensures StartsWith(Join("/", xs), "..") <==> StartsWith(xs[0], "..")
    ensures !StartsWith(Join("/", xs), "/")
    ensures Join("/", xs) != "."
  {
    var j := Join("/", xs);
    JoinStartsWithFirst("/", xs);
    assert j[0] == xs[0][0];
    if |xs[0]| == 1 {
      assert xs[0][0] != '.';
    } else {
      assert j[..2] == xs[0][..2];
    }
    if |xs| > 1 {
      assert j == xs[0] + "/" + Join("/", xs[1..]);
    }
  }

  lemma PathStringShape(root: Path)
    ensures root == [] ==> PathString(root) == "/"
    ensures root != [] ==> !EndsWith(PathString(root), "/")
  {
    if root != [] {
      LastOfJoin(root);
      var last := root[|root| - 1];
      assert last[|last| - 1] in last;
      var ps := PathString(root);
      assert ps[|ps| - 1] == Join("/", root)[|Join("/", root)| - 1];
    }
  }

  lemma {:induction false} LastOfJoin(xs: seq<string>)
    requires xs != [] && AllNames(xs)
    ensures var j := Join("/", xs); j != [] && j[|j| - 1] == xs[|xs| - 1][|xs[|xs| - 1]| - 1]
  {
    if |xs| > 1 {
      LastOfJoin(xs[1..]);
    }
  }

  lemma {:induction false} ComponentsOfNames(xs: seq<string>)
    requires AllNames(xs)
    ensures Components(xs) == xs
  {
    if xs != [] {
      ComponentsOfNames(xs[1..]);
    }
  }

  /** The text of a root splits into "" and the root's components ("/" into two empty pieces). */
  lemma SplitPathString(root: Path)
    ensures SplitSlash(PathString(root)) == [""] + (if root == [] then [""] else root)
  {
    SlashFree("");
    if root == [] {
      assert PathString(root) == "" + "/" + "";
      SplitSlashAppend("", "");
    } else {
      assert PathString(root) == "" + "/" + Join("/", root);
      SplitSlashAppend("", Join("/", root));
      SplitSlashJoin(root);
    }
  }

  // ---------------------------------------------------------------------
  // What the per-root resolution means

  /**
   * An entry is filed under a root only when it lies strictly below that
   * root; what is filed is the rest of its components.
   */
  lemma RootRelativeIsBelow(entry: string, root: Path)
    ensures var p := AbsPath(entry);
            RootRelative(entry, root).Some? ==>
              && |root| < |p| && p[..|root|] == root
              && RootRelative(entry, root).value == Join("/", p[|root|..])
  {
    if RootRelative(entry, root).Some? {
      var p := AbsPath(entry);
      var i := CommonPrefixLength(root, p);
      var rel := Repeat("..", |root| - i) + p[i..];
      if i < |root| {
        assert rel[0] == "..";
        JoinStartsWithFirst("/", rel);
        assert false;
      }
      assert rel == p[|root|..];
    }
  }

  /**
   * Conversely, an entry strictly below a root is filed under it, except
   * when the first component below the root starts with "..".
   */
  lemma RootRelativeOfBelow(entry: string, root: Path)
    requires var p := AbsPath(entry); |root| < |p| && p[..|root|] == root
    ensures var p := AbsPath(entry);
            RootRelative(entry, root)
              == if StartsWith(p[|root|], "..") then None else Some(Join("/", p[|root|..]))
  {
    var p := AbsPath(entry);
    var i := CommonPrefixLength(root, p);
    assert forall k :: 0 <= k < |root| ==> root[k] == p[..|root|][k];
    assert i == |root|;
    assert Repeat("..", |root| - i) + p[i..] == p[|root|..];
    StartsWithDotDot(p[|root|..]);
  }

  /**
   * The entry written for a relative path `rel` under a root is filed
   * under that root as `rel` again, when `rel` is normalised and does not
   * start with "..".
   */
  lemma RootRelativeOfJoined(root: Path, segs: Path)
    requires segs != [] && !StartsWith(segs[0], "..")
    ensures RootRelative(JoinPath(PathString(root), Join("/", segs)), root) == Some(Join("/", segs))
  {
    var entry := JoinPath(PathString(root), Join("/", segs));
    StartsWithDotDot(segs);
    AbsPathOfJoined(root, segs);
    PrefixAndRest(root, segs);
    RootRelativeOfBelow(entry, root);
  }

  lemma PrefixAndRest(root: Path, segs: Path)
    ensures (root + segs)[..|root|] == root && (root + segs)[|root|..] == segs
  {
  }

  /** A relative path joined to a root normalises to the root's components followed by its own. */
  lemma AbsPathOfJoined(root: Path, segs: Path)
    requires segs != [] && !StartsWith(segs[0], "..")
    ensures AbsPath(JoinPath(PathString(root), Join("/", segs))) == root + segs
  {
    var entry := JoinPath(PathString(root), Join("/", segs));
    SplitJoined(root, segs);
    assert SplitSlash(entry)[1..] == root + segs;
    NormalizeNames([], root + segs);
  }

  /** The text of a relative path joined to a root splits into "" and the components. */
  lemma SplitJoined(root: Path, segs: Path)
    requires segs != [] && !StartsWith(segs[0], "..")
    ensures SplitSlash(JoinPath(PathString(root), Join("/", segs))) == [""] + (root + segs)
  {
    StartsWithDotDot(segs);
    PathStringShape(root);
    if root == [] {
      SplitJoinedAtTop(segs);
    } else {
      SplitJoinedBelow(root, segs);
    }
  }

  lemma SplitJoinedAtTop(segs: Path)
    requires segs != [] && !StartsWith(Join("/", segs), "/")
    ensures SplitSlash(JoinPath("/", Join("/", segs))) == [""] + segs
  {
    var rel := Join("/", segs);
    assert JoinPath("/", rel) == "" + "/" + rel;
    SplitSlashAppend("", rel);
    SlashFree("");
    SplitSlashJoin(segs);
  }

  lemma SplitJoinedBelow(root: Path, segs: Path)
    requires root != [] && segs != [] && !StartsWith(Join("/", segs), "/")
    ensures SplitSlash(JoinPath(PathString(root), Join("/", segs))) == [""] + (root + segs)
  {
    var rel := Join("/", segs);
    var x := Join("/", root) + "/" + rel;
    PathStringShape(root);
    RootedText(Join("/", root), rel);
    SplitSlashAppend("", x);
    SplitSlashAppend(Join("/", root), rel);
    SlashFree("");
    SplitSlashJoin(root);
    SplitSlashJoin(segs);
  }

  lemma RootedText(j: string, rel: string)
    ensures ("/" + j) + "/" + rel == "" + "/" + (j + "/" + rel)
  {
  }

  /**
   * A root's own text normalises to the root, counts as under the root
   * for `commonpath`, and is not filed under it (its relative path is ".").
   */
  lemma RootItself(root: Path)
    ensures AbsPath(PathString(root)) == root
    ensures UnderRoot(PathString(root), root)
    ensures RootRelative(PathString(root), root) == None
  {
    SplitPathString(root);
    var parts := SplitSlash(PathString(root));
    var rest := parts[1..];
    assert parts[0] == "";
    assert AbsPath(PathString(root)) == NormalizeFrom([], rest);
    assert Components(parts) == Components(rest);
    if root == [] {
      assert rest == [""];
    } else {
      assert rest == root;
      NormalizeNames([], root);
      ComponentsOfNames(root);
    }
    assert CommonPrefixLength(root, root) == |root|;
  }

  // ---------------------------------------------------------------------
  // Where `commonpath` and the filing agree

  /** No component starts with "..": normalising then only drops "" and ".". */
  predicate NoDotDot(parts: seq<string>) {
    forall i :: 0 <= i < |parts| ==> !StartsWith(parts[i], "..")
  }

  lemma {:induction false} NormalizePlain(stack: Path, parts: seq<string>)
    requires NoSlash(parts) && NoDotDot(parts)
    ensures NormalizeFrom(stack, parts) == stack + Components(parts)
    decreases |parts|
  {
    if parts != [] {
      assert NoDotDot(parts[1..]) && NoSlash(parts[1..]) by {
        forall i | 0 <= i < |parts[1..]|
          ensures !StartsWith(parts[1..][i], "..") && '/' !in parts[1..][i]
        {
          assert parts[1..][i] == parts[i + 1];
        }
      }
      assert parts[0] != ".." by {
        assert !StartsWith(parts[0], "..");
      }
      if parts[0] == "" || parts[0] == "." {
        NormalizePlain(stack, parts[1..]);
      } else {
        assert IsName(parts[0]);
        NormalizePlain(stack + [parts[0]], parts[1..]);
      }
    }
  }

  lemma {:induction false} ComponentsNoDotDot(parts: seq<string>)
    requires NoDotDot(parts)
    ensures NoDotDot(Components(parts))
  {
    if parts != [] {
      assert NoDotDot(parts[1..]) by {
        forall i | 0 <= i < |parts[1..]| ensures !StartsWith(parts[1..][i], "..") {
          assert parts[1..][i] == parts[i + 1];
        }
      }
      ComponentsNoDotDot(parts[1..]);
    }
  }

  /**
   * For an entry none of whose components starts with "..", other than the
   * root itself, `commonpath([root, entry]) == root` holds exactly when the
   * entry is filed under the root.
   */
  lemma UnderRootAgrees(entry: string, root: Path)
    requires NoDotDot(SplitSlash(entry)) && AbsPath(entry) != root
    ensures UnderRoot(entry, root) <==> RootRelative(entry, root).Some?
  {
    var parts := SplitSlash(entry);
    NormalizePlain([], parts);
    ComponentsNoDotDot(parts);
    var p := AbsPath(entry);
    assert p == Components(parts);
    if UnderRoot(entry, root) {
      assert p[..|root|] == root;
      assert !StartsWith(p[|root|], "..");
      RootRelativeOfBelow(entry, root);
    }
    if RootRelative(entry, root).Some? {
      RootRelativeIsBelow(entry, root);
    }
  }
}
