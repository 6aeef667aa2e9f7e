/** The part of Rust's `std::path` (Unix flavour) the static-file service
    uses: a path is the sequence of its components, as `Path::components`
    yields them, and `push`, `pop`, `join` and `starts_with` act on that
    sequence. */
module Paths {
  import Text

  datatype Component = RootDir | CurDir | ParentDir | Normal(name: string)

  type Path = seq<Component>

  /** `Path::components` of a Unix path string: a leading '/' gives RootDir,
      empty segments (from doubled or trailing slashes) vanish, and "."
      survives only as the first component of a relative path. */
  function Parse(s: string): Path {
    if |s| > 0 && s[0] == '/' then [RootDir] + Segments(Text.Split(s[1..], '/'), false)
    else Segments(Text.Split(s, '/'), true)
  }

  function Segments(parts: seq<string>, atStart: bool): (p: Path)
    ensures RootDir !in p
  {
    if parts == [] then []
    else
      var x := parts[0];
      var first :=
        if x == "" then []
        else if x == "." then (if atStart then [CurDir] else [])
        else if x == ".." then [ParentDir]
        else [Normal(x)];
      first + Segments(parts[1..], false)
  }

  /** "." survives only as the very first component, and only where
      `atStart` allows it. */
  lemma {:induction false} SegmentsCurDir(parts: seq<string>, atStart: bool)
    ensures !atStart ==> CurDir !in Segments(parts, atStart)
    ensures forall i :: 0 < i < |Segments(parts, atStart)| ==> Segments(parts, atStart)[i] != CurDir
    decreases |parts|
  {
    if parts != [] {
      SegmentsCurDir(parts[1..], false);
    }
  }

  /** A path is absolute exactly when its string starts with '/'; after the
      first component there is never a root or a ".". */
  lemma ParseShape(s: string)
    ensures IsAbsolute(Parse(s)) <==> |s| > 0 && s[0] == '/'
    ensures forall i :: 0 < i < |Parse(s)| ==> Parse(s)[i] != RootDir && Parse(s)[i] != CurDir
  {
    if |s| > 0 && s[0] == '/' {
      SegmentsCurDir(Text.Split(s[1..], '/'), false);
    } else {
      SegmentsCurDir(Text.Split(s, '/'), true);
    }
  }

  /** A relative path string has no root component. */
  lemma ParseRelative(s: string)
    requires |s| == 0 || s[0] != '/'
    ensures RootDir !in Parse(s)
  {
  }

  predicate IsAbsolute(p: Path) {
    |p| > 0 && p[0] == RootDir
  }

  /** `PathBuf::pop`: truncate to the parent. The root and the empty path
      have no parent, and popping them changes nothing. */
  function Pop(p: Path): (r: Path)
    ensures r == p || (|p| > 0 && p[|p| - 1] != RootDir && r == p[..|p| - 1])
    ensures r == p <==> (p == [] || p[|p| - 1] == RootDir)
  {
    if p == [] || p[|p| - 1] == RootDir then p else p[..|p| - 1]
  }

  /** `PathBuf::push` of a single component: a root replaces the path,
      anything else is appended. */
  function Push(p: Path, c: Component): Path {
    if c == RootDir then [RootDir] else p + [c]
  }

  /** Pushing a root leaves only the root; pushing anything else extends
      the path by exactly that component. */
  lemma PushExtends(p: Path, c: Component)
    ensures c == RootDir ==> Push(p, c) == [RootDir]
    ensures c != RootDir ==> |Push(p, c)| == |p| + 1 && StartsWith(Push(p, c), p) && Push(p, c)[|p|] == c
  {
    if c != RootDir {
      assert Push(p, c)[..|p|] == p;
    }
  }

  /** Popping undoes pushing a name. */
  lemma PopPush(p: Path, name: string)
    ensures Pop(Push(p, Normal(name))) == p
  {
    assert (p + [Normal(name)])[..|p|] == p;
  }

  /** `Path::join` with a string: an absolute argument replaces the path;
      otherwise its components follow, a leading "." of the argument being
      dropped unless the path is empty. */
  function Join(p: Path, s: string): Path {
    var q := Parse(s);
    if IsAbsolute(q) || p == [] then q
    else if |q| > 0 && q[0] == CurDir then p + q[1..]
    else p + q
  }

  /** An absolute argument replaces the path; a relative one extends a
      non-empty path with components that are neither a root nor "." (but
      may be ".."). */
  lemma JoinExtends(p: Path, s: string)
    ensures IsAbsolute(Parse(s)) ==> Join(p, s) == Parse(s)
    ensures p != [] && !IsAbsolute(Parse(s)) ==>
              && StartsWith(Join(p, s), p)
              && forall i :: |p| <= i < |Join(p, s)| ==> Join(p, s)[i] != RootDir && Join(p, s)[i] != CurDir
  {
    var q := Parse(s);
    ParseShape(s);
    if p != [] && !IsAbsolute(q) {
      var r := Join(p, s);
      assert r[..|p|] == p;
      if |q| > 0 && q[0] == CurDir {
        forall i | |p| <= i < |r| ensures r[i] != RootDir && r[i] != CurDir {
          assert r[i] == q[i - |p| + 1];
        }
      } else {
        forall i | |p| <= i < |r| ensures r[i] != RootDir && r[i] != CurDir {
          assert r[i] == q[i - |p|];
        }
      }
    }
  }

  /** `Path::starts_with`: `base` is a component-wise prefix of `p`. */
  predicate StartsWith(p: Path, base: Path) {
    |base| <= |p| && p[..|base|] == base
  }

  /** Starting with `base` is agreeing with it component by component. */
  lemma StartsWithComponentwise(p: Path, base: Path)
    ensures StartsWith(p, base) <==> |base| <= |p| && forall i :: 0 <= i < |base| ==> p[i] == base[i]
  {
    if |base| <= |p| && forall i :: 0 <= i < |base| ==> p[i] == base[i] {
      assert p[..|base|] == base;
    }
  }

  /** Every path starts with itself, and starting with is transitive. */
  lemma StartsWithOrder(p: Path, q: Path, r: Path)
    ensures StartsWith(p, p)
    ensures StartsWith(p, q) && StartsWith(q, r) ==> StartsWith(p, r)
  {
    if StartsWith(p, q) && StartsWith(q, r) {
      assert p[..|r|] == p[..|q|][..|r|];
    }
  }
}
