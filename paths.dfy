/**
 * How path strings resolve to filesystem locations. A location is the
 * sequence of its component names, outermost first; the root is [].
 * Resolution splits at '/' and drops empty components, which is how the
 * operating system reads leading, trailing and doubled separators.
 */
module Paths {

  type Path = seq<string>

  /** Length of the leading run of characters before the first '/'. */
  function SegmentLength(s: string): (n: nat)
    ensures n <= |s|
    ensures forall i :: 0 <= i < n ==> s[i] != '/'
    ensures n < |s| ==> s[n] == '/'
  {
    if s == [] || s[0] == '/' then 0 else 1 + SegmentLength(s[1..])
  }

  /** The components a path string resolves to. */
  function Components(s: string): (r: Path)
    ensures forall c :: c in r ==> c != "" && '/' !in c
    decreases |s|
  {
    if s == [] then []
    else if s[0] == '/' then Components(s[1..])
    else
      var n := SegmentLength(s);
      [s[..n]] + Components(s[n..])
  }

  /** The directory holding p (dirname); the root is its own parent. */
  function Parent(p: Path): (r: Path)
    ensures p != [] ==> r < p && |r| == |p| - 1
    ensures p == [] ==> r == []
  {
    if p == [] then [] else p[..|p| - 1]
  }

  /**
   * One component applied to a location, as the operating system walks a
   * path: "." stays put, ".." moves to the parent (the root's parent is the
   * root), any other name descends into it.
   */
  function Step(at: Path, c: string): Path {
    if c == "." then at else if c == ".." then Parent(at) else at + [c]
  }

  /** The location reached from `base` by walking the components of p in order. */
  function ResolveFrom(base: Path, p: Path): Path
    decreases |p|
  {
    if p == [] then base else ResolveFrom(Step(base, p[0]), p[1..])
  }

  /** A component sequence with no "." or ".." left in it. */
  predicate Plain(p: Path) {
    forall i :: 0 <= i < |p| ==> p[i] != "." && p[i] != ".."
  }

  /** The location a path string names, from the root. */
  function Location(s: string): Path {
    ResolveFrom([], Components(s))
  }

  /** Walking plain components only descends: the result is the base followed by them. */
  lemma {:induction false} ResolvePlain(base: Path, p: Path)
    requires Plain(p)
    ensures ResolveFrom(base, p) == base + p
    decreases |p|
  {
    if p != [] {
      assert Plain(p[1..]) by {
        forall i | 0 <= i < |p[1..]|
          ensures p[1..][i] != "." && p[1..][i] != ".."
        {
          assert p[1..][i] == p[i + 1];
        }
      }
      ResolvePlain(base + [p[0]], p[1..]);
      assert base + [p[0]] + p[1..] == base + p;
    }
  }

  /** Walking a + b is walking a, then b from where a ends. */
  lemma {:induction false} ResolveAppend(base: Path, a: Path, b: Path)
    ensures ResolveFrom(base, a + b) == ResolveFrom(ResolveFrom(base, a), b)
    decreases |a|
  {
    if a == [] {
      assert a + b == b;
    } else {
      assert (a + b)[0] == a[0] && (a + b)[1..] == a[1..] + b;
      ResolveAppend(Step(base, a[0]), a[1..], b);
    }
  }

  /** A walk from a plain base ends at a plain location. */
  lemma {:induction false} ResolveKeepsPlain(base: Path, p: Path)
    requires Plain(base)
    ensures Plain(ResolveFrom(base, p))
    decreases |p|
  {
    if p != [] {
      var next := Step(base, p[0]);
      assert Plain(next) by {
        if p[0] == ".." && base != [] {
          assert forall i :: 0 <= i < |next| ==> next[i] == base[i];
        }
      }
      ResolveKeepsPlain(next, p[1..]);
    }
  }

  /** Every location a path string names is plain: resolution leaves no "." or ".." in it. */
  lemma LocationIsPlain(s: string)
    ensures Plain(Location(s))
  {
    ResolveKeepsPlain([], Components(s));
  }

  /**
   * File.join(destination, name) ends in '/': the name is empty (the join
   * then ends in the separator it adds) or ends in '/' itself. Such a
   * path names a directory only, so it cannot be opened as a file.
   */
  predicate TrailingSeparator(name: string) {
    name == [] || name[|name| - 1] == '/'
  }

  /**
   * File.join(destination, name) names the location reached by walking the
   * name's components from the location the destination names.
   */
  lemma JoinedLocation(destination: string, name: string)
    ensures Location(destination + "/" + name) == ResolveFrom(Location(destination), Components(name))
  {
    ComponentsJoin(destination, name);
    ResolveAppend([], Components(destination), Components(name));
  }

  /** Appending text after a separator does not change the first segment. */
  lemma {:induction false} SegmentLengthExtend(a: string, t: string)
    requires t != [] && t[0] == '/'
    ensures SegmentLength(a + t) == SegmentLength(a)
    decreases |a|
  {
    if a == [] {
    } else if a[0] == '/' {
    } else {
      assert (a + t)[1..] == a[1..] + t;
      SegmentLengthExtend(a[1..], t);
    }
  }

  /**
   * Joining two path strings with a separator (File.join) resolves to the
   * concatenation of their components.
   */
  lemma {:induction false} ComponentsJoin(a: string, b: string)
    ensures Components(a + "/" + b) == Components(a) + Components(b)
    decreases |a|
  {
    var s := a + "/" + b;
    if a == [] {
      assert s == "/" + b;
      assert s[1..] == b;
    } else if a[0] == '/' {
      assert s[1..] == a[1..] + "/" + b;
      ComponentsJoin(a[1..], b);
    } else {
      var n := SegmentLength(a);
      assert s == a + ("/" + b);
      SegmentLengthExtend(a, "/" + b);
      assert SegmentLength(s) == n;
      assert s[..n] == a[..n];
      assert s[n..] == a[n..] + "/" + b;
      ComponentsJoin(a[n..], b);
    }
  }
}
