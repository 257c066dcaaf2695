/**
 * Filesystem paths as sequences of name segments, with the segment-wise
 * `startsWith`/`endsWith` tests, `relativize`, `toString` and the ordering
 * `compareTo` of a Unix `java.nio.file.Path`.
 */
module Paths {

  /** The segments of a path; absolute or relative is known from context. */
  type Path = seq<string>

  /** `p.startsWith(prefix)`: the first segments of `p` are those of `prefix`. */
  predicate StartsWith(p: Path, prefix: Path) {
    |prefix| <= |p| && p[..|prefix|] == prefix
  }

  /** `p.endsWith(suffix)` for a relative `suffix`: the last segments of `p` are those of `suffix`. */
  predicate EndsWith(p: Path, suffix: Path) {
    |suffix| <= |p| && p[|p| - |suffix|..] == suffix
  }

  /** `toString` of a relative path: the segments separated by '/'. */
  function Join(segments: Path): (s: string)
    ensures segments == [] ==> s == ""
  {
    if segments == [] then ""
    else if |segments| == 1 then segments[0]
    else Join(segments[..|segments| - 1]) + "/" + segments[|segments| - 1]
  }

  /** `toString` of an absolute path. */
  function Render(p: Path): string {
    "/" + Join(p)
  }

  /** Number of leading segments `a` and `b` have in common. */
  function CommonPrefixLength(a: Path, b: Path): (n: nat)
    ensures n <= |a| && n <= |b|
    ensures a[..n] == b[..n]
    ensures n < |a| && n < |b| ==> a[n] != b[n]
  {
    if a == [] || b == [] || a[0] != b[0] then 0
    else
      var n := CommonPrefixLength(a[1..], b[1..]);
      assert a[1..][..n] == b[1..][..n];
      assert a[..n + 1] == [a[0]] + a[1..][..n];
      assert b[..n + 1] == [b[0]] + b[1..][..n];
      1 + n
  }

  /** A segment `normalize` removes: "." or "..". */
  predicate IsDot(s: string) {
    s == "." || s == ".."
  }

  /** The path holds a "." or ".." segment. */
  predicate HasDots(p: Path) {
    exists i :: 0 <= i < |p| && IsDot(p[i])
  }

  /** A concatenation holds a "." or ".." segment exactly when one of its parts does. */
  lemma HasDotsAppend(a: Path, b: Path)
    ensures HasDots(a + b) <==> HasDots(a) || HasDots(b)
  {
    if HasDots(a + b) {
      var i :| 0 <= i < |a + b| && IsDot((a + b)[i]);
      if i >= |a| {
        assert IsDot(b[i - |a|]);
      }
    }
    if HasDots(a) {
      var i :| 0 <= i < |a| && IsDot(a[i]);
      assert (a + b)[i] == a[i];
    }
    if HasDots(b) {
      var i :| 0 <= i < |b| && IsDot(b[i]);
      assert (a + b)[|a| + i] == b[i];
    }
  }

  /** One segment of `normalize` of an absolute path, onto what is already
      normalised: "." is dropped, ".." drops the previous segment (and at the
      root nothing), any other segment is kept. */
  function NormalizeStep(q: Path, s: string): Path {
    if s == "." then q
    else if s == ".." then (if q == [] then [] else q[..|q| - 1])
    else q + [s]
  }

  /** The segments of `rest` normalised onto the normalised path `q`. */
  function NormalizeOnto(q: Path, rest: Path): (r: Path)
    decreases |rest|
    ensures !HasDots(q) ==> !HasDots(r)
    ensures !HasDots(rest) ==> r == q + rest
  {
    if rest == [] then q
    else
      var init := NormalizeOnto(q, rest[..|rest| - 1]);
      var last := rest[|rest| - 1];
      assert rest == rest[..|rest| - 1] + [last];
      HasDotsAppend(rest[..|rest| - 1], [last]);
      NormalizeStepKeepsClean(init, last);
      NormalizeStep(init, last)
  }

  /** A step leaves a path without "." or ".." without them, and appends a segment that is neither. */
  lemma NormalizeStepKeepsClean(q: Path, s: string)
    ensures !HasDots(q) ==> !HasDots(NormalizeStep(q, s))
    ensures !IsDot(s) ==> NormalizeStep(q, s) == q + [s]
  {
    if !HasDots(q) && !IsDot(s) {
      HasDotsAppend(q, [s]);
    }
    if !HasDots(q) && s == ".." && q != [] {
      assert q == q[..|q| - 1] + [q[|q| - 1]];
      HasDotsAppend(q[..|q| - 1], [q[|q| - 1]]);
    }
  }

  /** Normalising one more segment is one more step. */
  lemma NormalizeOntoSnoc(q: Path, xs: Path, s: string)
    ensures NormalizeOnto(q, xs + [s]) == NormalizeStep(NormalizeOnto(q, xs), s)
  {
    assert (xs + [s])[..|xs|] == xs;
  }

  /** ".." after a segment drops that segment. */
  lemma StepBack(q: Path, s: string)
    ensures NormalizeStep(q + [s], "..") == q
  {
    assert (q + [s])[..|q|] == q;
  }

  /** Normalising `xs + ys` normalises `xs`, then `ys` onto the result. */
  lemma {:induction false} NormalizeOntoAppend(q: Path, xs: Path, ys: Path)
    decreases |ys|
    ensures NormalizeOnto(q, xs + ys) == NormalizeOnto(NormalizeOnto(q, xs), ys)
  {
    if ys == [] {
      assert xs + ys == xs;
    } else {
      var zs := xs + ys;
      assert zs[..|zs| - 1] == xs + ys[..|ys| - 1];
      assert zs[|zs| - 1] == ys[|ys| - 1];
      NormalizeOntoAppend(q, xs, ys[..|ys| - 1]);
    }
  }

  /** Segments without "." or ".." normalise onto a normal form unchanged. */
  lemma NormalizeOntoClean(q: Path, xs: Path, ys: Path, normal: Path)
    requires !HasDots(ys) && !HasDots(normal)
    requires NormalizeOnto(q, xs) == q + normal
    ensures NormalizeOnto(q, xs + ys) == q + (normal + ys)
    ensures !HasDots(normal + ys)
  {
    NormalizeOntoAppend(q, xs, ys);
    HasDotsAppend(normal, ys);
  }

  /** `normalize` of an absolute path: no "." or ".." is left, and a path
      without them is its own normal form. */
  function Normalize(p: Path): (r: Path)
    ensures !HasDots(r)
    ensures !HasDots(p) ==> r == p
  {
    assert !HasDots([]);
    NormalizeOnto([], p)
  }

  /** `base.relativize(p)` for two paths without "." or ".." segments: one ".."
      per segment of `base` past the common prefix, then the rest of `p`. */
  function RelativizeNormal(base: Path, p: Path): Path {
    var n := CommonPrefixLength(base, p);
    seq(|base| - n, _ => "..") + p[n..]
  }

  /** `base.relativize(p)` for two absolute paths: both are normalised first
      when either holds a "." or ".." segment. */
  function Relativize(base: Path, p: Path): Path {
    if HasDots(base) || HasDots(p) then RelativizeNormal(Normalize(base), Normalize(p))
    else RelativizeNormal(base, p)
  }

  /** Relativizing a path against one of its prefixes drops that prefix. */
  lemma RelativizeNormalBelow(base: Path, rest: Path)
    ensures RelativizeNormal(base, base + rest) == rest
  {
    var p := base + rest;
    var n := CommonPrefixLength(base, p);
    assert n == |base|;
    assert p[n..] == rest;
  }

  /** Relativizing `base + rest` against `base` gives the normal form of `rest`
      below `base`: `rest` itself when it holds no "." or "..". */
  lemma RelativizeBelow(base: Path, rest: Path, normal: Path)
    requires NormalizeOnto(Normalize(base), rest) == Normalize(base) + normal
    requires !HasDots(normal)
    ensures Relativize(base, base + rest) == normal
  {
    NormalizeOntoAppend([], base, rest);
    HasDotsAppend(base, rest);
    if HasDots(base) || HasDots(base + rest) {
      RelativizeNormalBelow(Normalize(base), normal);
    } else {
      assert (base + rest)[|base|..] == rest && (base + normal)[|base|..] == normal;
      RelativizeNormalBelow(base, rest);
    }
  }

  /** `p.relativize(p.resolve(q))` is `q` for a `q` without "." or "..". */
  lemma RelativizeResolved(base: Path, rest: Path)
    requires !HasDots(rest)
    ensures Relativize(base, base + rest) == rest
  {
    RelativizeBelow(base, rest, rest);
  }

  /** `Path.compareTo` on Unix: the paths' characters compared in order, the
      first difference deciding, a proper prefix coming first. Only the sign
      of the result is meaningful. */
  function CompareStrings(a: string, b: string): (c: int)
    ensures -1 <= c <= 1
    ensures c == 0 <==> a == b
  {
    if a == [] && b == [] then 0
    else if a == [] then -1
    else if b == [] then 1
    else if a[0] < b[0] then -1
    else if a[0] > b[0] then 1
    else
      var c := CompareStrings(a[1..], b[1..]);
      assert c == 0 ==> a == [a[0]] + a[1..] && b == [b[0]] + b[1..];
      c
  }

  /** Swapping the operands of the comparison flips its sign. */
  lemma {:induction false} CompareAntisymmetric(a: string, b: string)
    ensures CompareStrings(b, a) == -CompareStrings(a, b)
  {
    if a != [] && b != [] && a[0] == b[0] {
      CompareAntisymmetric(a[1..], b[1..]);
    }
  }

  /** "Comes before" is transitive. */
  lemma {:induction false} CompareTransitive(a: string, b: string, c: string)
    requires CompareStrings(a, b) < 0 && CompareStrings(b, c) < 0
    ensures CompareStrings(a, c) < 0
  {
    if a != [] && b != [] && c != [] && a[0] == b[0] && b[0] == c[0] {
      CompareTransitive(a[1..], b[1..], c[1..]);
    }
  }

  /** The order `Path.compareTo` puts absolute paths in. */
  function ComparePaths(p: Path, q: Path): (c: int)
    ensures -1 <= c <= 1
    ensures c == 0 <==> Render(p) == Render(q)
  {
    CompareStrings(Render(p), Render(q))
  }
}
