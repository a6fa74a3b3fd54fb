/** `pathinfo(path)` of src/pathinfo.js: a relative file path split into its
    segments, its base name and extension, and a slug per segment. */
module Paths {
  import opened Strings
  import opened Helpers
  import opened Records

  /** The path separators: `split(/[/\\]/)` breaks at either slash. */
  const Separators: set<char> := {'/', '\\'}

  /** Why `pathinfo` throws. A path that is not a string cannot be written
      here: the argument is a string by its type. */
  datatype PathError = EmptySegment | RelativeSegment

  /** The text of the thrown error. */
  function ErrorMessage(e: PathError, path: string): string
  {
    match e
    case EmptySegment =>
      "pathinfo(): File path segments cannot be empty (received \"" + path + "\")"
    case RelativeSegment =>
      "pathinfo(): Cannot use relative paths \".\" or \"..\" (received \"" + path + "\")"
  }

  /** Some segment is `.` or `..`. */
  predicate HasRelativeSegment(segs: seq<string>)
  {
    "." in segs || ".." in segs
  }

  /** The position of the last `c` in `s`, or -1. */
  function LastIndex(s: string, c: char): (k: int)
    ensures -1 <= k < |s|
    ensures k >= 0 ==> s[k] == c && FreeOf(s[k + 1..], {c})
    ensures k == -1 ==> FreeOf(s, {c})
    decreases |s|
  {
    if s == [] then -1
    else if s[|s| - 1] == c then |s| - 1
    else
      var k := LastIndex(s[..|s| - 1], c);
      assert k >= 0 ==> s[k + 1..] == s[..|s| - 1][k + 1..] + [s[|s| - 1]];
      k
  }

  /** `segs.map(slugify)`. */
  function SlugifyAll(segs: seq<string>): seq<string>
  {
    seq(|segs|, i requires 0 <= i < |segs| => Slugify(segs[i]))
  }

  /** All characters of `s` are slug characters. */
  predicate SlugChars(s: string)
  {
    forall i :: 0 <= i < |s| ==> IsSlugChar(s[i])
  }

  /** A slug path: slug characters and `/`, and so never a `$`. */
  predicate IsSlugPath(s: string)
  {
    forall i :: 0 <= i < |s| ==> IsSlugChar(s[i]) || s[i] == '/'
  }

  /** The slugs of a record `pathinfo` returns are made of slug characters. */
  lemma PathSlugChars(path: string)
    requires PathInfoOf(path).Ok?
    ensures forall i :: 0 <= i < |PathInfoOf(path).value.slugs| ==> SlugChars(PathInfoOf(path).value.slugs[i])
  {
    var p := PathInfoOf(path).value;
    if path != [] {
      forall i | 0 <= i < |p.slugs| ensures SlugChars(p.slugs[i]) {
        SlugifyAlphabet((p.dirs + [p.name])[i]);
      }
    }
  }

  /** Slugs joined with `/` form a slug path, which holds no `$`. */
  lemma {:induction false} JoinSlugPath(slugs: seq<string>)
    requires forall i :: 0 <= i < |slugs| ==> SlugChars(slugs[i])
    ensures IsSlugPath(Join(slugs, '/')) && '$' !in Join(slugs, '/')
    decreases |slugs|
  {
    var s := Join(slugs, '/');
    if |slugs| > 1 {
      var rest := Join(slugs[1..], '/');
      JoinSlugPath(slugs[1..]);
      assert SlugChars(slugs[0]);
      assert s == slugs[0] + ['/'] + rest;
      forall i | 0 <= i < |s| ensures IsSlugChar(s[i]) || s[i] == '/' {
        if i > |slugs[0]| {
          assert s[i] == rest[i - |slugs[0]| - 1];
        }
      }
    } else if |slugs| == 1 {
      assert SlugChars(slugs[0]);
    }
    FreeOfChar(s, '$');
  }

  /** What the record of a valid non-empty path satisfies: the directory
      segments followed by the base are the path's segments, unslugified;
      there is one slug per segment, the base's name standing in for the
      base; `dir` and `slug` join them with `/`; and the extension is what
      follows the base's last dot, `name` what precedes it. */
  predicate WellShaped(path: string, p: PathInfo)
  {
    && p.dirs + [p.base] == Split(path, Separators)
    && p.depth == |p.slugs| == |p.dirs| + 1
    && (forall i :: 0 <= i < |p.slugs| ==> p.slugs[i] == Slugify((p.dirs + [p.name])[i]))
    && p.slug == Join(p.slugs, '/')
    && p.dir == Join(p.dirs, '/')
    && '.' !in p.extension
    && (if '.' in p.base then p.name + "." + p.extension == p.base
        else p.extension == "" && p.name == p.base)
  }

  /** `pathinfo(path)`, stated through the base's last dot. The empty path
      has the all-empty record; a path with an empty segment, from a
      leading, trailing or doubled separator, fails first; then one with a
      `.` or `..` segment. */
  function PathInfoOf(path: string): (r: Result<PathInfo, PathError>)
    ensures path == [] ==> r == Ok(EmptyInfo)
    ensures r == Err(EmptySegment) <==> path != [] && EmptySegmentAt(path, Separators)
    ensures r == Err(RelativeSegment) <==>
      path != [] && !EmptySegmentAt(path, Separators) && HasRelativeSegment(Split(path, Separators))
    ensures r.Ok? && path != [] ==> WellShaped(path, r.value)
  {
    SplitEmptyPart(path, Separators);
    if path == [] then Ok(EmptyInfo)
    else
      var segs := Split(path, Separators);
      if [] in segs then Err(EmptySegment)
      else if HasRelativeSegment(segs) then Err(RelativeSegment)
      else Ok(InfoOfSegments(segs))
  }

  /** The record of a path with these segments. */
  function InfoOfSegments(segs: seq<string>): (p: PathInfo)
    requires |segs| >= 1
    ensures p.dirs + [p.base] == segs
    ensures p.depth == |p.slugs| == |p.dirs| + 1
    ensures forall i :: 0 <= i < |p.slugs| ==> p.slugs[i] == Slugify((p.dirs + [p.name])[i])
    ensures p.slug == Join(p.slugs, '/') && p.dir == Join(p.dirs, '/')
    ensures '.' !in p.extension
    ensures if '.' in p.base then p.name + "." + p.extension == p.base
            else p.extension == "" && p.name == p.base
  {
    var base := segs[|segs| - 1];
    var dirs := segs[..|segs| - 1];
    var k := LastIndex(base, '.');
    var name := if k < 0 then base else base[..k];
    var extension := if k < 0 then "" else base[k + 1..];
    var slugs := SlugifyAll(dirs + [name]);
    assert dirs + [base] == segs;
    assert k >= 0 ==> base[..k] + "." + base[k + 1..] == base;
    FreeOfChar(base, '.');
    FreeOfChar(extension, '.');
    PathInfo(base, name, extension, Join(dirs, '/'), dirs, Join(slugs, '/'), slugs, |slugs|)
  }

  /** `pathinfo(path)` as src/pathinfo.js:13-63 computes it: pop the base off
      the segments, split it at dots, pop the extension if there was a dot,
      join the rest back as the name and push the name in the base's place. */
  method Parse(path: string) returns (r: Result<PathInfo, PathError>)
    ensures r == PathInfoOf(path)
  {
    if path == "" {
      return Ok(EmptyInfo);
    }
    var segs := Split(path, Separators);
    if [] in segs {
      return Err(EmptySegment);
    }
    if "." in segs || ".." in segs {
      return Err(RelativeSegment);
    }
    ghost var all := segs;
    var base := segs[|segs| - 1];
    segs := segs[..|segs| - 1];
    var bits := Split(base, {'.'});
    BaseBits(base);
    ghost var k := LastIndex(base, '.');
    var extension := "";
    if |bits| > 1 {
      extension := bits[|bits| - 1];
      bits := bits[..|bits| - 1];
    }
    var name := Join(bits, '.');
    segs := segs + [name];
    var slugs := SlugifyAll(segs);
    var dirs := segs[..|segs| - 1];
    assert dirs == all[..|all| - 1];
    assert name == if k < 0 then base else base[..k];
    assert extension == if k < 0 then "" else base[k + 1..];
    r := Ok(PathInfo(base, name, extension, Join(dirs, '/'), dirs, Join(slugs, '/'), slugs, |slugs|));
    assert r == Ok(InfoOfSegments(all));
  }

  /** Splitting the base at dots and popping the last bit is splitting it at
      its last dot; without a dot there is a single bit, the base itself. */
  lemma BaseBits(base: string)
    ensures var bits, k := Split(base, {'.'}), LastIndex(base, '.');
      && (k < 0 <==> |bits| <= 1)
      && (k < 0 ==> Join(bits, '.') == base)
      && (k >= 0 ==> bits[|bits| - 1] == base[k + 1..] && Join(bits[..|bits| - 1], '.') == base[..k])
  {
    var k := LastIndex(base, '.');
    if k < 0 {
      SplitSingleton(base, {'.'});
    } else {
      BaseBitsAt(base, k);
    }
  }

  lemma BaseBitsAt(base: string, k: int)
    requires 0 <= k < |base| && base[k] == '.' && FreeOf(base[k + 1..], {'.'})
    ensures var bits := Split(base, {'.'});
      && |bits| > 1
      && bits[|bits| - 1] == base[k + 1..] && Join(bits[..|bits| - 1], '.') == base[..k]
  {
    var a, b := base[..k], base[k + 1..];
    assert base == a + ['.'] + b;
    SplitAround(a, '.', b, {'.'});
    SplitSingleton(b, {'.'});
    var bits := Split(base, {'.'});
    assert bits == Split(a, {'.'}) + [b];
    assert bits[..|bits| - 1] == Split(a, {'.'});
    JoinSplit(a, '.');
  }

  // ---------------------------------------------------------------------
  // The cases of test/pathinfo.test.js

  /** `pathinfo("a")`: a single clean segment is its own base, name and
      slug, with no extension and no directories. */
  lemma SingleSegment(a: string)
    requires IsCleanSlug(a) && a != []
    ensures PathInfoOf(a) == Ok(PathInfo(a, a, "", "", [], a, [a], 1))
  {
    CleanSegment(a);
    SplitEmptyPart(a, Separators);
    CleanSegments([a]);
  }

  /** `pathinfo("a/b/c")`: three clean segments. */
  lemma ThreeSegments(a: string, b: string, c: string)
    requires IsCleanSlug(a) && a != [] && IsCleanSlug(b) && b != [] && IsCleanSlug(c) && c != []
    ensures PathInfoOf(a + "/" + b + "/" + c) ==
      Ok(PathInfo(c, c, "", a + "/" + b, [a, b], a + "/" + b + "/" + c, [a, b, c], 3))
  {
    var p := a + "/" + b + "/" + c;
    ThreeSplit(a, b, c);
    SplitEmptyPart(p, Separators);
    CleanSegments([a, b, c]);
    assert [a, b, c][..2] == [a, b];
    JoinSmall(a, b, c, '/');
  }

  lemma ThreeSplit(a: string, b: string, c: string)
    requires IsCleanSlug(a) && a != [] && IsCleanSlug(b) && b != [] && IsCleanSlug(c) && c != []
    ensures Split(a + "/" + b + "/" + c, Separators) == [a, b, c]
    ensures a != "." && a != ".." && b != "." && b != ".." && c != "." && c != ".."
    ensures a != [] && b != [] && c != []
  {
    CleanSegment(a);
    CleanSegment(b);
    CleanSegment(c);
    SplitAround(a, '/', b + "/" + c, Separators);
    SplitAround(b, '/', c, Separators);
    assert a + "/" + b + "/" + c == a + ['/'] + (b + ['/'] + c);
  }

  /** Clean non-empty segments are their own slugs: the record keeps them as
      they are, with no extension. */
  lemma CleanSegments(segs: seq<string>)
    requires |segs| >= 1 && forall i :: 0 <= i < |segs| ==> IsCleanSlug(segs[i]) && segs[i] != []
    ensures var last := segs[|segs| - 1]; var dirs := segs[..|segs| - 1];
      InfoOfSegments(segs) == PathInfo(last, last, "", Join(dirs, '/'), dirs, Join(segs, '/'), segs, |segs|)
  {
    var p := InfoOfSegments(segs);
    CleanSegment(segs[|segs| - 1]);
    forall i | 0 <= i < |segs| ensures Slugify(segs[i]) == segs[i] {
      SlugifyClean(segs[i]);
    }
    assert p.dirs + [p.name] == segs;
    assert p.slugs == segs;
  }

  /** A clean non-empty segment has no separator and no dot, and is neither
      `.` nor `..`. */
  lemma CleanSegment(a: string)
    requires IsCleanSlug(a) && a != []
    ensures Split(a, Separators) == [a] && LastIndex(a, '.') == -1
    ensures a != "." && a != ".."
  {
    assert IsSlugChar(a[0]);
    assert FreeOf(a, Separators) by {
      forall i | 0 <= i < |a| ensures a[i] !in Separators {
        assert IsSlugChar(a[i]);
      }
    }
    SplitSingleton(a, Separators);
    assert FreeOf(a, {'.'}) by {
      forall i | 0 <= i < |a| ensures a[i] != '.' {
        assert IsSlugChar(a[i]);
      }
    }
    FreeOfChar(a, '.');
  }

  /** `pathinfo("a/b//c/d")` throws: the doubled slash makes an empty segment. */
  lemma EmptySegmentExample(p: string)
    requires p == "a/b//c/d"
    ensures PathInfoOf(p) == Err(EmptySegment)
  {
    assert p[3] == '/' && p[4] == '/';
    assert SeparatorBeforeEmpty(p, Separators);
  }

  /** `pathinfo("a/./a")` and `pathinfo("a/../a")` throw. */
  lemma RelativeSegmentExamples(a: string, d: string, dd: string)
    requires a == "a" && d == "." && dd == ".."
    ensures PathInfoOf(a + "/" + d + "/" + a) == Err(RelativeSegment)
    ensures PathInfoOf(a + "/" + dd + "/" + a) == Err(RelativeSegment)
  {
    SplitSingleton(a, Separators);
    SplitSingleton(d, Separators);
    SplitSingleton(dd, Separators);
    SplitAround(a, '/', d + "/" + a, Separators);
    SplitAround(d, '/', a, Separators);
    assert a + "/" + d + "/" + a == a + ['/'] + (d + ['/'] + a);
    SplitEmptyPart(a + "/" + d + "/" + a, Separators);
    SplitAround(a, '/', dd + "/" + a, Separators);
    SplitAround(dd, '/', a, Separators);
    assert a + "/" + dd + "/" + a == a + ['/'] + (dd + ['/'] + a);
    SplitEmptyPart(a + "/" + dd + "/" + a, Separators);
  }
}
