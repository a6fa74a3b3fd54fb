/** `indexify(info)` of src/indexify.js and its copy in src/helpers.js: a
    path-info record rewritten in place so that it stands for its containing
    directory, as if the trailing `index.md` had been stripped from the path. */
module Indexing {
  import opened Strings
  import opened Records
  import opened Paths

  /** The record `indexify` leaves behind. The last directory becomes the
      base and the name (the empty string when there is none) and leaves
      `dirs`; the extension is dropped; the last slug is popped (popping an
      empty list changes nothing); `dir` and `slug` are joined again from
      what remains; the depth goes down by one. */
  function Indexified(p: PathInfo): PathInfo
  {
    var base := if |p.dirs| > 0 then p.dirs[|p.dirs| - 1] else "";
    var dirs := if |p.dirs| > 0 then p.dirs[..|p.dirs| - 1] else p.dirs;
    var slugs := if |p.slugs| > 0 then p.slugs[..|p.slugs| - 1] else p.slugs;
    PathInfo(base, base, "", Join(dirs, '/'), dirs, Join(slugs, '/'), slugs, p.depth - 1)
  }

  /** What `indexify` does to a record, field by field. */
  lemma IndexifiedShape(p: PathInfo)
    ensures var r := Indexified(p);
      && r.extension == "" && r.depth == p.depth - 1
      && (|p.dirs| > 0 ==> r.name == r.base == p.dirs[|p.dirs| - 1] && r.dirs + [r.base] == p.dirs)
      && (|p.dirs| == 0 ==> r.name == r.base == "" && r.dirs == [])
      && (|p.slugs| > 0 ==> r.slugs + [p.slugs[|p.slugs| - 1]] == p.slugs)
      && (|p.slugs| == 0 ==> r.slugs == [])
      && r.dir == Join(r.dirs, '/') && r.slug == Join(r.slugs, '/')
      && (p.depth == |p.slugs| && p.depth >= 1 ==> r.depth == |r.slugs|)
  {
    var r := Indexified(p);
    assert |p.dirs| > 0 ==> r.dirs + [r.base] == p.dirs;
    assert |p.slugs| > 0 ==> r.slugs + [p.slugs[|p.slugs| - 1]] == p.slugs;
  }

  /** src/indexify.js: `info.base = info.name = ...` pops the last directory
      (when there is one), then the remaining properties are rewritten one by
      one. The same object is returned. */
  method Indexify(info: InfoRecord) returns (r: InfoRecord)
    modifies info
    ensures r == info
    ensures info.Value() == Indexified(old(info.Value()))
  {
    ghost var p := info.Value();
    var last := "";
    if |info.dirs| > 0 {
      last := info.dirs[|info.dirs| - 1];
      info.dirs := info.dirs[..|info.dirs| - 1];
    }
    info.name := last;
    info.base := last;
    info.dir := Join(info.dirs, '/');
    info.extension := "";
    if |info.slugs| > 0 {
      info.slugs := info.slugs[..|info.slugs| - 1];
    }
    info.slug := Join(info.slugs, '/');
    info.depth := info.depth - 1;
    r := info;
    assert info.Value() == Indexified(p);
  }

  /** The copy in src/helpers.js, which sets `name` first and then copies it
      into `base`. Its contract is the one of `Indexify`: both copies leave
      every record in the same state. */
  method HelpersIndexify(info: InfoRecord) returns (r: InfoRecord)
    modifies info
    ensures r == info
    ensures info.Value() == Indexified(old(info.Value()))
  {
    ghost var p := info.Value();
    if |info.dirs| > 0 {
      info.name := info.dirs[|info.dirs| - 1];
      info.dirs := info.dirs[..|info.dirs| - 1];
    } else {
      info.name := "";
    }
    info.base := info.name;
    info.dir := Join(info.dirs, '/');
    info.extension := "";
    if |info.slugs| > 0 {
      info.slugs := info.slugs[..|info.slugs| - 1];
    }
    info.slug := Join(info.slugs, '/');
    info.depth := info.depth - 1;
    r := info;
    assert info.Value() == Indexified(p);
  }

  // ---------------------------------------------------------------------
  // Indexify as stripping the index file from the path

  /** Appending a file segment to a valid path splits into one more segment. */
  lemma SplitAppend(d: string, f: string)
    requires FreeOf(f, Separators)
    ensures Split(d + "/" + f, Separators) == Split(d, Separators) + [f]
  {
    assert d + "/" + f == d + ['/'] + f;
    SplitAround(d, '/', f, Separators);
    SplitSingleton(f, Separators);
  }

  /** A file name that is a valid path segment on its own. */
  predicate IsFileSegment(f: string)
  {
    f != [] && FreeOf(f, Separators) && f != "." && f != ".."
  }

  /** The record of `d/f` indexified is the record of `d` itself, when the
      last segment of `d` has no dot (with a dot, `pathinfo(d)` would split an
      extension off that directory name while `indexify` keeps it whole). */
  lemma IndexifyStripsFile(d: string, f: string)
    requires d != [] && PathInfoOf(d).Ok? && '.' !in PathInfoOf(d).value.base
    requires IsFileSegment(f)
    ensures PathInfoOf(d + "/" + f).Ok?
    ensures Indexified(PathInfoOf(d + "/" + f).value) == PathInfoOf(d).value
  {
    var segs := Split(d, Separators);
    AppendSegment(d, f);
    IndexifiedSegments(segs, f);
  }

  /** A valid path with one more valid segment is valid, with that segment
      as its base. */
  lemma AppendSegment(d: string, f: string)
    requires d != [] && PathInfoOf(d).Ok? && IsFileSegment(f)
    ensures var segs := Split(d, Separators);
      && PathInfoOf(d) == Ok(InfoOfSegments(segs))
      && PathInfoOf(d + "/" + f) == Ok(InfoOfSegments(segs + [f]))
  {
    var segs := Split(d, Separators);
    SplitAppend(d, f);
    SplitEmptyPart(d, Separators);
    SplitEmptyPart(d + "/" + f, Separators);
    assert [] !in segs + [f];
    assert !HasRelativeSegment(segs + [f]);
  }

  /** On segments, indexify drops the last one, provided the one before it
      has no dot to split an extension at. */
  lemma IndexifiedSegments(segs: seq<string>, f: string)
    requires |segs| >= 1 && '.' !in segs[|segs| - 1]
    ensures Indexified(InfoOfSegments(segs + [f])) == InfoOfSegments(segs)
  {
    var q := InfoOfSegments(segs + [f]);
    var p := InfoOfSegments(segs);
    var r := Indexified(q);
    assert q.dirs == segs;
    assert p.name == p.base && p.extension == "";
    assert p.dirs + [p.name] == segs;
    assert r.base == p.base && r.dirs == p.dirs;
    assert |r.slugs| == |segs| == |p.slugs|;
    forall i | 0 <= i < |segs| ensures r.slugs[i] == p.slugs[i] {
      assert (q.dirs + [q.name])[i] == segs[i];
      assert (p.dirs + [p.name])[i] == segs[i];
    }
    SameStrings(r.slugs, p.slugs);
  }

  lemma SameStrings(a: seq<string>, b: seq<string>)
    requires |a| == |b| && forall i :: 0 <= i < |a| ==> a[i] == b[i]
    ensures a == b
  {
  }

  /** The record of a root file indexified is the record of the empty path. */
  lemma IndexifyRootFile(f: string)
    requires IsFileSegment(f)
    ensures PathInfoOf(f).Ok?
    ensures Indexified(PathInfoOf(f).value) == EmptyInfo
    ensures PathInfoOf("") == Ok(EmptyInfo)
  {
    SplitSingleton(f, Separators);
    SplitEmptyPart(f, Separators);
  }

  // ---------------------------------------------------------------------
  // The cases of test/indexify.test.js and test/helpers.test.js

  /** An indexed root file collapses to the all-empty record. */
  lemma IndexifyRootExample()
    ensures Indexified(PathInfo("index.html", "index", "html", "", [], "index", ["index"], 1))
      == EmptyInfo
  {
  }

  /** `a/b/index.md` collapses to the record of `a/b`. */
  lemma IndexifyDeepExample(a: string, b: string)
    requires a == "a" && b == "b"
    ensures Indexified(PathInfo("index.md", "index", "md", a + "/" + b, [a, b], a + "/" + b + "/index", [a, b, "index"], 3))
      == PathInfo(b, b, "", a, [a], a + "/" + b, [a, b], 2)
  {
    assert [a, b][..1] == [a];
    assert [a, b, "index"][..2] == [a, b];
    JoinSmall(a, b, "", '/');
  }
}
