/** Sequence and string utilities with the semantics of the JavaScript string
    methods the plugin calls: `split` on a set of separator characters,
    `join` with a one-character separator, `indexOf` and `replace` with a
    string pattern (first occurrence only). */
module Strings {

  /** `s.split(re)` where `re` matches exactly one character of `seps`.
      Like JavaScript, the empty string splits into one empty part. */
  function Split(s: string, seps: set<char>): (parts: seq<string>)
    ensures |parts| >= 1
    ensures s == [] ==> parts == [[]]
    decreases |s|
  {
    if s == [] then [[]]
    else
      var rest := Split(s[1..], seps);
      if s[0] in seps then [[]] + rest
      else [[s[0]] + rest[0]] + rest[1..]
  }

  /** `parts.join(sep)`. */
  function Join(parts: seq<string>, sep: char): string
  {
    if |parts| == 0 then []
    else if |parts| == 1 then parts[0]
    else parts[0] + [sep] + Join(parts[1..], sep)
  }

  /** No character of `s` belongs to `seps`. */
  predicate FreeOf(s: string, seps: set<char>)
  {
    forall i :: 0 <= i < |s| ==> s[i] !in seps
  }

  /** Being free of one separator is not containing it. */
  lemma FreeOfChar(s: string, c: char)
    ensures FreeOf(s, {c}) <==> c !in s
  {
    if c in s {
      var j :| 0 <= j < |s| && s[j] == c;
    }
  }

  /** `pat` occurs in `s` at position `j`. */
  predicate MatchAt(s: string, pat: string, j: int)
  {
    0 <= j && j + |pat| <= |s| && s[j..j + |pat|] == pat
  }

  /** `s.indexOf(pat)`: the first position where `pat` occurs, or -1. */
  function IndexOf(s: string, pat: string): (k: int)
    ensures k == -1 || MatchAt(s, pat, k)
    ensures k >= 0 ==> forall j :: 0 <= j < k ==> !MatchAt(s, pat, j)
    ensures k == -1 ==> forall j :: !MatchAt(s, pat, j)
  {
    IndexFrom(s, pat, 0)
  }

  function IndexFrom(s: string, pat: string, from: nat): (k: int)
    ensures k == -1 || (from <= k && MatchAt(s, pat, k))
    ensures k >= 0 ==> forall j :: from <= j < k ==> !MatchAt(s, pat, j)
    ensures k == -1 ==> forall j :: from <= j ==> !MatchAt(s, pat, j)
    decreases |s| + 1 - from
  {
    if from + |pat| > |s| then -1
    else if s[from..from + |pat|] == pat then from
    else IndexFrom(s, pat, from + 1)
  }

  /** `s.indexOf(pat) === 0` is the prefix test. */
  lemma IndexOfZero(s: string, pat: string)
    ensures IndexOf(s, pat) == 0 <==> pat <= s
  {
    if pat <= s {
      assert MatchAt(s, pat, 0);
    }
  }

  /** `s.replace(pat, rep)` with a string pattern: only the first occurrence
      of `pat` is replaced; without one, `s` is returned unchanged. */
  function ReplaceFirst(s: string, pat: string, rep: string): string
  {
    var k := IndexOf(s, pat);
    if k < 0 then s else s[..k] + rep + s[k + |pat|..]
  }

  // ---------------------------------------------------------------------
  // Lemmas about Split and Join

  /** No part of a split holds a separator. */
  lemma {:induction false} SplitPartsFree(s: string, seps: set<char>)
    ensures forall i :: 0 <= i < |Split(s, seps)| ==> FreeOf(Split(s, seps)[i], seps)
    decreases |s|
  {
    if s != [] {
      SplitPartsFree(s[1..], seps);
    }
  }

  /** A string without separators splits into itself, and only those do. */
  lemma {:induction false} SplitSingleton(s: string, seps: set<char>)
    ensures FreeOf(s, seps) <==> Split(s, seps) == [s]
    decreases |s|
  {
    if s != [] {
      SplitSingleton(s[1..], seps);
      if s[0] !in seps && FreeOf(s[1..], seps) {
        assert Split(s, seps) == [[s[0]] + s[1..]];
        assert [s[0]] + s[1..] == s;
      }
      if Split(s, seps) == [s] {
        var rest := Split(s[1..], seps);
        assert [s[0]] + rest[0] == s && |rest| == 1;
        assert rest[0] == s[1..];
        assert FreeOf(s[1..], seps);
        forall i | 0 <= i < |s| ensures s[i] !in seps {
          if i > 0 { assert s[i] == s[1..][i - 1]; }
        }
      }
    }
  }

  /** Splitting around one separator splits both sides. */
  lemma {:induction false} SplitAround(a: string, c: char, b: string, seps: set<char>)
    requires c in seps
    ensures Split(a + [c] + b, seps) == Split(a, seps) + Split(b, seps)
    decreases |a|
  {
    if a == [] {
      assert a + [c] + b == [c] + b;
      assert ([c] + b)[1..] == b;
    } else {
      var s := a + [c] + b;
      assert s[0] == a[0];
      assert s[1..] == a[1..] + [c] + b;
      SplitAround(a[1..], c, b, seps);
    }
  }

  /** Joining appends one more part after a separator. */
  lemma {:induction false} JoinSnoc(parts: seq<string>, x: string, sep: char)
    requires |parts| >= 1
    ensures Join(parts + [x], sep) == Join(parts, sep) + [sep] + x
    decreases |parts|
  {
    if |parts| == 1 {
      assert parts + [x] == [parts[0], x];
    } else {
      assert (parts + [x])[1..] == parts[1..] + [x];
      JoinSnoc(parts[1..], x, sep);
    }
  }

  /** Joining two or three parts. */
  lemma JoinSmall(a: string, b: string, c: string, sep: char)
    ensures Join([a, b], sep) == a + [sep] + b
    ensures Join([a, b, c], sep) == a + [sep] + b + [sep] + c
  {
    assert [a, b][1..] == [b];
    assert [a, b, c][1..] == [b, c];
    assert Join([b, c], sep) == b + [sep] + c;
    assert a + [sep] + (b + [sep] + c) == a + [sep] + b + [sep] + c;
  }

  /** Round trip: joining the parts of a split with the same separator gives
      back the string. */
  lemma {:induction false} JoinSplit(s: string, c: char)
    ensures Join(Split(s, {c}), c) == s
    decreases |s|
  {
    if s != [] {
      JoinSplit(s[1..], c);
      var rest := Split(s[1..], {c});
      if s[0] == c {
        assert Split(s, {c}) == [[]] + rest;
        if |rest| == 1 {
          assert Join([[]] + rest, c) == [] + [c] + Join(rest, c);
        } else {
          assert ([[]] + rest)[1..] == rest;
        }
        assert s == [c] + s[1..];
      } else {
        var parts := [[s[0]] + rest[0]] + rest[1..];
        assert Split(s, {c}) == parts;
        if |rest| == 1 {
          assert Join(parts, c) == [s[0]] + rest[0];
        } else {
          assert parts[1..] == rest[1..];
          assert Join(rest, c) == rest[0] + [c] + Join(rest[1..], c);
        }
        assert s == [s[0]] + s[1..];
      }
    }
  }

  /** Round trip the other way: parts without separator characters are
      recovered by splitting their join. */
  lemma {:induction false} SplitJoin(parts: seq<string>, c: char)
    requires |parts| >= 1
    requires forall i :: 0 <= i < |parts| ==> FreeOf(parts[i], {c})
    ensures Split(Join(parts, c), {c}) == parts
    decreases |parts|
  {
    if |parts| == 1 {
      SplitSingleton(parts[0], {c});
    } else {
      SplitJoin(parts[1..], c);
      SplitSingleton(parts[0], {c});
      SplitAround(parts[0], c, Join(parts[1..], c), {c});
      assert [parts[0]] + parts[1..] == parts;
    }
  }

  /** A split has an empty part exactly when the string is empty, starts
      with a separator, or has a separator that ends it or is followed by
      another separator. */
  lemma SplitEmptyPart(s: string, seps: set<char>)
    ensures [] in Split(s, seps) <==> EmptySegmentAt(s, seps)
  {
    LaterEmptyPart(s, seps);
    var parts := Split(s, seps);
    assert [] in parts <==> parts[0] == [] || [] in parts[1..] by {
      assert parts == [parts[0]] + parts[1..];
    }
  }

  /** Character-level reading of "some segment is empty". */
  predicate EmptySegmentAt(s: string, seps: set<char>)
  {
    || s == []
    || s[0] in seps
    || SeparatorBeforeEmpty(s, seps)
  }

  /** Some separator ends `s` or is followed by another separator. */
  predicate SeparatorBeforeEmpty(s: string, seps: set<char>)
  {
    exists i :: 0 <= i < |s| && s[i] in seps && (i == |s| - 1 || s[i + 1] in seps)
  }

  /** The parts after the first are empty exactly at a separator that ends the
      string or is followed by another separator. */
  lemma {:induction false} LaterEmptyPart(s: string, seps: set<char>)
    ensures [] in Split(s, seps)[1..] <==> SeparatorBeforeEmpty(s, seps)
    decreases |s|
  {
    if s != [] {
      LaterEmptyPart(s[1..], seps);
      var rest := Split(s[1..], seps);
      assert rest == [rest[0]] + rest[1..];
      assert SeparatorBeforeEmpty(s[1..], seps) ==> SeparatorBeforeEmpty(s, seps) by {
        if SeparatorBeforeEmpty(s[1..], seps) {
          var i :| 0 <= i < |s[1..]| && s[1..][i] in seps && (i == |s[1..]| - 1 || s[1..][i + 1] in seps);
          assert s[i + 1] in seps && (i + 1 == |s| - 1 || s[i + 2] in seps);
        }
      }
      if SeparatorBeforeEmpty(s, seps) {
        var i :| 0 <= i < |s| && s[i] in seps && (i == |s| - 1 || s[i + 1] in seps);
        if i > 0 {
          assert s[1..][i - 1] in seps && (i - 1 == |s[1..]| - 1 || s[1..][i] in seps);
          assert SeparatorBeforeEmpty(s[1..], seps);
        }
      }
    }
  }
}
