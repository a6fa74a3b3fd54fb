/** The string helpers of src/helpers.js: `globify`, `slashify`, `slugify`
    and `objMap`. Its copy of `indexify` is in the Indexing module, beside the
    one of src/indexify.js, because both work on the same record. */
module Helpers {
  import opened Strings

  // ---------------------------------------------------------------------
  // globify and slashify

  /** Prefixes two asterisks and a slash to a pattern that has no slash, the way `.gitignore`
      patterns match at any depth. */
  function Globify(path: string): (r: string)
    ensures '/' in r
    ensures |path| <= |r| && r[|r| - |path|..] == path
    ensures '/' in path ==> r == path
    ensures '/' !in path ==> r[..|r| - |path|] == "**/"
  {
    if '/' in path then path else "**/" + path
  }

  /** Globify is idempotent: a globbed pattern already holds a slash. */
  lemma GlobifyIdempotent(path: string)
    ensures Globify(Globify(path)) == Globify(path)
  {
  }

  /** Prefixes a slash to a path unless it already starts with one. */
  function Slashify(path: string): (r: string)
    ensures |r| >= 1 && r[0] == '/'
    ensures |path| <= |r| <= |path| + 1 && r[|r| - |path|..] == path
    ensures |path| >= 1 && path[0] == '/' ==> r == path
  {
    if |path| > 0 && path[0] == '/' then path else "/" + path
  }

  /** Slashify is idempotent. */
  lemma SlashifyIdempotent(path: string)
    ensures Slashify(Slashify(path)) == Slashify(path)
  {
  }

  // ---------------------------------------------------------------------
  // slugify: a chain of six rewrites

  /** JavaScript's `\s`: the ASCII spaces plus the Unicode space separators,
      line and paragraph separators and the byte-order mark. */
  predicate IsSpace(c: char)
  {
    var n := c as int;
    || (9 <= n <= 13) || n == 32 || n == 0xA0 || n == 0x1680
    || (0x2000 <= n <= 0x200A) || n == 0x2028 || n == 0x2029
    || n == 0x202F || n == 0x205F || n == 0x3000 || n == 0xFEFF
  }

  /** Characters of the class `[\s._]`. */
  predicate IsRunChar(c: char)
  {
    IsSpace(c) || c == '.' || c == '_'
  }

  /** Characters of the class `[a-z0-9_-]`. */
  predicate IsAllowed(c: char)
  {
    ('a' <= c <= 'z') || ('0' <= c <= '9') || c == '_' || c == '-'
  }

  /** Characters a slug consists of. */
  predicate IsSlugChar(c: char)
  {
    ('a' <= c <= 'z') || ('0' <= c <= '9') || c == '-'
  }

  /** `toLowerCase` on ASCII letters. */
  function LowerChar(c: char): char
  {
    if 'A' <= c <= 'Z' then (c as int + 32) as char else c
  }

  /** Step 1: `.toLowerCase()`. */
  function Lower(s: string): string
  {
    if s == [] then [] else [LowerChar(s[0])] + Lower(s[1..])
  }

  /** Step 2: `.replace(/[\s._]+/g, "-")`, every maximal run of `[\s._]`
      becomes one hyphen: the run's last character turns into the hyphen and
      the ones before it are dropped. */
  function HyphenateRuns(s: string): string
  {
    if s == [] then [] else HyphenHead(s) + HyphenateRuns(s[1..])
  }

  /** What step 2 makes of the first character of `s`, given the one after it. */
  function HyphenHead(s: string): string
    requires s != []
  {
    if !IsRunChar(s[0]) then [s[0]]
    else if |s| > 1 && IsRunChar(s[1]) then []
    else "-"
  }

  /** Step 3: `.replace(/[^a-z0-9_-]/g, "")`. */
  function StripDisallowed(s: string): string
  {
    if s == [] then []
    else (if IsAllowed(s[0]) then [s[0]] else []) + StripDisallowed(s[1..])
  }

  /** Step 4: `.replace(/^-+/, "")`. */
  function TrimLeading(s: string): string
  {
    if s != [] && s[0] == '-' then TrimLeading(s[1..]) else s
  }

  /** Step 5: `.replace(/-+$/, "")`. */
  function TrimTrailing(s: string): string
  {
    if s != [] && s[|s| - 1] == '-' then TrimTrailing(s[..|s| - 1]) else s
  }

  /** Step 6: `.replace(/-{2,}/, "-")`. The regular expression has no `g`
      flag, so only the leftmost run of two or more hyphens is collapsed. */
  function CollapseFirstRun(s: string): string
  {
    if |s| < 2 then s
    else if s[0] == '-' && s[1] == '-' then "-" + TrimLeading(s)
    else [s[0]] + CollapseFirstRun(s[1..])
  }

  /** `slugify(text)`. */
  function Slugify(text: string): string
  {
    CollapseFirstRun(TrimTrailing(TrimLeading(StripDisallowed(HyphenateRuns(Lower(text))))))
  }

  /** A clean slug: slug characters only, no hyphen at either end and no two
      hyphens in a row. */
  predicate IsCleanSlug(s: string)
  {
    && (forall i :: 0 <= i < |s| ==> IsSlugChar(s[i]))
    && (s != [] ==> s[0] != '-' && s[|s| - 1] != '-')
    && NoDoubleHyphen(s)
  }

  // ---------------------------------------------------------------------
  // Properties of the individual steps

  lemma {:induction false} HyphenateRunsRemovesRunChars(s: string)
    ensures forall i :: 0 <= i < |HyphenateRuns(s)| ==> !IsRunChar(HyphenateRuns(s)[i])
  {
    if s != [] {
      HyphenateRunsRemovesRunChars(s[1..]);
    }
  }

  lemma {:induction false} StripDisallowedKeeps(s: string)
    ensures forall i :: 0 <= i < |StripDisallowed(s)| ==> IsAllowed(StripDisallowed(s)[i])
    ensures forall c :: c in StripDisallowed(s) ==> c in s
  {
    if s != [] {
      StripDisallowedKeeps(s[1..]);
    }
  }

  lemma {:induction false} TrimLeadingSuffix(s: string)
    ensures |TrimLeading(s)| <= |s| && TrimLeading(s) == s[|s| - |TrimLeading(s)|..]
    ensures TrimLeading(s) != [] ==> TrimLeading(s)[0] != '-'
    ensures s != [] && s[|s| - 1] != '-' ==> TrimLeading(s) != []
  {
    if s != [] && s[0] == '-' {
      TrimLeadingSuffix(s[1..]);
    }
  }

  lemma {:induction false} TrimTrailingPrefix(s: string)
    ensures |TrimTrailing(s)| <= |s| && TrimTrailing(s) == s[..|TrimTrailing(s)|]
    ensures TrimTrailing(s) != [] ==> TrimTrailing(s)[|TrimTrailing(s)| - 1] != '-'
  {
    if s != [] && s[|s| - 1] == '-' {
      TrimTrailingPrefix(s[..|s| - 1]);
    }
  }

  /** Collapsing keeps the slug alphabet and, when neither end of the input
      is a hyphen, neither end of the output is one. */
  lemma {:induction false} CollapseFirstRunShape(s: string)
    requires forall i :: 0 <= i < |s| ==> IsSlugChar(s[i])
    ensures forall i :: 0 <= i < |CollapseFirstRun(s)| ==> IsSlugChar(CollapseFirstRun(s)[i])
    ensures s != [] && s[0] != '-' ==> CollapseFirstRun(s) != [] && CollapseFirstRun(s)[0] == s[0]
    ensures s != [] && s[|s| - 1] != '-' ==>
      CollapseFirstRun(s) != [] && CollapseFirstRun(s)[|CollapseFirstRun(s)| - 1] == s[|s| - 1]
    ensures s == [] ==> CollapseFirstRun(s) == []
  {
    if |s| >= 2 {
      if s[0] == '-' && s[1] == '-' {
        TrimLeadingSuffix(s);
        var t := TrimLeading(s);
        assert forall i :: 0 <= i < |t| ==> t[i] == s[|s| - |t| + i];
      } else {
        CollapseFirstRunShape(s[1..]);
        assert s[1..][|s[1..]| - 1] == s[|s| - 1];
      }
    }
  }

  /** Lowercasing works character by character. */
  lemma {:induction false} LowerAt(s: string)
    ensures |Lower(s)| == |s|
    ensures forall i :: 0 <= i < |s| ==> Lower(s)[i] == LowerChar(s[i])
  {
    if s != [] {
      LowerAt(s[1..]);
    }
  }

  /** Steps 1 and 2 keep a string of slug characters as it is. */
  lemma {:induction false} LowerHyphenateSlugChars(s: string)
    requires forall i :: 0 <= i < |s| ==> IsSlugChar(s[i])
    ensures Lower(s) == s && HyphenateRuns(s) == s
  {
    if s != [] {
      LowerHyphenateSlugChars(s[1..]);
    }
  }

  /** Step 3 keeps a string made of allowed characters as it is. */
  lemma {:induction false} StripAllowed(s: string)
    requires forall i :: 0 <= i < |s| ==> IsAllowed(s[i])
    ensures StripDisallowed(s) == s
  {
    if s != [] {
      StripAllowed(s[1..]);
    }
  }

  /** Step 4 removes exactly a leading run of hyphens. */
  lemma {:induction false} TrimLeadingRun(r: string, t: string)
    requires forall i :: 0 <= i < |r| ==> r[i] == '-'
    requires t == [] || t[0] != '-'
    ensures TrimLeading(r + t) == t
  {
    if r == [] {
      assert r + t == t;
    } else {
      assert (r + t)[1..] == r[1..] + t;
      TrimLeadingRun(r[1..], t);
    }
  }

  /** Step 5 removes exactly a trailing run of hyphens. */
  lemma {:induction false} TrimTrailingRun(t: string, r: string)
    requires forall i :: 0 <= i < |r| ==> r[i] == '-'
    requires t == [] || t[|t| - 1] != '-'
    ensures TrimTrailing(t + r) == t
    decreases |r|
  {
    if r == [] {
      assert t + r == t;
    } else {
      assert (t + r)[..|t + r| - 1] == t + r[..|r| - 1];
      TrimTrailingRun(t, r[..|r| - 1]);
    }
  }

  /** No two hyphens in a row. */
  predicate NoDoubleHyphen(s: string)
  {
    forall i :: 0 <= i < |s| - 1 ==> !(s[i] == '-' && s[i + 1] == '-')
  }

  /** Step 6 collapses the leftmost run of two or more hyphens, that run as a
      whole, and leaves everything after it alone: any later run in `q`
      survives. */
  lemma {:induction false} CollapseFirstRunAt(p: string, r: string, q: string)
    requires NoDoubleHyphen(p) && (p == [] || p[|p| - 1] != '-')
    requires |r| >= 2 && forall i :: 0 <= i < |r| ==> r[i] == '-'
    requires q == [] || q[0] != '-'
    ensures CollapseFirstRun(p + r + q) == p + "-" + q
  {
    var s := p + r + q;
    if p == [] {
      assert s == r + q;
      TrimLeadingRun(r, q);
    } else {
      assert s[0] == p[0];
      assert s[1] == if |p| >= 2 then p[1] else r[0];
      assert s[1..] == p[1..] + r + q;
      CollapseFirstRunAt(p[1..], r, q);
    }
  }

  /** Step 6 leaves a string without a double hyphen unchanged. */
  lemma {:induction false} CollapseNone(s: string)
    requires NoDoubleHyphen(s)
    ensures CollapseFirstRun(s) == s
  {
    if |s| >= 2 {
      CollapseNone(s[1..]);
    }
  }

  // ---------------------------------------------------------------------
  // Properties of slugify

  /** After step 3 only slug characters are left: the underscores that
      step 3 would keep were all turned into hyphens by step 2. */
  lemma StrippedSlugChars(text: string, st: string)
    requires st == StripDisallowed(HyphenateRuns(Lower(text)))
    ensures forall i :: 0 <= i < |st| ==> IsSlugChar(st[i])
  {
    var h := HyphenateRuns(Lower(text));
    HyphenateRunsRemovesRunChars(Lower(text));
    StripDisallowedKeeps(h);
    forall i | 0 <= i < |st| ensures IsSlugChar(st[i]) {
      assert st[i] in st;
      assert st[i] in h;
      var j :| 0 <= j < |h| && h[j] == st[i];
      assert !IsRunChar(h[j]);
    }
  }

  /** Steps 4 and 5 keep slug characters and leave no hyphen at either end. */
  lemma TrimmedEnds(st: string, t: string)
    requires forall i :: 0 <= i < |st| ==> IsSlugChar(st[i])
    requires t == TrimTrailing(TrimLeading(st))
    ensures forall i :: 0 <= i < |t| ==> IsSlugChar(t[i])
    ensures t != [] ==> t[0] != '-' && t[|t| - 1] != '-'
  {
    var l := TrimLeading(st);
    TrimLeadingSuffix(st);
    TrimTrailingPrefix(l);
    assert forall i :: 0 <= i < |t| ==> t[i] == st[|st| - |l| + i];
    if t != [] {
      assert t[0] == l[0];
    }
  }

  /** Everything slugify produces is made of `a-z`, `0-9` and `-`. */
  lemma SlugifyAlphabet(text: string)
    ensures forall i :: 0 <= i < |Slugify(text)| ==> IsSlugChar(Slugify(text)[i])
  {
    var st := StripDisallowed(HyphenateRuns(Lower(text)));
    var t := TrimTrailing(TrimLeading(st));
    StrippedSlugChars(text, st);
    TrimmedEnds(st, t);
    CollapseFirstRunShape(t);
  }

  /** A slug never starts or ends with a hyphen. */
  lemma SlugifyEdges(text: string)
    ensures Slugify(text) != [] ==> Slugify(text)[0] != '-' && Slugify(text)[|Slugify(text)| - 1] != '-'
  {
    var st := StripDisallowed(HyphenateRuns(Lower(text)));
    var t := TrimTrailing(TrimLeading(st));
    StrippedSlugChars(text, st);
    TrimmedEnds(st, t);
    CollapseFirstRunShape(t);
  }

  /** A clean slug is its own slug: on such input every step is the
      identity. */
  lemma SlugifyClean(s: string)
    requires IsCleanSlug(s)
    ensures Slugify(s) == s
  {
    LowerHyphenateSlugChars(s);
    LastFourSteps(s);
  }

  /** Slugify is not idempotent: only the first run of hyphens is collapsed,
      so a second run survives one pass and is collapsed by the next, as with
      `slugify("a--b--c") == "a-b--c"`. */
  lemma SlugifyNotIdempotent(p: string, q: string, r: string)
    requires IsCleanSlug(p) && IsCleanSlug(q) && IsCleanSlug(r)
    requires p != [] && q != [] && r != []
    ensures Slugify(p + "--" + q + "--" + r) == p + "-" + q + "--" + r
    ensures Slugify(p + "-" + q + "--" + r) == p + "-" + q + "-" + r
    ensures Slugify(Slugify(p + "--" + q + "--" + r)) != Slugify(p + "--" + q + "--" + r)
  {
    var s := p + "--" + q + "--" + r;
    CollapseOnePass(p, "--", q + "--" + r);
    assert s == p + "--" + (q + "--" + r);
    assert p + "-" + (q + "--" + r) == p + "-" + q + "--" + r;
    var t := p + "-" + q + "--" + r;
    CollapseOnePass(p + "-" + q, "--", r);
    assert t == (p + "-" + q) + "--" + r;
    assert |p + "-" + q + "--" + r| != |p + "-" + q + "-" + r|;
  }

  /** One pass of slugify over slug characters with no hyphen at either end
      collapses the run `h` after a clean prefix `p`. */
  lemma CollapseOnePass(p: string, h: string, q: string)
    requires forall i :: 0 <= i < |p| ==> IsSlugChar(p[i])
    requires forall i :: 0 <= i < |q| ==> IsSlugChar(q[i])
    requires NoDoubleHyphen(p) && p != [] && p[0] != '-' && p[|p| - 1] != '-'
    requires q != [] && q[0] != '-' && q[|q| - 1] != '-'
    requires h == "--"
    ensures Slugify(p + h + q) == p + "-" + q
  {
    var s := p + h + q;
    assert forall i :: 0 <= i < |s| ==> IsSlugChar(s[i]) by {
      forall i | 0 <= i < |s| ensures IsSlugChar(s[i]) {
        if i < |p| { assert s[i] == p[i]; }
        else if i < |p| + 2 { assert s[i] == '-'; }
        else { assert s[i] == q[i - |p| - 2]; }
      }
    }
    assert s[0] == p[0] && s[|s| - 1] == q[|q| - 1];
    FirstFiveSteps(s);
    CollapseFirstRunAt(p, h, q);
  }

  /** Steps 1 to 5 keep slug characters with no hyphen at either end. */
  lemma FirstFiveSteps(s: string)
    requires forall i :: 0 <= i < |s| ==> IsSlugChar(s[i])
    requires s != [] ==> s[0] != '-' && s[|s| - 1] != '-'
    ensures TrimTrailing(TrimLeading(StripDisallowed(HyphenateRuns(Lower(s))))) == s
  {
    LowerHyphenateSlugChars(s);
    assert forall i :: 0 <= i < |s| ==> IsAllowed(s[i]) by {
      forall i | 0 <= i < |s| ensures IsAllowed(s[i]) {
        assert IsSlugChar(s[i]);
      }
    }
    StripAllowed(s);
    TrimLeadingRun([], s);
    TrimTrailingRun(s, []);
    assert [] + s == s && s + [] == s;
  }

  /** Steps 3 to 6 keep a clean slug as it is. */
  lemma LastFourSteps(s: string)
    requires IsCleanSlug(s)
    ensures CollapseFirstRun(TrimTrailing(TrimLeading(StripDisallowed(s)))) == s
  {
    StripAllowed(s);
    TrimLeadingRun([], s);
    TrimTrailingRun(s, []);
    assert [] + s == s && s + [] == s;
    CollapseNone(s);
  }

  // ---------------------------------------------------------------------
  // Slugifying words separated by spaces and hyphens

  /** An ASCII letter or digit. */
  predicate IsWordChar(c: char)
  {
    ('a' <= c <= 'z') || ('A' <= c <= 'Z') || ('0' <= c <= '9')
  }

  /** A non-empty run of ASCII letters and digits. */
  predicate IsWord(w: string)
  {
    w != [] && forall i :: 0 <= i < |w| ==> IsWordChar(w[i])
  }

  /** A non-empty run of lower-case ASCII letters and digits. */
  predicate IsLowerWord(w: string)
  {
    w != [] && forall i :: 0 <= i < |w| ==> ('a' <= w[i] <= 'z') || ('0' <= w[i] <= '9')
  }

  /** Only hyphens and spaces. */
  predicate IsPadding(s: string)
  {
    forall i :: 0 <= i < |s| ==> s[i] == '-' || s[i] == ' '
  }

  /** Only hyphens. */
  predicate IsHyphens(s: string)
  {
    forall i :: 0 <= i < |s| ==> s[i] == '-'
  }

  /** Every word in lower case. */
  function LowerAll(ws: seq<string>): seq<string>
  {
    seq(|ws|, i requires 0 <= i < |ws| => Lower(ws[i]))
  }

  lemma {:induction false} LowerConcat(x: string, y: string)
    ensures Lower(x + y) == Lower(x) + Lower(y)
  {
    if x != [] {
      assert (x + y)[1..] == x[1..] + y;
      LowerConcat(x[1..], y);
    } else {
      assert x + y == y;
    }
  }

  /** Step 2 works on the two sides of a concatenation separately unless a
      run of `[\s._]` crosses the border. */
  lemma {:induction false} HyphenateConcat(x: string, y: string)
    requires x == [] || y == [] || !IsRunChar(x[|x| - 1]) || !IsRunChar(y[0])
    ensures HyphenateRuns(x + y) == HyphenateRuns(x) + HyphenateRuns(y)
  {
    if x == [] {
      assert x + y == y;
    } else {
      HeadConcat(x, y);
      assert (x + y)[1..] == x[1..] + y;
      HyphenateConcat(x[1..], y);
    }
  }

  lemma HeadConcat(x: string, y: string)
    requires x != []
    requires y == [] || !IsRunChar(x[|x| - 1]) || !IsRunChar(y[0])
    ensures HyphenHead(x + y) == HyphenHead(x)
  {
    assert (x + y)[0] == x[0];
    if |x| > 1 {
      assert (x + y)[1] == x[1];
    } else if y != [] {
      assert (x + y)[1] == y[0];
    }
  }

  /** A space before a character outside `[\s._]` becomes a hyphen. */
  lemma HyphenateSpaceBefore(l: string)
    requires l != [] && !IsRunChar(l[0])
    ensures HyphenateRuns([' '] + l) == "-" + HyphenateRuns(l)
  {
    assert ([' '] + l)[1..] == l;
    assert HyphenHead([' '] + l) == "-";
  }

  /** A word lower-cased is a lower-case word that step 2 leaves alone. */
  lemma LowerWord(w: string)
    requires IsWord(w)
    ensures IsLowerWord(Lower(w)) && |Lower(w)| == |w|
    ensures HyphenateRuns(Lower(w)) == Lower(w)
  {
    LowerAt(w);
    LowerHyphenateSlugChars(Lower(w));
  }

  /** Padding is its own lower case. */
  lemma {:induction false} LowerPadding(p: string)
    requires IsPadding(p)
    ensures Lower(p) == p
  {
    if p != [] {
      LowerPadding(p[1..]);
      assert p == [p[0]] + p[1..];
    }
  }

  /** Step 2 turns padding into hyphens, at least one if there was any. */
  lemma {:induction false} HyphenatePadding(p: string)
    requires IsPadding(p)
    ensures IsHyphens(HyphenateRuns(p))
    ensures p != [] ==> HyphenateRuns(p) != []
  {
    if p != [] {
      HyphenatePadding(p[1..]);
    }
  }

  /** Steps 1 and 2 turn words joined by single spaces into lower-case words
      joined by hyphens. */
  lemma {:induction false} HyphenateSpaced(ws: seq<string>)
    requires |ws| >= 1 && forall i :: 0 <= i < |ws| ==> IsWord(ws[i])
    ensures HyphenateRuns(Lower(Join(ws, ' '))) == Join(LowerAll(ws), '-')
    ensures var l := Lower(Join(ws, ' '));
      l != [] && !IsRunChar(l[0]) && !IsRunChar(l[|l| - 1])
    decreases |ws|
  {
    if |ws| == 1 {
      LowerWord(ws[0]);
      var lw := Lower(ws[0]);
      LowerWordChar(lw[0]);
      LowerWordChar(lw[|lw| - 1]);
      assert Join(ws, ' ') == ws[0];
      LowerAllCons(ws);
      assert Join(LowerAll(ws), '-') == lw;
    } else {
      var rest := Join(ws[1..], ' ');
      var lr := Lower(rest);
      HyphenateSpaced(ws[1..]);
      assert lr != [] && !IsRunChar(lr[0]) && !IsRunChar(lr[|lr| - 1]);
      SpacedJoin(ws, rest, lr);
    }
  }

  /** The step of HyphenateSpaced: one more word in front. */
  lemma SpacedJoin(ws: seq<string>, rest: string, lr: string)
    requires |ws| > 1 && IsWord(ws[0])
    requires rest == Join(ws[1..], ' ') && lr == Lower(rest)
    requires HyphenateRuns(lr) == Join(LowerAll(ws[1..]), '-')
    requires lr != [] && !IsRunChar(lr[0]) && !IsRunChar(lr[|lr| - 1])
    ensures HyphenateRuns(Lower(Join(ws, ' '))) == Join(LowerAll(ws), '-')
    ensures var l := Lower(Join(ws, ' '));
      l != [] && !IsRunChar(l[0]) && !IsRunChar(l[|l| - 1])
  {
    LowerWord(ws[0]);
    var lw := Lower(ws[0]);
    LowerWordChar(lw[0]);
    LowerWordChar(lw[|lw| - 1]);
    var j := Join(ws, ' ');
    assert j == ws[0] + [' '] + rest;
    SpacedLower(ws[0], rest);
    var l := lw + ([' '] + lr);
    assert Lower(j) == l;
    SpacedStep(lw, lr);
    var lws := LowerAll(ws);
    LowerAllCons(ws);
    assert Join(lws, '-') == lw + ['-'] + Join(LowerAll(ws[1..]), '-');
    assert HyphenateRuns(l) == lw + ['-'] + HyphenateRuns(lr);
  }

  lemma LowerAllCons(ws: seq<string>)
    requires |ws| >= 1
    ensures LowerAll(ws) == [Lower(ws[0])] + LowerAll(ws[1..])
  {
  }

  /** A lower-case letter or a digit is not in `[\s._]`. */
  lemma LowerWordChar(c: char)
    requires ('a' <= c <= 'z') || ('0' <= c <= '9')
    ensures !IsRunChar(c)
  {
  }

  /** One space between two pieces without `[\s._]` at their borders. */
  lemma SpacedStep(lw: string, lr: string)
    requires lw != [] && !IsRunChar(lw[0]) && !IsRunChar(lw[|lw| - 1]) && HyphenateRuns(lw) == lw
    requires lr != [] && !IsRunChar(lr[0]) && !IsRunChar(lr[|lr| - 1])
    ensures HyphenateRuns(lw + ([' '] + lr)) == lw + ['-'] + HyphenateRuns(lr)
    ensures var l := lw + ([' '] + lr); l != [] && !IsRunChar(l[0]) && !IsRunChar(l[|l| - 1])
  {
    HyphenateConcat(lw, [' '] + lr);
    HyphenateSpaceBefore(lr);
    var l := lw + ([' '] + lr);
    assert l[0] == lw[0];
    assert l[|l| - 1] == lr[|lr| - 1];
  }

  lemma SpacedLower(w: string, rest: string)
    ensures Lower(w + [' '] + rest) == Lower(w) + ([' '] + Lower(rest))
  {
    LowerConcat(w + [' '], rest);
    LowerConcat(w, [' ']);
    assert Lower([' ']) == [' '];
  }

  /** Lower-case words joined by hyphens form a clean slug. */
  lemma {:induction false} CleanJoin(ps: seq<string>)
    requires |ps| >= 1 && forall i :: 0 <= i < |ps| ==> IsLowerWord(ps[i])
    ensures IsCleanSlug(Join(ps, '-'))
    ensures Join(ps, '-') != [] && Join(ps, '-')[0] == ps[0][0]
    decreases |ps|
  {
    if |ps| > 1 {
      CleanJoin(ps[1..]);
      var a, b := ps[0], Join(ps[1..], '-');
      var s := a + "-" + b;
      assert Join(ps, '-') == s;
      assert forall i :: 0 <= i < |s| ==> IsSlugChar(s[i]) by {
        forall i | 0 <= i < |s| ensures IsSlugChar(s[i]) {
          if i < |a| { assert s[i] == a[i]; }
          else if i > |a| { assert s[i] == b[i - |a| - 1]; }
        }
      }
      assert NoDoubleHyphen(s) by {
        forall i | 0 <= i < |s| - 1 ensures !(s[i] == '-' && s[i + 1] == '-') {
          if i + 1 < |a| { assert s[i] == a[i]; }
          else if i + 1 == |a| { assert s[i] == a[i]; }
          else if i == |a| { assert s[i + 1] == b[0]; }
          else { assert s[i] == b[i - |a| - 1] && s[i + 1] == b[i - |a|]; }
        }
      }
      assert s[|s| - 1] == b[|b| - 1];
    }
  }

  /** Joining two non-empty lists of parts puts one separator between them. */
  lemma {:induction false} JoinAppend(a: seq<string>, b: seq<string>, sep: char)
    requires |a| >= 1 && |b| >= 1
    ensures Join(a + b, sep) == Join(a, sep) + [sep] + Join(b, sep)
    decreases |a|
  {
    if |a| == 1 {
      assert (a + b)[1..] == b;
    } else {
      assert (a + b)[1..] == a[1..] + b;
      JoinAppend(a[1..], b, sep);
    }
  }

  lemma LowerAllWords(ws: seq<string>)
    requires forall i :: 0 <= i < |ws| ==> IsWord(ws[i])
    ensures forall i :: 0 <= i < |ws| ==> IsLowerWord(LowerAll(ws)[i])
  {
    forall i | 0 <= i < |ws| ensures IsLowerWord(LowerAll(ws)[i]) {
      LowerWord(ws[i]);
    }
  }

  /** Words separated by single spaces slugify to the lower-case words
      separated by single hyphens. */
  lemma SlugifyWords(ws: seq<string>)
    requires |ws| >= 1 && forall i :: 0 <= i < |ws| ==> IsWord(ws[i])
    ensures Slugify(Join(ws, ' ')) == Join(LowerAll(ws), '-')
  {
    HyphenateSpaced(ws);
    LowerAllWords(ws);
    CleanJoin(LowerAll(ws));
    LastFourSteps(Join(LowerAll(ws), '-'));
  }

  /** Hyphens and spaces around two groups of spaced words and between them
      slugify to one hyphen: the padding at the ends is trimmed and the
      padding in the middle is the first run of hyphens, which is collapsed. */
  lemma SlugifyPadded(p: string, ws1: seq<string>, m: string, ws2: seq<string>, q: string)
    requires IsPadding(p) && IsPadding(m) && m != [] && IsPadding(q)
    requires |ws1| >= 1 && forall i :: 0 <= i < |ws1| ==> IsWord(ws1[i])
    requires |ws2| >= 1 && forall i :: 0 <= i < |ws2| ==> IsWord(ws2[i])
    ensures Slugify(p + (Join(ws1, ' ') + (m + (Join(ws2, ' ') + q)))) == Join(LowerAll(ws1 + ws2), '-')
  {
    var j1, j2 := Join(ws1, ' '), Join(ws2, ' ');
    var l1, l2 := Lower(j1), Lower(j2);
    HyphenateSpaced(ws1);
    HyphenateSpaced(ws2);
    var u1, u2 := Join(LowerAll(ws1), '-'), Join(LowerAll(ws2), '-');
    HyphenatePadding(p);
    HyphenatePadding(m);
    HyphenatePadding(q);
    LowerStitch(p, j1, m, j2, q);
    HyphenateStitch(p, l1, m, l2, q);
    PaddedJoin(ws1, ws2);
    TrimAndCollapse(HyphenateRuns(p), u1, HyphenateRuns(m), u2, HyphenateRuns(q));
  }

  lemma PaddedJoin(ws1: seq<string>, ws2: seq<string>)
    requires |ws1| >= 1 && forall i :: 0 <= i < |ws1| ==> IsWord(ws1[i])
    requires |ws2| >= 1 && forall i :: 0 <= i < |ws2| ==> IsWord(ws2[i])
    ensures var u1, u2 := Join(LowerAll(ws1), '-'), Join(LowerAll(ws2), '-');
      && IsCleanSlug(u1) && u1 != [] && IsCleanSlug(u2) && u2 != []
      && Join(LowerAll(ws1 + ws2), '-') == u1 + "-" + u2
      && IsCleanSlug(u1 + "-" + u2)
  {
    LowerAllWords(ws1);
    LowerAllWords(ws2);
    CleanJoin(LowerAll(ws1));
    CleanJoin(LowerAll(ws2));
    assert LowerAll(ws1 + ws2) == LowerAll(ws1) + LowerAll(ws2);
    JoinAppend(LowerAll(ws1), LowerAll(ws2), '-');
    LowerAllWords(ws1 + ws2);
    CleanJoin(LowerAll(ws1 + ws2));
  }

  lemma LowerStitch(p: string, j1: string, m: string, j2: string, q: string)
    requires IsPadding(p) && IsPadding(m) && IsPadding(q)
    ensures Lower(p + (j1 + (m + (j2 + q)))) == p + (Lower(j1) + (m + (Lower(j2) + q)))
  {
    LowerConcat(p, j1 + (m + (j2 + q)));
    LowerConcat(j1, m + (j2 + q));
    LowerConcat(m, j2 + q);
    LowerConcat(j2, q);
    LowerPadding(p);
    LowerPadding(m);
    LowerPadding(q);
  }

  lemma HyphenateStitch(p: string, l1: string, m: string, l2: string, q: string)
    requires l1 != [] && !IsRunChar(l1[0]) && !IsRunChar(l1[|l1| - 1])
    requires l2 != [] && !IsRunChar(l2[0]) && !IsRunChar(l2[|l2| - 1])
    ensures HyphenateRuns(p + (l1 + (m + (l2 + q)))) ==
      HyphenateRuns(p) + (HyphenateRuns(l1) + (HyphenateRuns(m) + (HyphenateRuns(l2) + HyphenateRuns(q))))
  {
    var b := l2 + q;
    var a := m + b;
    var t := l1 + a;
    assert b[0] == l2[0];
    assert t[0] == l1[0];
    HyphenateConcat(p, t);
    HyphenateConcat(l1, a);
    HyphenateConcat(m, b);
    HyphenateConcat(l2, q);
  }

  /** Steps 3 to 6 on hyphens, a clean slug, hyphens, a clean slug and hyphens
      keep the two slugs with one hyphen between them. */
  lemma TrimAndCollapse(hp: string, u1: string, hm: string, u2: string, hq: string)
    requires IsHyphens(hp) && IsHyphens(hm) && hm != [] && IsHyphens(hq)
    requires IsCleanSlug(u1) && u1 != [] && IsCleanSlug(u2) && u2 != []
    requires IsCleanSlug(u1 + "-" + u2)
    ensures CollapseFirstRun(TrimTrailing(TrimLeading(StripDisallowed(hp + (u1 + (hm + (u2 + hq)))))))
      == u1 + "-" + u2
  {
    var s := hp + (u1 + (hm + (u2 + hq)));
    assert forall i :: 0 <= i < |s| ==> IsAllowed(s[i]) by {
      forall i | 0 <= i < |s| ensures IsAllowed(s[i]) {
        if i < |hp| { assert s[i] == hp[i]; }
        else if i < |hp| + |u1| { assert s[i] == u1[i - |hp|]; }
        else if i < |hp| + |u1| + |hm| { assert s[i] == hm[i - |hp| - |u1|]; }
        else if i < |hp| + |u1| + |hm| + |u2| { assert s[i] == u2[i - |hp| - |u1| - |hm|]; }
        else { assert s[i] == hq[i - |hp| - |u1| - |hm| - |u2|]; }
      }
    }
    StripAllowed(s);
    var t := u1 + (hm + (u2 + hq));
    assert t[0] == u1[0];
    TrimLeadingRun(hp, t);
    assert t == (u1 + hm + u2) + hq;
    assert (u1 + hm + u2)[|u1 + hm + u2| - 1] == u2[|u2| - 1];
    TrimTrailingRun(u1 + hm + u2, hq);
    if |hm| >= 2 {
      CollapseFirstRunAt(u1, hm, u2);
    } else {
      assert hm == "-";
      CollapseNone(u1 + "-" + u2);
    }
  }

  /** `slugify("This Should Be Slugged") == "this-should-be-slugged"`. */
  lemma SlugifySpacedExample(ws: seq<string>)
    requires ws == ["This", "Should", "Be", "Slugged"]
    ensures Slugify(Join(ws, ' ')) == Join(["this", "should", "be", "slugged"], '-')
  {
    ExampleWords(ws);
    SlugifyWords(ws);
  }

  /** `slugify("--- This Should Be --- Slugged ---") == "this-should-be-slugged"`. */
  lemma SlugifyPaddedExample(ws: seq<string>)
    requires ws == ["This", "Should", "Be", "Slugged"]
    ensures Slugify("--- " + (Join(ws[..3], ' ') + (" --- " + (Join(ws[3..], ' ') + " ---"))))
      == Join(["this", "should", "be", "slugged"], '-')
  {
    ExampleWords(ws);
    assert ws[..3] + ws[3..] == ws;
    SlugifyPadded("--- ", ws[..3], " --- ", ws[3..], " ---");
  }

  lemma ExampleWords(ws: seq<string>)
    requires ws == ["This", "Should", "Be", "Slugged"]
    ensures forall i :: 0 <= i < |ws| ==> IsWord(ws[i])
    ensures LowerAll(ws) == ["this", "should", "be", "slugged"]
  {
    LowerIs("This", "this");
    LowerIs("Should", "should");
    LowerIs("Be", "be");
    LowerIs("Slugged", "slugged");
  }

  lemma LowerIs(w: string, l: string)
    requires |w| == |l| && forall i :: 0 <= i < |w| ==> LowerChar(w[i]) == l[i]
    ensures Lower(w) == l
  {
    LowerAt(w);
  }

  // ---------------------------------------------------------------------
  // objMap

  /** `objMap(input, callback)`: a new object with the same keys, each value
      replaced by the callback's result on that value and its key. The keys
      are visited one at a time; the order does not change the result. */
  method ObjMap<V, W>(input: map<string, V>, callback: (V, string) -> W) returns (output: map<string, W>)
    ensures output.Keys == input.Keys
    ensures forall k :: k in input ==> output[k] == callback(input[k], k)
  {
    output := map[];
    var keys := input.Keys;
    while keys != {}
      invariant keys <= input.Keys
      invariant output.Keys == input.Keys - keys
      invariant forall k :: k in output ==> output[k] == callback(input[k], k)
      decreases keys
    {
      var key :| key in keys;
      output := output[key := callback(input[key], key)];
      keys := keys - {key};
    }
  }
}
