/** The `add` and `unlink` handlers of src/createPagesStatefully.js: each
    watched file becomes a node with a page URL, nodes are linked to parents
    and children by depth and URL prefix, and removing a file detaches and
    deletes its node. The node store (Gatsby's `store.getState().nodes`) holds
    this plugin's nodes in insertion order; every action the handlers send to
    Gatsby or its reporter is appended to a log. */
module PageTree {
  import opened Strings
  import opened Constants
  import opened Records
  import opened Paths
  import opened Indexing

  /** What the file watcher reports about a file, and the file's MD5 digest. */
  datatype Stats = Stats(size: int, mtime: string, atime: string, ctime: string, birthtime: string)

  datatype Internal = Internal(typ: string, description: string, mediaType: Option<string>, contentDigest: string)

  /** A page node: the (possibly indexified) path-info record spread into it,
      then the fields of src/createPagesStatefully.js:93-115. */
  datatype Node = Node(
    info: PathInfo,
    id: string,
    absolutePath: string,
    relativePath: string,
    rootPath: string,
    templatePath: string,
    index: bool,
    url: string,
    size: int,
    prettySize: string,
    modifiedTime: string,
    accessedTime: string,
    changedTime: string,
    birthtime: string,
    internal: Internal,
    children: seq<string>)

  /** The actions and reports the handlers emit, in order. */
  datatype Action =
    | CreateNode(node: Node)
    | CreateParentChildLink(parent: string, child: string)
    | CreatePage(path: string, component: string, context: Node)
    | CreatePageDependency(path: string, nodeId: string)
    | TouchNode(nodeId: string)
    | DeleteNode(deleted: Node)
    | DeletePage(pagePath: string, pageComponent: string)
    | Warn(existingRootPath: string, skippedRootPath: string)

  /** Everything the handlers take from outside: the normalised URL template
      and resolved template file, and the library calls whose results are
      opaque here — `path.relative` against the watched directory and against
      the working directory, the `anymatch` index test, `createNodeId`,
      `mime.getType` and `prettyBytes`. */
  datatype Env = Env(
    templateURL: string,
    templatePath: string,
    relativeOf: string -> string,
    rootPathOf: string -> string,
    isIndex: string -> bool,
    createNodeId: string -> string,
    mediaTypeOf: string -> Option<string>,
    prettyBytes: int -> string)

  ghost predicate Injective(f: string -> string)
  {
    forall a, b :: f(a) == f(b) ==> a == b
  }

  /** Distinct files have distinct root paths and distinct strings get
      distinct node ids. */
  ghost predicate EnvOk(env: Env)
  {
    Injective(env.rootPathOf) && Injective(env.createNodeId)
  }

  // ---------------------------------------------------------------------
  // The node made for a file

  /** The record of a file: `pathinfo` of its relative path, indexified when
      the file is an index. */
  function InfoFor(env: Env, file: string): Result<PathInfo, PathError>
  {
    match PathInfoOf(env.relativeOf(file))
    case Err(e) => Err(e)
    case Ok(info) => Ok(if env.isIndex(file) then Indexified(info) else info)
  }

  /** The record of a file exists exactly when `pathinfo` of its relative
      path succeeds. Its slug is its slugs joined by `/`, a slug path with no
      `$`. For a non-empty relative path its depth counts its slugs: the
      path's segments, or one fewer for an index file, whose record stands
      for its directory. */
  lemma InfoForShape(env: Env, file: string)
    ensures var rel, r := env.relativeOf(file), InfoFor(env, file);
      && (r.Ok? <==> PathInfoOf(rel).Ok?)
      && (r.Ok? ==> r.value.slug == Join(r.value.slugs, '/') && IsSlugPath(r.value.slug) && '$' !in r.value.slug)
      && (r.Ok? && rel != [] && !env.isIndex(file) ==>
            r.value.depth == |r.value.slugs| == |Split(rel, Separators)|)
      && (r.Ok? && rel != [] && env.isIndex(file) ==>
            r.value.depth == |r.value.slugs| == |Split(rel, Separators)| - 1)
  {
    var rel := env.relativeOf(file);
    if PathInfoOf(rel).Ok? {
      var p := PathInfoOf(rel).value;
      PathSlugChars(rel);
      if env.isIndex(file) {
        var q := Indexified(p);
        forall i | 0 <= i < |q.slugs| ensures SlugChars(q.slugs[i]) {
          assert (q.slugs + [p.slugs[|p.slugs| - 1]])[i] == q.slugs[i];
        }
        JoinSlugPath(q.slugs);
      } else {
        JoinSlugPath(p.slugs);
      }
    }
  }

  /** `templateURL.replace(":slug", slug)`: the first placeholder only. */
  function UrlFor(env: Env, info: PathInfo): string
  {
    ReplaceFirst(env.templateURL, SLUG_PLACEHOLDER, info.slug)
  }

  /** `createNodeId(TYPE + rootPath)`. */
  function IdFor(env: Env, file: string): string
  {
    env.createNodeId(TYPE + env.rootPathOf(file))
  }

  /** The node of lines 93-115, or the error `pathinfo` throws. */
  function NodeFor(env: Env, file: string, stats: Stats, digest: string): (r: Result<Node, PathError>)
    ensures r.Ok? ==> Keyed(env, r.value)
  {
    match InfoFor(env, file)
    case Err(e) => Err(e)
    case Ok(info) =>
      var rootPath := env.rootPathOf(file);
      var ext := PathInfoOf(env.relativeOf(file)).value.extension;
      Ok(Node(info, env.createNodeId(TYPE + rootPath), file, env.relativeOf(file), rootPath,
        env.templatePath, env.isIndex(file), UrlFor(env, info), stats.size, env.prettyBytes(stats.size),
        stats.mtime, stats.atime, stats.ctime, stats.birthtime,
        Internal(TYPE, TYPE + ": " + rootPath, env.mediaTypeOf(ext), digest), []))
  }

  /** A file's node exists exactly when `pathinfo` of its relative path
      succeeds. The slug put into its url holds no `$`, so none of
      JavaScript's replacement patterns can occur in it. Under a template
      starting with `/` the url starts with `/`; under the default template
      it is `/` followed by the slug. */
  lemma NodeForShape(env: Env, file: string, stats: Stats, digest: string)
    ensures var r := NodeFor(env, file, stats, digest);
      && (r.Ok? <==> PathInfoOf(env.relativeOf(file)).Ok?)
      && (r.Ok? ==> '$' !in r.value.info.slug && r.value.absolutePath == file && r.value.children == [])
      && (r.Ok? && |env.templateURL| >= 1 && env.templateURL[0] == '/' ==>
            |r.value.url| >= 1 && r.value.url[0] == '/')
      && (r.Ok? && env.templateURL == URL ==> r.value.url == "/" + r.value.info.slug)
  {
    InfoForShape(env, file);
    var r := NodeFor(env, file, stats, digest);
    if r.Ok? {
      UrlShape(env, r.value.info);
    }
  }

  /** The fields of a stored node that follow from its file and its record. */
  predicate Keyed(env: Env, n: Node)
  {
    && n.url == UrlFor(env, n.info)
    && n.id == IdFor(env, n.absolutePath)
    && n.rootPath == env.rootPathOf(n.absolutePath)
    && n.templatePath == env.templatePath
    && n.internal.typ == TYPE
  }

  // ---------------------------------------------------------------------
  // Parent and child

  /** Whether `p` is the parent of `c`: a depth-1 node's parent is any
      depth-0 node; a deeper node's parent is one level up and its url,
      followed by a slash, starts the child's url. */
  predicate Adjacent(p: Node, c: Node)
  {
    if c.info.depth == 1 then p.info.depth == 0
    else c.info.depth == p.info.depth + 1 && p.url + "/" <= c.url
  }

  /** Lines 134-147: the new node `c` finds its parent `n`. */
  predicate ParentTest(n: Node, c: Node)
  {
    if c.info.depth == 1 then n.info.depth == 0
    else c.info.depth == n.info.depth + 1 && IndexOf(c.url, n.url + "/") == 0
  }

  /** Lines 148-161: the new node `c` adopts child `n`. */
  predicate ChildTest(c: Node, n: Node)
  {
    if c.info.depth == 0 then n.info.depth == 1
    else n.info.depth == c.info.depth + 1 && IndexOf(n.url, c.url + "/") == 0
  }

  /** Both tests state the parent relation, so whether two nodes are linked
      does not depend on which of them was added first. */
  lemma TestsAgree(p: Node, c: Node)
    ensures ParentTest(p, c) <==> Adjacent(p, c)
    ensures ChildTest(p, c) <==> Adjacent(p, c)
  {
    IndexOfZero(c.url, p.url + "/");
  }

  /** No node is its own parent. */
  lemma NotSelfAdjacent(n: Node)
    ensures !Adjacent(n, n)
  {
  }

  /** The id of `x` if `p` is its parent. */
  function Tail(p: Node, x: Node): seq<string>
  {
    if Adjacent(p, x) then [x.id] else []
  }

  /** The ids, in store order, of the nodes `p` is the parent of. */
  function Adoptees(ns: seq<Node>, p: Node): seq<string>
    decreases |ns|
  {
    if ns == [] then [] else Adoptees(ns[..|ns| - 1], p) + Tail(p, ns[|ns| - 1])
  }

  lemma AdopteesSnoc(ns: seq<Node>, x: Node, p: Node)
    ensures Adoptees(ns + [x], p) == Adoptees(ns, p) + Tail(p, x)
  {
    assert (ns + [x])[..|ns|] == ns;
  }

  /** What the parent relation and the store invariant look at: everything
      but the children. */
  function Key(n: Node): Node
  {
    n.(children := [])
  }

  predicate SameKeys(a: seq<Node>, b: seq<Node>)
  {
    |a| == |b| && forall j :: 0 <= j < |a| ==> Key(a[j]) == Key(b[j])
  }

  /** Adoptees look only at keys. */
  lemma {:induction false} AdopteesKeys(a: seq<Node>, b: seq<Node>, p: Node, q: Node)
    requires SameKeys(a, b) && Key(p) == Key(q)
    ensures Adoptees(a, p) == Adoptees(b, q)
    decreases |a|
  {
    if a != [] {
      var a', b' := a[..|a| - 1], b[..|b| - 1];
      assert a == a' + [a[|a| - 1]] && b == b' + [b[|b| - 1]];
      assert Key(a[|a| - 1]) == Key(b[|b| - 1]);
      AdopteesKeys(a', b', p, q);
      AdopteesSnoc(a', a[|a| - 1], p);
      AdopteesSnoc(b', b[|b| - 1], q);
    }
  }

  /** Adoptees are ids of stored nodes. */
  lemma {:induction false} AdopteesFrom(ns: seq<Node>, p: Node, id: string)
    requires forall j :: 0 <= j < |ns| ==> ns[j].id != id
    ensures id !in Adoptees(ns, p)
    decreases |ns|
  {
    if ns != [] {
      var pre := ns[..|ns| - 1];
      assert ns == pre + [ns[|ns| - 1]];
      AdopteesSnoc(pre, ns[|ns| - 1], p);
      AdopteesFrom(pre, p, id);
    }
  }

  // ---------------------------------------------------------------------
  // The store invariant

  /** Every node belongs to its file and carries its file's record, no two
      nodes share a url, and every node's children are exactly the nodes it
      is the parent of, in store order. */
  ghost predicate StoreOk(env: Env, ns: seq<Node>)
  {
    && EnvOk(env)
    && (forall j :: 0 <= j < |ns| ==> Keyed(env, ns[j]))
    && (forall j {:trigger InfoFor(env, ns[j].absolutePath)} ::
          0 <= j < |ns| ==> InfoFor(env, ns[j].absolutePath) == Ok(ns[j].info))
    && UrlsDistinct(ns)
    && (forall j :: 0 <= j < |ns| ==> ns[j].children == Adoptees(ns, ns[j]))
  }

  predicate UrlsDistinct(ns: seq<Node>)
  {
    forall i, j :: 0 <= i < j < |ns| ==> ns[i].url != ns[j].url
  }

  /** Some stored node has this url. */
  predicate UrlTaken(ns: seq<Node>, url: string)
  {
    exists j :: 0 <= j < |ns| && ns[j].url == url
  }

  /** The first stored node with this url. */
  function FirstWithUrl(ns: seq<Node>, url: string): (k: nat)
    requires UrlTaken(ns, url)
    ensures k < |ns| && ns[k].url == url
    ensures forall j :: 0 <= j < k ==> ns[j].url != url
  {
    if ns[0].url == url then 0
    else
      assert UrlTaken(ns[1..], url) by {
        var j :| 0 <= j < |ns| && ns[j].url == url;
        assert ns[1..][j - 1].url == url;
      }
      1 + FirstWithUrl(ns[1..], url)
  }

  /** The first stored node of this file, or -1. */
  function IndexOfFile(ns: seq<Node>, file: string): (k: int)
    ensures -1 <= k < |ns|
    ensures k >= 0 ==> ns[k].absolutePath == file && forall j :: 0 <= j < k ==> ns[j].absolutePath != file
    ensures k == -1 ==> forall j :: 0 <= j < |ns| ==> ns[j].absolutePath != file
  {
    if ns == [] then -1
    else if ns[0].absolutePath == file then 0
    else
      var k := IndexOfFile(ns[1..], file);
      assert forall j :: 1 <= j < |ns| ==> ns[j] == ns[1..][j - 1];
      if k < 0 then -1 else 1 + k
  }

  /** The node ids of a good store are distinct, and so are its files. */
  lemma IdsDistinct(env: Env, ns: seq<Node>, i: int, j: int)
    requires StoreOk(env, ns) && 0 <= i < |ns| && 0 <= j < |ns| && i != j
    ensures ns[i].id != ns[j].id && ns[i].absolutePath != ns[j].absolutePath
  {
    assert Keyed(env, ns[i]) && Keyed(env, ns[j]);
    assert InfoFor(env, ns[i].absolutePath) == Ok(ns[i].info);
    assert InfoFor(env, ns[j].absolutePath) == Ok(ns[j].info);
    assert ns[i].url != ns[j].url;
    if ns[i].id == ns[j].id {
      IdsOfFiles(env, ns[i].absolutePath, ns[j].absolutePath);
    }
  }

  /** Equal node ids mean the same file. */
  lemma IdsOfFiles(env: Env, a: string, b: string)
    requires EnvOk(env) && IdFor(env, a) == IdFor(env, b)
    ensures a == b
  {
    var x, y := TYPE + env.rootPathOf(a), TYPE + env.rootPathOf(b);
    assert x == y;
    assert x[|TYPE|..] == env.rootPathOf(a) && y[|TYPE|..] == env.rootPathOf(b);
  }

  // ---------------------------------------------------------------------
  // What `add` leaves behind

  /** The store after the link loop over `ns`, whose last node `c` is the new
      one: every stored parent of `c` gets `c`'s id appended to its children
      and `c` gets the ids of its children. */
  function Linked(ns: seq<Node>, c: Node): (r: seq<Node>)
    requires |ns| >= 1 && ns[|ns| - 1] == c
    ensures SameKeys(r, ns)
  {
    seq(|ns|, j requires 0 <= j < |ns| =>
      if j == |ns| - 1 then c.(children := c.children + Adoptees(ns, c)) else WithChild(ns[j], c))
  }

  /** A stored node after the new node `c` is linked in. */
  function WithChild(n: Node, c: Node): Node
  {
    if Adjacent(n, c) then n.(children := n.children + [c.id]) else n
  }

  /** The links the loop emits while visiting `ns`: for each stored node,
      first the one that makes it `c`'s parent, then the one that makes it
      `c`'s child. */
  function LinkLog(ns: seq<Node>, c: Node): seq<Action>
    decreases |ns|
  {
    if ns == [] then []
    else LinkLog(ns[..|ns| - 1], c) + Links(ns[|ns| - 1], c)
  }

  function Links(n: Node, c: Node): seq<Action>
  {
    (if Adjacent(n, c) then [CreateParentChildLink(n.id, c.id)] else [])
    + (if Adjacent(c, n) then [CreateParentChildLink(c.id, n.id)] else [])
  }

  lemma LinkLogSnoc(ns: seq<Node>, x: Node, c: Node)
    ensures LinkLog(ns + [x], c) == LinkLog(ns, c) + Links(x, c)
  {
    assert (ns + [x])[..|ns|] == ns;
  }

  /** The store after the link loop has visited the first `k` nodes. */
  function LinkedPrefix(ns: seq<Node>, c: Node, k: nat): (r: seq<Node>)
    requires |ns| >= 1 && ns[|ns| - 1] == c && k <= |ns|
  {
    seq(|ns|, j requires 0 <= j < |ns| =>
      if j == |ns| - 1 then c.(children := c.children + Adoptees(ns[..k], c))
      else if j < k then WithChild(ns[j], c)
      else ns[j])
  }

  /** One visit of the link loop to `n`, the node at `k`, as lines 132-161
      write it. */
  function StepNodes(p: seq<Node>, k: nat, last: nat, n: Node, c: Node): seq<Node>
    requires k < |p| && last < |p|
  {
    var p1 := if ParentTest(n, c) then p[k := p[k].(children := p[k].children + [c.id])] else p;
    if ChildTest(c, n) then p1[last := p1[last].(children := p1[last].children + [n.id])] else p1
  }

  function StepLog(l: seq<Action>, n: Node, c: Node): seq<Action>
  {
    var l1 := if ParentTest(n, c) then l + [CreateParentChildLink(n.id, c.id)] else l;
    if ChildTest(c, n) then l1 + [CreateParentChildLink(c.id, n.id)] else l1
  }

  lemma LinkedPrefixStart(ns: seq<Node>, c: Node)
    requires |ns| >= 1 && ns[|ns| - 1] == c && c.children == []
    ensures LinkedPrefix(ns, c, 0) == ns
    ensures ns[..0] == []
  {
    assert ns[..0] == [];
    assert c.(children := c.children + Adoptees(ns[..0], c)) == c;
  }

  lemma LinkedPrefixEnd(ns: seq<Node>, c: Node)
    requires |ns| >= 1 && ns[|ns| - 1] == c
    ensures LinkedPrefix(ns, c, |ns|) == Linked(ns, c)
    ensures ns[..|ns|] == ns
  {
    assert ns[..|ns|] == ns;
  }

  /** One visit of the link loop moves the prefix on by one node. */
  lemma LinkStep(ns: seq<Node>, c: Node, k: nat, l: seq<Action>)
    requires |ns| >= 1 && ns[|ns| - 1] == c && k < |ns|
    ensures var p := LinkedPrefix(ns, c, k);
      LinkedPrefix(ns, c, k + 1) == StepNodes(p, k, |ns| - 1, p[k], c)
    ensures var p := LinkedPrefix(ns, c, k);
      l + LinkLog(ns[..k + 1], c) == StepLog(l + LinkLog(ns[..k], c), p[k], c)
  {
    LinkStepNodes(ns, c, k);
    LinkStepLog(ns, c, k, l);
  }

  lemma LinkStepNodes(ns: seq<Node>, c: Node, k: nat)
    requires |ns| >= 1 && ns[|ns| - 1] == c && k < |ns|
    ensures var p := LinkedPrefix(ns, c, k);
      LinkedPrefix(ns, c, k + 1) == StepNodes(p, k, |ns| - 1, p[k], c)
  {
    var last := |ns| - 1;
    var p := LinkedPrefix(ns, c, k);
    var q := LinkedPrefix(ns, c, k + 1);
    var n := p[k];
    var r := StepNodes(p, k, last, n, c);
    assert Key(n) == Key(ns[k]);
    TestsAgree(n, c);
    TestsAgree(c, n);
    assert ns[..k + 1] == ns[..k] + [ns[k]];
    AdopteesSnoc(ns[..k], ns[k], c);
    var a := Adoptees(ns[..k], c);
    if k == last {
      NotSelfAdjacent(c);
      assert !Adjacent(n, c) && !Adjacent(c, n);
      assert Tail(c, ns[k]) == [];
      assert c.children + (a + []) == c.children + a;
    } else {
      assert c.children + (a + Tail(c, ns[k])) == (c.children + a) + Tail(c, ns[k]);
    }
    assert |q| == |r|;
    forall j | 0 <= j < |ns| ensures q[j] == r[j] {
      if j != last && j != k {
        assert q[j] == p[j];
      }
    }
  }

  lemma LinkStepLog(ns: seq<Node>, c: Node, k: nat, l: seq<Action>)
    requires |ns| >= 1 && ns[|ns| - 1] == c && k < |ns|
    ensures var p := LinkedPrefix(ns, c, k);
      l + LinkLog(ns[..k + 1], c) == StepLog(l + LinkLog(ns[..k], c), p[k], c)
  {
    var last := |ns| - 1;
    var p := LinkedPrefix(ns, c, k);
    var n := p[k];
    assert Key(n) == Key(ns[k]);
    TestsAgree(n, c);
    TestsAgree(c, n);
    assert ns[..k + 1] == ns[..k] + [ns[k]];
    LinkLogSnoc(ns[..k], ns[k], c);
    var x := l + LinkLog(ns[..k], c);
    var a := if Adjacent(n, c) then [CreateParentChildLink(n.id, c.id)] else [];
    var b := if Adjacent(c, n) then [CreateParentChildLink(c.id, n.id)] else [];
    assert Links(ns[k], c) == a + b;
    assert l + (LinkLog(ns[..k], c) + (a + b)) == x + a + b;
  }

  // ---------------------------------------------------------------------
  // What `unlink` leaves behind

  /** `children.filter(i => i !== x)`. */
  function Remove(xs: seq<string>, x: string): (r: seq<string>)
    ensures forall y :: y in r <==> y in xs && y != x
    decreases |xs|
  {
    if xs == [] then [] else Remove(xs[..|xs| - 1], x) + (if xs[|xs| - 1] == x then [] else [xs[|xs| - 1]])
  }

  /** `Remove` distributes over concatenation. */
  lemma {:induction false} RemoveAppend(a: seq<string>, b: seq<string>, x: string)
    ensures Remove(a + b, x) == Remove(a, x) + Remove(b, x)
    decreases |b|
  {
    if b == [] {
      assert a + b == a;
    } else {
      assert (a + b)[..|a + b| - 1] == a + b[..|b| - 1];
      RemoveAppend(a, b[..|b| - 1], x);
    }
  }

  /** Removing an id a list does not hold changes nothing. */
  lemma {:induction false} RemoveAbsent(xs: seq<string>, x: string)
    requires x !in xs
    ensures Remove(xs, x) == xs
    decreases |xs|
  {
    if xs != [] {
      RemoveAbsent(xs[..|xs| - 1], x);
    }
  }

  /** Lines 196-204: drop `id` from every children list of a plugin node
      that holds it. */
  function Detach(ns: seq<Node>, id: string): (r: seq<Node>)
    ensures SameKeys(r, ns)
  {
    seq(|ns|, j requires 0 <= j < |ns| => Detached(ns[j], id))
  }

  function Detached(n: Node, id: string): Node
  {
    if n.internal.typ == TYPE && id in n.children then n.(children := Remove(n.children, id)) else n
  }

  /** The store while the detach loop has visited `j` nodes. */
  function DetachedPrefix(ns: seq<Node>, id: string, j: nat): seq<Node>
  {
    seq(|ns|, m requires 0 <= m < |ns| => if m < j then Detached(ns[m], id) else ns[m])
  }

  lemma DetachStep(ns: seq<Node>, id: string, j: nat)
    requires j < |ns|
    ensures DetachedPrefix(ns, id, j + 1) == DetachedPrefix(ns, id, j)[j := Detached(ns[j], id)]
    ensures Touches(ns[..j + 1], id) == Touches(ns[..j], id) + Touch(ns[j], id)
  {
    assert ns[..j + 1] == ns[..j] + [ns[j]];
    TouchesSnoc(ns[..j], ns[j], id);
  }

  lemma DetachedPrefixEnd(ns: seq<Node>, id: string)
    ensures DetachedPrefix(ns, id, |ns|) == Detach(ns, id)
    ensures ns[..|ns|] == ns
  {
  }

  /** One `touchNode` per node Detach changes, in store order. */
  function Touches(ns: seq<Node>, id: string): seq<Action>
    decreases |ns|
  {
    if ns == [] then [] else Touches(ns[..|ns| - 1], id) + Touch(ns[|ns| - 1], id)
  }

  function Touch(n: Node, id: string): seq<Action>
  {
    if n.internal.typ == TYPE && id in n.children then [TouchNode(n.id)] else []
  }

  lemma TouchesSnoc(ns: seq<Node>, x: Node, id: string)
    ensures Touches(ns + [x], id) == Touches(ns, id) + Touch(x, id)
  {
    assert (ns + [x])[..|ns|] == ns;
  }

  /** `deleteNode`: the store drops the entry keyed by the node's id. */
  function Without(ns: seq<Node>, id: string): (r: seq<Node>)
    decreases |ns|
  {
    if ns == [] then [] else Without(ns[..|ns| - 1], id) + (if ns[|ns| - 1].id == id then [] else [ns[|ns| - 1]])
  }

  lemma WithoutSnoc(ns: seq<Node>, x: Node, id: string)
    ensures Without(ns + [x], id) == Without(ns, id) + (if x.id == id then [] else [x])
  {
    assert (ns + [x])[..|ns|] == ns;
  }

  /** The store after `unlink(file)` as the comments at lines 189-195 and the
      filter at line 201 intend: the node's children list is cleared, its id
      is dropped from every other children list, and the node is deleted.
      Without a node for the file nothing changes. */
  function Unlinked(ns: seq<Node>, file: string): seq<Node>
  {
    var k := IndexOfFile(ns, file);
    if k < 0 then ns else Without(Detach(Cleared(ns, k), ns[k].id), ns[k].id)
  }

  /** The stored node with its children cleared (line 191). */
  function Cleared(ns: seq<Node>, k: nat): (r: seq<Node>)
    requires k < |ns|
    ensures SameKeys(r, ns) && r[k].children == []
  {
    ns[k := ns[k].(children := [])]
  }

  /** The actions of that `unlink`: the touches, then `deleteNode` and
      `deletePage` for the node. */
  function UnlinkLog(ns: seq<Node>, file: string): seq<Action>
  {
    var k := IndexOfFile(ns, file);
    if k < 0 then []
    else
      var node := ns[k].(children := []);
      Touches(Cleared(ns, k), node.id) + [DeleteNode(node), DeletePage(node.url, node.templatePath)]
  }

  // ---------------------------------------------------------------------
  // The handlers

  datatype AddOutcome = Created | Skipped | Failed(error: PathError)

  class Synchronizer {
    const env: Env
    var nodes: seq<Node>
    var log: seq<Action>

    ghost predicate Valid()
      reads this`nodes
    {
      StoreOk(env, nodes)
    }

    constructor (env: Env)
      requires EnvOk(env)
      ensures this.env == env && nodes == [] && log == []
      ensures Valid()
    {
      this.env := env;
      nodes := [];
      log := [];
    }

    /** Lines 82-115: the node for a file, or the error `pathinfo` throws.
        The record's extension is read before `indexify` clears it. */
    method MakeNode(file: string, stats: Stats, digest: string) returns (r: Result<Node, PathError>)
      ensures r == NodeFor(env, file, stats, digest)
    {
      var relative := env.relativeOf(file);
      var rootPath := env.rootPathOf(file);
      var index := env.isIndex(file);
      var parsed := Parse(relative);
      if parsed.Err? {
        return Err(parsed.error);
      }
      var record := new InfoRecord(parsed.value);
      var extension := record.extension;
      if index {
        var _ := Indexify(record);
      }
      var info := record.Value();
      r := Ok(Node(info, env.createNodeId(TYPE + rootPath), file, relative, rootPath,
        env.templatePath, index, ReplaceFirst(env.templateURL, SLUG_PLACEHOLDER, info.slug),
        stats.size, env.prettyBytes(stats.size), stats.mtime, stats.atime, stats.ctime, stats.birthtime,
        Internal(TYPE, TYPE + ": " + rootPath, env.mediaTypeOf(extension), digest), []));
    }

    /** Lines 118-124: the position of the first stored node with the new
        node's url, or -1. */
    method FindDuplicate(node: Node) returns (k: int)
      requires node.internal.typ == TYPE
      ensures k == -1 <==> !UrlTaken(nodes, node.url)
      ensures k != -1 ==> UrlTaken(nodes, node.url) && k == FirstWithUrl(nodes, node.url)
    {
      for i := 0 to |nodes|
        invariant forall j :: 0 <= j < i ==> nodes[j].url != node.url
      {
        if node.internal.typ == TYPE && nodes[i].url == node.url {
          return i;
        }
      }
      return -1;
    }

    /** Lines 127-173 for a node whose url is free: store it, link it with
        its parents and children, and create its page and the page's
        dependency on it. */
    method Insert(c: Node)
      requires c.internal.typ == TYPE && c.children == []
      requires forall j :: 0 <= j < |nodes| ==> nodes[j].internal.typ == TYPE
      modifies this
      ensures nodes == Linked(old(nodes) + [c], c)
      ensures log == old(log) + [CreateNode(c)] + LinkLog(old(nodes) + [c], c)
        + [CreatePage(c.url, c.templatePath, nodes[|nodes| - 1]), CreatePageDependency(c.url, c.id)]
    {
      // Save node.
      nodes := nodes + [c];
      log := log + [CreateNode(c)];
      // Link with parents and children.
      LinkIn(c);
      // Create page and page dependency.
      log := log + [CreatePage(c.url, c.templatePath, nodes[|nodes| - 1]), CreatePageDependency(c.url, c.id)];
    }

    /** Lines 132-161: link the last stored node `c` with every stored node
        one of the two tests accepts, emitting one `createParentChildLink`
        per link. */
    method LinkIn(c: Node)
      requires |nodes| >= 1 && nodes[|nodes| - 1] == c && c.children == []
      requires forall j :: 0 <= j < |nodes| ==> nodes[j].internal.typ == TYPE
      modifies this
      ensures nodes == Linked(old(nodes), c)
      ensures log == old(log) + LinkLog(old(nodes), c)
    {
      ghost var s := nodes;
      var last := |nodes| - 1;
      LinkedPrefixStart(s, c);
      for k := 0 to |nodes|
        invariant nodes == LinkedPrefix(s, c, k)
        invariant log == old(log) + LinkLog(s[..k], c)
      {
        var n := nodes[k];
        LinkStep(s, c, k, old(log));
        if n.internal.typ == TYPE {
          if ParentTest(n, c) {
            nodes := nodes[k := nodes[k].(children := nodes[k].children + [c.id])];
            log := log + [CreateParentChildLink(n.id, c.id)];
          }
          if ChildTest(c, n) {
            nodes := nodes[last := nodes[last].(children := nodes[last].children + [n.id])];
            log := log + [CreateParentChildLink(c.id, n.id)];
          }
        }
      }
      LinkedPrefixEnd(s, c);
    }

    /** The `add` handler, lines 76-179. A file whose path `pathinfo`
        rejects changes nothing (the handler panics). A file whose url is
        taken gets one warning and changes nothing else. Otherwise the node
        is stored and created, linked with its parents and children, and its
        page and page dependency are created. */
    method Add(file: string, stats: Stats, digest: string) returns (outcome: AddOutcome)
      requires Valid()
      modifies this
      ensures Valid()
      ensures var r := NodeFor(env, file, stats, digest);
        r.Err? ==> outcome == Failed(r.error) && nodes == old(nodes) && log == old(log)
      ensures var r := NodeFor(env, file, stats, digest);
        r.Ok? && UrlTaken(old(nodes), r.value.url) ==>
          && outcome == Skipped && nodes == old(nodes)
          && log == old(log) + [Warn(old(nodes)[FirstWithUrl(old(nodes), r.value.url)].rootPath, r.value.rootPath)]
      ensures var r := NodeFor(env, file, stats, digest);
        r.Ok? && !UrlTaken(old(nodes), r.value.url) ==>
          var s := old(nodes) + [r.value];
          && outcome == Created
          && nodes == Linked(s, r.value)
          && log == old(log) + [CreateNode(r.value)] + LinkLog(s, r.value)
               + [CreatePage(r.value.url, r.value.templatePath, nodes[|nodes| - 1]),
                  CreatePageDependency(r.value.url, r.value.id)]
    {
      var made := MakeNode(file, stats, digest);
      if made.Err? {
        return Failed(made.error);
      }
      var node := made.value;

      // Duplicate check.
      var k := FindDuplicate(node);
      if k != -1 {
        log := log + [Warn(nodes[k].rootPath, node.rootPath)];
        return Skipped;
      }

      ghost var s0 := nodes;
      forall j | 0 <= j < |nodes| ensures nodes[j].internal.typ == TYPE {
        assert Keyed(env, nodes[j]);
      }
      Insert(node);
      LinkedKeepsStore(env, s0, node);
      return Created;
    }

    /** Lines 196-204: drop `id` from every children list holding it,
        touching each node changed. */
    method DetachAll(id: string)
      modifies this
      ensures nodes == Detach(old(nodes), id)
      ensures log == old(log) + Touches(old(nodes), id)
    {
      ghost var c := nodes;
      for j := 0 to |nodes|
        invariant nodes == DetachedPrefix(c, id, j)
        invariant log == old(log) + Touches(c[..j], id)
      {
        DetachStep(c, id, j);
        var n := nodes[j];
        if n.internal.typ == TYPE && id in n.children {
          nodes := nodes[j := n.(children := Remove(n.children, id))];
          log := log + [TouchNode(n.id)];
        }
      }
      DetachedPrefixEnd(c, id);
    }

    /** Lines 191-212 for the node at `k`: its children list is cleared, it
        is detached from every children list, and it is deleted with its
        page. */
    method DropNode(k: nat)
      requires k < |nodes|
      modifies this
      ensures var id := old(nodes)[k].id;
        nodes == Without(Detach(Cleared(old(nodes), k), id), id)
      ensures var node := old(nodes)[k].(children := []);
        log == old(log) + Touches(Cleared(old(nodes), k), node.id)
          + [DeleteNode(node), DeletePage(node.url, node.templatePath)]
    {
      // Unset the children list first.
      nodes := nodes[k := nodes[k].(children := [])];
      var node := nodes[k];
      // Remove the node from every children list.
      DetachAll(node.id);
      // Delete node, then page.
      log := log + [DeleteNode(node), DeletePage(node.url, node.templatePath)];
      nodes := Without(nodes, node.id);
    }

    /** The `unlink` handler, lines 180-220, with the test of line 198 read
        as its comments and line 201 intend: every plugin node of the file
        has its children cleared, is detached from its parents, and is
        deleted with its page. */
    method Unlink(file: string)
      requires Valid()
      modifies this
      ensures Valid()
      ensures nodes == Unlinked(old(nodes), file)
      ensures log == old(log) + UnlinkLog(old(nodes), file)
    {
      UnlinkRemovesNode(env, nodes, file);
      UnlinkedKeepsStore(env, nodes, file);
      assert forall j :: 0 <= j < |nodes| ==> Keyed(env, nodes[j]);
      Sweep(file);
    }

    /** The loop of lines 187-188 over the live store: the first plugin node
        of the file is dropped, and the loop then runs on over what is left,
        where no node of the file remains. */
    method Sweep(file: string)
      requires forall j :: 0 <= j < |nodes| ==> nodes[j].internal.typ == TYPE
      requires forall j :: 0 <= j < |Unlinked(nodes, file)| ==> Unlinked(nodes, file)[j].absolutePath != file
      modifies this
      ensures nodes == Unlinked(old(nodes), file)
      ensures log == old(log) + UnlinkLog(old(nodes), file)
    {
      ghost var s := nodes;
      ghost var done := false;
      var i := 0;
      while i < |nodes|
        invariant !done ==> nodes == s && log == old(log) && i <= |s|
        invariant !done ==> IndexOfFile(s, file) == -1 || IndexOfFile(s, file) >= i
        invariant done ==> nodes == Unlinked(s, file) && log == old(log) + UnlinkLog(s, file)
        decreases (if done then 0 else 1), |nodes| - i
      {
        if nodes[i].internal.typ == TYPE && nodes[i].absolutePath == file {
          assert !done;
          assert IndexOfFile(s, file) == i;
          DropNode(i);
          done := true;
        } else {
          i := i + 1;
        }
      }
      if !done {
        assert IndexOfFile(s, file) == -1;
      }
    }
  }

  // ---------------------------------------------------------------------
  // Lemmas behind the handlers

  /** A new url keeps the store good once the node is linked in. */
  lemma LinkedKeepsStore(env: Env, ns: seq<Node>, c: Node)
    requires StoreOk(env, ns) && Keyed(env, c) && c.children == []
    requires InfoFor(env, c.absolutePath) == Ok(c.info) && !UrlTaken(ns, c.url)
    ensures StoreOk(env, Linked(ns + [c], c))
  {
    LinkedKeyed(env, ns, c);
    LinkedUrls(ns, c);
    LinkedChildren(ns, c);
  }

  /** Linking changes children lists only, so every node keeps its keys. */
  lemma LinkedKeyed(env: Env, ns: seq<Node>, c: Node)
    requires StoreOk(env, ns) && Keyed(env, c) && InfoFor(env, c.absolutePath) == Ok(c.info)
    ensures var r := Linked(ns + [c], c);
      && (forall j :: 0 <= j < |r| ==> Keyed(env, r[j]))
      && (forall j {:trigger InfoFor(env, r[j].absolutePath)} ::
            0 <= j < |r| ==> InfoFor(env, r[j].absolutePath) == Ok(r[j].info))
  {
    var s := ns + [c];
    var r := Linked(s, c);
    forall j | 0 <= j < |r| ensures Keyed(env, r[j]) && InfoFor(env, r[j].absolutePath) == Ok(r[j].info) {
      assert Key(r[j]) == Key(s[j]);
      if j < |ns| {
        assert s[j] == ns[j];
        assert Keyed(env, ns[j]);
        assert InfoFor(env, ns[j].absolutePath) == Ok(ns[j].info);
      }
    }
  }

  /** A node with a new url keeps the urls distinct. */
  lemma LinkedUrls(ns: seq<Node>, c: Node)
    requires UrlsDistinct(ns) && !UrlTaken(ns, c.url)
    ensures UrlsDistinct(Linked(ns + [c], c))
  {
    var s := ns + [c];
    var r := Linked(s, c);
    forall i, j | 0 <= i < j < |r| ensures r[i].url != r[j].url {
      assert Key(r[i]) == Key(s[i]) && Key(r[j]) == Key(s[j]);
      assert s[i] == ns[i];
      if j < |ns| {
        assert s[j] == ns[j];
      }
    }
  }

  /** After linking, every children list is the list of its adoptees. */
  lemma LinkedChildren(ns: seq<Node>, c: Node)
    requires forall j :: 0 <= j < |ns| ==> ns[j].children == Adoptees(ns, ns[j])
    requires c.children == []
    ensures var r := Linked(ns + [c], c);
      forall j :: 0 <= j < |r| ==> r[j].children == Adoptees(r, r[j])
  {
    var r := Linked(ns + [c], c);
    forall j | 0 <= j < |r| ensures r[j].children == Adoptees(r, r[j]) {
      LinkedChildAt(ns, c, j);
    }
  }

  lemma LinkedChildAt(ns: seq<Node>, c: Node, j: nat)
    requires j < |ns| ==> ns[j].children == Adoptees(ns, ns[j])
    requires c.children == [] && j <= |ns|
    ensures var r := Linked(ns + [c], c);
      r[j].children == Adoptees(r, r[j])
  {
    var s := ns + [c];
    var r := Linked(s, c);
    assert SameKeys(r, s);
    AdopteesKeys(r, s, r[j], s[j]);
    if j < |ns| {
      assert s[j] == ns[j] && r[j] == WithChild(ns[j], c);
      assert r[j].children == ns[j].children + Tail(ns[j], c);
      AdopteesSnoc(ns, c, ns[j]);
    } else {
      assert s[j] == c && r[j].children == [] + Adoptees(s, c);
    }
  }

  /** Deleting by id keeps the order of what remains. */
  lemma {:induction false} WithoutKeys(a: seq<Node>, b: seq<Node>, id: string)
    requires SameKeys(a, b)
    ensures SameKeys(Without(a, id), Without(b, id))
    decreases |a|
  {
    if a != [] {
      var a', b' := a[..|a| - 1], b[..|b| - 1];
      assert a == a' + [a[|a| - 1]] && b == b' + [b[|b| - 1]];
      assert Key(a[|a| - 1]) == Key(b[|b| - 1]);
      WithoutKeys(a', b', id);
      WithoutSnoc(a', a[|a| - 1], id);
      WithoutSnoc(b', b[|b| - 1], id);
    }
  }

  /** Every node `Without` keeps is a node of the store with another id. */
  lemma {:induction false} WithoutFrom(a: seq<Node>, id: string, j: int) returns (o: int)
    requires 0 <= j < |Without(a, id)|
    ensures 0 <= o < |a| && Without(a, id)[j] == a[o] && a[o].id != id
    decreases |a|
  {
    var a' := a[..|a| - 1];
    assert a == a' + [a[|a| - 1]];
    WithoutSnoc(a', a[|a| - 1], id);
    if j < |Without(a', id)| {
      o := WithoutFrom(a', id, j);
    } else {
      o := |a| - 1;
    }
  }

  /** Urls are keys. */
  lemma KeysDistinct(a: seq<Node>, b: seq<Node>)
    requires SameKeys(a, b) && UrlsDistinct(b)
    ensures UrlsDistinct(a)
  {
    forall i, j | 0 <= i < j < |a| ensures a[i].url != a[j].url {
      assert Key(a[i]) == Key(b[i]) && Key(a[j]) == Key(b[j]);
    }
  }

  /** `Without` keeps urls distinct. */
  lemma {:induction false} WithoutDistinct(a: seq<Node>, id: string)
    requires UrlsDistinct(a)
    ensures UrlsDistinct(Without(a, id))
    decreases |a|
  {
    if a != [] {
      var a', x := a[..|a| - 1], a[|a| - 1];
      assert a == a' + [x];
      WithoutSnoc(a', x, id);
      WithoutDistinct(a', id);
      var w := Without(a', id);
      forall j | 0 <= j < |w| ensures w[j].url != x.url {
        var o := WithoutFrom(a', id, j);
      }
    }
  }

  /** Nothing to delete, nothing deleted. */
  lemma {:induction false} WithoutAbsent(a: seq<Node>, id: string)
    requires forall j :: 0 <= j < |a| ==> a[j].id != id
    ensures Without(a, id) == a
    decreases |a|
  {
    if a != [] {
      var a' := a[..|a| - 1];
      assert a == a' + [a[|a| - 1]];
      WithoutSnoc(a', a[|a| - 1], id);
      WithoutAbsent(a', id);
    }
  }

  /** Deleting node `id` takes `id` out of every children list computed over
      the store. */
  lemma {:induction false} AdopteesWithout(ns: seq<Node>, id: string, p: Node)
    ensures Adoptees(Without(ns, id), p) == Remove(Adoptees(ns, p), id)
    decreases |ns|
  {
    if ns != [] {
      var pre, last := ns[..|ns| - 1], ns[|ns| - 1];
      assert ns == pre + [last];
      AdopteesSnoc(pre, last, p);
      WithoutSnoc(pre, last, id);
      AdopteesWithout(pre, id, p);
      RemoveAppend(Adoptees(pre, p), Tail(p, last), id);
      if last.id != id {
        AdopteesSnoc(Without(pre, id), last, p);
        assert Remove(Tail(p, last), id) == Tail(p, last);
      } else {
        assert Without(ns, id) == Without(pre, id);
        assert Remove(Tail(p, last), id) == [];
        assert Remove(Adoptees(ns, p), id) == Remove(Adoptees(pre, p), id);
      }
    }
  }

  /** `unlink` keeps the store good. */
  lemma UnlinkedKeepsStore(env: Env, ns: seq<Node>, file: string)
    requires StoreOk(env, ns)
    ensures StoreOk(env, Unlinked(ns, file))
  {
    var k := IndexOfFile(ns, file);
    if k >= 0 {
      var id := ns[k].id;
      var c := Cleared(ns, k);
      var d := Detach(c, id);
      var r := Without(d, id);
      assert SameKeys(d, ns);
      WithoutKeys(d, ns, id);
      forall j | 0 <= j < |r|
        ensures Keyed(env, r[j]) && InfoFor(env, r[j].absolutePath) == Ok(r[j].info)
        ensures r[j].children == Adoptees(r, r[j])
      {
        var o := WithoutFrom(d, id, j);
        assert Key(d[o]) == Key(ns[o]);
        UnlinkedAt(env, ns, k, o);
        AdopteesWithout(ns, id, ns[o]);
        AdopteesKeys(r, Without(ns, id), r[j], ns[o]);
      }
      KeysDistinct(d, ns);
      WithoutDistinct(d, id);
    }
  }

  /** A node of another id keeps its keys through `unlink`, and its children
      list loses exactly the deleted id. */
  lemma UnlinkedAt(env: Env, ns: seq<Node>, k: int, o: int)
    requires StoreOk(env, ns) && 0 <= k < |ns| && 0 <= o < |ns| && ns[o].id != ns[k].id
    ensures var d := Detach(Cleared(ns, k), ns[k].id);
      && Key(d[o]) == Key(ns[o])
      && Keyed(env, d[o]) && InfoFor(env, d[o].absolutePath) == Ok(d[o].info)
      && d[o].children == Remove(Adoptees(ns, ns[o]), ns[k].id)
  {
    var id := ns[k].id;
    var c := Cleared(ns, k);
    assert c[o] == ns[o];
    assert Keyed(env, ns[o]);
    assert InfoFor(env, ns[o].absolutePath) == Ok(ns[o].info);
    assert ns[o].children == Adoptees(ns, ns[o]);
    if id !in ns[o].children {
      RemoveAbsent(ns[o].children, id);
    }
  }

  // ---------------------------------------------------------------------
  // Properties of add and unlink

  /** Adding a file and then unlinking it gives back the store it started
      from. */
  lemma AddThenUnlink(env: Env, ns: seq<Node>, c: Node)
    requires StoreOk(env, ns) && Keyed(env, c) && c.children == []
    requires InfoFor(env, c.absolutePath) == Ok(c.info) && !UrlTaken(ns, c.url)
    ensures Unlinked(Linked(ns + [c], c), c.absolutePath) == ns
  {
    FreshNode(env, ns, c);
    UnlinkFresh(ns, c);
  }

  /** Unlinking a node no stored node shares a file or an id with, and no
      stored node lists as a child, undoes linking it in. */
  lemma UnlinkFresh(ns: seq<Node>, c: Node)
    requires forall j :: 0 <= j < |ns| ==> ns[j].absolutePath != c.absolutePath && ns[j].id != c.id
    requires forall j :: 0 <= j < |ns| ==> c.id !in ns[j].children && ns[j].internal.typ == TYPE
    ensures Unlinked(Linked(ns + [c], c), c.absolutePath) == ns
  {
    var l := Linked(ns + [c], c);
    var file := c.absolutePath;
    forall j | 0 <= j < |ns| ensures l[j].absolutePath != file {
      assert Key(l[j]) == Key(ns[j]);
    }
    assert |l| == |ns| + 1 && l[|ns|].absolutePath == file;
    assert IndexOfFile(l, file) == |ns|;
    var d := Detach(Cleared(l, |ns|), c.id);
    assert Unlinked(l, file) == Without(d, c.id);
    DetachLinked(ns, c);
    assert d == ns + [d[|ns|]];
    WithoutSnoc(ns, d[|ns|], c.id);
    WithoutAbsent(ns, c.id);
  }

  /** A node whose url is not taken belongs to no stored file and has a
      fresh id and no stored node lists it as a child. */
  lemma FreshNode(env: Env, ns: seq<Node>, c: Node)
    requires StoreOk(env, ns) && Keyed(env, c) && InfoFor(env, c.absolutePath) == Ok(c.info)
    requires !UrlTaken(ns, c.url)
    ensures forall j :: 0 <= j < |ns| ==> ns[j].absolutePath != c.absolutePath && ns[j].id != c.id
    ensures forall j :: 0 <= j < |ns| ==> c.id !in ns[j].children && ns[j].internal.typ == TYPE
  {
    forall j | 0 <= j < |ns| ensures ns[j].absolutePath != c.absolutePath && ns[j].id != c.id {
      assert Keyed(env, ns[j]) && ns[j].url != c.url;
      if ns[j].id == c.id {
        IdsOfFiles(env, ns[j].absolutePath, c.absolutePath);
      }
    }
    forall j | 0 <= j < |ns| ensures c.id !in ns[j].children && ns[j].internal.typ == TYPE {
      assert Keyed(env, ns[j]);
      AdopteesFrom(ns, ns[j], c.id);
    }
  }

  /** Detaching the new node undoes the links `add` made. */
  lemma DetachLinked(ns: seq<Node>, c: Node)
    requires forall j :: 0 <= j < |ns| ==> c.id !in ns[j].children && ns[j].internal.typ == TYPE
    ensures var d := Detach(Cleared(Linked(ns + [c], c), |ns|), c.id);
      |d| == |ns| + 1 && forall j :: 0 <= j < |ns| ==> d[j] == ns[j]
  {
    var l := Linked(ns + [c], c);
    var cl := Cleared(l, |ns|);
    var d := Detach(cl, c.id);
    forall j | 0 <= j < |ns| ensures d[j] == ns[j] {
      assert cl[j] == l[j];
      if Adjacent(ns[j], c) {
        assert l[j] == ns[j].(children := ns[j].children + [c.id]);
        RemoveAppend(ns[j].children, [c.id], c.id);
        RemoveAbsent(ns[j].children, c.id);
        assert Remove([c.id], c.id) == [];
      } else {
        assert l[j] == ns[j];
      }
    }
  }

  /** After `unlink(file)` no node of that file is left and no children list
      names it; every node of another file is kept. Without a node for the
      file the store is unchanged. */
  lemma UnlinkRemovesNode(env: Env, ns: seq<Node>, file: string)
    requires StoreOk(env, ns)
    ensures var r := Unlinked(ns, file);
      && (forall j :: 0 <= j < |r| ==> r[j].absolutePath != file)
      && (IndexOfFile(ns, file) >= 0 ==>
            forall j :: 0 <= j < |r| ==> ns[IndexOfFile(ns, file)].id !in r[j].children)
      && (IndexOfFile(ns, file) < 0 ==> r == ns)
  {
    var k := IndexOfFile(ns, file);
    if k >= 0 {
      var id := ns[k].id;
      var c := Cleared(ns, k);
      var d := Detach(c, id);
      var r := Without(d, id);
      forall j | 0 <= j < |r| ensures r[j].absolutePath != file && id !in r[j].children {
        var o := WithoutFrom(d, id, j);
        assert Key(d[o]) == Key(c[o]);
        if o != k {
          IdsDistinct(env, ns, o, k);
          assert Keyed(env, ns[o]);
        }
      }
    }
  }

  /** A node of another file survives `unlink(file)`, with the same keys. */
  lemma UnlinkKeepsOthers(env: Env, ns: seq<Node>, file: string, o: int)
    requires StoreOk(env, ns) && 0 <= o < |ns| && ns[o].absolutePath != file
    ensures exists j :: 0 <= j < |Unlinked(ns, file)| && Key(Unlinked(ns, file)[j]) == Key(ns[o])
  {
    var k := IndexOfFile(ns, file);
    if k >= 0 {
      var id := ns[k].id;
      var d := Detach(Cleared(ns, k), id);
      IdsDistinct(env, ns, o, k);
      assert Key(d[o]) == Key(Cleared(ns, k)[o]) == Key(ns[o]);
      var j := WithoutKeeps(d, id, o);
      assert Unlinked(ns, file) == Without(d, id);
      assert Key(Unlinked(ns, file)[j]) == Key(ns[o]);
    } else {
      assert Unlinked(ns, file)[o] == ns[o];
    }
  }

  /** Every node of another id is kept by `Without`. */
  lemma {:induction false} WithoutKeeps(a: seq<Node>, id: string, o: int) returns (j: int)
    requires 0 <= o < |a| && a[o].id != id
    ensures 0 <= j < |Without(a, id)| && Without(a, id)[j] == a[o]
    decreases |a|
  {
    var a' := a[..|a| - 1];
    assert a == a' + [a[|a| - 1]];
    WithoutSnoc(a', a[|a| - 1], id);
    if o < |a| - 1 {
      j := WithoutKeeps(a', id, o);
    } else {
      j := |Without(a', id)|;
    }
  }

  // ---------------------------------------------------------------------
  // The url of a node

  /** With the default template `/:slug` a node's url is a slash and its
      slug; with any template starting with a slash, so does the url. */
  lemma UrlShape(env: Env, info: PathInfo)
    ensures env.templateURL == URL ==> UrlFor(env, info) == "/" + info.slug
    ensures |env.templateURL| >= 1 && env.templateURL[0] == '/' ==>
      |UrlFor(env, info)| >= 1 && UrlFor(env, info)[0] == '/'
  {
    var t := env.templateURL;
    var k := IndexOf(t, SLUG_PLACEHOLDER);
    if t == URL {
      assert t[1..6] == SLUG_PLACEHOLDER;
      assert MatchAt(t, SLUG_PLACEHOLDER, 1);
      assert t[0..5][0] == '/';
      assert !MatchAt(t, SLUG_PLACEHOLDER, 0);
      assert k == 1;
      assert t[..1] == "/" && t[6..] == "";
    }
    if |t| >= 1 && t[0] == '/' && k >= 0 {
      assert MatchAt(t, SLUG_PLACEHOLDER, k);
      assert t[k..k + 5][0] == ':';
      assert k != 0;
    }
  }

  // ---------------------------------------------------------------------
  // Line 198 as written

  /** `unlink(file)` as line 198 is written. `n.includes(node.id)` calls a
      method nodes do not have, so the first plugin node the inner loop
      visits throws a TypeError (caught, reported with `panic` and thrown
      again). By then line 191 has emptied the node's children list in the
      store; nothing is touched or deleted. The flag says whether the
      handler threw. */
  function UnlinkAsWritten(ns: seq<Node>, file: string): (seq<Node>, bool)
  {
    var k := IndexOfFile(ns, file);
    if k < 0 then (ns, false) else (Cleared(ns, k), true)
  }

  /** As written, unlinking a stored file throws and leaves its node in the
      store with no children, where the intended `unlink` removes it. */
  lemma UnlinkAsWrittenKeepsNode(env: Env, ns: seq<Node>, file: string)
    requires StoreOk(env, ns) && IndexOfFile(ns, file) >= 0
    ensures var (r, threw) := UnlinkAsWritten(ns, file);
      && threw
      && |r| == |ns|
      && r[IndexOfFile(ns, file)].absolutePath == file
      && r[IndexOfFile(ns, file)].children == []
    ensures forall j :: 0 <= j < |Unlinked(ns, file)| ==> Unlinked(ns, file)[j].absolutePath != file
  {
    UnlinkRemovesNode(env, ns, file);
  }
}
