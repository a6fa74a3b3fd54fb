/** The option checks at the top of src/createPagesStatefully.js (lines
    18-49) and the normalised page URL template (line 68). Options arrive as
    JavaScript values; destructuring defaults fill in the ones that are
    `undefined`, and the first failing check panics, which ends the build. */
module Validation {
  import opened Strings
  import opened Constants
  import opened Helpers
  import opened Records

  /** The JavaScript values an option can hold. Numbers are integers here. */
  datatype JsValue =
    | Undefined
    | Null
    | Bool(b: bool)
    | Number(n: int)
    | Str(s: string)
    | Array(items: seq<JsValue>)
    | Object

  /** `!v` holds. */
  predicate Falsy(v: JsValue)
  {
    v.Undefined? || v.Null? || v == Bool(false) || v == Number(0) || v == Str("")
  }

  /** The plugin options as given. */
  datatype PluginOptions = PluginOptions(
    path: JsValue,
    template: JsValue,
    url: JsValue,
    includes: JsValue,
    ignores: JsValue,
    indexes: JsValue,
    debug: JsValue)

  /** A destructuring default: it replaces `undefined` only, not `null`. */
  function Default(v: JsValue, d: JsValue): JsValue
  {
    if v.Undefined? then d else v
  }

  function StrArray(xs: seq<string>): JsValue
  {
    Array(seq(|xs|, i requires 0 <= i < |xs| => Str(xs[i])))
  }

  /** The options after the defaults of lines 23-27: url `/:slug`, include
      `*.md` and `*.markdown`, ignore none, indexes `index.*` and `README.*`,
      debug off. Path and template have no default. */
  function Resolve(o: PluginOptions): PluginOptions
  {
    PluginOptions(
      o.path,
      o.template,
      Default(o.url, Str(URL)),
      Default(o.includes, StrArray(INCLUDE)),
      Default(o.ignores, Array([])),
      Default(o.indexes, StrArray(INDEXES)),
      Default(o.debug, Bool(false)))
  }

  /** The checks of lines 32-49, in the order they run. */
  datatype OptionError =
    | PathRequired
    | PathNotString
    | TemplateRequired
    | TemplateNotString
    | UrlNotString
    | IncludeNotArray
    | IncludeNotStrings
    | IgnoreNotArray
    | IgnoreNotStrings
    | IndexesNotArray
    | IndexesNotStrings

  /** Where a check stands in that order. */
  function Rank(e: OptionError): nat
  {
    match e
    case PathRequired => 0
    case PathNotString => 1
    case TemplateRequired => 2
    case TemplateNotString => 3
    case UrlNotString => 4
    case IncludeNotArray => 5
    case IncludeNotStrings => 6
    case IgnoreNotArray => 7
    case IgnoreNotStrings => 8
    case IndexesNotArray => 9
    case IndexesNotStrings => 10
  }

  /** `v` is an array with an element that is not a string. */
  predicate HasNonString(v: JsValue)
  {
    v.Array? && exists i :: 0 <= i < |v.items| && !v.items[i].Str?
  }

  /** The resolved options fail check `e`. */
  predicate Violates(o: PluginOptions, e: OptionError)
  {
    match e
    case PathRequired => Falsy(o.path)
    case PathNotString => !o.path.Str?
    case TemplateRequired => Falsy(o.template)
    case TemplateNotString => !o.template.Str?
    case UrlNotString => !o.url.Str?
    case IncludeNotArray => !o.includes.Array?
    case IncludeNotStrings => HasNonString(o.includes)
    case IgnoreNotArray => !o.ignores.Array?
    case IgnoreNotStrings => HasNonString(o.ignores)
    case IndexesNotArray => !o.indexes.Array?
    case IndexesNotStrings => HasNonString(o.indexes)
  }

  /** The option each check is about. */
  function OptionName(e: OptionError): string
  {
    match e
    case PathRequired => "path"
    case PathNotString => "path"
    case TemplateRequired => "template"
    case TemplateNotString => "template"
    case UrlNotString => "url"
    case IncludeNotArray => "include"
    case IncludeNotStrings => "include"
    case IgnoreNotArray => "ignore"
    case IgnoreNotStrings => "ignore"
    case IndexesNotArray => "indexes"
    case IndexesNotStrings => "indexes"
  }

  /** What each check says is wrong with its option. */
  function Complaint(e: OptionError): string
  {
    match e
    case PathRequired => "is required"
    case PathNotString => "must be string"
    case TemplateRequired => "is required"
    case TemplateNotString => "is required"
    case UrlNotString => "must be string"
    case IncludeNotArray => "must be array of strings"
    case IncludeNotStrings => "must be array of strings"
    case IgnoreNotArray => "must be array of strings"
    case IgnoreNotStrings => "must be array of strings"
    case IndexesNotArray => "must be array of strings"
    case IndexesNotStrings => "must be array of strings"
  }

  /** The text each check panics with, after the plugin's prefix: the
      option's name, then the complaint. A template that is not a string is
      reported as missing (line 35), as the source has it; an include that
      is not an array gets include's text, where line 37 as written names
      the path instead (see `TextAsWritten`). */
  function Text(e: OptionError): string
  {
    "options." + OptionName(e) + " " + Complaint(e)
  }

  /** The texts as lines 32-49 write them: line 37 reports an include that
      is not an array as a missing path. */
  function TextAsWritten(e: OptionError): string
  {
    if e == IncludeNotArray then "options.path is required" else Text(e)
  }

  /** The panic message: the reporting prefix of line 13, then the text. */
  function Message(e: OptionError): string
  {
    PREFIX + Text(e)
  }

  /** Every message names the option its check is about, as the test file
      expects of the panics (`toThrow("options.include")` and the like). */
  lemma MessageNamesOption(e: OptionError)
    ensures exists j :: MatchAt(Message(e), "options." + OptionName(e), j)
  {
    var name, rest := "options." + OptionName(e), " " + Complaint(e);
    assert Text(e) == name + rest;
    MatchAfter(PREFIX, name, rest);
    assert MatchAt(Message(e), name, |PREFIX|);
  }

  lemma MatchAfter(p: string, x: string, y: string)
    ensures MatchAt(p + (x + y), x, |p|)
  {
    assert (p + (x + y))[|p|..|p| + |x|] == x;
  }

  /** As written, an include that is not an array, such as `include: 123`,
      is reported with a text that does not name include: `options.include`
      occurs nowhere in the message, which names `options.path` instead. */
  lemma IncludeNotArrayAsWritten()
    ensures IndexOf(PREFIX + TextAsWritten(IncludeNotArray), "options." + OptionName(IncludeNotArray)) == -1
    ensures "options.path" <= TextAsWritten(IncludeNotArray)
    ensures TextAsWritten(IncludeNotArray) != Text(IncludeNotArray)
  {
    var t := TextAsWritten(IncludeNotArray);
    assert t[8] == 'p';
    var pat := "options." + OptionName(IncludeNotArray);
    assert pat[10] == 'c';
    assert FreeOf(PREFIX, {'c'});
    assert FreeOf(t, {'c'});
    NoMatchWithout(PREFIX, t, pat, 10);
  }

  /** A pattern holding a character that neither half of a string holds
      occurs nowhere in it. */
  lemma NoMatchWithout(p: string, t: string, pat: string, k: nat)
    requires k < |pat| && FreeOf(p, {pat[k]}) && FreeOf(t, {pat[k]})
    ensures IndexOf(p + t, pat) == -1
  {
    var s := p + t;
    forall j | 0 <= j && j + |pat| <= |s| ensures !MatchAt(s, pat, j) {
      assert s[j..j + |pat|][k] == s[j + k];
      if j + k < |p| {
        assert s[j + k] == p[j + k];
      } else {
        assert s[j + k] == t[j + k - |p|];
      }
    }
  }

  /** The options once they have passed every check. */
  datatype Config = Config(
    path: string,
    template: string,
    templateURL: string,
    includes: seq<string>,
    ignores: seq<string>,
    indexes: seq<string>,
    debug: bool)

  function Texts(items: seq<JsValue>): seq<string>
    requires forall i :: 0 <= i < |items| ==> items[i].Str?
  {
    seq(|items|, i requires 0 <= i < |items| => items[i].s)
  }

  /** `for (let i = 0; i < xs.length; i++) if (typeof xs[i] !== "string") panic`:
      whether every element is a string. */
  method AllStrings(items: seq<JsValue>) returns (ok: bool)
    ensures ok <==> forall i :: 0 <= i < |items| ==> items[i].Str?
  {
    for i := 0 to |items|
      invariant forall j :: 0 <= j < i ==> items[j].Str?
    {
      if !items[i].Str? {
        return false;
      }
    }
    return true;
  }

  /** Lines 18-49 and 68: apply the defaults, run the checks in order and
      stop at the first that fails; otherwise the options are strings and
      arrays of strings, and the URL template gets a leading slash. */
  method Validate(given: PluginOptions) returns (r: Result<Config, OptionError>)
    ensures r.Err? <==> exists e :: Violates(Resolve(given), e)
    ensures r.Err? ==> Violates(Resolve(given), r.error)
    ensures r.Err? ==> forall e :: Rank(e) < Rank(r.error) ==> !Violates(Resolve(given), e)
    ensures r.Ok? ==> var o := Resolve(given);
      && o.path.Str? && o.template.Str? && o.url.Str?
      && r.value.path == o.path.s && r.value.template == o.template.s
      && r.value.templateURL == Slashify(o.url.s)
      && StrArray(r.value.includes) == o.includes
      && StrArray(r.value.ignores) == o.ignores
      && StrArray(r.value.indexes) == o.indexes
      && r.value.debug == !Falsy(o.debug)
  {
    var o := Resolve(given);
    if Falsy(o.path) { assert Violates(o, PathRequired); return Err(PathRequired); }
    if !o.path.Str? { assert Violates(o, PathNotString); return Err(PathNotString); }
    if Falsy(o.template) { assert Violates(o, TemplateRequired); return Err(TemplateRequired); }
    if !o.template.Str? { assert Violates(o, TemplateNotString); return Err(TemplateNotString); }
    if !o.url.Str? { assert Violates(o, UrlNotString); return Err(UrlNotString); }
    if !o.includes.Array? { assert Violates(o, IncludeNotArray); return Err(IncludeNotArray); }
    var ok := AllStrings(o.includes.items);
    if !ok { assert Violates(o, IncludeNotStrings); return Err(IncludeNotStrings); }
    if !o.ignores.Array? { assert Violates(o, IgnoreNotArray); return Err(IgnoreNotArray); }
    ok := AllStrings(o.ignores.items);
    if !ok { assert Violates(o, IgnoreNotStrings); return Err(IgnoreNotStrings); }
    if !o.indexes.Array? { assert Violates(o, IndexesNotArray); return Err(IndexesNotArray); }
    ok := AllStrings(o.indexes.items);
    if !ok { assert Violates(o, IndexesNotStrings); return Err(IndexesNotStrings); }
    var url := o.url.s;
    var templateURL := if |url| == 0 || url[0] != '/' then "/" + url else url;
    var includes, ignores, indexes := Texts(o.includes.items), Texts(o.ignores.items), Texts(o.indexes.items);
    assert StrArray(includes).items == o.includes.items;
    assert StrArray(ignores).items == o.ignores.items;
    assert StrArray(indexes).items == o.indexes.items;
    r := Ok(Config(o.path.s, o.template.s, templateURL, includes, ignores, indexes, !Falsy(o.debug)));
  }

  // ---------------------------------------------------------------------
  // Properties of the checks

  /** With only a path and a template given, as non-empty strings, the
      options pass and take the defaults: the URL template is `/:slug`. */
  lemma DefaultsPass(path: string, template: string)
    requires path != [] && template != []
    ensures forall e :: !Violates(Resolve(PluginOptions(Str(path), Str(template), Undefined, Undefined, Undefined, Undefined, Undefined)), e)
    ensures Resolve(PluginOptions(Str(path), Str(template), Undefined, Undefined, Undefined, Undefined, Undefined)).url == Str("/:slug")
  {
    var o := Resolve(PluginOptions(Str(path), Str(template), Undefined, Undefined, Undefined, Undefined, Undefined));
    assert !HasNonString(o.includes);
    assert !HasNonString(o.indexes);
  }

  /** An empty path or template string is reported as missing, but only
      after a missing path: the checks run in order. */
  lemma EmptyStringsAreMissing(o: PluginOptions)
    requires o.path == Str("") || (o.path.Str? && o.path != Str("") && o.template == Str(""))
    ensures o.path == Str("") ==> Violates(Resolve(o), PathRequired)
    ensures o.path != Str("") ==>
      && Violates(Resolve(o), TemplateRequired)
      && forall e :: Rank(e) < Rank(TemplateRequired) ==> !Violates(Resolve(o), e)
  {
  }

  /** A non-string element in `include` fails the element check and not the
      array check; `null` in place of the array fails the array check, whose
      text line 37 writes as that of a missing path, since `null instanceof
      Array` is false and the default does not apply to `null`. */
  lemma IncludeMessages(o: PluginOptions)
    requires o.path == Str("a") && o.template == Str("t") && o.url.Undefined?
    ensures o.includes == Null ==>
      && Violates(Resolve(o), IncludeNotArray)
      && TextAsWritten(IncludeNotArray) == "options.path is required"
    ensures o.includes == Array([Number(123)]) ==>
      && Violates(Resolve(o), IncludeNotStrings)
      && !Violates(Resolve(o), IncludeNotArray)
  {
    if o.includes == Array([Number(123)]) {
      assert !Resolve(o).includes.items[0].Str?;
    }
  }
}
