/** The records shared by the modules: the path-info record `pathinfo`
    returns, its mutable object form that `indexify` rewrites in place, and
    the result and option wrappers. */
module Records {

  datatype Option<T> = None | Some(value: T)

  datatype Result<T, E> = Ok(value: T) | Err(error: E)

  /** The object `pathinfo` returns: the last segment (`base`), that segment
      without its extension (`name`), the extension, the directory segments
      before it (`dirs`, joined by slashes in `dir`), the slugified path
      (`slugs`, joined by slashes in `slug`) and the number of slugs. */
  datatype PathInfo = PathInfo(
    base: string,
    name: string,
    extension: string,
    dir: string,
    dirs: seq<string>,
    slug: string,
    slugs: seq<string>,
    depth: int)

  /** The record of the empty path: every string empty, every list empty and
      depth zero. */
  const EmptyInfo := PathInfo("", "", "", "", [], "", [], 0)

  /** A path-info object whose properties can be reassigned, as `indexify`
      does with the object it is given. */
  class InfoRecord {
    var base: string
    var name: string
    var extension: string
    var dir: string
    var dirs: seq<string>
    var slug: string
    var slugs: seq<string>
    var depth: int

    /** The record's current properties as a value. */
    function Value(): PathInfo
      reads this
    {
      PathInfo(base, name, extension, dir, dirs, slug, slugs, depth)
    }

    constructor (p: PathInfo)
      ensures Value() == p
    {
      base, name, extension, dir := p.base, p.name, p.extension, p.dir;
      dirs, slug, slugs, depth := p.dirs, p.slug, p.slugs, p.depth;
    }
  }
}
