/** The plugin's fixed names and defaults (src/constants.js). */
module Constants {
  /** Prefix of every message the plugin reports. */
  const PREFIX: string := "gatsby-plugin-templated-files: "
  /** Node type of every node the plugin creates. */
  const TYPE: string := "Templated"
  /** Default URL template. */
  const URL: string := "/:slug"
  /** Default include globs. */
  const INCLUDE: seq<string> := ["*.md", "*.markdown"]
  /** Globs the watcher always ignores. */
  const IGNORE: seq<string> := [".*", "yarn.lock", "package.json", "package-lock.json", "node_modules"]
  /** Default index-file globs. */
  const INDEXES: seq<string> := ["index.*", "README.*"]
  /** Directory that relative template paths are resolved against. */
  const TEMPLATES: string := "src/templates"
  /** Placeholder the URL template substitutes. */
  const SLUG_PLACEHOLDER: string := ":slug"
}
