/**
 * The plugin's settings file and the search pattern built from it.
 * A setting that is absent from the file takes the plugin's default.
 */
module Settings {
  import opened Util

  /** The URL pattern searched for in every view. */
  const UrlRegex: string := "\\bhttps?://[-A-Za-z0-9+&@#/%?=~_()|!:,.;']*[-A-Za-z0-9+&@#/%=~_(|]"

  /** Default match-count ceiling above which a view is ignored. */
  const DefaultMaxUrls: int := 200

  /** The keys of `ClickableUrls.sublime-settings` that a scan reads. */
  datatype Settings = Settings(
    autoFindUrls: Option<bool>,
    highlightUrls: Option<bool>,
    maxUrlLimit: Option<int>,
    fileFolderRegex: Option<string>)

  function GetOr<T>(o: Option<T>, default: T): T
  {
    match o
    case Some(v) => v
    case None => default
  }

  /** `auto_find_urls`, on unless the file says otherwise. */
  function AutoFindUrls(s: Settings): (on: bool)
    ensures s.autoFindUrls.None? ==> on
    ensures s.autoFindUrls.Some? ==> on == s.autoFindUrls.value
  {
    GetOr(s.autoFindUrls, true)
  }

  /** `highlight_urls`, on unless the file says otherwise. */
  function ShouldHighlightUrls(s: Settings): (on: bool)
    ensures s.highlightUrls.None? ==> on
    ensures s.highlightUrls.Some? ==> on == s.highlightUrls.value
  {
    GetOr(s.highlightUrls, true)
  }

  /** `max_url_limit`, 200 unless the file says otherwise. */
  function MaxUrlLimit(s: Settings): (n: int)
    ensures s.maxUrlLimit.None? ==> n == DefaultMaxUrls
    ensures s.maxUrlLimit.Some? ==> n == s.maxUrlLimit.value
  {
    GetOr(s.maxUrlLimit, DefaultMaxUrls)
  }

  /** `file_folder_regex`, empty unless the file says otherwise. */
  function FileFolderRegex(s: Settings): (f: string)
    ensures s.fileFolderRegex.None? ==> f == ""
    ensures s.fileFolderRegex.Some? ==> f == s.fileFolderRegex.value
  {
    GetOr(s.fileFolderRegex, "")
  }

  /**
   * The built-in URL pattern alone, or, when a supplementary file/folder
   * pattern is set, the alternation `(URL)|(supplementary)`.
   */
  function CombinedRegex(fileFolderRegex: string): (c: string)
    ensures fileFolderRegex == "" ==> c == UrlRegex
    ensures fileFolderRegex != "" ==>
      && |c| == |UrlRegex| + |fileFolderRegex| + 5
      && c[1..|UrlRegex| + 1] == UrlRegex
      && c[|UrlRegex| + 4..|c| - 1] == fileFolderRegex
    ensures fileFolderRegex != "" ==>
      c[0] == '(' && c[|UrlRegex| + 1..|UrlRegex| + 4] == ")|(" && c[|c| - 1] == ')'
  {
    if fileFolderRegex != "" then "(" + UrlRegex + ")|(" + fileFolderRegex + ")" else UrlRegex
  }

  /** The pattern a scan uses: the URL pattern alone exactly when no supplementary pattern is set. */
  function ScanPattern(s: Settings): (p: string)
    ensures p == UrlRegex <==> FileFolderRegex(s) == ""
  {
    CombinedRegex(FileFolderRegex(s))
  }

  /** With no setting present: auto-find on, highlighting on, ceiling 200, URL pattern alone. */
  lemma Defaults()
    ensures var none := Settings(None, None, None, None);
      AutoFindUrls(none) && ShouldHighlightUrls(none) && MaxUrlLimit(none) == 200
      && ScanPattern(none) == UrlRegex
  {
  }
}
