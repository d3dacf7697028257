/**
 * The article files the publisher reads. The file system is a map from path to contents;
 * a path that is not in the map cannot be read. `internal/wp` keeps its articles under
 * `internal/articles/`, the older command in `cmd/wp` reads them from `internal/article/`.
 */
module ArticleFiles {
  import opened Wrappers
  import opened Text
  import opened Markdown

  /** The directory of `internal/wp`'s `ReadArticleFromMd` and `UpdateMetadata`. */
  const ArticlesDir: string := "internal/articles/"

  /** The directory of `cmd/wp`'s `readArticleFromMd`. */
  const CommandArticlesDir: string := "internal/article/"

  /** The file that holds the article `filename` in `dir`. */
  function ArticlePath(dir: string, filename: string): string {
    dir + filename + ".md"
  }

  /** `os.ReadFile`: the contents at `path`, or `None` when there is no such file. */
  function ReadFile(files: map<string, string>, path: string): (r: Option<string>)
    ensures r.Some? <==> path in files
    ensures r.Some? ==> r.value == files[path]
  {
    if path in files then Some(files[path]) else None
  }

  /**
   * Reading the article `filename` from `dir`: a missing file is a read error; otherwise the
   * file is split at its first separator, and a file without one is malformed.
   */
  function ReadArticle(files: map<string, string>, dir: string, filename: string): (r: Result<(string, string), ArticleError>)
    ensures r == Failure(ReadFailed) <==> ArticlePath(dir, filename) !in files
    ensures r.Success? ==> files[ArticlePath(dir, filename)] == r.value.0 + Separator + r.value.1
    ensures r.Success? ==> IndexOf(r.value.0, Separator).None?
    ensures ArticlePath(dir, filename) in files
            ==> (r.Success? <==> SplitFirst(files[ArticlePath(dir, filename)], Separator).Some?)
  {
    var r := ReadArticleFromMd(ReadFile(files, ArticlePath(dir, filename)));
    if r.Success? then
      SplitFirstHeadHasNoSeparator(files[ArticlePath(dir, filename)], Separator);
      r
    else
      r
  }
}
