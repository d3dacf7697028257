/**
 * The older command in `cmd/wp/main.go`: its category lookup, which compares names exactly
 * and skips a name no listed category has, its article reader, which reads from
 * `internal/article/`, and its converter, whose image reader prefixes `internal/` to a path.
 */
module CommandWp {
  import opened Wrappers
  import opened Markdown
  import opened MarkdownPasses
  import opened ArticleFiles
  import opened Taxonomy

  /**
   * The IDs `getCategoryIDs` collects: for each name in order, the ID of the first listed
   * category with exactly that name; a name with no such category contributes nothing.
   */
  function ExactIDs(terms: seq<Term>, names: seq<string>): seq<int> {
    if names == [] then []
    else
      var found := Lookup(terms, names[|names| - 1], Exact);
      ExactIDs(terms, names[..|names| - 1]) + if found.Some? then [found.value] else []
  }

  /**
   * `getCategoryIDs(baseURL, basicAuth, names)`. `listing` is the decoded category listing,
   * or `None` when the request or its decoding failed. Nothing is ever created.
   */
  method GetCategoryIDs(listing: Option<seq<Term>>, names: seq<string>) returns (r: Result<seq<int>, TaxonomyError>)
    ensures listing.None? <==> r == Failure(ListingFailed)
    ensures listing.Some? ==> r == Success(ExactIDs(listing.value, names))
  {
    if listing.None? {
      return Failure(ListingFailed);
    }
    var categories := listing.value;
    var ids: seq<int> := [];
    for i := 0 to |names|
      invariant ids == ExactIDs(categories, names[..i])
    {
      assert names[..i + 1][..i] == names[..i];
      var found := FindFirst(categories, names[i], Exact);
      if found.Some? {
        ids := ids + [found.value];
      }
    }
    assert names[..|names|] == names;
    return Success(ids);
  }

  /** The number of names the listing has a category for, under exact comparison. */
  function FoundCount(terms: seq<Term>, names: seq<string>): nat {
    if names == [] then 0
    else FoundCount(terms, names[..|names| - 1]) + if Lookup(terms, names[|names| - 1], Exact).Some? then 1 else 0
  }

  /**
   * One ID per name that has a category, so never more IDs than names, and exactly as many
   * only when every name has one.
   */
  lemma {:induction false} ExactIDsLength(terms: seq<Term>, names: seq<string>)
    ensures |ExactIDs(terms, names)| == FoundCount(terms, names) <= |names|
    ensures |ExactIDs(terms, names)| == |names| <==> forall i :: 0 <= i < |names| ==> Lookup(terms, names[i], Exact).Some?
  {
    if names != [] {
      var p := names[..|names| - 1];
      ExactIDsLength(terms, p);
      if forall i :: 0 <= i < |names| ==> Lookup(terms, names[i], Exact).Some? {
        assert forall i :: 0 <= i < |p| ==> Lookup(terms, p[i], Exact).Some? by {
          forall i | 0 <= i < |p| ensures Lookup(terms, p[i], Exact).Some? {
            assert p[i] == names[i];
          }
        }
      } else if Lookup(terms, names[|names| - 1], Exact).Some? {
        var i :| 0 <= i < |names| && Lookup(terms, names[i], Exact).None?;
        assert i < |p| && p[i] == names[i];
      }
    }
  }

  /** Looking up two lists of names one after the other is looking up their concatenation. */
  lemma {:induction false} ExactIDsAppend(terms: seq<Term>, a: seq<string>, b: seq<string>)
    ensures ExactIDs(terms, a + b) == ExactIDs(terms, a) + ExactIDs(terms, b)
    decreases |b|
  {
    if b != [] {
      var last := b[|b| - 1];
      assert (a + b)[..|a + b| - 1] == a + b[..|b| - 1];
      ExactIDsAppend(terms, a, b[..|b| - 1]);
      var found := Lookup(terms, last, Exact);
      assert ExactIDs(terms, a + b) == ExactIDs(terms, a + b[..|b| - 1]) + if found.Some? then [found.value] else [];
    } else {
      assert a + b == a;
    }
  }

  /**
   * When every name has a category, the IDs follow the names position by position, each the
   * ID of the first category with that exact name; so equal names give equal IDs.
   */
  lemma {:induction false} ExactIDsPointwise(terms: seq<Term>, names: seq<string>)
    requires forall i :: 0 <= i < |names| ==> Lookup(terms, names[i], Exact).Some?
    ensures |ExactIDs(terms, names)| == |names|
    ensures forall i :: 0 <= i < |names| ==> ExactIDs(terms, names)[i] == Lookup(terms, names[i], Exact).value
  {
    if names != [] {
      var p := names[..|names| - 1];
      assert forall i :: 0 <= i < |p| ==> p[i] == names[i];
      ExactIDsPointwise(terms, p);
      var prev, last := ExactIDs(terms, p), Lookup(terms, names[|names| - 1], Exact).value;
      assert ExactIDs(terms, names) == prev + [last];
      forall i | 0 <= i < |names|
        ensures ExactIDs(terms, names)[i] == Lookup(terms, names[i], Exact).value
      {
        if i < |p| {
          assert (prev + [last])[i] == prev[i];
        }
      }
    }
  }

  /** Every collected ID belongs to the first category whose name is one of the requested names. */
  lemma {:induction false} ExactIDsFromNames(terms: seq<Term>, names: seq<string>)
    ensures forall id :: id in ExactIDs(terms, names) ==> exists i :: 0 <= i < |names| && Lookup(terms, names[i], Exact) == Some(id)
  {
    if names != [] {
      var p := names[..|names| - 1];
      ExactIDsFromNames(terms, p);
      forall id | id in ExactIDs(terms, names)
        ensures exists i :: 0 <= i < |names| && Lookup(terms, names[i], Exact) == Some(id)
      {
        if id in ExactIDs(terms, p) {
          var i :| 0 <= i < |p| && Lookup(terms, p[i], Exact) == Some(id);
          assert p[i] == names[i];
        } else {
          assert Lookup(terms, names[|names| - 1], Exact) == Some(id);
        }
      }
    }
  }

  /** The directory the command's image reader prefixes to an image path. */
  const CommandImageRoot: string := "internal/"

  /**
   * In the command's converter an internal image `![alt](internal/path)` is read from
   * `internal/path`, the link target itself, and is left as it was when that file cannot be
   * read; the pass then goes on after it.
   */
  lemma CommandImageReadsTarget(images: map<string, string>, alt: string, path: string, x: string)
    requires ']' !in alt && ')' !in path && path != []
    ensures var target := "internal/" + path;
      var c := "![" + alt + "](" + target + ")";
      ReplaceAll(InternalImage(images, CommandImageRoot), c + x, true)
        == (if target in images
            then "<img src=\"data:image/jpeg;base64," + images[target] + "\" alt=\"" + alt + "\">"
            else c)
           + ReplaceAll(InternalImage(images, CommandImageRoot), x, false)
  {
    assert "![" + alt + "](" + ("internal/" + path) + ")" == "![" + alt + "](internal/" + path + ")";
    InternalImageReadOrKept(images, CommandImageRoot, alt, path, x);
  }

  /**
   * The command reads articles from `internal/article/`, while `internal/wp` keeps and
   * updates them in `internal/articles/`: writing an article there never changes what the
   * command reads, whatever the two file names.
   */
  lemma CommandReaderIgnoresArticlesDir(files: map<string, string>, written: string, content: string, filename: string)
    ensures ReadArticle(files[ArticlePath(ArticlesDir, written) := content], CommandArticlesDir, filename)
            == ReadArticle(files, CommandArticlesDir, filename)
  {
    var p, q := ArticlePath(ArticlesDir, written), ArticlePath(CommandArticlesDir, filename);
    assert p[16] == 's' && q[16] == '/';
  }
}
