/**
 * `UpdateMetadata` of `internal/wp/metadata.go`: replace the JSON metadata of an article
 * file and keep its body. The file must split into exactly two parts at the separator
 * `"\n---\n"`; the new file is the new metadata, a blank line, the separator and the old
 * body. The JSON encoding of the metadata is taken as given bytes.
 */
module Metadata {
  import opened Wrappers
  import opened Text
  import opened Markdown
  import opened ArticleFiles

  /** What `UpdateMetadata` writes between the new metadata and the body. */
  const Trailer: string := "\n\n---\n"

  /** Why `UpdateMetadata` failed; each happens before anything is written. */
  datatype UpdateError = ReadError | MissingMetadataSection | WriteError

  /**
   * The new contents of the article file, or `None` when `bytes.Split` at the separator does
   * not give exactly two parts: the separator must occur, and not again after its first
   * occurrence. The old metadata is dropped and the body after the separator is kept.
   */
  function RebuildContent(content: string, newMetadata: string): (r: Option<string>)
    ensures r.Some? <==> SplitFirst(content, Separator).Some? && IndexOf(SplitFirst(content, Separator).value.1, Separator).None?
    ensures r.Some? ==> r.value == newMetadata + Trailer + SplitFirst(content, Separator).value.1
  {
    var parts := Split(content, Separator);
    SplitTwoParts(content, Separator);
    if |parts| != 2 then None else Some(newMetadata + Trailer + parts[1])
  }

  /**
   * Metadata that neither holds the separator nor ends in `-` or a newline, as a JSON
   * object written by `json.MarshalIndent` always is (it ends in `}`, and newlines inside
   * its strings are escaped).
   */
  predicate PlainMetadata(meta: string) {
    IndexOf(meta, Separator).None? && (meta == [] || meta[|meta| - 1] !in "-\n")
  }

  /** No separator of the rebuilt file starts inside plain metadata or at its end. */
  lemma NoSeparatorBeforeTrailer(meta: string, body: string)
    requires PlainMetadata(meta)
    ensures forall j :: 0 <= j <= |meta| ==> !OccursAt(meta + Trailer + body, Separator, j)
  {
    var s := meta + Trailer + body;
    forall j | 0 <= j <= |meta|
      ensures !OccursAt(s, Separator, j)
    {
      if j + |Separator| <= |meta| {
        assert s[j..j + |Separator|] == meta[j..j + |Separator|];
        assert !OccursAt(meta, Separator, j);
      } else if j < |meta| && j + |Separator| <= |s| {
        var k := |meta| - 1 - j;
        assert s[j..j + |Separator|][k] == meta[|meta| - 1];
        assert Separator[k] in "-\n";
      } else if j + |Separator| <= |s| {
        assert s[j..j + |Separator|][1] == '\n';
      }
    }
  }

  /** The first separator of a rebuilt file is the one the trailer ends with. */
  lemma RebuiltSplitsAtTrailer(meta: string, body: string)
    requires PlainMetadata(meta)
    ensures SplitFirst(meta + Trailer + body, Separator) == Some((meta + "\n", body))
  {
    var s := meta + Trailer + body;
    NoSeparatorBeforeTrailer(meta, body);
    assert s[|meta| + 1..|meta| + 1 + |Separator|] == Separator;
    assert OccursAt(s, Separator, |meta| + 1);
    var head := SplitFirst(s, Separator).value.0;
    assert s[|head|..|head| + |Separator|] == Separator;
    assert |head| == |meta| + 1;
    assert s[..|meta| + 1] == meta + "\n";
    assert s[|meta| + 1 + |Separator|..] == body;
  }

  /**
   * Round trip: reading back a rebuilt file, as `ReadArticleFromMd` does, gives the new
   * metadata (followed by the newline of the blank line) and the body that was kept.
   */
  lemma RebuildReadsBack(content: string, meta: string)
    requires PlainMetadata(meta) && RebuildContent(content, meta).Some?
    ensures ReadArticleFromMd(RebuildContent(content, meta))
      == Success((meta + "\n", SplitFirst(content, Separator).value.1))
  {
    RebuiltSplitsAtTrailer(meta, SplitFirst(content, Separator).value.1);
  }

  /** After a successful update, reading the article gives the new metadata and the old body. */
  lemma UpdatedArticleReadsBack(files: map<string, string>, filename: string, meta: string)
    requires ArticlePath(ArticlesDir, filename) in files
    requires RebuildContent(files[ArticlePath(ArticlesDir, filename)], meta).Some?
    ensures var path := ArticlePath(ArticlesDir, filename);
      var updated := files[path := RebuildContent(files[path], meta).value];
      PlainMetadata(meta) ==>
        ReadArticle(updated, ArticlesDir, filename) == Success((meta + "\n", SplitFirst(files[path], Separator).value.1))
  {
    var path := ArticlePath(ArticlesDir, filename);
    if PlainMetadata(meta) {
      RebuildReadsBack(files[path], meta);
    }
  }

  /** Rebuilding a rebuilt file with the same metadata changes nothing. */
  lemma RebuildIdempotent(content: string, meta: string)
    requires PlainMetadata(meta) && RebuildContent(content, meta).Some?
    ensures RebuildContent(RebuildContent(content, meta).value, meta) == RebuildContent(content, meta)
  {
    RebuiltSplitsAtTrailer(meta, SplitFirst(content, Separator).value.1);
  }

  /**
   * Metadata ending in `\n---` is not plain, and the round trip fails for it: the rebuilt
   * file has a separator inside the new metadata, so reading it back cuts the metadata short.
   */
  lemma RebuildNeedsPlainMetadata(m: string, body: string)
    ensures !PlainMetadata(m + "\n---")
    ensures var s := m + "\n---" + Trailer + body;
      SplitFirst(s, Separator).Some? && |SplitFirst(s, Separator).value.0| <= |m|
  {
    var meta := m + "\n---";
    var s := meta + Trailer + body;
    assert s[|m|..|m| + |Separator|] == Separator;
    assert OccursAt(s, Separator, |m|);
    var head := SplitFirst(s, Separator).value.0;
    assert !OccursAt(s, Separator, |m|) || |head| <= |m|;
  }

  /** The article files; `UpdateMetadata` rewrites one of them in place. */
  class ArticleStore {
    var files: map<string, string>

    constructor (files: map<string, string>)
      ensures this.files == files
    {
      this.files := files;
    }

    /**
     * `UpdateMetadata(filename, metadata)` with the metadata already encoded; `writeSucceeds`
     * is the outcome of `os.WriteFile`. Each error leaves every file as it was; on success
     * exactly the article's file changes, to the rebuilt contents.
     */
    method UpdateMetadata(filename: string, newMetadata: string, writeSucceeds: bool) returns (err: Option<UpdateError>)
      modifies this
      ensures var path := ArticlePath(ArticlesDir, filename);
        && (path !in old(files) ==> err == Some(ReadError))
        && (path in old(files) && RebuildContent(old(files)[path], newMetadata).None? ==> err == Some(MissingMetadataSection))
        && (path in old(files) && RebuildContent(old(files)[path], newMetadata).Some? ==>
              err == if writeSucceeds then None else Some(WriteError))
      ensures err.Some? ==> files == old(files)
      ensures err.None? ==>
        var path := ArticlePath(ArticlesDir, filename);
        files == old(files)[path := RebuildContent(old(files)[path], newMetadata).value]
      ensures err.None? && PlainMetadata(newMetadata) ==>
        var path := ArticlePath(ArticlesDir, filename);
        ReadArticle(files, ArticlesDir, filename) == Success((newMetadata + "\n", SplitFirst(old(files)[path], Separator).value.1))
    {
      var path := ArticlePath(ArticlesDir, filename);
      if path !in files {
        return Some(ReadError);
      }
      var content := files[path];
      var parts := Split(content, Separator);
      if |parts| != 2 {
        return Some(MissingMetadataSection);
      }
      var body := parts[1];
      var buffer: string := [];
      buffer := buffer + newMetadata;
      buffer := buffer + Trailer;
      buffer := buffer + body;
      if !writeSucceeds {
        return Some(WriteError);
      }
      assert buffer == newMetadata + Trailer + body;
      assert Some(buffer) == RebuildContent(content, newMetadata);
      files := files[path := buffer];
      UpdatedArticleReadsBack(old(files), filename, newMetadata);
      return None;
    }
  }
}
