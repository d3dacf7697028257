# wp publisher core in Dafny

A model of the logic inside `shinnkura/wp`, a Go tool that publishes local Markdown
articles to a WordPress site through its REST API. Three parts of the tool are modelled, with
proofs about each:

- **Taxonomy resolution.**
  - `GetCategoryIDs` (`internal/wp/category.go`) and `GetTagIDs` (`internal/wp/tag.go`) list
    the site's terms once. For each requested name they take the first term whose name
    matches ignoring case; if none matches, they create the term. When a creation fails they
    scan the same listing a second time and then give up.
  - `GetTagID` does the same for one name, comparing names exactly.
  - The older command `cmd/wp/main.go` has `getCategoryIDs`, which compares names exactly
    and skips names it does not find.
  - The REST API is a `TermService` object. Its `requests` field records every creation
    request. The answer to the n-th request is fixed in advance by the function `respond`.
  - A listing is either a snapshot of terms or `None` when the listing request failed.
- **Markdown conversion.**
  - `ConvertMarkdownToHTML` runs a fixed chain of regular-expression replacements: internal
    images, external images, the three heading levels, links, blank lines to paragraphs, the
    outer `<p>` wrapper, code blocks and bold.
  - Each pattern is a scanner (`Markdown.Match`), and Go's `ReplaceAllString` is one shared
    left-to-right driver (`Markdown.ReplaceAll`).
  - The image reader is a map from path to base64 text.
- **Article files.**
  - Files are a map from path to contents.
  - `ReadArticleFromMd` splits a file at its first `"\n---\n"` into metadata bytes and body.
  - `UpdateMetadata` rewrites an article file in place. It runs as a method on an
    `ArticleStore` object that holds the files.

Modules and files:

| file | module | source |
|---|---|---|
| `wrappers.dfy` | `Wrappers` (Option, Result) | — |
| `text.dfy` | `Text` (search, `bytes.SplitN`, `bytes.Split`) | — |
| `markdown.dfy` | `Markdown` | `internal/wp/markdown.go` |
| `markdown_properties.dfy` | `MarkdownProperties` | `internal/wp/markdown.go` |
| `markdown_passes.dfy` | `MarkdownPasses` | `internal/wp/markdown.go` |
| `article_files.dfy` | `ArticleFiles` | `internal/wp/markdown.go`, `cmd/wp/main.go` |
| `metadata.dfy` | `Metadata` | `internal/wp/metadata.go` |
| `taxonomy.dfy` | `Taxonomy` | the loop `category.go` and `tag.go` share |
| `category.dfy` | `Category` | `internal/wp/category.go` |
| `tag.dfy` | `Tag` | `internal/wp/tag.go` |
| `cmdwp.dfy` | `CommandWp` | `cmd/wp/main.go` |

### Behaviour of the code that the model keeps

- **Markdown.** `ConvertMarkdownToHTML` (`internal/wp/markdown.go:35-75`) has only the passes
  listed above. Tables, lists, horizontal rules, inline code and HTML escaping are not
  converted, so the model has no rules for them.
- **External images.** The template `<img src="$2" alt="$1">` at `internal/wp/markdown.go:54`
  names a second group, but the pattern `!\[([^\]]*)\]\(http[^)]+\)` has only one. Go
  expands the missing group to nothing, so the URL is lost.
  `MarkdownPasses.ExternalImageDropsUrl` proves this.
- **Internal images.** `internal/wp/markdown.go:39-51` and `cmd/wp/main.go:101-113` inline a
  readable local image as base64 and keep the construct as written when the file cannot be
  read. `MarkdownPasses.InternalImageReadOrKept` and `CommandWp.CommandImageReadsTarget`
  state both cases.
- **Recovery scan.** After a failed creation, `internal/wp/category.go:47-53` and
  `internal/wp/tag.go:128-134` scan the same listing again with the same `strings.EqualFold`
  test. That test already failed for this name in the first scan
  (`internal/wp/category.go:34-40`), so the second scan never finds it, and the call returns
  the creation error. `Taxonomy.ResolveIDs` proves the branch unreachable.

## Model

| member | source | states |
|---|---|---|
| Taxonomy.FirstMatch | internal/wp/category.go:34-40 | The index of the first term whose name matches (`EqualFold` or `==`): that term matches and no earlier one does; `None` only when no term matches. |
| Taxonomy.FindFirst | internal/wp/category.go:34-40 | The scan with early exit returns an ID exactly when some listed term matches. That ID is the first matching term's. |
| Taxonomy.ExactMatchFoundIgnoringCase | cmd/wp/main.go:165 | A name found by exact comparison is also found ignoring case, at the same index or an earlier one. |
| Taxonomy.TermService.Create | internal/wp/category.go:44 | One creation request is appended to the request log. Its answer is the service's answer for that position and name. |
| Taxonomy.ResolveIDs | internal/wp/category.go:31-63 | The loop sends exactly the creation requests of the reference resolution `Resolve`. It succeeds exactly when `Resolve` does, with the same IDs. Every failure is a creation failure. The recovery scan is proved to find nothing. |
| Taxonomy.ResolveFailureStops | internal/wp/category.go:54-56 | Once a creation fails, the later names change nothing: no further requests and no IDs. |
| Taxonomy.ResolveCreatesMisses | internal/wp/category.go:42-44 | A successful call creates exactly the names missing from the snapshot, in order. A failed call has created a prefix of them, and its last request is the one that failed. |
| Taxonomy.ResolveLength | internal/wp/category.go:31-63 | A successful call gives exactly one ID per requested name. |
| Taxonomy.ResolveSucceedsIff | internal/wp/category.go:44-58 | The call succeeds if and only if every creation request for a missing name succeeds. |
| Taxonomy.ResolveLast | internal/wp/category.go:32-61 | A successful call's IDs are those of all names but the last, followed by the last name's ID. |
| Taxonomy.ResolveIdAt | internal/wp/category.go:33-58 | The i-th ID is the first case-insensitive match's ID, or else the answer to the creation request for that name. That request's position is the number of misses before it. |
| Taxonomy.ResolveIdEarlier | internal/wp/category.go:31-61 | A successful call gives one ID per name. For every name before the last, the ID is its first case-insensitive match's ID, or else the answer to its creation request, whose position is the number of misses before it. |
| Taxonomy.ResolveIdOfLast | internal/wp/category.go:33-58 | The last name's ID is its first match's ID, or the answer to the request sent for it. |
| Taxonomy.ResolveDuplicateFound | internal/wp/category.go:33-40 | A name the snapshot holds gets the same ID, its first match's, wherever it appears in the request. |
| Taxonomy.MissesCount | internal/wp/category.go:26 | The snapshot is never extended. A missing name is created once per occurrence in the request; a name the snapshot holds is never created. |
| Category.GetCategoryIDs | internal/wp/category.go:11-64 | A failed listing is an error with no creation request sent. Otherwise the call is the resolution loop over the listed categories. |
| Tag.GetTagIDs | internal/wp/tag.go:92-145 | A failed listing is an error with no creation request sent. Otherwise the call is the resolution loop over the listed tags. |
| Tag.GetTagID | internal/wp/tag.go:56-90 | A failed listing is an error. If a tag's name equals the requested name exactly, the call returns the first such tag's ID and sends no request. Otherwise it sends exactly one creation request and returns its answer, or a creation error. |
| CommandWp.GetCategoryIDs | cmd/wp/main.go:139-173 | A failed listing is the only error. Otherwise the result equals `ExactIDs`: for each name in order, the first exactly-matching category's ID, with unmatched names skipped. Nothing is created. |
| CommandWp.ExactIDsLength | cmd/wp/main.go:162-172 | There is one ID per found name, so never more IDs than names. There are exactly as many as names if and only if every name is found. |
| CommandWp.ExactIDsAppend | cmd/wp/main.go:163-170 | Looking up a concatenation of name lists gives the concatenation of their results. |
| CommandWp.ExactIDsPointwise | cmd/wp/main.go:163-169 | When every name is found, the i-th ID is the first exact match for the i-th name, so equal names give equal IDs. |
| CommandWp.ExactIDsFromNames | cmd/wp/main.go:164-167 | Every returned ID is the first exact match of some requested name. |
| CommandWp.CommandImageReadsTarget | cmd/wp/main.go:85-113 | The command's image reader adds `internal/` to the path. So `![alt](internal/p)` becomes a base64 image of the file `internal/p` when that file can be read, and is kept as written otherwise; the pass goes on after it. |
| CommandWp.CommandReaderIgnoresArticlesDir | cmd/wp/main.go:61 | The command reads `internal/article/<name>.md`. Writing any article under `internal/articles/`, as `UpdateMetadata` does, never changes what the command reads. |
| Markdown.LineOf | internal/wp/markdown.go:57 | `.+` before `$` in multi-line mode takes the text up to the next newline, which contains no newline. |
| Markdown.MatchBracketed | internal/wp/markdown.go:39 | A hit starts with the opening and returns a text without `]`, at least the minimum length, and a non-empty target without `)`, within the text's length. |
| Markdown.MatchBracketedHit | internal/wp/markdown.go:39 | A hit is exactly `open t](lead u)` at the start of the text: t and u are the returned parts, and the returned length is that construct's length. |
| Markdown.MatchBracketedFinds | internal/wp/markdown.go:39 | Every `open t](lead u)` at the start of the text, with t a run of `[^\]]` of the minimum length or more and u a non-empty run of `[^)]`, is the hit returned. So `None` means that no such construct starts there. |
| Markdown.MatchFenced | internal/wp/markdown.go:69 | A hit is the fence, a non-empty body without the fence character, then the fence again, at the start of the text. |
| Markdown.MatchFencedFinds | internal/wp/markdown.go:69 | Every `fence body fence` at the start of the text, with a non-empty body free of the fence character, is the hit returned. So `None` means that none starts there. |
| Markdown.MatchInternalImage | internal/wp/markdown.go:39-51 | A hit covers a non-empty prefix that starts with `!` and contains `[`. |
| Markdown.MatchInternalImageHit | internal/wp/markdown.go:39-51 | A hit spans `![alt](internal/path)` with a non-empty path. It is replaced by the base64 image when the file can be read, and by the construct itself otherwise. |
| Markdown.MatchInternalImageFinds | internal/wp/markdown.go:39-51 | Every `![alt](internal/path)` at the start of the text is found, with that replacement. So `None` means that none starts there. |
| Markdown.MatchExternalImage | internal/wp/markdown.go:54 | A hit covers a non-empty prefix that starts with `!` and contains `[`. |
| Markdown.MatchExternalImageHit | internal/wp/markdown.go:54 | A hit spans `![alt](http…)` and is replaced by `<img src="" alt="alt">`. |
| Markdown.MatchExternalImageFinds | internal/wp/markdown.go:54 | Every `![alt](http…)` at the start of the text is found, with that replacement. So `None` means that none starts there. |
| Markdown.MatchHeading | internal/wp/markdown.go:57-59 | A hit exists exactly when the text starts a line, begins with `#{l} ` and the rest of that line is not empty. The hit spans the marker and the rest of the line, and is replaced by `<hl>rest</hl>`. |
| Markdown.MatchLink | internal/wp/markdown.go:62 | A hit covers a non-empty prefix that starts with `[`. |
| Markdown.MatchLinkHit | internal/wp/markdown.go:62 | A hit spans `[t](u)` with t and u non-empty, and is replaced by `<a href="u">t</a>`. |
| Markdown.MatchLinkFinds | internal/wp/markdown.go:62 | Every `[t](u)` at the start of the text, with t and u non-empty, is found, with that replacement. So `None` means that none starts there. |
| Markdown.MatchParagraphBreak | internal/wp/markdown.go:65 | A hit exists exactly when the text starts with two newlines. It spans them and is replaced by `</p><p>`. |
| Markdown.MatchCodeBlock | internal/wp/markdown.go:69 | A hit covers a non-empty prefix that starts with a backtick. |
| Markdown.MatchCodeBlockHit | internal/wp/markdown.go:69 | A hit spans "```body```" and is replaced by `<pre><code>body</code></pre>`. |
| Markdown.MatchCodeBlockFinds | internal/wp/markdown.go:69 | Every "```body```" at the start of the text, with a non-empty body without backticks, is found, with that replacement. So `None` means that none starts there. |
| Markdown.MatchBold | internal/wp/markdown.go:72 | A hit covers a non-empty prefix that starts with `*`. |
| Markdown.MatchBoldHit | internal/wp/markdown.go:72 | A hit spans `**body**` and is replaced by `<strong>body</strong>`. |
| Markdown.MatchBoldFinds | internal/wp/markdown.go:72 | Every `**body**` at the start of the text, with a non-empty body without `*`, is found, with that replacement. So `None` means that none starts there. |
| Markdown.Match | internal/wp/markdown.go:39-72 | Every pattern's hit covers a non-empty prefix of the text, so each pass moves forward. |
| Markdown.ReadArticleFromMd | internal/wp/markdown.go:13-33 | A failed read is a read error. Otherwise the call succeeds if and only if the file contains the separator. The metadata, the separator and the body rejoin to the file, and the metadata is the text before the first separator. |
| ArticleFiles.ReadArticle | cmd/wp/main.go:60-82 | A missing file gives the read error, and only a missing file does. A present file reads successfully if and only if it contains the separator; otherwise it is malformed. A successful split rejoins to the file, and its metadata part contains no separator. |
| MarkdownProperties.ReplaceAllIdentity | internal/wp/markdown.go:54-72 | A pass leaves text alone when it lacks the character every match contains. |
| MarkdownProperties.ParagraphBreaksLeaveNoBlankLine | internal/wp/markdown.go:65 | After the paragraph pass, no two newlines are adjacent. Any newline left at the start was alone in the input. |
| MarkdownProperties.ReplaceAllCopiesPrefix | internal/wp/markdown.go:54-72 | A prefix without the character that starts a match is copied unchanged. |
| MarkdownProperties.ReplaceAllSkipsParagraphOpen | internal/wp/markdown.go:66-72 | No pattern starts inside a leading `<p>`, so every pass copies it. |
| MarkdownProperties.FencedPassKeepsTail | internal/wp/markdown.go:69-72 | The code and bold passes keep a tail that contains no backtick (or asterisk). |
| MarkdownProperties.FencedPassKeepsParagraph | internal/wp/markdown.go:66-72 | The code and bold passes keep text of the form `<p>`…`</p>`. |
| MarkdownProperties.ConvertWrapsInParagraph | internal/wp/markdown.go:65-72 | The output always begins with `<p>` and ends with `</p>`. |
| MarkdownProperties.FencedPassKeepsNoBlankLine | internal/wp/markdown.go:69-72 | The code and bold passes never create a blank line. |
| MarkdownProperties.ConvertHasNoBlankLine | internal/wp/markdown.go:65-72 | The output never contains two consecutive newlines. |
| MarkdownPasses.PassThenRest | internal/wp/markdown.go:54-72 | When a pass matches a construct at the start of the text, the result is the replacement followed by the pass over the rest. |
| MarkdownPasses.HeadingPassWithinLine | internal/wp/markdown.go:57-59 | No heading match starts inside a line: the rest of a line after its start is copied, and the pass goes on after it. |
| MarkdownPasses.HeadingLineMatch | internal/wp/markdown.go:57-59 | A line `#{l} T`, followed by a line break or the end of the text, is one heading hit, replaced by `<hl>T</hl>`. |
| MarkdownPasses.HeadingLineNoMatch | internal/wp/markdown.go:57-59 | Any other line has no heading hit at its start. |
| MarkdownPasses.HeadingPassOnLine | internal/wp/markdown.go:57-59 | A heading pass turns a line into `<hl>T</hl>` when it is `#{l} T` and keeps it otherwise, then converts the following lines. |
| MarkdownPasses.HeadingPassNoMarker | internal/wp/markdown.go:57-59 | A line that does not start with the level's marker is kept, and the following lines are converted on their own. |
| MarkdownPasses.HeadingNeedsText | internal/wp/markdown.go:57-59 | A bare marker line is kept, because `.+` needs at least one character; the following lines are converted on their own. |
| MarkdownPasses.HeadingPassRewrites | internal/wp/markdown.go:57-59 | The line `#{l} T` becomes `<hl>T</hl>` under the pass of level l, and the following lines are converted on their own. |
| MarkdownPasses.HeadingPassAvoids | internal/wp/markdown.go:57-59 | A heading pass adds no character that is neither in its input nor in `<>/h123`. |
| MarkdownPasses.HeadingsAvoid | internal/wp/markdown.go:57-59 | The same holds for all three heading passes together. |
| MarkdownPasses.HeadingPassKeepsElement | internal/wp/markdown.go:57-59 | A heading element is not matched again by any heading pass. |
| MarkdownPasses.HeadingPassOfLine | internal/wp/markdown.go:57-59 | A heading pass on a single line gives `<hl>T</hl>` for `#{l} T` and the line itself otherwise, with no newline in it. |
| MarkdownPasses.HeadingPassByLine | internal/wp/markdown.go:57-59 | A heading pass converts a line and the lines after its line break separately. |
| MarkdownPasses.HeadingsByLine | internal/wp/markdown.go:57-59 | The three heading passes together convert a line and the lines after it separately. |
| MarkdownPasses.HeadingPassOnHeadingLine | internal/wp/markdown.go:57-59 | The line `#{l} T` is converted by the pass of level l and kept by the passes of the other levels. |
| MarkdownPasses.HeadingsOnLine | internal/wp/markdown.go:57-59 | All three heading passes together turn the line `#{l} T` into `<hl>T</hl>`. |
| MarkdownPasses.HeadingsRewrite | internal/wp/markdown.go:57-59 | `# T`, `## T` and `### T` become `<h1>T</h1>`, `<h2>T</h2>` and `<h3>T</h3>` after all three heading passes, and the following lines are converted on their own. |
| MarkdownPasses.HeadingsIgnoreDeeper | internal/wp/markdown.go:57-59 | A line starting with four `#` is not a heading and is kept; the following lines are converted on their own. |
| MarkdownPasses.LinkPassRewrites | internal/wp/markdown.go:62 | `[t](u)` with non-empty t and u becomes `<a href="u">t</a>`, and the pass goes on after it. |
| MarkdownPasses.LinkPassSkipsOpen | internal/wp/markdown.go:62 | A `[` that does not start a link is copied with the text up to the next `[`, and the pass goes on after it. |
| MarkdownPasses.EmptyTextNoLink | internal/wp/markdown.go:62 | `[]` cannot start a link, because the link text needs at least one character. |
| MarkdownPasses.EmptyTargetNoLink | internal/wp/markdown.go:62 | `[t]()` cannot start a link, because the target needs at least one character. |
| MarkdownPasses.LinkPassKeepsEmptyText | internal/wp/markdown.go:62 | `[](u)` is kept, and the pass goes on after it. |
| MarkdownPasses.LinkPassKeepsEmptyTarget | internal/wp/markdown.go:62 | `[t]()` is kept, and the pass goes on after it. |
| MarkdownPasses.LinkPassRewritesIff | internal/wp/markdown.go:62 | `[t](u)` becomes an anchor if and only if t and u are both non-empty, and is kept otherwise; the pass goes on after it. |
| MarkdownPasses.ExternalImageDropsUrl | internal/wp/markdown.go:54 | `![alt](http…)` becomes `<img src="" alt="alt">`, so the URL is lost; the pass goes on after it. |
| MarkdownPasses.InternalImageReadOrKept | internal/wp/markdown.go:39-51 | `![alt](internal/p)` becomes a base64 `<img>` of the file `p` when it can be read, and is kept as written otherwise; the pass goes on after it. |
| MarkdownPasses.CodeBlockPassRewrites | internal/wp/markdown.go:69 | A fenced body without backticks becomes `<pre><code>body</code></pre>`, with the body copied unchanged; the pass goes on after it. |
| MarkdownPasses.OpenFenceNoMatch | internal/wp/markdown.go:69 | Up to three backticks followed by text without backticks are not a code block. |
| MarkdownPasses.CodeBlockPassKeepsOpenFence | internal/wp/markdown.go:69 | Up to three backticks followed by text without backticks are kept. |
| MarkdownPasses.CodeBlockPassKeepsUnclosed | internal/wp/markdown.go:69 | An unterminated fence is kept, whatever it holds: a text with no three backticks in a row after its first three characters is unchanged by the code pass. |
| MarkdownPasses.UnclosedFenceWithBackticks | internal/wp/markdown.go:69 | An open fence of Go code that is never closed, with a raw string in single backticks inside it, is kept as written. |
| MarkdownPasses.BoldPassRewrites | internal/wp/markdown.go:72 | `**x**` with x non-empty and free of `*` becomes `<strong>x</strong>`; the pass goes on after it. |
| MarkdownPasses.InlinePassesWithoutBrackets | internal/wp/markdown.go:39-62 | On text without `[`, only the heading passes act. |
| MarkdownPasses.InlinePassesOnHeadingLine | internal/wp/markdown.go:39-62 | The passes before the paragraph pass turn a line `# T`, where T has no `[`, into `<h1>T</h1>`. |
| MarkdownPasses.FencedPassesOnPlainText | internal/wp/markdown.go:69-72 | Text without backticks or asterisks passes the code and bold passes unchanged. |
| MarkdownPasses.ConvertOfPlainInline | internal/wp/markdown.go:65-72 | A single-line result without backticks or asterisks is only wrapped in one paragraph. |
| MarkdownPasses.ConvertHeadingLine | internal/wp/markdown.go:35-75 | The whole conversion of `# T` is `<p><h1>T</h1></p>` when T has no other markup. |
| Metadata.RebuildContent | internal/wp/metadata.go:28-38 | The rebuild succeeds if and only if `bytes.Split` gives exactly two parts: the separator occurs, and not again after its first occurrence. The new content is the new metadata, `"\n\n---\n"`, then the old body. |
| Metadata.RebuiltSplitsAtTrailer | internal/wp/metadata.go:35-38 | For plain metadata, the rebuilt file's first separator is the one the trailer ends with. |
| Metadata.RebuildReadsBack | internal/wp/metadata.go:28-38 | Reading back a rebuilt file gives the new metadata plus a newline, and the old body. |
| Metadata.UpdatedArticleReadsBack | internal/wp/metadata.go:16-41 | After an update, `ReadArticleFromMd` of the article gives the new metadata plus a newline, and the old body. |
| Metadata.RebuildIdempotent | internal/wp/metadata.go:28-38 | Updating twice with the same metadata gives the same file as updating once. |
| Metadata.RebuildNeedsPlainMetadata | internal/wp/metadata.go:35-38 | Metadata ending in `\n---` breaks the round trip: the rebuilt file splits inside the metadata. |
| Metadata.ArticleStore.UpdateMetadata | internal/wp/metadata.go:11-47 | Errors come in source order: read, missing metadata section, write. Each error leaves every file unchanged. On success only the article's file changes, to the rebuilt contents, and reading it back gives the new metadata plus a newline, and the old body. |
| Text.IndexOf | internal/wp/markdown.go:20 | The first occurrence of the separator, or `None` when there is none. |
| Text.SplitFirst | internal/wp/markdown.go:20 | `bytes.SplitN(s, sep, 2)` with two parts: the head, the separator and the tail rejoin to s, and the head contains no occurrence. `None` exactly when s contains no separator. |
| Text.SplitTwoParts | internal/wp/metadata.go:28-29 | `bytes.Split` gives exactly two parts if and only if there is a first occurrence and no occurrence after it; the parts are then the head and the tail. |
| Text.SplitFirstHeadHasNoSeparator | cmd/wp/main.go:67 | The head of a first split contains no separator of its own. |

## Left out

- HTTP. Requests, headers, authentication, JSON decoding of responses, status codes,
  `client.go`, `media.go`, `uploadFeaturedImage`, `main` and the CLI are not modelled. A
  listing is a given snapshot or a failure; creation is the `respond` answer function.
- Pagination. `GetCategoryIDs` and `GetTagIDs` request `per_page=100`, while `GetTagID` and
  the command's lookup use the server's default page. The model takes whatever listing the
  server returned.
- Error messages. The Go errors carry formatted text; the model keeps only the kind of
  error.
- JSON. `json.Unmarshal` of the article metadata is not modelled: `ReadArticleFromMd` returns
  the metadata bytes, so a JSON decoding error cannot happen in the model.
  `json.MarshalIndent` in `UpdateMetadata` is taken as given bytes (it cannot fail for that
  struct).
- Base64 and file reads. `readImageFile` is a map from readable paths to base64 text;
  `os.ReadFile` and `os.WriteFile` are a map of files and a `writeSucceeds` flag.
- Metadata.ArticleStore.UpdateMetadata: a failed `os.WriteFile` is modelled as leaving the file
  unchanged; a partial or truncating write is not modelled.
- Taxonomy.EqualFold: folds ASCII letters only, not Unicode case folding.
- Text and bytes. Go strings and byte slices are sequences of characters, one character per
  byte; UTF-8 decoding is not modelled.
- Regular expressions. There is no general engine: each fixed pattern has its own scanner,
  which is exact because each pattern has at most one match at any position.
- Markdown.MatchBracketed: its own contract gives only the shape of a hit; the matched
  construct is `Markdown.MatchBracketedHit`, and that `None` means no construct starts there
  is `Markdown.MatchBracketedFinds`.
- Markdown.MatchFenced: its own contract gives the matched prefix but not that `None` means
  no fenced construct starts there; that is `Markdown.MatchFencedFinds`.
- Markdown.MatchInternalImage: its own contract gives only the shape of a hit; the matched
  text and the read-or-keep replacement are `Markdown.MatchInternalImageHit` and
  `Markdown.MatchInternalImageFinds`.
- Markdown.MatchExternalImage: its own contract gives only the shape of a hit; the matched
  text and the `<img src="" alt="alt">` replacement are `Markdown.MatchExternalImageHit` and
  `Markdown.MatchExternalImageFinds`.
- Markdown.MatchLink: its own contract gives only the shape of a hit; the matched `[t](u)`
  and the anchor replacement are `Markdown.MatchLinkHit` and `Markdown.MatchLinkFinds`.
- Markdown.MatchCodeBlock: its own contract gives only the shape of a hit; the matched fence
  and the `<pre><code>` replacement are `Markdown.MatchCodeBlockHit` and
  `Markdown.MatchCodeBlockFinds`.
- Markdown.MatchBold: its own contract gives only the shape of a hit; the matched fence and
  the `<strong>` replacement are `Markdown.MatchBoldHit` and `Markdown.MatchBoldFinds`.
- Markdown.Match: its own contract gives only that a hit covers a non-empty prefix (and
  `Markdown.MatchStarts` its first and key characters); which text each rule matches and
  what replaces it are stated on the scanners and the lemmas above.
- MarkdownPasses.LinkPassRewritesIff: proved only for text and target without brackets or
  parentheses that would begin or end another match.
- MarkdownPasses.LinkPassKeepsEmptyText: proved only for a target without `[`, which could
  start another link inside it.
- MarkdownPasses.LinkPassKeepsEmptyTarget: proved only for a text without `[`, which could
  start another link inside it.
- MarkdownPasses.LinkPassSkipsOpen: stated for the text up to the next `[` only; what
  follows is the pass over the rest.
- MarkdownPasses.ConvertHeadingLine: proved only for heading text without other markup
  (`[`, backticks, `*`) and without a newline.
- MarkdownPasses.ConvertOfPlainInline: proved only when the result of the passes before the
  paragraph pass is one line without backticks or asterisks.
- Metadata.RebuildReadsBack: stated for plain metadata (no separator, last byte neither `-`
  nor a newline), which is what `json.MarshalIndent` produces.
  `Metadata.RebuildNeedsPlainMetadata` shows the condition is needed.
- Metadata.RebuildIdempotent: stated for plain metadata, as for `Metadata.RebuildReadsBack`.
- Metadata.UpdatedArticleReadsBack: stated for plain metadata, as for
  `Metadata.RebuildReadsBack`.
- Concurrency. The model does not cover two publisher runs racing to create the same term;
  the service's answers are fixed in advance.
