/**
 * The markdown-to-HTML conversion of `internal/wp/markdown.go` (and its copy in
 * `cmd/wp/main.go`), and the split of an article file into its JSON metadata and its body.
 *
 * The conversion is a fixed chain of passes; each pass is a Go `ReplaceAllString` of one
 * fixed regular expression (or `strings.ReplaceAll` of one fixed string). Every one of these
 * patterns has at most one match starting at a given position, because each variable part
 * is a run of characters that excludes the delimiter that ends it. A replace-all is therefore
 * modelled as a scan: at each position, if the pattern matches there, emit the replacement
 * and continue after the match, otherwise copy one character. `Match` is the per-pattern
 * scanner and `ReplaceAll` the shared driver.
 */
module Markdown {
  import opened Wrappers
  import opened Text

  /** A heading level the converter knows: it has passes for `#`, `##` and `###` only. */
  type Level = l: nat | 1 <= l <= 3 witness 1

  /** One pass of the chain, named after what its pattern recognises. */
  datatype Rule =
    /** `!\[([^\]]*)\]\(internal/([^)]+)\)`, replaced by an inline base64 image when the file
        `root + path` can be read; `images` maps each readable path to its base64 text. */
    | InternalImage(images: map<string, string>, root: string)
    /** `!\[([^\]]*)\]\(http[^)]+\)`, replaced by `<img src="$2" alt="$1">`. */
    | ExternalImage
    /** `(?m)^# (.+)$` and its `##`, `###` siblings. */
    | Heading(level: Level)
    /** `\[([^\]]+)\]\(([^)]+)\)`, replaced by `<a href="$2">$1</a>`. */
    | Link
    /** The literal `"\n\n"`, replaced by `</p><p>`. */
    | ParagraphBreak
    /** "```([^`]+)```", replaced by `<pre><code>$1</code></pre>`. */
    | CodeBlock
    /** `\*\*([^*]+)\*\*`, replaced by `<strong>$1</strong>`. */
    | Bold

  /** A match at the current position: how many characters it spans and what replaces them. */
  datatype Hit = Hit(len: nat, text: string)

  /** The character every match of the rule starts with. */
  function FirstChar(rule: Rule): char {
    match rule
    case InternalImage(_, _) => '!'
    case ExternalImage => '!'
    case Heading(_) => '#'
    case Link => '['
    case ParagraphBreak => '\n'
    case CodeBlock => '`'
    case Bold => '*'
  }

  /** A character every match of the rule contains: text without it is left alone. */
  function KeyChar(rule: Rule): char {
    match rule
    case InternalImage(_, _) => '['
    case ExternalImage => '['
    case Link => '['
    case _ => FirstChar(rule)
  }

  /** The marker of a heading of level `l`: `l` hashes and a space. */
  function Marker(l: Level): string {
    seq(l, _ => '#') + " "
  }

  /** The decimal digit of a heading level, as in `h1`. */
  function LevelDigit(l: Level): char {
    ('0' as int + l) as char
  }

  /** The rest of the current line: `.+` stops at a newline, and `$` holds there in `(?m)`. */
  function LineOf(s: string): (line: string)
    ensures StartsWith(s, line) && '\n' !in line
    ensures |line| < |s| ==> s[|line|] == '\n'
  {
    match IndexOfChar(s, '\n')
    case None => s
    case Some(i) => s[..i]
  }

  /** The construct `open t](lead u)` that the bracketed patterns match. */
  function Bracketed(open: string, t: string, lead: string, u: string): string {
    open + t + "](" + lead + u + ")"
  }

  /**
   * `s` starts with `open t](lead u)`, where the text `t` is a run of `[^\]]` at least
   * `minText` long and the target `u` is a non-empty run of `[^)]`.
   */
  predicate BracketedAt(s: string, open: string, minText: nat, lead: string, t: string, u: string) {
    ']' !in t && |t| >= minText && ')' !in u && u != [] && StartsWith(s, Bracketed(open, t, lead, u))
  }

  /** Where the searches of `MatchBracketed` find the delimiters of a construct at the start of `s`. */
  lemma BracketedScan(s: string, open: string, t: string, lead: string, u: string)
    requires ']' !in t && ')' !in u && StartsWith(s, Bracketed(open, t, lead, u))
    ensures StartsWith(s, open)
    ensures var rest := s[|open|..];
      && IndexOfChar(rest, ']') == Some(|t|) && rest[..|t|] == t
      && StartsWith(rest[|t| + 1..], "(" + lead)
      && IndexOfChar(rest[|t| + 1..][1 + |lead|..], ')') == Some(|u|)
      && rest[|t| + 1..][1 + |lead|..][..|u|] == u
  {
    var c := Bracketed(open, t, lead, u);
    var z := s[|c|..];
    assert s == c + z by { assert s == s[..|c|] + s[|c|..]; }
    var tail := u + (")" + z);
    var after := "(" + lead + tail;
    var rest := s[|open|..];
    assert rest == t + ("]" + after);
    assert s[..|open|] == open;
    IndexOfCharAfter(t, "]" + after, ']');
    assert rest[..|t|] == t;
    assert rest[|t| + 1..] == after;
    assert after[..1 + |lead|] == "(" + lead;
    assert after[1 + |lead|..] == tail;
    IndexOfCharAfter(u, ")" + z, ')');
    assert tail[..|u|] == u;
  }

  /** Every bracketed construct at the start of `s` is the one `MatchBracketed` finds: `None` means none starts there. */
  lemma MatchBracketedFinds(s: string, open: string, minText: nat, lead: string, t: string, u: string)
    requires BracketedAt(s, open, minText, lead, t, u)
    ensures MatchBracketed(s, open, minText, lead) == Some((t, u, |Bracketed(open, t, lead, u)|))
  {
    BracketedScan(s, open, t, lead, u);
  }

  /** A prefix of `s` followed by a prefix of what comes after it is a prefix of `s`. */
  lemma PrefixJoin(s: string, a: string, b: string)
    requires StartsWith(s, a) && StartsWith(s[|a|..], b)
    ensures StartsWith(s, a + b)
  {
    assert s[..|a| + |b|] == s[..|a|] + s[|a|..][..|b|];
  }

  /** The delimiters the searches find enclose a construct at the start of `s`. */
  lemma BracketedFound(s: string, open: string, lead: string, i: nat, j: nat)
    requires StartsWith(s, open)
    requires var rest := s[|open|..];
      && i < |rest| && rest[i] == ']' && StartsWith(rest[i + 1..], "(" + lead)
      && var tail := rest[i + 1..][1 + |lead|..]; j < |tail| && tail[j] == ')'
    ensures var rest := s[|open|..]; var u := rest[i + 1..][1 + |lead|..][..j];
      && StartsWith(s, Bracketed(open, rest[..i], lead, u))
      && |Bracketed(open, rest[..i], lead, u)| == |open| + i + 2 + |lead| + j + 1
  {
    var rest := s[|open|..];
    var after := rest[i + 1..];
    var tail := after[1 + |lead|..];
    var t, u := rest[..i], tail[..j];
    assert StartsWith(tail, u + ")") by { assert tail[..j + 1] == u + ")"; }
    PrefixJoin(after, "(" + lead, u + ")");
    assert StartsWith(rest, t + "]") by { assert rest[..i + 1] == t + "]"; }
    PrefixJoin(rest, t + "]", "(" + lead + (u + ")"));
    PrefixJoin(s, open, t + "]" + ("(" + lead + (u + ")")));
    assert open + (t + "]" + ("(" + lead + (u + ")"))) == Bracketed(open, t, lead, u);
  }

  /**
   * `open` `([^\]]*)` `\]\(` `lead` `([^)]+)` `\)`, with the bracketed text at least
   * `minText` long: the bracketed text, the target after `lead`, and the length matched.
   * Both runs stop at the first delimiter, so at most one construct starts at `s`.
   */
  function MatchBracketed(s: string, open: string, minText: nat, lead: string): (r: Option<(string, string, nat)>)
    ensures r.Some? ==> StartsWith(s, open) && |open| < r.value.2 <= |s|
    ensures r.Some? ==> ']' !in r.value.0 && |r.value.0| >= minText && ')' !in r.value.1 && |r.value.1| >= 1
  {
    if !StartsWith(s, open) then None
    else
      var rest := s[|open|..];
      match IndexOfChar(rest, ']')
      case None => None
      case Some(i) =>
        if i < minText then None
        else
          var after := rest[i + 1..];
          if !StartsWith(after, "(" + lead) then None
          else
            var tail := after[1 + |lead|..];
            match IndexOfChar(tail, ')')
            case None => None
            case Some(j) =>
              if j == 0 then None
              else Some((rest[..i], tail[..j], |open| + i + 2 + |lead| + j + 1))
  }

  /** `s` starts with `fence body fence`, the body a non-empty run without the fence character. */
  predicate FencedAt(s: string, fence: string, body: string) {
    fence != [] && body != [] && fence[0] !in body && StartsWith(s, fence + body + fence)
  }

  /** Where the search of `MatchFenced` finds the closing fence of a construct at the start of `s`. */
  lemma FencedScan(s: string, fence: string, body: string)
    requires FencedAt(s, fence, body)
    ensures StartsWith(s, fence) && var rest := s[|fence|..];
      IndexOfChar(rest, fence[0]) == Some(|body|) && rest[..|body|] == body && StartsWith(rest[|body|..], fence)
  {
    var c := fence + body + fence;
    var z := s[|c|..];
    assert s == c + z by { assert s == s[..|c|] + s[|c|..]; }
    var rest := s[|fence|..];
    assert s[..|fence|] == fence;
    assert rest == body + (fence + z);
    IndexOfCharAfter(body, fence + z, fence[0]);
    assert rest[..|body|] == body;
    assert rest[|body|..] == fence + z;
    assert (fence + z)[..|fence|] == fence;
  }

  /**
   * `fence([^c]+)fence` where `c` is the fence character: the body and the length matched.
   * The body ends at the first `c` after the opening fence, and a closing fence must start there.
   */
  function MatchFenced(s: string, fence: string): (r: Option<(string, nat)>)
    requires fence != []
    ensures r.Some? ==> r.value.1 == 2 * |fence| + |r.value.0| <= |s|
    ensures r.Some? ==> s[..r.value.1] == fence + r.value.0 + fence
    ensures r.Some? ==> |r.value.0| >= 1 && fence[0] !in r.value.0
  {
    if !StartsWith(s, fence) then None
    else
      var rest := s[|fence|..];
      match IndexOfChar(rest, fence[0])
      case None => None
      case Some(j) =>
        if j == 0 || !StartsWith(rest[j..], fence) then None
        else
          assert s[..2 * |fence| + j] == fence + rest[..j] + fence by {
            assert s == fence + rest;
            assert rest[..j + |fence|] == rest[..j] + rest[j..][..|fence|];
          }
          Some((rest[..j], 2 * |fence| + j))
  }

  /** Every fenced construct at the start of `s` is the one `MatchFenced` finds: `None` means none starts there. */
  lemma MatchFencedFinds(s: string, fence: string, body: string)
    requires FencedAt(s, fence, body)
    ensures MatchFenced(s, fence) == Some((body, 2 * |fence| + |body|))
  {
    FencedScan(s, fence, body);
  }

  /** A hit at the start of `s` spans a non-empty prefix of it; `s` starts with `first` and holds `key`. */
  predicate Spans(h: Hit, s: string, first: char, key: char) {
    0 < h.len <= |s| && s[0] == first && key in s
  }

  /** `<hN>t</hN>`: the heading element of level `l` around `t`. */
  function HeadingElement(l: Level, t: string): string {
    "<h" + [LevelDigit(l)] + ">" + t + "</h" + [LevelDigit(l)] + ">"
  }

  /** `<a href="u">t</a>`: the link template with the text `t` and the target `u`. */
  function Anchor(t: string, u: string): string {
    "<a href=\"" + u + "\">" + t + "</a>"
  }

  /**
   * `<img src="" alt="alt">`: the external-image template `<img src="$2" alt="$1">` names a
   * second group that the pattern does not have, which Go expands to nothing.
   */
  function ExternalImageElement(alt: string): string {
    "<img src=\"\" alt=\"" + alt + "\">"
  }

  /**
   * What replaces `![alt](internal/path)`: an inline base64 image when the file `root + path`
   * can be read, and the construct itself, unchanged, when it cannot.
   */
  function InternalImageElement(images: map<string, string>, root: string, alt: string, path: string): string {
    if root + path in images
    then "<img src=\"data:image/jpeg;base64," + images[root + path] + "\" alt=\"" + alt + "\">"
    else Bracketed("![", alt, "internal/", path)
  }

  /** `<pre><code>body</code></pre>`: the code template. */
  function CodeElement(body: string): string {
    "<pre><code>" + body + "</code></pre>"
  }

  /** `<strong>body</strong>`: the bold template. */
  function StrongElement(body: string): string {
    "<strong>" + body + "</strong>"
  }

  /** The internal-image pattern; the match is kept as it is when the image cannot be read. */
  function MatchInternalImage(s: string, images: map<string, string>, root: string): (r: Option<Hit>)
    ensures r.Some? ==> Spans(r.value, s, '!', '[')
  {
    match MatchBracketed(s, "![", 0, "internal/")
    case None => None
    case Some((alt, path, n)) =>
      assert s[1] == s[..2][1] == '[';
      Some(Hit(n, InternalImageElement(images, root, alt, path)))
  }

  /** The external-image pattern and its template `<img src="$2" alt="$1">`. */
  function MatchExternalImage(s: string): (r: Option<Hit>)
    ensures r.Some? ==> Spans(r.value, s, '!', '[')
  {
    match MatchBracketed(s, "![", 0, "http")
    case None => None
    case Some((alt, _, n)) =>
      assert s[1] == s[..2][1] == '[';
      Some(Hit(n, ExternalImageElement(alt)))
  }

  /**
   * `(?m)^#{l} (.+)$`: a hit exactly at the start of a line that begins with the marker and
   * has more text on it; it spans the marker and the rest of the line, and is replaced by
   * the heading element around that rest.
   */
  function MatchHeading(s: string, bol: bool, l: Level): (r: Option<Hit>)
    ensures r.Some? ==> Spans(r.value, s, '#', '#')
    ensures r.Some? <==> bol && StartsWith(s, Marker(l)) && LineOf(s[|Marker(l)|..]) != []
    ensures r.Some? ==> StartsWith(s, Marker(l)) && var line := LineOf(s[|Marker(l)|..]);
      r.value == Hit(|Marker(l)| + |line|, HeadingElement(l, line))
  {
    if !bol || !StartsWith(s, Marker(l)) then None
    else
      var line := LineOf(s[|Marker(l)|..]);
      if line == [] then None
      else
        assert s[0] == s[..|Marker(l)|][0] == Marker(l)[0];
        Some(Hit(|Marker(l)| + |line|, HeadingElement(l, line)))
  }

  /** The link pattern and its template `<a href="$2">$1</a>`. */
  function MatchLink(s: string): (r: Option<Hit>)
    ensures r.Some? ==> Spans(r.value, s, '[', '[')
  {
    match MatchBracketed(s, "[", 1, "")
    case None => None
    case Some((text, url, n)) =>
      assert s[0] == s[..1][0];
      Some(Hit(n, Anchor(text, url)))
  }

  /** `strings.ReplaceAll(html, "\n\n", "</p><p>")`: a hit exactly at a blank line, spanning its two newlines. */
  function MatchParagraphBreak(s: string): (r: Option<Hit>)
    ensures r.Some? ==> Spans(r.value, s, '\n', '\n')
    ensures r.Some? <==> StartsWith(s, "\n\n")
    ensures r.Some? ==> r.value == Hit(2, "</p><p>")
  {
    if StartsWith(s, "\n\n") then
      assert s[0] == s[..2][0];
      Some(Hit(2, "</p><p>"))
    else None
  }

  /** The code pattern and its template `<pre><code>$1</code></pre>`. */
  function MatchCodeBlock(s: string): (r: Option<Hit>)
    ensures r.Some? ==> Spans(r.value, s, '`', '`')
  {
    match MatchFenced(s, "```")
    case None => None
    case Some((body, n)) =>
      assert s[0] == s[..n][0];
      Some(Hit(n, CodeElement(body)))
  }

  /** The bold pattern and its template `<strong>$1</strong>`. */
  function MatchBold(s: string): (r: Option<Hit>)
    ensures r.Some? ==> Spans(r.value, s, '*', '*')
  {
    match MatchFenced(s, "**")
    case None => None
    case Some((body, n)) =>
      assert s[0] == s[..n][0];
      Some(Hit(n, StrongElement(body)))
  }

  /** A bracketed hit spans exactly `open t](lead u)` at the start of `s`, with the parts it returns. */
  lemma MatchBracketedHit(s: string, open: string, minText: nat, lead: string)
    requires MatchBracketed(s, open, minText, lead).Some?
    ensures var (t, u, n) := MatchBracketed(s, open, minText, lead).value;
      BracketedAt(s, open, minText, lead, t, u) && n == |Bracketed(open, t, lead, u)|
  {
    var rest := s[|open|..];
    var i := IndexOfChar(rest, ']').value;
    var j := IndexOfChar(rest[i + 1..][1 + |lead|..], ')').value;
    BracketedFound(s, open, lead, i, j);
  }

  /**
   * An internal-image hit spans `![alt](internal/path)` at the start of `s`, `path` not
   * empty, and is replaced by the inline image or, when it cannot be read, by itself.
   */
  lemma MatchInternalImageHit(s: string, images: map<string, string>, root: string)
    requires MatchInternalImage(s, images, root).Some?
    ensures
      exists alt, path :: BracketedAt(s, "![", 0, "internal/", alt, path)
        && MatchInternalImage(s, images, root).value
           == Hit(|Bracketed("![", alt, "internal/", path)|, InternalImageElement(images, root, alt, path))
  {
    MatchBracketedHit(s, "![", 0, "internal/");
  }

  /** Every `![alt](internal/path)` at the start of `s` is found: `None` means none starts there. */
  lemma MatchInternalImageFinds(s: string, images: map<string, string>, root: string, alt: string, path: string)
    requires BracketedAt(s, "![", 0, "internal/", alt, path)
    ensures MatchInternalImage(s, images, root)
            == Some(Hit(|Bracketed("![", alt, "internal/", path)|, InternalImageElement(images, root, alt, path)))
  {
    MatchBracketedFinds(s, "![", 0, "internal/", alt, path);
  }

  /** An external-image hit spans `![alt](http…)` at the start of `s` and is replaced by `<img src="" alt="alt">`. */
  lemma MatchExternalImageHit(s: string)
    requires MatchExternalImage(s).Some?
    ensures
      exists alt, rest :: BracketedAt(s, "![", 0, "http", alt, rest)
        && MatchExternalImage(s).value == Hit(|Bracketed("![", alt, "http", rest)|, ExternalImageElement(alt))
  {
    MatchBracketedHit(s, "![", 0, "http");
  }

  /** Every `![alt](http…)` at the start of `s` is found: `None` means none starts there. */
  lemma MatchExternalImageFinds(s: string, alt: string, rest: string)
    requires BracketedAt(s, "![", 0, "http", alt, rest)
    ensures MatchExternalImage(s) == Some(Hit(|Bracketed("![", alt, "http", rest)|, ExternalImageElement(alt)))
  {
    MatchBracketedFinds(s, "![", 0, "http", alt, rest);
  }

  /** A link hit spans `[t](u)` at the start of `s`, `t` and `u` not empty, and is replaced by `<a href="u">t</a>`. */
  lemma MatchLinkHit(s: string)
    requires MatchLink(s).Some?
    ensures
      exists t, u :: BracketedAt(s, "[", 1, "", t, u)
        && MatchLink(s).value == Hit(|Bracketed("[", t, "", u)|, Anchor(t, u))
  {
    MatchBracketedHit(s, "[", 1, "");
  }

  /** Every `[t](u)` at the start of `s`, `t` and `u` not empty, is found: `None` means none starts there. */
  lemma MatchLinkFinds(s: string, t: string, u: string)
    requires BracketedAt(s, "[", 1, "", t, u)
    ensures MatchLink(s) == Some(Hit(|Bracketed("[", t, "", u)|, Anchor(t, u)))
  {
    MatchBracketedFinds(s, "[", 1, "", t, u);
  }

  /** A code hit spans "```body```" at the start of `s` and is replaced by `<pre><code>body</code></pre>`. */
  lemma MatchCodeBlockHit(s: string)
    requires MatchCodeBlock(s).Some?
    ensures exists body :: FencedAt(s, "```", body) && MatchCodeBlock(s).value == Hit(6 + |body|, CodeElement(body))
  {
    var body := MatchFenced(s, "```").value.0;
    assert FencedAt(s, "```", body);
  }

  /** Every "```body```" at the start of `s` is found: `None` means none starts there. */
  lemma MatchCodeBlockFinds(s: string, body: string)
    requires FencedAt(s, "```", body)
    ensures MatchCodeBlock(s) == Some(Hit(6 + |body|, CodeElement(body)))
  {
    MatchFencedFinds(s, "```", body);
  }

  /** A bold hit spans `**body**` at the start of `s` and is replaced by `<strong>body</strong>`. */
  lemma MatchBoldHit(s: string)
    requires MatchBold(s).Some?
    ensures exists body :: FencedAt(s, "**", body) && MatchBold(s).value == Hit(4 + |body|, StrongElement(body))
  {
    var body := MatchFenced(s, "**").value.0;
    assert FencedAt(s, "**", body);
  }

  /** Every `**body**` at the start of `s` is found: `None` means none starts there. */
  lemma MatchBoldFinds(s: string, body: string)
    requires FencedAt(s, "**", body)
    ensures MatchBold(s) == Some(Hit(4 + |body|, StrongElement(body)))
  {
    MatchFencedFinds(s, "**", body);
  }

  /** The match of `rule` at the start of `s`, if any; `bol` says whether `s` starts a line. */
  function Match(rule: Rule, s: string, bol: bool): (r: Option<Hit>)
    ensures r.Some? ==> 0 < r.value.len <= |s|
  {
    match rule
    case InternalImage(images, root) => MatchInternalImage(s, images, root)
    case ExternalImage => MatchExternalImage(s)
    case Heading(l) => MatchHeading(s, bol, l)
    case Link => MatchLink(s)
    case ParagraphBreak => MatchParagraphBreak(s)
    case CodeBlock => MatchCodeBlock(s)
    case Bold => MatchBold(s)
  }

  /** A match starts with the rule's first character and holds its key character. */
  lemma MatchStarts(rule: Rule, s: string, bol: bool)
    requires Match(rule, s, bol).Some?
    ensures s[0] == FirstChar(rule) && KeyChar(rule) in s
  {
  }

  /**
   * Go's replace-all of one pattern: the leftmost match, then the next match after it, and so
   * on; text between matches is copied. `bol` is true at the start of a line of the input.
   */
  function ReplaceAll(rule: Rule, s: string, bol: bool): string
    decreases |s|
  {
    if s == [] then []
    else
      match Match(rule, s, bol)
      case Some(h) => h.text + ReplaceAll(rule, s[h.len..], s[h.len - 1] == '\n')
      case None => [s[0]] + ReplaceAll(rule, s[1..], s[0] == '\n')
  }

  /** No two consecutive newlines: the text has no blank line. */
  predicate NoBlankLine(s: string) {
    forall i :: 0 <= i < |s| - 1 ==> !(s[i] == '\n' && s[i + 1] == '\n')
  }

  /** The three heading passes, in the order the converter runs them. */
  function Headings(s: string): string {
    ReplaceAll(Heading(3), ReplaceAll(Heading(2), ReplaceAll(Heading(1), s, true), true), true)
  }

  /** Everything before the paragraph pass: images, headings, links. */
  function InlinePasses(markdown: string, images: map<string, string>, root: string): string {
    var internal := ReplaceAll(InternalImage(images, root), markdown, true);
    var external := ReplaceAll(ExternalImage, internal, true);
    ReplaceAll(Link, Headings(external), true)
  }

  /**
   * `ConvertMarkdownToHTML`: image, heading and link passes, then every blank line becomes
   * `</p><p>` and the whole text is wrapped in `<p>`...`</p>`, then code blocks, then bold.
   * `root` is the directory the image reader prefixes to a path.
   */
  function ConvertMarkdownToHTML(markdown: string, images: map<string, string>, root: string): string {
    var paragraphs := "<p>" + ReplaceAll(ParagraphBreak, InlinePasses(markdown, images, root), true) + "</p>";
    ReplaceAll(Bold, ReplaceAll(CodeBlock, paragraphs, true), true)
  }

  /** The separator between an article's JSON metadata and its body. */
  const Separator: string := "\n---\n"

  /** Why an article could not be read. */
  datatype ArticleError = ReadFailed | MissingSeparator

  /**
   * `ReadArticleFromMd` on the bytes the file read produced (`None` when the read failed):
   * the metadata bytes and the body, split at the first separator. Decoding the metadata
   * as JSON is not part of this model; the metadata bytes are returned as they are.
   */
  function ReadArticleFromMd(file: Option<string>): (r: Result<(string, string), ArticleError>)
    ensures file.None? ==> r == Failure(ReadFailed)
    ensures file.Some? && r.Failure? ==> r.error == MissingSeparator
    ensures file.Some? ==> (r.Success? <==> exists j :: 0 <= j <= |file.value| && OccursAt(file.value, Separator, j))
    ensures r.Success? ==> r.value.0 + Separator + r.value.1 == file.value
    ensures r.Success? ==> forall j :: 0 <= j < |r.value.0| ==> !OccursAt(file.value, Separator, j)
  {
    match file
    case None => Failure(ReadFailed)
    case Some(content) =>
      match SplitFirst(content, Separator)
      case None => Failure(MissingSeparator)
      case Some(parts) => Success(parts)
  }
}
