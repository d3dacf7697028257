/**
 * What the converter of `internal/wp/markdown.go` guarantees: the output is one paragraph
 * element that opens with `<p>` and closes with `</p>`, it never holds a blank line, and each
 * pass rewrites exactly the constructs its pattern describes.
 */
module MarkdownProperties {
  import opened Wrappers
  import opened Text
  import opened Markdown

  /** A pass leaves alone any text that lacks the character all its matches contain. */
  lemma {:induction false} ReplaceAllIdentity(rule: Rule, s: string, bol: bool)
    requires KeyChar(rule) !in s
    ensures ReplaceAll(rule, s, bol) == s
    decreases |s|
  {
    if s != [] {
      if Match(rule, s, bol).Some? {
        MatchStarts(rule, s, bol);
        assert false;
      }
      ReplaceAllMissStep(rule, s, bol);
      assert KeyChar(rule) !in s[1..];
      ReplaceAllIdentity(rule, s[1..], s[0] == '\n');
    }
  }

  /** Text with no blank line keeps none when cut down to a slice. */
  lemma NoBlankLineSlice(s: string, i: nat, j: nat)
    requires NoBlankLine(s) && i <= j <= |s|
    ensures NoBlankLine(s[i..j])
  {
    forall k | 0 <= k < j - i - 1
      ensures !(s[i..j][k] == '\n' && s[i..j][k + 1] == '\n')
    {
      assert s[i..j][k] == s[i + k] && s[i..j][k + 1] == s[i + k + 1];
    }
  }

  /** Joining two texts without a blank line yields none unless a newline meets a newline. */
  lemma NoBlankLineConcat(a: string, b: string)
    requires NoBlankLine(a) && NoBlankLine(b)
    requires a == [] || b == [] || a[|a| - 1] != '\n' || b[0] != '\n'
    ensures NoBlankLine(a + b)
  {
    forall k | 0 <= k < |a + b| - 1
      ensures !((a + b)[k] == '\n' && (a + b)[k + 1] == '\n')
    {
      if k + 1 < |a| {
        assert (a + b)[k] == a[k] && (a + b)[k + 1] == a[k + 1];
      } else if k >= |a| {
        assert (a + b)[k] == b[k - |a|] && (a + b)[k + 1] == b[k + 1 - |a|];
      } else {
        assert (a + b)[k] == a[|a| - 1] && (a + b)[k + 1] == b[0];
      }
    }
  }

  /**
   * After `strings.ReplaceAll(html, "\n\n", "</p><p>")` no blank line is left: occurrences are
   * replaced from left to right without overlap, so of three newlines in a row the first two
   * are replaced and the third is kept alone. A newline the result starts with is a newline
   * the input starts with, not followed by a second one.
   */
  lemma {:induction false} ParagraphBreaksLeaveNoBlankLine(s: string, bol: bool)
    ensures NoBlankLine(ReplaceAll(ParagraphBreak, s, bol))
    ensures var r := ReplaceAll(ParagraphBreak, s, bol);
      r != [] && r[0] == '\n' ==> s != [] && s[0] == '\n' && !StartsWith(s, "\n\n")
    decreases |s|
  {
    if s != [] {
      assert |s| > 1 && s[0] == '\n' && s[1] == '\n' ==> s[..2] == "\n\n";
      match Match(ParagraphBreak, s, bol)
      case Some(h) =>
        ParagraphBreaksLeaveNoBlankLine(s[2..], false);
        NoBlankLineConcat("</p><p>", ReplaceAll(ParagraphBreak, s[2..], false));
      case None =>
        var rest := ReplaceAll(ParagraphBreak, s[1..], s[0] == '\n');
        ParagraphBreaksLeaveNoBlankLine(s[1..], s[0] == '\n');
        NoBlankLineConcat([s[0]], rest);
    }
  }

  /** One step of a pass where its pattern matches: the replacement, then the rest of the text. */
  lemma ReplaceAllHitStep(rule: Rule, s: string, bol: bool, h: Hit)
    requires s != [] && Match(rule, s, bol) == Some(h)
    ensures ReplaceAll(rule, s, bol) == h.text + ReplaceAll(rule, s[h.len..], s[h.len - 1] == '\n')
  {
  }

  /** A pass whose pattern matches the whole text yields just the replacement. */
  lemma ReplaceAllWholeHit(rule: Rule, s: string, bol: bool, h: Hit)
    requires s != [] && Match(rule, s, bol) == Some(h) && h.len == |s|
    ensures ReplaceAll(rule, s, bol) == h.text
  {
    ReplaceAllHitStep(rule, s, bol, h);
    var rest := s[h.len..];
    assert rest == [];
  }

  /** One step of a pass where its pattern does not match: the first character is copied. */
  lemma ReplaceAllMissStep(rule: Rule, s: string, bol: bool)
    requires s != [] && Match(rule, s, bol).None?
    ensures ReplaceAll(rule, s, bol) == [s[0]] + ReplaceAll(rule, s[1..], s[0] == '\n')
  {
  }

  /** A character no match of the pattern starts with is copied as it is. */
  lemma ReplaceAllCopyStep(rule: Rule, c: char, x: string, bol: bool)
    requires c != FirstChar(rule)
    ensures ReplaceAll(rule, [c] + x, bol) == [c] + ReplaceAll(rule, x, c == '\n')
  {
    assert ([c] + x)[1..] == x;
    if Match(rule, [c] + x, bol).Some? {
      MatchStarts(rule, [c] + x, bol);
      assert false;
    }
    ReplaceAllMissStep(rule, [c] + x, bol);
  }

  /** A code or bold match ends with the fence character, as it ends with the closing fence. */
  lemma FencedHitEnd(rule: Rule, s: string, bol: bool)
    requires rule == CodeBlock || rule == Bold
    requires Match(rule, s, bol).Some?
    ensures var n := Match(rule, s, bol).value.len; 0 < n <= |s| && s[n - 1] == KeyChar(rule)
  {
    var fence := if rule == CodeBlock then "```" else "**";
    var (body, n) := MatchFenced(s, fence).value;
    assert s[n - 1] == s[..n][n - 1] == (fence + body + fence)[n - 1];
  }

  /** `s` ends with `b`. */
  predicate EndsWith(s: string, b: string) {
    |b| <= |s| && s[|s| - |b|..] == b
  }

  /** Dropping a prefix shorter than the text keeps its ending. */
  lemma EndsWithDrop(s: string, b: string, k: nat)
    requires EndsWith(s, b) && k <= |s| - |b|
    ensures EndsWith(s[k..], b)
  {
    assert s[k..][|s[k..]| - |b|..] == s[|s| - |b|..];
  }

  /** Text put in front keeps the ending. */
  lemma EndsWithPrepend(x: string, y: string, b: string)
    requires EndsWith(y, b)
    ensures EndsWith(x + y, b)
  {
    assert (x + y)[|x + y| - |b|..] == y[|y| - |b|..];
  }

  /** Every character in the last `|b|` positions of a text ending with `b` is one of `b`'s. */
  lemma EndsWithChars(s: string, b: string)
    requires EndsWith(s, b)
    ensures forall k :: |s| - |b| <= k < |s| ==> s[k] in b
  {
    forall k | |s| - |b| <= k < |s|
      ensures s[k] in b
    {
      assert s[k] == s[|s| - |b|..][k - (|s| - |b|)];
    }
  }

  /** A code or bold match in a text whose tail is free of the fence character stops before the tail. */
  lemma FencedHitBeforeTail(rule: Rule, s: string, b: string, bol: bool)
    requires rule == CodeBlock || rule == Bold
    requires KeyChar(rule) !in b && EndsWith(s, b) && Match(rule, s, bol).Some?
    ensures Match(rule, s, bol).value.len <= |s| - |b|
  {
    var n := Match(rule, s, bol).value.len;
    FencedHitEnd(rule, s, bol);
    EndsWithChars(s, b);
  }

  /**
   * The code and bold passes keep a tail that holds no backtick (respectively no asterisk):
   * every match of theirs ends with that character, so none reaches into the tail.
   */
  lemma {:induction false} FencedPassKeepsTail(rule: Rule, s: string, b: string, bol: bool)
    requires rule == CodeBlock || rule == Bold
    requires KeyChar(rule) !in b && EndsWith(s, b)
    ensures EndsWith(ReplaceAll(rule, s, bol), b)
    decreases |s|
  {
    if |s| == |b| {
      assert s == b;
      ReplaceAllIdentity(rule, s, bol);
    } else {
      match Match(rule, s, bol)
      case Some(h) =>
        FencedHitBeforeTail(rule, s, b, bol);
        EndsWithDrop(s, b, h.len);
        FencedPassKeepsTail(rule, s[h.len..], b, s[h.len - 1] == '\n');
        ReplaceAllHitStep(rule, s, bol, h);
        EndsWithPrepend(h.text, ReplaceAll(rule, s[h.len..], s[h.len - 1] == '\n'), b);
      case None =>
        EndsWithDrop(s, b, 1);
        FencedPassKeepsTail(rule, s[1..], b, s[0] == '\n');
        ReplaceAllMissStep(rule, s, bol);
        EndsWithPrepend([s[0]], ReplaceAll(rule, s[1..], s[0] == '\n'), b);
    }
  }

  /** Putting the head of `p` back in front of the rest of `p`. */
  lemma PrependAssoc(p: string, y: string)
    requires p != []
    ensures [p[0]] + (p[1..] + y) == p + y
  {
    assert p == [p[0]] + p[1..];
  }

  /**
   * A prefix that holds no character the pattern's matches start with is copied as it is;
   * the rest is scanned as starting a line when the prefix ends with a newline.
   */
  lemma {:induction false} ReplaceAllCopiesPrefix(rule: Rule, p: string, x: string, bol: bool)
    requires p != [] && FirstChar(rule) !in p
    ensures ReplaceAll(rule, p + x, bol) == p + ReplaceAll(rule, x, p[|p| - 1] == '\n')
    decreases |p|
  {
    var tail := p[1..] + x;
    assert p + x == [p[0]] + tail;
    ReplaceAllCopyStep(rule, p[0], tail, bol);
    if |p| > 1 {
      ReplaceAllCopiesPrefix(rule, p[1..], x, p[0] == '\n');
      PrependAssoc(p, ReplaceAll(rule, x, p[|p| - 1] == '\n'));
    }
  }

  /** No pattern starts with `<`, `p` or `>`: every pass copies a leading `<p>` unchanged. */
  lemma ReplaceAllSkipsParagraphOpen(rule: Rule, x: string, bol: bool)
    ensures ReplaceAll(rule, "<p>" + x, bol) == "<p>" + ReplaceAll(rule, x, false)
  {
    ReplaceAllCopiesPrefix(rule, "<p>", x, bol);
  }

  /** `<p>` followed by a text ending in `</p>`. */
  lemma ParagraphShape(r: string, t: string)
    requires r == "<p>" + t && EndsWith(t, "</p>")
    ensures |r| >= 3 && r == "<p>" + r[3..] && EndsWith(r[3..], "</p>")
  {
    assert r[3..] == t;
  }

  /**
   * The code and bold passes, applied to `<p>` followed by a text ending in `</p>`, keep
   * that shape: no match starts in the opening tag and none reaches into the closing one.
   */
  lemma FencedPassKeepsParagraph(rule: Rule, y: string, bol: bool)
    requires rule == CodeBlock || rule == Bold
    requires EndsWith(y, "</p>")
    ensures var r := ReplaceAll(rule, "<p>" + y, bol);
      |r| >= 3 && r == "<p>" + r[3..] && EndsWith(r[3..], "</p>")
  {
    ReplaceAllSkipsParagraphOpen(rule, y, bol);
    FencedPassKeepsTail(rule, y, "</p>", false);
    ParagraphShape(ReplaceAll(rule, "<p>" + y, bol), ReplaceAll(rule, y, false));
  }

  /** The code pass and then the bold pass keep `<p>` in front and `</p>` at the end. */
  lemma FencedPassesKeepParagraph(y: string)
    requires EndsWith(y, "</p>")
    ensures var r := ReplaceAll(Bold, ReplaceAll(CodeBlock, "<p>" + y, true), true);
      |r| >= 7 && r[..3] == "<p>" && r[|r| - 4..] == "</p>"
  {
    FencedPassKeepsParagraph(CodeBlock, y, true);
    var c := ReplaceAll(CodeBlock, "<p>" + y, true);
    FencedPassKeepsParagraph(Bold, c[3..], true);
  }

  /** The converted text always opens with `<p>` and closes with `</p>`. */
  lemma ConvertWrapsInParagraph(markdown: string, images: map<string, string>, root: string)
    ensures var html := ConvertMarkdownToHTML(markdown, images, root);
      |html| >= 7 && html[..3] == "<p>" && html[|html| - 4..] == "</p>"
  {
    var p := ReplaceAll(ParagraphBreak, InlinePasses(markdown, images, root), true);
    assert "<p>" + p + "</p>" == "<p>" + (p + "</p>");
    assert EndsWith(p + "</p>", "</p>");
    FencedPassesKeepParagraph(p + "</p>");
  }

  /** The body of a fenced match is a slice of the text, so it has no blank line if the text has none. */
  lemma FencedBodyNoBlankLine(s: string, fence: string)
    requires fence != [] && NoBlankLine(s) && MatchFenced(s, fence).Some?
    ensures NoBlankLine(MatchFenced(s, fence).value.0)
  {
    var (body, n) := MatchFenced(s, fence).value;
    assert s[..n][|fence|..|fence| + |body|] == body;
    NoBlankLineSlice(s, 0, n);
    NoBlankLineSlice(s[..n], |fence|, |fence| + |body|);
  }

  /** Tags that neither end nor start with a newline add no blank line around a text. */
  lemma TagsKeepNoBlankLine(open: string, body: string, close: string)
    requires NoBlankLine(open) && NoBlankLine(body) && NoBlankLine(close)
    requires open != [] && open[|open| - 1] != '\n' && close != [] && close[0] != '\n'
    ensures NoBlankLine(open + body + close)
  {
    NoBlankLineConcat(open, body);
    NoBlankLineConcat(open + body, close);
  }

  /** The replacement of a code or bold match holds no blank line and is delimited by tags. */
  lemma FencedHitNoBlankLine(rule: Rule, s: string, bol: bool)
    requires rule == CodeBlock || rule == Bold
    requires NoBlankLine(s) && Match(rule, s, bol).Some?
    ensures var t := Match(rule, s, bol).value.text;
      NoBlankLine(t) && |t| > 0 && t[0] == '<' && t[|t| - 1] == '>'
  {
    if rule == CodeBlock {
      FencedBodyNoBlankLine(s, "```");
      TagsKeepNoBlankLine("<pre><code>", MatchFenced(s, "```").value.0, "</code></pre>");
    } else {
      FencedBodyNoBlankLine(s, "**");
      TagsKeepNoBlankLine("<strong>", MatchFenced(s, "**").value.0, "</strong>");
    }
  }

  /**
   * The code and bold passes keep text free of blank lines: they only copy characters and
   * insert tags around copied slices. A newline the result starts with comes from the input.
   */
  lemma {:induction false} FencedPassKeepsNoBlankLine(rule: Rule, s: string, bol: bool)
    requires rule == CodeBlock || rule == Bold
    requires NoBlankLine(s)
    ensures NoBlankLine(ReplaceAll(rule, s, bol))
    ensures var r := ReplaceAll(rule, s, bol); r != [] && r[0] == '\n' ==> s != [] && s[0] == '\n'
    decreases |s|
  {
    if s != [] {
      match Match(rule, s, bol)
      case Some(h) =>
        FencedHitNoBlankLine(rule, s, bol);
        NoBlankLineSlice(s, h.len, |s|);
        FencedPassKeepsNoBlankLine(rule, s[h.len..], s[h.len - 1] == '\n');
        NoBlankLineConcat(h.text, ReplaceAll(rule, s[h.len..], s[h.len - 1] == '\n'));
      case None =>
        NoBlankLineSlice(s, 1, |s|);
        FencedPassKeepsNoBlankLine(rule, s[1..], s[0] == '\n');
        NoBlankLineConcat([s[0]], ReplaceAll(rule, s[1..], s[0] == '\n'));
    }
  }

  /** The code pass then the bold pass keep a text free of blank lines. */
  lemma FencedPassesKeepNoBlankLine(x: string)
    requires NoBlankLine(x)
    ensures NoBlankLine(ReplaceAll(Bold, ReplaceAll(CodeBlock, x, true), true))
  {
    FencedPassKeepsNoBlankLine(CodeBlock, x, true);
    FencedPassKeepsNoBlankLine(Bold, ReplaceAll(CodeBlock, x, true), true);
  }

  /** Wrapping in `<p>`...`</p>` adds no blank line. */
  lemma WrapKeepsNoBlankLine(p: string)
    requires NoBlankLine(p)
    ensures NoBlankLine("<p>" + p + "</p>")
  {
    TagsKeepNoBlankLine("<p>", p, "</p>");
  }

  /** The converted text never holds two consecutive newlines. */
  lemma ConvertHasNoBlankLine(markdown: string, images: map<string, string>, root: string)
    ensures NoBlankLine(ConvertMarkdownToHTML(markdown, images, root))
  {
    var inline := InlinePasses(markdown, images, root);
    ParagraphBreaksLeaveNoBlankLine(inline, true);
    WrapKeepsNoBlankLine(ReplaceAll(ParagraphBreak, inline, true));
    FencedPassesKeepNoBlankLine("<p>" + ReplaceAll(ParagraphBreak, inline, true) + "</p>");
  }
}
