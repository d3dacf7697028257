/**
 * What each pass of `ConvertMarkdownToHTML` does to the construct it is written for, wherever
 * that construct stands, and what it leaves alone: headings of levels one to three, links,
 * external images, internal images, code blocks and bold text.
 */
module MarkdownPasses {
  import opened Wrappers
  import opened Text
  import opened Markdown
  import opened MarkdownProperties

  /** A match that spans exactly the construct `c`: the pass replaces `c` and goes on with what follows. */
  lemma PassThenRest(rule: Rule, s: string, c: string, x: string, bol: bool, text: string)
    requires s == c + x && c != [] && Match(rule, s, bol) == Some(Hit(|c|, text))
    ensures ReplaceAll(rule, s, bol) == text + ReplaceAll(rule, x, c[|c| - 1] == '\n')
  {
    ReplaceAllHitStep(rule, s, bol, Hit(|c|, text));
    assert s[|c|..] == x && s[|c| - 1] == c[|c| - 1];
  }

  /** A text starts with itself, whatever follows it. */
  lemma StartsWithSelf(c: string, x: string)
    ensures StartsWith(c + x, c)
  {
    assert (c + x)[..|c|] == c;
  }

  // Headings

  /** The rest of a line that is followed by a line break, or by nothing, is the whole line. */
  lemma LineOfLine(w: string, y: string)
    requires '\n' !in w && (y == [] || y[0] == '\n')
    ensures LineOf(w + y) == w
  {
    if y == [] {
      assert w + y == w;
    } else {
      IndexOfCharAfter(w, y, '\n');
      assert (w + y)[..|w|] == w;
    }
  }

  /** A text that is empty or starts a new line reads the same to a heading pass whether or not it starts a line. */
  lemma LineBreakStart(l: Level, y: string, bol: bool)
    requires y == [] || y[0] == '\n'
    ensures ReplaceAll(Heading(l), y, bol) == ReplaceAll(Heading(l), y, true)
    ensures var r := ReplaceAll(Heading(l), y, true); r == [] || r[0] == '\n'
  {
    if y != [] {
      assert y == ['\n'] + y[1..];
      ReplaceAllCopyStep(Heading(l), '\n', y[1..], bol);
      ReplaceAllCopyStep(Heading(l), '\n', y[1..], true);
    }
  }

  /** Inside one line, past its start, no heading pattern matches: `^` holds only at a line start. */
  lemma {:induction false} HeadingPassWithinLine(l: Level, w: string, y: string)
    requires '\n' !in w
    ensures ReplaceAll(Heading(l), w + y, false) == w + ReplaceAll(Heading(l), y, false)
    decreases |w|
  {
    if w == [] {
      assert w + y == y;
    } else {
      var s := w + y;
      ReplaceAllMissStep(Heading(l), s, false);
      assert s[0] == w[0] && s[1..] == w[1..] + y;
      HeadingPassWithinLine(l, w[1..], y);
      PrependAssoc(w, ReplaceAll(Heading(l), y, false));
    }
  }

  /** The marker holds hashes and one space, no newline. */
  lemma MarkerHasNoNewline(l: Level)
    ensures '\n' !in Marker(l)
  {
    assert forall k :: 0 <= k < |Marker(l)| ==> Marker(l)[k] == '#' || Marker(l)[k] == ' ';
  }

  /** A line that is `#{l} ` then more text, followed by a line break or nothing, is one heading match. */
  lemma HeadingLineMatch(l: Level, w: string, y: string)
    requires '\n' !in w && (y == [] || y[0] == '\n')
    requires StartsWith(w, Marker(l)) && |w| > |Marker(l)|
    ensures Match(Heading(l), w + y, true) == Some(Hit(|w|, HeadingElement(l, w[|Marker(l)|..])))
  {
    var m := Marker(l);
    var s := w + y;
    assert s[..|m|] == w[..|m|];
    assert s[|m|..] == w[|m|..] + y;
    LineOfLine(w[|m|..], y);
    assert StartsWith(s, m) && LineOf(s[|m|..]) == w[|m|..];
    assert Match(Heading(l), s, true) == MatchHeading(s, true, l);
  }

  /** A line that is not `#{l} ` then more text, followed by a line break or nothing, has no heading match at its start. */
  lemma HeadingLineNoMatch(l: Level, w: string, y: string)
    requires '\n' !in w && (y == [] || y[0] == '\n')
    requires !(StartsWith(w, Marker(l)) && |w| > |Marker(l)|)
    ensures Match(Heading(l), w + y, true).None?
  {
    var m := Marker(l);
    var s := w + y;
    if StartsWith(w, m) {
      assert s[..|m|] == w[..|m|];
      assert s[|m|..] == y;
      LineOfLine([], y);
    } else if |w| >= |m| {
      assert s[..|m|] == w[..|m|];
    } else if |s| >= |m| {
      // The line is shorter than the marker: where the marker goes on, the text has a line break.
      MarkerHasNoNewline(l);
      assert s[|w|] == '\n' && m[|w|] in m;
      assert s[..|m|][|w|] != m[|w|];
    }
  }

  /**
   * The heading pass of level `l` on one line followed by a line break (or by nothing): the
   * line becomes the heading element when it is `#{l} ` then more text, and stays as it is
   * otherwise; the pass then goes on with the next line as a line start.
   */
  lemma HeadingPassOnLine(l: Level, w: string, y: string)
    requires '\n' !in w && (y == [] || y[0] == '\n')
    ensures ReplaceAll(Heading(l), w + y, true)
            == (if StartsWith(w, Marker(l)) && |w| > |Marker(l)| then HeadingElement(l, w[|Marker(l)|..]) else w)
               + ReplaceAll(Heading(l), y, true)
  {
    var s := w + y;
    LineBreakStart(l, y, false);
    if StartsWith(w, Marker(l)) && |w| > |Marker(l)| {
      HeadingLineMatch(l, w, y);
      PassThenRest(Heading(l), s, w, y, true, HeadingElement(l, w[|Marker(l)|..]));
    } else if w == [] {
      assert s == y;
    } else {
      HeadingLineNoMatch(l, w, y);
      ReplaceAllMissStep(Heading(l), s, true);
      assert s[0] == w[0] && s[1..] == w[1..] + y;
      HeadingPassWithinLine(l, w[1..], y);
      PrependAssoc(w, ReplaceAll(Heading(l), y, false));
    }
  }

  /** A line that does not start with the level's marker is left alone by its pass. */
  lemma HeadingPassNoMarker(l: Level, w: string, y: string)
    requires '\n' !in w && !StartsWith(w, Marker(l)) && (y == [] || y[0] == '\n')
    ensures ReplaceAll(Heading(l), w + y, true) == w + ReplaceAll(Heading(l), y, true)
  {
    HeadingPassOnLine(l, w, y);
  }

  /** A line holding just the marker, `#` then a space and nothing else, is left alone: `.+` needs a character. */
  lemma HeadingNeedsText(l: Level, y: string)
    requires y == [] || y[0] == '\n'
    ensures ReplaceAll(Heading(l), Marker(l) + y, true) == Marker(l) + ReplaceAll(Heading(l), y, true)
  {
    MarkerHasNoNewline(l);
    HeadingPassOnLine(l, Marker(l), y);
  }

  /** A line `#{l} T`, with `T` not empty, becomes the heading element of level `l`, and the pass goes on with the next line. */
  lemma HeadingPassRewrites(l: Level, t: string, y: string)
    requires t != [] && '\n' !in t && (y == [] || y[0] == '\n')
    ensures ReplaceAll(Heading(l), Marker(l) + t + y, true) == HeadingElement(l, t) + ReplaceAll(Heading(l), y, true)
  {
    var w := Marker(l) + t;
    HeadingLineOf(l, t);
    HeadingLineHasNoNewline(w, l, t);
    HeadingPassOnLine(l, w, y);
  }

  /** A character that is neither in `t` nor in the tag names is not in the heading element around `t`. */
  lemma HeadingElementAvoids(l: Level, t: string, c: char)
    requires c !in t && c !in "<>/h123"
    ensures c !in HeadingElement(l, t)
  {
    assert LevelDigit(l) in "123";
  }

  /** A heading pass brings in no character other than those of the heading tags. */
  lemma {:induction false} HeadingPassAvoids(l: Level, s: string, bol: bool, c: char)
    requires c !in s && c !in "<>/h123"
    ensures c !in ReplaceAll(Heading(l), s, bol)
    decreases |s|
  {
    if s != [] {
      match Match(Heading(l), s, bol)
      case Some(h) =>
        ReplaceAllHitStep(Heading(l), s, bol, h);
        var line := LineOf(s[|Marker(l)|..]);
        assert line == s[|Marker(l)|..][..|line|];
        HeadingElementAvoids(l, line, c);
        HeadingPassAvoids(l, s[h.len..], s[h.len - 1] == '\n', c);
      case None =>
        ReplaceAllMissStep(Heading(l), s, bol);
        HeadingPassAvoids(l, s[1..], s[0] == '\n', c);
    }
  }

  /** The three heading passes bring in no character other than those of the heading tags. */
  lemma HeadingsAvoid(s: string, c: char)
    requires c !in s && c !in "<>/h123"
    ensures c !in Headings(s)
  {
    HeadingPassAvoids(1, s, true, c);
    HeadingPassAvoids(2, ReplaceAll(Heading(1), s, true), true, c);
    HeadingPassAvoids(3, ReplaceAll(Heading(2), ReplaceAll(Heading(1), s, true), true), true, c);
  }

  /** A heading element is left alone by every heading pass: it starts with `<` and holds no newline. */
  lemma HeadingPassKeepsElement(k: Level, l: Level, t: string)
    requires '\n' !in t
    ensures ReplaceAll(Heading(k), HeadingElement(l, t), true) == HeadingElement(l, t)
  {
    var e := HeadingElement(l, t);
    assert '\n' !in e;
    assert e[0] == '<' && Marker(k)[0] == '#';
    assert e + [] == e;
    HeadingPassNoMarker(k, e, []);
  }

  /** A line `#{l} T`: the marker of level `l`, then the non-empty rest `T` of the line. */
  predicate HeadingLine(s: string, l: Level, t: string) {
    StartsWith(s, Marker(l)) && s[|Marker(l)|..] == t && t != [] && '\n' !in t
  }

  /** The marker of one level is not the start of a line of another level. */
  lemma MarkersDiffer(s: string, k: Level, l: Level, t: string)
    requires HeadingLine(s, l, t) && k != l
    ensures !StartsWith(s, Marker(k))
  {
    if k < l {
      assert s[k] == s[..|Marker(l)|][k] == '#' && Marker(k)[k] == ' ';
    } else if |s| >= |Marker(k)| {
      assert s[l] == s[..|Marker(l)|][l] == ' ' && Marker(k)[l] == '#';
      assert s[..|Marker(k)|][l] != Marker(k)[l];
    }
  }

  /** A line `#{l} T` is the marker followed by `T`, so it holds no newline. */
  lemma HeadingLineHasNoNewline(s: string, l: Level, t: string)
    requires HeadingLine(s, l, t)
    ensures s == Marker(l) + t && '\n' !in s
  {
    assert s == s[..|Marker(l)|] + s[|Marker(l)|..];
    MarkerHasNoNewline(l);
  }

  /** A line `#{l} T` holds only hashes, a space and the characters of `T`. */
  lemma HeadingLineAvoids(s: string, l: Level, t: string, c: char)
    requires HeadingLine(s, l, t) && c !in t && c != '#' && c != ' '
    ensures c !in s
  {
    assert s == s[..|Marker(l)|] + s[|Marker(l)|..];
    assert forall k :: 0 <= k < |Marker(l)| ==> Marker(l)[k] == '#' || Marker(l)[k] == ' ';
  }

  /** `Marker(l) + T` is a line `#{l} T` when `T` is a non-empty line. */
  lemma HeadingLineOf(l: Level, t: string)
    requires t != [] && '\n' !in t
    ensures HeadingLine(Marker(l) + t, l, t)
  {
    assert (Marker(l) + t)[..|Marker(l)|] == Marker(l);
    assert (Marker(l) + t)[|Marker(l)|..] == t;
  }

  /** One heading pass on a whole line: the result of that line alone, holding no newline. */
  lemma HeadingPassOfLine(l: Level, w: string)
    requires '\n' !in w
    ensures ReplaceAll(Heading(l), w, true)
            == if StartsWith(w, Marker(l)) && |w| > |Marker(l)| then HeadingElement(l, w[|Marker(l)|..]) else w
    ensures '\n' !in ReplaceAll(Heading(l), w, true)
  {
    assert w + [] == w;
    HeadingPassOnLine(l, w, []);
    if StartsWith(w, Marker(l)) && |w| > |Marker(l)| {
      assert w[|Marker(l)|..] == w[|Marker(l)|..];
      HeadingElementAvoids(l, w[|Marker(l)|..], '\n');
    }
  }

  /** A heading pass works line by line: a line and what follows its line break are converted apart. */
  lemma HeadingPassByLine(l: Level, w: string, y: string)
    requires '\n' !in w && (y == [] || y[0] == '\n')
    ensures ReplaceAll(Heading(l), w + y, true) == ReplaceAll(Heading(l), w, true) + ReplaceAll(Heading(l), y, true)
    ensures '\n' !in ReplaceAll(Heading(l), w, true)
    ensures var r := ReplaceAll(Heading(l), y, true); r == [] || r[0] == '\n'
  {
    HeadingPassOnLine(l, w, y);
    HeadingPassOfLine(l, w);
    LineBreakStart(l, y, true);
  }

  /** The three heading passes work line by line, as their `(?m)` patterns do. */
  lemma HeadingsByLine(w: string, y: string)
    requires '\n' !in w && (y == [] || y[0] == '\n')
    ensures Headings(w + y) == Headings(w) + Headings(y)
  {
    HeadingPassByLine(1, w, y);
    var w1, y1 := ReplaceAll(Heading(1), w, true), ReplaceAll(Heading(1), y, true);
    HeadingPassByLine(2, w1, y1);
    var w2, y2 := ReplaceAll(Heading(2), w1, true), ReplaceAll(Heading(2), y1, true);
    HeadingPassByLine(3, w2, y2);
  }

  /** One heading pass on a line `#{l} T`: the pass of level `l` converts it, the others keep it. */
  lemma HeadingPassOnHeadingLine(k: Level, s: string, l: Level, t: string)
    requires HeadingLine(s, l, t)
    ensures ReplaceAll(Heading(k), s, true) == if k == l then HeadingElement(l, t) else s
  {
    HeadingLineHasNoNewline(s, l, t);
    HeadingPassOfLine(k, s);
    if k != l {
      MarkersDiffer(s, k, l, t);
    }
  }

  /** All three heading passes together turn a line `#{l} T` into the heading element. */
  lemma HeadingsOnLine(s: string, l: Level, t: string)
    requires HeadingLine(s, l, t)
    ensures Headings(s) == HeadingElement(l, t)
  {
    HeadingPassOnHeadingLine(1, s, l, t);
    if l == 1 {
      HeadingPassKeepsElement(2, 1, t);
      HeadingPassKeepsElement(3, 1, t);
    } else {
      HeadingPassOnHeadingLine(2, s, l, t);
      if l == 2 {
        HeadingPassKeepsElement(3, 2, t);
      } else {
        HeadingPassOnHeadingLine(3, s, l, t);
      }
    }
  }

  /**
   * `# T`, `## T` and `### T` become `<h1>T</h1>`, `<h2>T</h2>` and `<h3>T</h3>` under the three
   * heading passes, and the lines after the line break are converted on their own.
   */
  lemma HeadingsRewrite(l: Level, t: string, y: string)
    requires t != [] && '\n' !in t && (y == [] || y[0] == '\n')
    ensures Headings(Marker(l) + t + y) == HeadingElement(l, t) + Headings(y)
  {
    var w := Marker(l) + t;
    HeadingLineOf(l, t);
    HeadingLineHasNoNewline(w, l, t);
    HeadingsByLine(w, y);
    HeadingsOnLine(w, l, t);
  }

  /** A line of four or more `#` is not a heading: the converter has no level past three. */
  lemma HeadingsIgnoreDeeper(t: string, y: string)
    requires '\n' !in t && (y == [] || y[0] == '\n')
    ensures Headings("####" + t + y) == "####" + t + Headings(y)
  {
    var w := "####" + t;
    assert '\n' !in w;
    assert w[1] == '#' && w[2] == '#' && w[3] == '#';
    assert Marker(1)[1] == ' ' && Marker(2)[2] == ' ' && Marker(3)[3] == ' ';
    assert !StartsWith(w, Marker(1)) by { assert w[..2][1] != Marker(1)[1]; }
    assert !StartsWith(w, Marker(2)) by { assert w[..3][2] != Marker(2)[2]; }
    assert !StartsWith(w, Marker(3)) by { assert w[..4][3] != Marker(3)[3]; }
    HeadingPassOfLine(1, w);
    HeadingPassOfLine(2, w);
    HeadingPassOfLine(3, w);
    HeadingsByLine(w, y);
  }

  // Links and images

  /** A bracketed construct with parts the pattern accepts starts whatever text follows it. */
  lemma BracketedThenRest(open: string, minText: nat, t: string, lead: string, u: string, x: string)
    requires ']' !in t && |t| >= minText && ')' !in u && u != []
    ensures BracketedAt(Bracketed(open, t, lead, u) + x, open, minText, lead, t, u)
  {
    StartsWithSelf(Bracketed(open, t, lead, u), x);
  }

  /** `[t](u)`, with `t` and `u` not empty, becomes `<a href="u">t</a>`, and the pass goes on after it. */
  lemma LinkPassRewrites(t: string, u: string, x: string)
    requires t != [] && u != [] && ']' !in t && ')' !in u
    ensures ReplaceAll(Link, "[" + t + "](" + u + ")" + x, true) == Anchor(t, u) + ReplaceAll(Link, x, false)
  {
    var c := Bracketed("[", t, "", u);
    assert c == "[" + t + "](" + u + ")";
    BracketedThenRest("[", 1, t, "", u, x);
    MatchLinkFinds(c + x, t, u);
    PassThenRest(Link, c + x, c, x, true, Anchor(t, u));
  }

  /** The link pattern does not look at line starts. */
  lemma LinkPassIgnoresLineStart(x: string, bol: bool)
    ensures ReplaceAll(Link, x, bol) == ReplaceAll(Link, x, false)
  {
  }

  /** After a `[` that does not start a link, the link pass copies a prefix holding no other `[`. */
  lemma LinkPassSkipsOpen(r: string, p: string, x: string)
    requires r == p + x && p != [] && '[' !in p && MatchLink("[" + r).None?
    ensures ReplaceAll(Link, "[" + r, true) == "[" + p + ReplaceAll(Link, x, false)
  {
    var s := "[" + r;
    assert s[0] == '[' && s[1..] == r;
    ReplaceAllMissStep(Link, s, true);
    assert ReplaceAll(Link, s, true) == "[" + ReplaceAll(Link, r, false);
    ReplaceAllCopiesPrefix(Link, p, x, false);
    LinkPassIgnoresLineStart(x, p[|p| - 1] == '\n');
    var q := ReplaceAll(Link, x, false);
    assert ReplaceAll(Link, r, false) == p + q;
    assert "[" + (p + q) == "[" + p + q;
  }

  /** A `]` right after the `[` leaves the link text empty: no link starts there. */
  lemma EmptyTextNoLink(r: string)
    requires r != [] && r[0] == ']'
    ensures MatchLink("[" + r).None?
  {
    var s := "[" + r;
    assert s[..1] == "[" && s[1..] == r;
    assert IndexOfChar(r, ']') == Some(0);
  }

  /** `]()` right after a text without `]` leaves the target empty: no link starts there. */
  lemma EmptyTargetNoLink(t: string, r: string)
    requires ']' !in t && |r| > |t| + 2 && r[..|t|] == t && r[|t|] == ']' && r[|t| + 1] == '(' && r[|t| + 2] == ')'
    ensures MatchLink("[" + r).None?
  {
    var s := "[" + r;
    assert s[..1] == "[" && s[1..] == r;
    assert r == t + r[|t|..];
    IndexOfCharAfter(t, r[|t|..], ']');
    var after := r[|t| + 1..];
    assert after[..1] == "(" && after[1..][0] == ')';
  }

  /** `[](u)` is not a link: the link text must not be empty; the pass copies it and goes on after it. */
  lemma LinkPassKeepsEmptyText(u: string, x: string)
    requires '[' !in u
    ensures ReplaceAll(Link, "[](" + u + ")" + x, true) == "[](" + u + ")" + ReplaceAll(Link, x, false)
  {
    var p := "](" + u + ")";
    var r := p + x;
    assert "[](" + u + ")" + x == "[" + r && "[](" + u + ")" == "[" + p;
    EmptyTextNoLink(r);
    LinkPassSkipsOpen(r, p, x);
  }

  /** `[t]()` is not a link: the target must not be empty; the pass copies it and goes on after it. */
  lemma LinkPassKeepsEmptyTarget(t: string, x: string)
    requires '[' !in t && ']' !in t
    ensures ReplaceAll(Link, "[" + t + "]()" + x, true) == "[" + t + "]()" + ReplaceAll(Link, x, false)
  {
    var p := t + "]()";
    var r := p + x;
    assert "[" + t + "]()" + x == "[" + r && "[" + t + "]()" == "[" + p;
    assert r[..|t|] == t && r[|t|] == ']' && r[|t| + 1] == '(' && r[|t| + 2] == ')';
    EmptyTargetNoLink(t, r);
    LinkPassSkipsOpen(r, p, x);
  }

  /**
   * The link pass rewrites `[t](u)` exactly when both `t` and `u` are non-empty: `[](u)` and
   * `[t]()` are copied as they are (for texts and targets holding no brackets or parentheses
   * that would start or end another match); either way the pass goes on after it.
   */
  lemma LinkPassRewritesIff(t: string, u: string, x: string)
    requires '[' !in t && ']' !in t && '[' !in u && ')' !in u
    ensures var c := "[" + t + "](" + u + ")";
      ReplaceAll(Link, c + x, true) == (if t != [] && u != [] then Anchor(t, u) else c) + ReplaceAll(Link, x, false)
  {
    if t != [] && u != [] {
      LinkPassRewrites(t, u, x);
    } else if t == [] {
      assert "[" + t + "](" + u + ")" == "[](" + u + ")";
      LinkPassKeepsEmptyText(u, x);
    } else {
      assert "[" + t + "](" + u + ")" == "[" + t + "]()";
      LinkPassKeepsEmptyTarget(t, x);
    }
  }

  /**
   * `![alt](http…)` becomes `<img src="" alt="alt">`, and the pass goes on after it: the
   * template names a second group that the pattern does not have, so the URL is lost.
   */
  lemma ExternalImageDropsUrl(alt: string, rest: string, x: string)
    requires ']' !in alt && ')' !in rest && rest != []
    ensures ReplaceAll(ExternalImage, "![" + alt + "](http" + rest + ")" + x, true)
            == ExternalImageElement(alt) + ReplaceAll(ExternalImage, x, false)
  {
    var c := Bracketed("![", alt, "http", rest);
    assert c == "![" + alt + "](http" + rest + ")";
    BracketedThenRest("![", 0, alt, "http", rest, x);
    MatchExternalImageFinds(c + x, alt, rest);
    PassThenRest(ExternalImage, c + x, c, x, true, ExternalImageElement(alt));
  }

  /**
   * `![alt](internal/path)` becomes an inline base64 image when the image reader can read
   * `root + path`, and stays exactly as it was when it cannot; the pass goes on after it.
   */
  lemma InternalImageReadOrKept(images: map<string, string>, root: string, alt: string, path: string, x: string)
    requires ']' !in alt && ')' !in path && path != []
    ensures var c := "![" + alt + "](internal/" + path + ")";
      ReplaceAll(InternalImage(images, root), c + x, true)
        == (if root + path in images
            then "<img src=\"data:image/jpeg;base64," + images[root + path] + "\" alt=\"" + alt + "\">"
            else c)
           + ReplaceAll(InternalImage(images, root), x, false)
  {
    var c := Bracketed("![", alt, "internal/", path);
    assert c == "![" + alt + "](internal/" + path + ")";
    BracketedThenRest("![", 0, alt, "internal/", path, x);
    MatchInternalImageFinds(c + x, images, root, alt, path);
    PassThenRest(InternalImage(images, root), c + x, c, x, true, InternalImageElement(images, root, alt, path));
  }

  // Code blocks and bold text

  /** A fenced construct with a body the pattern accepts starts whatever text follows it. */
  lemma FencedThenRest(fence: string, body: string, x: string)
    requires fence != [] && body != [] && fence[0] !in body
    ensures FencedAt(fence + body + fence + x, fence, body)
  {
    StartsWithSelf(fence + body + fence, x);
  }

  /**
   * "```body```", with a non-empty body free of backticks, becomes `<pre><code>body</code></pre>`,
   * the body copied as it is, and the pass goes on after it.
   */
  lemma CodeBlockPassRewrites(body: string, bol: bool, x: string)
    requires body != [] && '`' !in body
    ensures ReplaceAll(CodeBlock, "```" + body + "```" + x, bol) == "<pre><code>" + body + "</code></pre>" + ReplaceAll(CodeBlock, x, false)
  {
    var c := "```" + body + "```";
    FencedThenRest("```", body, x);
    MatchCodeBlockFinds(c + x, body);
    PassThenRest(CodeBlock, c + x, c, x, bol, CodeElement(body));
  }

  /** `**body**`, with `body` not empty and free of `*`, becomes `<strong>body</strong>`, and the pass goes on after it. */
  lemma BoldPassRewrites(body: string, bol: bool, x: string)
    requires body != [] && '*' !in body
    ensures ReplaceAll(Bold, "**" + body + "**" + x, bol) == "<strong>" + body + "</strong>" + ReplaceAll(Bold, x, false)
  {
    var c := "**" + body + "**";
    FencedThenRest("**", body, x);
    MatchBoldFinds(c + x, body);
    PassThenRest(Bold, c + x, c, x, bol, StrongElement(body));
  }

  /** No code match starts in a run of at most three backticks followed by backtick-free text. */
  lemma OpenFenceNoMatch(p: string, body: string)
    requires |p| <= 3 && (forall k :: 0 <= k < |p| ==> p[k] == '`') && '`' !in body
    ensures MatchFenced(p + body, "```").None?
  {
    var s := p + body;
    if |p| == 3 {
      assert s[..3] == p && s[3..] == body;
    } else if |s| >= 3 {
      assert s[..3][|p|] == body[0];
    }
  }

  /**
   * An unterminated fence is left as it is: at most three backticks followed by text without
   * backticks hold no code block.
   */
  lemma {:induction false} CodeBlockPassKeepsOpenFence(p: string, body: string, bol: bool)
    requires |p| <= 3 && (forall k :: 0 <= k < |p| ==> p[k] == '`') && '`' !in body
    ensures ReplaceAll(CodeBlock, p + body, bol) == p + body
    decreases |p|
  {
    if p == [] {
      assert p + body == body;
      ReplaceAllIdentity(CodeBlock, body, bol);
    } else {
      var s := p + body;
      OpenFenceNoMatch(p, body);
      ReplaceAllMissStep(CodeBlock, s, bol);
      assert s[1..] == p[1..] + body && s[0] == '`';
      CodeBlockPassKeepsOpenFence(p[1..], body, false);
      PrependAssoc(p, body);
    }
  }

  /**
   * An unterminated fence is left as it is, whatever it holds: with no "```" after the first
   * three characters there is no closing fence, so the code pass has nothing to match.
   */
  lemma {:induction false} CodeBlockPassKeepsUnclosed(s: string, bol: bool)
    requires forall i :: 3 <= i <= |s| ==> !OccursAt(s, "```", i)
    ensures ReplaceAll(CodeBlock, s, bol) == s
    decreases |s|
  {
    if s != [] {
      if MatchCodeBlock(s).Some? {
        var (body, n) := MatchFenced(s, "```").value;
        assert s[..n][3 + |body|..] == "```";
        assert OccursAt(s, "```", 3 + |body|);
        assert false;
      }
      ReplaceAllMissStep(CodeBlock, s, bol);
      OccursAtShift(s, "```");
      forall i | 3 <= i <= |s[1..]|
        ensures !OccursAt(s[1..], "```", i)
      {
        assert !OccursAt(s, "```", i + 1);
      }
      CodeBlockPassKeepsUnclosed(s[1..], s[0] == '\n');
      assert s == [s[0]] + s[1..];
    }
  }

  /** A Go code fence left open, with backticks of a raw string inside it, is kept. */
  lemma UnclosedFenceWithBackticks()
    ensures ReplaceAll(CodeBlock, "```go\nf(`x`)\n", true) == "```go\nf(`x`)\n"
  {
    var s := "```go\nf(`x`)\n";
    assert |s| == 13 && s[3] == 'g' && s[4] == 'o' && s[5] == '\n' && s[6] == 'f' && s[7] == '(';
    assert s[9] == 'x' && s[11] == ')' && s[12] == '\n';
    forall i | 3 <= i <= |s|
      ensures !OccursAt(s, "```", i)
    {
      if i + 3 <= |s| {
        assert s[i..i + 3][0] == s[i] && s[i..i + 3][1] == s[i + 1];
      }
    }
    CodeBlockPassKeepsUnclosed(s, true);
  }

  // The whole conversion

  /**
   * On a text without `[` the image and link passes have nothing to match, and the heading
   * passes bring in no `[`: the inline passes are then the heading passes alone.
   */
  lemma InlinePassesWithoutBrackets(markdown: string, images: map<string, string>, root: string)
    requires '[' !in markdown
    ensures InlinePasses(markdown, images, root) == Headings(markdown)
  {
    ReplaceAllIdentity(InternalImage(images, root), markdown, true);
    ReplaceAllIdentity(ExternalImage, markdown, true);
    HeadingsAvoid(markdown, '[');
    ReplaceAllIdentity(Link, Headings(markdown), true);
  }

  /** The inline passes turn a line `# T` into `<h1>T</h1>` when `T` holds no `[`. */
  lemma InlinePassesOnHeadingLine(s: string, t: string, images: map<string, string>, root: string)
    requires HeadingLine(s, 1, t) && '[' !in t
    ensures InlinePasses(s, images, root) == HeadingElement(1, t)
  {
    HeadingLineAvoids(s, 1, t, '[');
    HeadingsOnLine(s, 1, t);
    InlinePassesWithoutBrackets(s, images, root);
  }

  /** `Marker(1)` is `# `. */
  lemma FirstMarker()
    ensures Marker(1) == "# "
  {
  }

  /** The code-block and bold passes leave a text without backticks and asterisks alone. */
  lemma FencedPassesOnPlainText(w: string)
    requires '`' !in w && '*' !in w
    ensures ReplaceAll(Bold, ReplaceAll(CodeBlock, w, true), true) == w
  {
    ReplaceAllIdentity(CodeBlock, w, true);
    ReplaceAllIdentity(Bold, w, true);
  }

  /**
   * When the inline passes produce a single line without backticks and asterisks, the
   * conversion only wraps their output in one paragraph.
   */
  lemma ConvertOfPlainInline(markdown: string, images: map<string, string>, root: string)
    requires var e := InlinePasses(markdown, images, root); '\n' !in e && '`' !in e && '*' !in e
    ensures ConvertMarkdownToHTML(markdown, images, root) == "<p>" + InlinePasses(markdown, images, root) + "</p>"
  {
    var e := InlinePasses(markdown, images, root);
    ReplaceAllIdentity(ParagraphBreak, e, true);
    var w := "<p>" + e + "</p>";
    assert '`' !in w && '*' !in w;
    FencedPassesOnPlainText(w);
  }

  /** The whole conversion of `# T` is exactly `<p><h1>T</h1></p>` when `T` uses no other markup. */
  lemma ConvertHeadingLine(t: string, images: map<string, string>, root: string)
    requires t != [] && '\n' !in t && '[' !in t && '`' !in t && '*' !in t
    ensures ConvertMarkdownToHTML("# " + t, images, root) == "<p><h1>" + t + "</h1></p>"
  {
    var md := "# " + t;
    FirstMarker();
    HeadingLineOf(1, t);
    FirstHeadingInParagraph(t);
    InlinePassesOnHeadingLine(md, t, images, root);
    ConvertOfPlainInline(md, images, root);
  }

  /** A first-level heading element wrapped in a paragraph, written out. */
  lemma FirstHeadingInParagraph(t: string)
    requires '\n' !in t && '`' !in t && '*' !in t
    ensures var e := HeadingElement(1, t); '\n' !in e && '`' !in e && '*' !in e
    ensures "<p>" + HeadingElement(1, t) + "</p>" == "<p><h1>" + t + "</h1></p>"
  {
  }
}
