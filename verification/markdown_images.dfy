/**
 * `process_markdown_images`: the documentation page rewrites every markdown
 * image `![alt](captures/path)` to `![alt](../doc/captures/path)` with a single
 * regular-expression substitution, pattern `!\[(.*?)\]\(captures/(.*?)\)`.
 *
 * The regular-expression semantics are pinned down here. `ImageAt` says when
 * the pattern matches at the start of a text with given group boundaries;
 * `.` never matches a newline. Both groups are lazy, so the backtracking
 * matcher reports the match whose boundaries are least in lexicographic order
 * (`LeastImage`). The substitution scans left to right: where a match starts
 * it is replaced and the scan resumes after it; elsewhere one character is
 * copied. `Tokenize` cuts the text into exactly these pieces.
 */
module MarkdownImages {
  import opened Wrappers

  /** The literal parts of the pattern and the inserted prefix. */
  const Opening: string := "!["
  const Captures: string := "](captures/"
  const Closing: string := ")"
  const DocPrefix: string := "../doc/"

  /** `pat` occurs in `s` at index `j`. */
  predicate Occurs(s: string, j: nat, pat: string)
  {
    j + |pat| <= |s| && s[j..j + |pat|] == pat
  }

  /** No newline among `s[i..j]`, so `.*` can span it. */
  predicate LineFree(s: string, i: nat, j: nat)
    requires i <= j <= |s|
  {
    forall k :: i <= k < j ==> s[k] != '\n'
  }

  /**
   * The pattern matches at the start of `s`, with group 1 (the alt text) being
   * `s[2..a]` and group 2 (the path) being `s[a + 11..c]`: `s[c]` is the closing
   * parenthesis.
   */
  ghost predicate ImageAt(s: string, a: nat, c: nat)
  {
    && Occurs(s, 0, Opening)
    && |Opening| <= a && a + |Captures| <= c < |s|
    && LineFree(s, |Opening|, a) && Occurs(s, a, Captures)
    && LineFree(s, a + |Captures|, c) && s[c] == ')'
  }

  /** An image link, as written in the README. */
  datatype ImageLink = ImageLink(alt: string, path: string)
  {
    /** The text the pattern matched. */
    function Source(): string
    {
      Opening + alt + Captures + path + Closing
    }

    /** The replacement produced for it. */
    function Rewritten(): string
    {
      Opening + alt + "](" + DocPrefix + "captures/" + path + Closing
    }

    /** Where, in `Source()`, the group boundaries lie. */
    function AltEnd(): nat { |Opening| + |alt| }
    function PathEnd(): nat { |Opening| + |alt| + |Captures| + |path| }
  }

  /**
   * `img` is the match the backtracking matcher reports at the start of `s`:
   * the pattern matches with `img`'s groups, and no match has a shorter alt
   * text, or the same alt text and a shorter path.
   */
  ghost predicate LeastImage(s: string, img: ImageLink)
  {
    && ImageAt(s, img.AltEnd(), img.PathEnd())
    && forall a: nat, c: nat :: ImageAt(s, a, c) ==>
         img.AltEnd() < a || (img.AltEnd() == a && img.PathEnd() <= c)
  }

  /** The first index `j >= i` where `pat` occurs, provided no newline comes first. */
  function FindOnLine(s: string, i: nat, pat: string): (r: Option<nat>)
    requires i <= |s|
    ensures r.Some? ==> i <= r.value <= |s| && Occurs(s, r.value, pat) && LineFree(s, i, r.value)
    ensures r.Some? ==> forall j :: i <= j < r.value ==> !Occurs(s, j, pat)
    ensures r.None? ==> forall j :: i <= j <= |s| && LineFree(s, i, j) ==> !Occurs(s, j, pat)
    decreases |s| - i
  {
    if Occurs(s, i, pat) then Some(i)
    else if i == |s| || s[i] == '\n' then None
    else FindOnLine(s, i + 1, pat)
  }

  /** A newline-free stretch, the literal `](captures/` and another newline-free stretch make one. */
  lemma LineFreeAcrossCaptures(s: string, a: nat, c: nat)
    requires |Opening| <= a && a + |Captures| <= c <= |s|
    requires LineFree(s, |Opening|, a) && Occurs(s, a, Captures) && LineFree(s, a + |Captures|, c)
    ensures LineFree(s, |Opening|, c)
  {
  }

  /**
   * Any match whose `](captures/` is at or after `a` has a `)` on the line
   * after `a + 11`: the alt text, the literal and the path hold no newline.
   */
  lemma CloseAfterCaptures(s: string, a: nat, a': nat, c: nat)
    requires ImageAt(s, a', c) && |Opening| <= a <= a'
    ensures a + |Captures| <= c && LineFree(s, a + |Captures|, c) && Occurs(s, c, Closing)
  {
    LineFreeAcrossCaptures(s, a', c);
    assert s[c..c + 1] == [s[c]];
  }

  /**
   * When no `)` follows the first `](captures/` on its line, the pattern does
   * not match at all: trying a longer alt text cannot help, because the alt
   * text cannot run past the end of the line either.
   */
  lemma NoCloseNoImage(s: string, a: nat)
    requires Occurs(s, 0, Opening) && |Opening| <= a
    requires FindOnLine(s, |Opening|, Captures) == Some(a)
    requires FindOnLine(s, a + |Captures|, Closing) == None
    ensures forall a': nat, c: nat :: !ImageAt(s, a', c)
  {
    forall a': nat, c: nat | ImageAt(s, a', c)
      ensures a + |Captures| <= c && LineFree(s, a + |Captures|, c) && Occurs(s, c, Closing)
    {
      CloseAfterCaptures(s, a, a', c);
    }
  }

  /**
   * The first `](captures/` on the line and the first `)` after it on the
   * line give the least match.
   */
  lemma FirstOnLineIsLeast(s: string, a: nat, c: nat)
    requires Occurs(s, 0, Opening) && |Opening| <= a
    requires FindOnLine(s, |Opening|, Captures) == Some(a)
    requires FindOnLine(s, a + |Captures|, Closing) == Some(c)
    ensures ImageAt(s, a, c)
    ensures forall a': nat, c': nat :: ImageAt(s, a', c') ==> a < a' || (a == a' && c <= c')
  {
    assert s[c] == ')' by { assert s[c..c + 1] == Closing; assert s[c..c + 1][0] == s[c]; }
    forall a': nat, c': nat | ImageAt(s, a', c') ensures a < a' || (a == a' && c <= c') {
      assert a <= a';
      if a == a' {
        assert Occurs(s, c', Closing) by { assert s[c'..c' + 1] == [s[c']]; }
      }
    }
  }

  /** The two groups of a match, put back into the pattern, spell the matched text. */
  lemma GroupsSpellMatch(s: string, a: nat, c: nat)
    requires ImageAt(s, a, c)
    ensures var img := ImageLink(s[|Opening|..a], s[a + |Captures|..c]);
      && img.AltEnd() == a && img.PathEnd() == c
      && img.Source() == s[..c + 1]
  {
  }

  /** `re.match` of the pattern at the start of `s`. */
  function MatchImage(s: string): (m: Option<ImageLink>)
    ensures m.Some? ==> m.value.Source() <= s && LeastImage(s, m.value)
    ensures m.None? ==> forall a: nat, c: nat :: !ImageAt(s, a, c)
  {
    if !Occurs(s, 0, Opening) then None
    else match FindOnLine(s, |Opening|, Captures)
      case None => None
      case Some(a) =>
        match FindOnLine(s, a + |Captures|, Closing)
        case None =>
          NoCloseNoImage(s, a);
          None
        case Some(c) =>
          FirstOnLineIsLeast(s, a, c);
          GroupsSpellMatch(s, a, c);
          Some(ImageLink(s[|Opening|..a], s[a + |Captures|..c]))
  }

  /** A piece of the scanned text: a character copied as it is, or a matched image link. */
  datatype Segment = Text(ch: char) | Link(img: ImageLink)

  /** The substitution's scan, left to right and without overlaps. */
  function Tokenize(s: string): (t: seq<Segment>)
    decreases |s|
  {
    if s == [] then []
    else match MatchImage(s)
      case None => [Text(s[0])] + Tokenize(s[1..])
      case Some(img) => [Link(img)] + Tokenize(s[|img.Source()|..])
  }

  /** The text the segments were cut from. */
  function Original(t: seq<Segment>): string
    decreases |t|
  {
    if t == [] then ""
    else match t[0]
      case Text(ch) => [ch] + Original(t[1..])
      case Link(img) => img.Source() + Original(t[1..])
  }

  /** The text after substitution: every link rewritten, every character copied. */
  function Rendered(t: seq<Segment>): string
    decreases |t|
  {
    if t == [] then ""
    else match t[0]
      case Text(ch) => [ch] + Rendered(t[1..])
      case Link(img) => img.Rewritten() + Rendered(t[1..])
  }

  /** The number of replacements. */
  function LinkCount(t: seq<Segment>): nat
    decreases |t|
  {
    if t == [] then 0 else (if t[0].Link? then 1 else 0) + LinkCount(t[1..])
  }

  /**
   * The segments are those of a left-to-right scan: a character is copied
   * only where no match starts, and a link is the match the matcher reports
   * where it starts.
   */
  ghost predicate Scanned(t: seq<Segment>)
    decreases |t|
  {
    if t == [] then true
    else
      && (match t[0]
          case Text(_) => forall a: nat, c: nat :: !ImageAt(Original(t), a, c)
          case Link(img) => LeastImage(Original(t), img))
      && Scanned(t[1..])
  }

  /** `process_markdown_images(content)`. */
  function ProcessMarkdownImages(content: string): (r: string)
    ensures |r| == |content| + |DocPrefix| * LinkCount(Tokenize(content))
  {
    TokenizeOriginal(content);
    RenderedLength(Tokenize(content));
    Rendered(Tokenize(content))
  }

  /** Cutting loses and adds nothing: the segments spell the input. */
  lemma {:induction false} TokenizeOriginal(s: string)
    ensures Original(Tokenize(s)) == s
    decreases |s|
  {
    if s != [] {
      match MatchImage(s)
      case None =>
        TokenizeOriginal(s[1..]);
        assert s == [s[0]] + s[1..];
      case Some(img) =>
        TokenizeOriginal(s[|img.Source()|..]);
        assert s == img.Source() + s[|img.Source()|..];
    }
  }

  /** The cut is the one the substitution's scan makes. */
  lemma {:induction false} TokenizeScanned(s: string)
    ensures Scanned(Tokenize(s))
    decreases |s|
  {
    if s != [] {
      var t := Tokenize(s);
      TokenizeOriginal(s);
      match MatchImage(s)
      case None =>
        TokenizeScanned(s[1..]);
        assert t[1..] == Tokenize(s[1..]);
      case Some(img) =>
        TokenizeScanned(s[|img.Source()|..]);
        assert t[1..] == Tokenize(s[|img.Source()|..]);
    }
  }

  /** Two least matches at the start of the same text are the same link. */
  lemma LeastImageUnique(s: string, i: ImageLink, j: ImageLink)
    requires i.Source() <= s && j.Source() <= s
    requires LeastImage(s, i) && LeastImage(s, j)
    ensures i == j
  {
    assert i.AltEnd() == j.AltEnd() && i.PathEnd() == j.PathEnd();
    assert i.alt == i.Source()[|Opening|..i.AltEnd()] == s[|Opening|..i.AltEnd()];
    assert j.alt == j.Source()[|Opening|..j.AltEnd()] == s[|Opening|..j.AltEnd()];
    assert i.path == i.Source()[i.AltEnd() + |Captures|..i.PathEnd()];
    assert j.path == j.Source()[j.AltEnd() + |Captures|..j.PathEnd()];
  }

  /** Where a scanned segmentation copies a character, the scan copies it too. */
  lemma ScannedTextHead(t: seq<Segment>)
    requires t != [] && t[0].Text? && Scanned(t)
    ensures Tokenize(Original(t)) == [t[0]] + Tokenize(Original(t[1..]))
  {
  }

  /** Where a scanned segmentation has a link, the scan takes that link. */
  lemma ScannedLinkHead(t: seq<Segment>)
    requires t != [] && t[0].Link? && Scanned(t)
    ensures Tokenize(Original(t)) == [t[0]] + Tokenize(Original(t[1..]))
  {
    var s, img := Original(t), t[0].img;
    assert s == img.Source() + Original(t[1..]);
    assert ImageAt(s, img.AltEnd(), img.PathEnd());
    var m := MatchImage(s);
    LeastImageUnique(s, m.value, img);
    assert s[|img.Source()|..] == Original(t[1..]);
  }

  /**
   * The scan is the only cut with that property: any segmentation made the
   * way the substitution scans is what `Tokenize` returns for its text.
   */
  lemma {:induction false} ScannedIsTokenize(t: seq<Segment>)
    requires Scanned(t)
    ensures Tokenize(Original(t)) == t
    decreases |t|
  {
    if t != [] {
      ScannedIsTokenize(t[1..]);
      if t[0].Text? {
        ScannedTextHead(t);
      } else {
        ScannedLinkHead(t);
      }
      assert t == [t[0]] + t[1..];
    }
  }

  /** Each replacement adds the seven characters of `../doc/` and nothing else. */
  lemma {:induction false} RenderedLength(t: seq<Segment>)
    ensures |Rendered(t)| == |Original(t)| + |DocPrefix| * LinkCount(t)
    decreases |t|
  {
    if t != [] {
      RenderedLength(t[1..]);
    }
  }

  /** Without replacements the rendering is the original text. */
  lemma {:induction false} NoLinksRenderOriginal(t: seq<Segment>)
    requires LinkCount(t) == 0
    ensures Rendered(t) == Original(t)
    decreases |t|
  {
    if t != [] {
      NoLinksRenderOriginal(t[1..]);
    }
  }

  /** No match starts anywhere in `s`. */
  ghost predicate ImageFree(s: string)
  {
    forall i: nat, a: nat, c: nat :: i <= |s| ==> !ImageAt(s[i..], a, c)
  }

  /** Text in which the pattern matches nowhere is cut into characters only. */
  lemma {:induction false} ImageFreeHasNoLinks(s: string)
    requires ImageFree(s)
    ensures LinkCount(Tokenize(s)) == 0
    decreases |s|
  {
    if s != [] {
      forall a: nat, c: nat ensures !ImageAt(s, a, c) {
        assert s[0..] == s;
      }
      assert ImageFree(s[1..]) by {
        forall i: nat, a: nat, c: nat | i <= |s[1..]| ensures !ImageAt(s[1..][i..], a, c) {
          assert s[1..][i..] == s[i + 1..];
        }
      }
      ImageFreeHasNoLinks(s[1..]);
    }
  }

  /** A match starting anywhere in `s` leads to at least one replacement. */
  lemma {:induction false} ImageForcesLink(s: string, i: nat, a: nat, c: nat)
    requires i <= |s| && ImageAt(s[i..], a, c)
    ensures LinkCount(Tokenize(s)) > 0
    decreases |s|
  {
    if MatchImage(s).None? {
      assert 0 < i;
      assert s[1..][i - 1..] == s[i..];
      ImageForcesLink(s[1..], i - 1, a, c);
    }
  }

  /** The text comes back unchanged exactly when the pattern matches nowhere in it. */
  lemma UnchangedIffImageFree(s: string)
    ensures ProcessMarkdownImages(s) == s <==> ImageFree(s)
  {
    TokenizeOriginal(s);
    if ImageFree(s) {
      ImageFreeHasNoLinks(s);
      NoLinksRenderOriginal(Tokenize(s));
    } else {
      var i: nat, a: nat, c: nat :| i <= |s| && ImageAt(s[i..], a, c);
      ImageForcesLink(s, i, a, c);
    }
  }

  /** Rewriting a link inserts `../doc/` right after its `](`, copying alt and path verbatim. */
  lemma RewriteInsertsDocPrefix(img: ImageLink)
    ensures var k := img.AltEnd() + |"]("|;
      img.Rewritten() == img.Source()[..k] + DocPrefix + img.Source()[k..]
  {
  }
}
