/**
 * Cleaning one page's text as the PDF processor does before keeping it:
 * control characters deleted, whitespace runs collapsed, short lines dropped.
 */
module PdfCleaning {
  import opened Text
  // ---------------------------------------------------------------------------
  // Cleaning one page's text (`_clean_text`)
  // ---------------------------------------------------------------------------

  /** The characters `_clean_text` deletes: U+0000..U+0008, U+000B, U+000C,
      U+000E..U+001F and U+007F..U+00FF. The last range holds every Latin-1
      letter too (á, é, ñ, ¿, ¡ ...). Tab, newline and carriage return survive. */
  predicate IsStrippedControl(c: char) {
    var k := c as int;
    (0 <= k <= 8) || k == 11 || k == 12 || (14 <= k <= 31) || (127 <= k <= 255)
  }

  predicate NoStrippedControl(s: string) {
    forall i {:trigger IsStrippedControl(s[i])} :: 0 <= i < |s| ==> !IsStrippedControl(s[i])
  }

  /** The first regular-expression rewrite: delete every stripped character. */
  function RemoveControlChars(s: string): (r: string)
    ensures NoStrippedControl(r)
    ensures NoStrippedControl(s) ==> r == s
  {
    if s == [] then []
    else (if IsStrippedControl(s[0]) then [] else [s[0]]) + RemoveControlChars(s[1..])
  }

  /** Only single spaces stand for whitespace: every whitespace character is
      ' ' and is not followed by another whitespace character. */
  predicate SpacesNormalized(s: string) {
    s == [] ||
    ((IsSpace(s[0]) ==> s[0] == ' ' && (|s| > 1 ==> !IsSpace(s[1]))) && SpacesNormalized(s[1..]))
  }

  /** The second rewrite: every maximal run of whitespace becomes one ' '. */
  function CollapseWhitespace(s: string): (r: string)
    ensures s == [] ==> r == []
    ensures s != [] ==> r != [] && r[0] == if IsSpace(s[0]) then ' ' else s[0]
    decreases |s|
  {
    if s == [] then []
    else if IsSpace(s[0]) then [' '] + CollapseWhitespace(TrimStart(s))
    else [s[0]] + CollapseWhitespace(s[1..])
  }

  /** After collapsing, whitespace is normalized. */
  lemma {:induction false} CollapseNormalizes(s: string)
    ensures SpacesNormalized(CollapseWhitespace(s))
    decreases |s|
  {
    if s != [] {
      var r := CollapseWhitespace(s);
      if IsSpace(s[0]) {
        var t := TrimStart(s);
        CollapseNormalizes(t);
        assert r[1..] == CollapseWhitespace(t);
      } else {
        CollapseNormalizes(s[1..]);
        assert r[1..] == CollapseWhitespace(s[1..]);
      }
    }
  }

  /** Collapsing only ever writes ' ', so it introduces no stripped character. */
  lemma {:induction false} CollapseKeepsNoStrippedControl(s: string)
    requires NoStrippedControl(s)
    ensures NoStrippedControl(CollapseWhitespace(s))
    decreases |s|
  {
    if s != [] {
      var r := CollapseWhitespace(s);
      var t := if IsSpace(s[0]) then TrimStart(s) else s[1..];
      TrimStartDropsSpaces(s);
      assert forall i :: 0 <= i < |t| ==> t[i] == s[|s| - |t| + i];
      CollapseKeepsNoStrippedControl(t);
      assert r == [r[0]] + CollapseWhitespace(t);
    }
  }

  /** A string whose whitespace is already normalized is left as it is. */
  lemma {:induction false} CollapseFixed(s: string)
    requires SpacesNormalized(s)
    ensures CollapseWhitespace(s) == s
  {
    if s != [] {
      if IsSpace(s[0]) {
        assert TrimStart(s[1..]) == s[1..];
        assert TrimStart(s) == s[1..];
      }
      CollapseFixed(s[1..]);
    }
  }

  /** Normalized whitespace holds no newline. */
  lemma {:induction false} NormalizedHasNoNewline(s: string)
    requires SpacesNormalized(s)
    ensures '\n' !in s
  {
    if s != [] {
      NormalizedHasNoNewline(s[1..]);
      assert s == [s[0]] + s[1..];
    }
  }

  /** Every suffix of a normalized string is normalized. */
  lemma {:induction false} NormalizedSuffix(s: string, k: nat)
    requires SpacesNormalized(s) && k <= |s|
    ensures SpacesNormalized(s[k..])
  {
    if k > 0 {
      NormalizedSuffix(s[1..], k - 1);
      assert s[1..][k - 1..] == s[k..];
    }
  }

  /** Every prefix of a normalized string is normalized. */
  lemma {:induction false} NormalizedPrefix(s: string, k: nat)
    requires SpacesNormalized(s) && k <= |s|
    ensures SpacesNormalized(s[..k])
  {
    if k > 0 {
      NormalizedPrefix(s[1..], k - 1);
      assert s[..k][1..] == s[1..][..k - 1];
    }
  }

  /** The line filter, from the last line back: each line stripped, and kept
      only when longer than 10 characters. */
  function KeepLongLines(lines: seq<string>): seq<string> {
    if lines == [] then []
    else
      var line := Strip(lines[|lines| - 1]);
      KeepLongLines(lines[..|lines| - 1]) + (if |line| > 10 then [line] else [])
  }

  /** The whole text after the two rewrites, stripped. */
  function CollapsedLine(text: string): string {
    Strip(CollapseWhitespace(RemoveControlChars(text)))
  }

  /** What `_clean_text` returns for `text`: the collapsed text, stripped, when
      that is longer than 10 characters, and the empty text otherwise. */
  function Cleaned(text: string): string {
    var line := CollapsedLine(text);
    if |line| > 10 then line else []
  }

  /** The steps of `_clean_text` as written: split the rewritten text into
      lines, keep the long stripped lines, join them with newlines. */
  function LineFilterPipeline(text: string): string {
    JoinWith(KeepLongLines(SplitOn(CollapseWhitespace(RemoveControlChars(text)), '\n')), "\n")
  }

  /** Because whitespace (newlines included) is collapsed before the text is
      split into lines, the line filter always sees exactly one line, so the
      pipeline gives `Cleaned`. */
  lemma PipelineIsOneLine(text: string)
    ensures LineFilterPipeline(text) == Cleaned(text)
  {
    var c := CollapseWhitespace(RemoveControlChars(text));
    CollapseNormalizes(RemoveControlChars(text));
    NormalizedHasNoNewline(c);
    assert SplitOn(c, '\n') == [c];
    assert KeepLongLines([c]) == KeepLongLines([]) + (if |Strip(c)| > 10 then [Strip(c)] else []);
  }

  /** The shape of every cleaned text: empty, or one line of more than 10
      characters with no stripped character, no newline, no whitespace but
      single spaces, and no whitespace at either end. */
  predicate IsCleanLine(s: string) {
    && NoStrippedControl(s)
    && SpacesNormalized(s)
    && '\n' !in s
    && (s == [] || (|s| > 10 && !IsSpace(s[0]) && !IsSpace(s[|s| - 1])))
  }

  /** `strip()` keeps a string free of stripped characters. */
  lemma StripKeepsNoStrippedControl(s: string)
    requires NoStrippedControl(s)
    ensures NoStrippedControl(Strip(s))
  {
    var line := Strip(s);
    var off := StripOffset(s);
    StripDropsOnlySpaces(s);
    forall i | 0 <= i < |line| ensures !IsStrippedControl(line[i]) {
      assert line[i] == s[off + i];
      assert !IsStrippedControl(s[off + i]);
    }
  }

  /** `strip()` keeps whitespace normalized. */
  lemma StripKeepsNormalized(s: string)
    requires SpacesNormalized(s)
    ensures SpacesNormalized(Strip(s))
  {
    var off := StripOffset(s);
    StripDropsOnlySpaces(s);
    assert Strip(s) == s[off..][..|Strip(s)|];
    NormalizedSuffix(s, off);
    NormalizedPrefix(s[off..], |Strip(s)|);
  }

  /** The collapsed line keeps what the two rewrites established. */
  lemma CollapsedLineShape(text: string)
    ensures NoStrippedControl(CollapsedLine(text))
    ensures SpacesNormalized(CollapsedLine(text))
  {
    var c := CollapseWhitespace(RemoveControlChars(text));
    CollapseNormalizes(RemoveControlChars(text));
    CollapseKeepsNoStrippedControl(RemoveControlChars(text));
    StripKeepsNoStrippedControl(c);
    StripKeepsNormalized(c);
  }

  /** Every cleaned text has the clean-line shape. */
  lemma CleanedShape(text: string)
    ensures IsCleanLine(Cleaned(text))
  {
    CollapsedLineShape(text);
    NormalizedHasNoNewline(CollapsedLine(text));
    StripDropsOnlySpaces(CollapseWhitespace(RemoveControlChars(text)));
  }

  /** Cleaning is idempotent: a cleaned text comes back unchanged. */
  lemma {:induction false} CleanIdempotent(text: string)
    ensures Cleaned(Cleaned(text)) == Cleaned(text)
  {
    var c := Cleaned(text);
    CleanedShape(text);
    assert RemoveControlChars(c) == c;
    CollapseFixed(c);
    StripTrimmed(c);
  }

  /** `_clean_text`: the two rewrites, then the loop over the lines that keeps
      the stripped lines longer than 10 characters. */
  method CleanText(text: string) returns (cleaned: string)
    ensures cleaned == Cleaned(text)
    ensures IsCleanLine(cleaned)
  {
    var t := RemoveControlChars(text);
    t := CollapseWhitespace(t);
    var lines := SplitOn(t, '\n');
    var filteredLines: seq<string> := [];
    for i := 0 to |lines|
      invariant filteredLines == KeepLongLines(lines[..i])
    {
      assert lines[..i + 1][..i] == lines[..i];
      var line := Strip(lines[i]);
      if |line| > 10 {
        filteredLines := filteredLines + [line];
      }
    }
    assert lines[..|lines|] == lines;
    cleaned := JoinWith(filteredLines, "\n");
    PipelineIsOneLine(text);
    CleanedShape(text);
  }

}
