/** Splitting a story into its article and its abstract (`get_art_abs` and
    `fix_missing_period` in create_anonymized_stories.py). */
module Splitter {
  import opened Strings

  /** The line prefix that announces a highlight. */
  const Marker: string := "@highlight"

  /** `END_TOKENS`: the accepted ways to end a sentence. The script compares
      one last character against these, so the entry "..." can never match. */
  const EndTokens: seq<string> :=
    [".", "!", "?", "...", "'", "`", "\"", "\U{2019}", "\U{201D}", ")"]

  /** The single characters that count as a sentence end. */
  lemma EndTokenChars(c: char)
    ensures [c] in EndTokens <==> c in ".!?'`\")\U{2019}\U{201D}"
  {
  }

  /** `fix_missing_period`: append "." to a sentence line that does not end in
      an accepted end token. The result is the line itself or the line plus
      one period, and every result that is not empty and holds no marker ends
      in an accepted end token. */
  function FixMissingPeriod(line: string): (r: string)
    ensures r == line || r == line + "."
    ensures r != "" && !Contains(r, Marker) ==> [r[|r| - 1]] in EndTokens
  {
    if Contains(line, Marker) then line
    else if line == "" then line
    else if [line[|line| - 1]] in EndTokens then line
    else line + "."
  }

  /** The line is changed exactly when it holds no marker, is not empty and
      does not end in an end token; the change appends "." without a space. */
  lemma FixMissingPeriodChanges(line: string)
    ensures FixMissingPeriod(line) != line <==>
      (!Contains(line, Marker) && line != "" && [line[|line| - 1]] !in EndTokens)
    ensures FixMissingPeriod(line) != line ==> FixMissingPeriod(line) == line + "."
  {
  }

  /** Fixing a line twice is the same as fixing it once. */
  lemma FixMissingPeriodIdempotent(line: string)
    ensures FixMissingPeriod(FixMissingPeriod(line)) == FixMissingPeriod(line)
  {
  }

  /** The lines of a story as the classification loop sees them: split on
      newlines, lower-cased, and with missing periods fixed. */
  function PrepareLines(story: string): seq<string> {
    FixAll(Split(story, '\n'))
  }

  /** Each line lower-cased, then its missing period fixed. */
  function FixAll(raw: seq<string>): (lines: seq<string>)
    decreases |raw|
  {
    if |raw| == 0 then [] else [FixMissingPeriod(Lower(raw[0]))] + FixAll(raw[1..])
  }

  predicate IsMarker(line: string) {
    StartsWith(line, Marker)
  }

  /** A line that is kept as text: not empty and not a marker. */
  predicate IsContent(line: string) {
    line != "" && !IsMarker(line)
  }

  /** The content lines of `lines`, in order. */
  function Content(lines: seq<string>): seq<string>
    decreases |lines|
  {
    if |lines| == 0 then []
    else
      var last := lines[|lines| - 1];
      Content(lines[..|lines| - 1]) + (if IsContent(last) then [last] else [])
  }

  /** Index of the first marker line, or `|lines|` when there is none. */
  function FirstMarker(lines: seq<string>): (k: nat)
    ensures k <= |lines|
    ensures forall j :: 0 <= j < k ==> !IsMarker(lines[j])
    ensures k < |lines| ==> IsMarker(lines[k])
    decreases |lines|
  {
    if |lines| == 0 then 0
    else if IsMarker(lines[0]) then 0
    else 1 + FirstMarker(lines[1..])
  }

  /** What `get_art_abs` returns: the content lines before the first marker
      joined by spaces, and the content lines after it joined by spaces. */
  function ArtAbs(story: string): (string, string) {
    Classify(PrepareLines(story))
  }

  /** The article and abstract of prepared lines: the content lines before
      the first marker, and those after it, each joined by single spaces. */
  function Classify(lines: seq<string>): (string, string) {
    var k := FirstMarker(lines);
    (Join(Content(lines[..k]), " "), Join(Content(lines[k..]), " "))
  }

  /** `get_art_abs`: prepare the lines, then classify them. */
  method GetArtAbs(story: string) returns (article: string, abstractText: string)
    ensures (article, abstractText) == ArtAbs(story)
  {
    var lines := PrepareLines(story);
    article, abstractText := ClassifyLines(lines);
  }

  /** The classification loop of `get_art_abs`: one pass over the prepared
      lines with a flag that the first marker line sets and nothing clears. */
  method ClassifyLines(lines: seq<string>) returns (article: string, abstractText: string)
    ensures (article, abstractText) == Classify(lines)
  {
    ghost var k := FirstMarker(lines);
    var articleLines: seq<string> := [];
    var highlights: seq<string> := [];
    var nextIsHighlight := false;
    for idx := 0 to |lines|
      invariant nextIsHighlight <==> k < idx
      invariant idx <= k ==> articleLines == Content(lines[0..idx]) && highlights == []
      invariant k < idx ==> articleLines == Content(lines[0..k]) && highlights == Content(lines[k..idx])
    {
      var line := lines[idx];
      assert idx < k ==> !IsMarker(line);
      assert idx == k ==> IsMarker(line);
      if line == "" {
        ContentStep(lines, 0, idx);
        if idx > k { ContentStep(lines, k, idx); }
      } else if StartsWith(line, Marker) {
        nextIsHighlight := true;
        ContentStep(lines, 0, idx);
        ContentStep(lines, k, idx);
      } else if nextIsHighlight {
        ContentStep(lines, k, idx);
        highlights := highlights + [line];
      } else {
        ContentStep(lines, 0, idx);
        articleLines := articleLines + [line];
      }
    }
    assert lines[0..k] == lines[..k];
    assert lines[k..|lines|] == lines[k..];
    article := Join(articleLines, " ");
    abstractText := Join(highlights, " ");
  }

  /** Content selection distributes over concatenation. */
  lemma {:induction false} ContentAppend(s: seq<string>, t: seq<string>)
    ensures Content(s + t) == Content(s) + Content(t)
    decreases |t|
  {
    if |t| == 0 {
      assert s + t == s;
    } else {
      var t' := t[..|t| - 1];
      ContentAppend(s, t');
      assert (s + t)[..|s + t| - 1] == s + t';
    }
  }

  /** The content lines of `lines` are exactly its non-empty non-marker lines. */
  lemma {:induction false} ContentMembers(lines: seq<string>, x: string)
    ensures x in Content(lines) <==> x in lines && IsContent(x)
    decreases |lines|
  {
    if |lines| > 0 {
      var init := lines[..|lines| - 1];
      ContentMembers(init, x);
      assert lines == init + [lines[|lines| - 1]];
    }
  }

  /** Taking one more line adds it to the content lines when it is content. */
  lemma ContentStep(lines: seq<string>, from: nat, i: nat)
    requires from <= i < |lines|
    ensures Content(lines[from..i + 1]) ==
      Content(lines[from..i]) + (if IsContent(lines[i]) then [lines[i]] else [])
  {
    assert lines[from..i + 1][..i - from] == lines[from..i];
  }

  /** Article and abstract partition the content lines of the story at the
      first marker: every content line is used, in order, and exactly once. */
  lemma ArtAbsPartition(story: string)
    ensures var lines := PrepareLines(story);
      var k := FirstMarker(lines);
      Content(lines[..k]) + Content(lines[k..]) == Content(lines)
  {
    var lines := PrepareLines(story);
    ContentSplitAt(lines, FirstMarker(lines));
  }

  lemma ContentSplitAt(lines: seq<string>, k: nat)
    requires k <= |lines|
    ensures Content(lines[..k]) + Content(lines[k..]) == Content(lines)
  {
    var front, back := lines[..k], lines[k..];
    assert front + back == lines;
    ContentAppend(front, back);
  }

  /** Every non-empty line before the first marker is an article line, and
      every non-empty non-marker line after it is an abstract line. */
  lemma ArtAbsRouting(story: string, x: string)
    ensures var lines := PrepareLines(story);
      var k := FirstMarker(lines);
      (x in Content(lines[..k]) <==> x in lines[..k] && x != "") &&
      (x in Content(lines[k..]) <==> x in lines[k..] && IsContent(x))
  {
    var lines := PrepareLines(story);
    var k := FirstMarker(lines);
    ContentMembers(lines[..k], x);
    ContentMembers(lines[k..], x);
  }

  /** A story without marker lines has an empty abstract. */
  lemma NoMarkerEmptyAbstract(story: string)
    requires forall j :: 0 <= j < |PrepareLines(story)| ==> !IsMarker(PrepareLines(story)[j])
    ensures ArtAbs(story).1 == ""
  {
    var lines := PrepareLines(story);
    assert FirstMarker(lines) == |lines|;
    assert lines[|lines|..] == [];
  }

  /** Joining non-empty strings gives a non-empty string. */
  lemma {:induction false} JoinNonEmpty(parts: seq<string>, sep: string)
    requires |parts| > 0 && parts[0] != ""
    ensures Join(parts, sep) != ""
  {
    if |parts| > 1 {
      assert |Join(parts, sep)| >= |parts[0]|;
    }
  }

  /** A story with some non-empty line and no marker lines has a non-empty article. */
  lemma NoMarkerNonEmptyArticle(story: string, j: nat)
    requires forall i :: 0 <= i < |PrepareLines(story)| ==> !IsMarker(PrepareLines(story)[i])
    requires j < |PrepareLines(story)| && PrepareLines(story)[j] != ""
    ensures ArtAbs(story).0 != ""
  {
    var lines := PrepareLines(story);
    assert FirstMarker(lines) == |lines|;
    assert lines[..|lines|] == lines;
    ContentMembers(lines, lines[j]);
    var c := Content(lines);
    assert c[0] in c;
    ContentMembers(lines, c[0]);
    JoinNonEmpty(c, " ");
  }

  /** Preparing lines that hold no newline gives lines that hold no newline. */
  lemma {:induction false} FixAllSingleLine(raw: seq<string>)
    requires forall i :: 0 <= i < |raw| ==> '\n' !in raw[i]
    ensures forall i :: 0 <= i < |FixAll(raw)| ==> '\n' !in FixAll(raw)[i]
    decreases |raw|
  {
    if |raw| > 0 {
      FixAllSingleLine(raw[1..]);
      LowerKeepsNewlines(raw[0]);
    }
  }

  /** Classifying lines that hold no newline gives an article and an abstract
      without newlines. */
  lemma ClassifySingleLine(lines: seq<string>)
    requires forall i :: 0 <= i < |lines| ==> '\n' !in lines[i]
    ensures '\n' !in Classify(lines).0 && '\n' !in Classify(lines).1
  {
    var k := FirstMarker(lines);
    forall part | part in [lines[..k], lines[k..]]
      ensures '\n' !in Join(Content(part), " ")
    {
      forall i | 0 <= i < |Content(part)| ensures '\n' !in Content(part)[i] {
        ContentMembers(part, Content(part)[i]);
      }
      JoinAvoids(Content(part), " ", '\n');
    }
  }

  /** Neither article nor abstract contains a newline, so each story gives
      exactly one line of each output file. */
  lemma ArtAbsSingleLine(story: string)
    ensures '\n' !in ArtAbs(story).0 && '\n' !in ArtAbs(story).1
  {
    FixAllSingleLine(Split(story, '\n'));
    ClassifySingleLine(PrepareLines(story));
  }
}
