/** Replacing entity names by their placeholder numbers (`anonymize_story`):
    for every (number, name) pair of the entity mapping, in mapping order,
    plain substring replacement of " name " by " number " and then of
    " name'" by " number'", with the name lower-cased. */
module Substituter {
  import opened Strings
  import opened Dicts

  /** The pattern for a name followed by a space. */
  function SpacedName(name: string): (p: string)
    ensures |p| == |name| + 2 && p[0] == ' ' && p[|p| - 1] == ' '
  {
    " " + Lower(name) + " "
  }

  /** The pattern for a name followed by an apostrophe. */
  function QuotedName(name: string): (p: string)
    ensures |p| == |name| + 2 && p[0] == ' ' && p[|p| - 1] == '\''
  {
    " " + Lower(name) + "'"
  }

  /** One iteration of the loop: both replacements for one mapping entry. */
  function Step(text: string, number: string, name: string): string {
    ReplaceAll(ReplaceAll(text, SpacedName(name), " " + number + " "), QuotedName(name), " " + number + "'")
  }

  /** The text after the entries of `mapping` have been applied in order. */
  function Substitute(text: string, mapping: Dict<string>): string
    decreases |mapping|
  {
    if |mapping| == 0 then text
    else
      var last := mapping[|mapping| - 1];
      Step(Substitute(text, mapping[..|mapping| - 1]), last.0, last.1)
  }

  /** `anonymize_story`: reassign the text once per mapping entry. */
  method AnonymizeStory(text: string, mapping: Dict<string>) returns (r: string)
    ensures r == Substitute(text, mapping)
  {
    r := text;
    for i := 0 to |mapping|
      invariant r == Substitute(text, mapping[..i])
    {
      var (eNumber, eName) := mapping[i];
      assert mapping[..i + 1][..i] == mapping[..i];
      r := ReplaceAll(r, SpacedName(eName), " " + eNumber + " ");
      r := ReplaceAll(r, QuotedName(eName), " " + eNumber + "'");
    }
    assert mapping[..|mapping|] == mapping;
  }

  /** An entry whose two patterns do not occur leaves the text unchanged. */
  lemma StepUnchanged(text: string, number: string, name: string)
    requires !Contains(text, SpacedName(name)) && !Contains(text, QuotedName(name))
    ensures Step(text, number, name) == text
  {
    ReplaceAllIdentity(text, SpacedName(name), " " + number + " ");
    ReplaceAllIdentity(text, QuotedName(name), " " + number + "'");
  }

  /** When for every entry neither pattern occurs in the text, the text is
      returned unchanged (each step then sees the original text). */
  lemma {:induction false} SubstituteUnchanged(text: string, mapping: Dict<string>)
    requires forall i :: 0 <= i < |mapping| ==>
      !Contains(text, SpacedName(mapping[i].1)) && !Contains(text, QuotedName(mapping[i].1))
    ensures Substitute(text, mapping) == text
    decreases |mapping|
  {
    if |mapping| > 0 {
      var init := mapping[..|mapping| - 1];
      SubstituteUnchanged(text, init);
      StepUnchanged(text, mapping[|mapping| - 1].0, mapping[|mapping| - 1].1);
    }
  }

  /** Text before the first space is never touched: both patterns begin
      with a space, so no occurrence can start inside it. */
  lemma {:induction false} StepKeepsLeadingWord(word: string, rest: string, number: string, name: string)
    requires ' ' !in word
    ensures Step(word + rest, number, name) == word + Step(rest, number, name)
  {
    var spaced := ReplaceAll(rest, SpacedName(name), " " + number + " ");
    ReplaceSkipsPrefix(word, rest, SpacedName(name), " " + number + " ");
    ReplaceSkipsPrefix(word, spaced, QuotedName(name), " " + number + "'");
  }

  /** A leading word of the text (everything before its first space) is kept
      as it is, whatever the mapping: entity names at the start of the text
      are never replaced. */
  lemma {:induction false} LeadingWordKept(word: string, rest: string, mapping: Dict<string>)
    requires ' ' !in word
    ensures Substitute(word + rest, mapping) == word + Substitute(rest, mapping)
    decreases |mapping|
  {
    if |mapping| > 0 {
      var last := mapping[|mapping| - 1];
      LeadingWordKept(word, rest, mapping[..|mapping| - 1]);
      StepKeepsLeadingWord(word, Substitute(rest, mapping[..|mapping| - 1]), last.0, last.1);
    }
  }

  /** With mapping {"1": "tom"}, the text "tom went to paris ." does not
      become "1 went to paris .": its first word stays "tom". */
  lemma NameAtStartIsKept()
    ensures Substitute("tom went to paris .", [("1", "tom")]) != "1 went to paris ."
  {
    var m: Dict<string> := [("1", "tom")];
    assert "tom went to paris ." == "tom" + " went to paris .";
    LeadingWordKept("tom", " went to paris .", m);
    var r := Substitute("tom went to paris .", m);
    assert r[0] == 't';
  }
}
