/** The file name filter of the memory dump: `*` stands for any text, `?` for any one character. */
module Glob {
  /** The recursive matcher; strings end where they end. */
  predicate PatternMatch(pattern: string, text: string)
    decreases |pattern| + |text|
  {
    if pattern == "" && text == "" then true
    else if pattern == "" then false
    else if pattern[0] == '*' then PatternMatch(pattern[1..], text) || (text != "" && PatternMatch(pattern, text[1..]))
    else if pattern[0] == '?' then text != "" && PatternMatch(pattern[1..], text[1..])
    else text != "" && pattern[0] == text[0] && PatternMatch(pattern[1..], text[1..])
  }

  function Concat(parts: seq<string>): string {
    if parts == [] then "" else parts[0] + Concat(parts[1..])
  }

  /** What one pattern character may stand for. */
  predicate Covers(c: char, part: string) {
    if c == '*' then true else if c == '?' then |part| == 1 else part == [c]
  }

  /** A reading of the pattern: one piece of text for each of its characters. */
  ghost predicate Reading(pattern: string, parts: seq<string>, text: string) {
    && |parts| == |pattern|
    && Concat(parts) == text
    && forall i :: 0 <= i < |parts| ==> Covers(pattern[i], parts[i])
  }

  ghost predicate Matches(pattern: string, text: string) {
    exists parts :: Reading(pattern, parts, text)
  }

  lemma ReadingCons(c: char, part: string, pattern: string, parts: seq<string>, text: string)
    requires Covers(c, part) && Reading(pattern, parts, text)
    ensures Reading([c] + pattern, [part] + parts, part + text)
  {
    hide Covers;
    assert ([part] + parts)[1..] == parts;
  }

  lemma ReadingRest(pattern: string, parts: seq<string>, text: string)
    requires pattern != "" && Reading(pattern, parts, text)
    ensures parts != [] && Covers(pattern[0], parts[0])
    ensures Reading(pattern[1..], parts[1..], Concat(parts[1..])) && text == parts[0] + Concat(parts[1..])
  {
    hide Covers;
  }

  lemma {:induction false} MatchIsReadable(pattern: string, text: string)
    requires PatternMatch(pattern, text)
    ensures Matches(pattern, text)
    decreases |pattern| + |text|
  {
    hide Reading;
    if pattern == "" {
      EmptyReading();
    } else if pattern[0] == '*' {
      if PatternMatch(pattern[1..], text) {
        MatchIsReadable(pattern[1..], text);
        var parts :| Reading(pattern[1..], parts, text);
        ReadingCons('*', "", pattern[1..], parts, text);
        assert ['*'] + pattern[1..] == pattern && "" + text == text;
      } else {
        MatchIsReadable(pattern, text[1..]);
        var parts :| Reading(pattern, parts, text[1..]);
        ReadingRest(pattern, parts, text[1..]);
        ReadingCons('*', [text[0]] + parts[0], pattern[1..], parts[1..], Concat(parts[1..]));
        assert ['*'] + pattern[1..] == pattern;
        assert [text[0]] + parts[0] + Concat(parts[1..]) == [text[0]] + text[1..] == text;
      }
    } else {
      MatchIsReadable(pattern[1..], text[1..]);
      var parts :| Reading(pattern[1..], parts, text[1..]);
      ReadingCons(pattern[0], [text[0]], pattern[1..], parts, text[1..]);
      assert [pattern[0]] + pattern[1..] == pattern && [text[0]] + text[1..] == text;
    }
  }

  lemma EmptyReading()
    ensures Reading("", [], "")
  {
  }

  lemma {:induction false} ReadingMatches(pattern: string, parts: seq<string>, text: string)
    requires Reading(pattern, parts, text)
    ensures PatternMatch(pattern, text)
    decreases |pattern| + |text|
  {
    if pattern != "" {
      ReadingRest(pattern, parts, text);
      var rest := Concat(parts[1..]);
      if pattern[0] == '*' && parts[0] != "" {
        ReadingCons('*', parts[0][1..], pattern[1..], parts[1..], rest);
        assert ['*'] + pattern[1..] == pattern;
        assert parts[0][1..] + rest == text[1..];
        ReadingMatches(pattern, [parts[0][1..]] + parts[1..], text[1..]);
      } else {
        ReadingMatches(pattern[1..], parts[1..], rest);
        if pattern[0] == '*' {
          assert parts[0] + rest == rest;
        } else {
          assert rest == text[1..];
        }
      }
    }
  }

  /** The matcher accepts exactly the texts that some reading of the pattern spells. */
  lemma MatcherIsExact(pattern: string, text: string)
    ensures PatternMatch(pattern, text) <==> Matches(pattern, text)
  {
    if PatternMatch(pattern, text) {
      MatchIsReadable(pattern, text);
    }
    if Matches(pattern, text) {
      var parts :| Reading(pattern, parts, text);
      ReadingMatches(pattern, parts, text);
    }
  }
}
