/**
 The expression of internal/netdev/command_safety.go for command arguments, as written
 there, and the proof that the argument check accepts what the expression matches.
 */
module ArgumentPattern {
  import opened Text
  import opened CommandSafety
  import opened Regex

  /** The ranges between the brackets, in their order; a single character is a range of one. */
  const ARG_RANGES: seq<(char, char)> := [('A', 'Z'), ('a', 'z'), ('0', '9'), ('.', '.'), ('_', '_'), (':', ':'),
                                          ('/', '/'), ('@', '@'), ('%', '%'), ('-', '-')]

  predicate InRanges(c: char) {
    exists k :: 0 <= k < |ARG_RANGES| && ARG_RANGES[k].0 <= c <= ARG_RANGES[k].1
  }

  /** One or more characters of the class; the anchors are the ends of the match. */
  const ARG_PATTERN: Re := Plus(Class(InRanges))

  ghost predicate MatchesArgPattern(value: string) {
    Matches(ARG_PATTERN, value, 0, |value|)
  }

  lemma RangesAreArgChars(c: char)
    ensures InRanges(c) <==> IsArgChar(c)
  {
    if IsArgChar(c) {
      var k := if 'A' <= c <= 'Z' then 0 else if 'a' <= c <= 'z' then 1 else if '0' <= c <= '9' then 2
               else if c == '.' then 3 else if c == '_' then 4 else if c == ':' then 5 else if c == '/' then 6
               else if c == '@' then 7 else if c == '%' then 8 else 9;
      assert ARG_RANGES[k].0 <= c <= ARG_RANGES[k].1;
    }
  }

  /** An argument is accepted when it is empty, or short enough and matched from end to end. */
  lemma ArgIffMatches(value: string)
    ensures CheckCommandArg(value) <==> value == "" || (|value| <= 255 && MatchesArgPattern(value))
  {
    hide InRanges, IsArgChar;
    PlusClassMatches(InRanges, value, 0, |value|);
    forall i | 0 <= i < |value|
      ensures InRanges(value[i]) <==> IsArgChar(value[i])
    {
      RangesAreArgChars(value[i]);
    }
  }

  /** The arguments the check is meant for, and some it is there to refuse. */
  lemma ArgSamples()
    ensures CheckCommandArg("192.0.2.1") && CheckCommandArg("fe80::1%Ethernet1/1") && CheckCommandArg("r1_x@lab-2")
    ensures !CheckCommandArg("\"x\"") && !CheckCommandArg("a b") && !CheckCommandArg("a\n") && !CheckCommandArg("a|b")
    ensures !CheckCommandArg("a>b") && !CheckCommandArg("a;b") && !CheckCommandArg("$(a)")
  {
    assert "\"x\""[0] == '"' && "a b"[1] == ' ' && "a\n"[1] == '\n' && "a|b"[1] == '|';
    assert "a>b"[1] == '>' && "a;b"[1] == ';' && "$(a)"[0] == '$';
  }
}
