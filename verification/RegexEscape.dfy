// Escaping user input for use as a search pattern.
module RegexEscape {
  import opened Documents

  // SyntaxCharacter, section 22.2.1 of ECMA-262.
  predicate SyntaxCharacter(c: char) {
    c in {'^', '$', '\\', '.', '*', '+', '?', '(', ')', '[', ']', '{', '}', '|'}
  }

  // The character class of `escapeRegex`.
  predicate Escaped(c: char) {
    c in {'.', '*', '+', '?', '^', '$', '{', '}', '(', ')', '|', '[', ']', '\\'}
  }

  function EscapeRegex(value: string): string {
    if value == "" then ""
    else (if Escaped(value[0]) then ['\\', value[0]] else [value[0]]) + EscapeRegex(value[1..])
  }

  // Reads a pattern made of literal characters only: PatternCharacter and IdentityEscape, section 22.2.1 of
  // ECMA-262. None for a pattern with an operator, a bracket, an anchor or a stray backslash.
  function ReadLiterals(pattern: string): Option<string> {
    if pattern == "" then Some("")
    else if pattern[0] == '\\' then
      if |pattern| > 1 && (SyntaxCharacter(pattern[1]) || pattern[1] == '/') then
        match ReadLiterals(pattern[2..]) case None => None case Some(rest) => Some([pattern[1]] + rest)
      else None
    else if SyntaxCharacter(pattern[0]) then None
    else match ReadLiterals(pattern[1..]) case None => None case Some(rest) => Some([pattern[0]] + rest)
  }

  // The class lists the syntax characters, the backslash among them.
  lemma EscapedIsSyntax(c: char)
    ensures Escaped(c) <==> SyntaxCharacter(c)
    ensures c == '\\' ==> Escaped(c)
  {
  }

  /** Reading an escaped string gives the string back: it can only ever match itself. */
  lemma {:induction false} EscapeThenRead(value: string)
    ensures ReadLiterals(EscapeRegex(value)) == Some(value)
  {
    if value != "" {
      EscapeThenRead(value[1..]);
      EscapedIsSyntax(value[0]);
      hide Escaped, SyntaxCharacter;
      var pattern, rest := EscapeRegex(value), EscapeRegex(value[1..]);
      assert value == [value[0]] + value[1..];
      if Escaped(value[0]) {
        assert pattern[0] == '\\' && pattern[1] == value[0] && pattern[2..] == rest;
      } else {
        assert pattern[0] == value[0] && pattern[1..] == rest;
      }
    }
  }

  /** Different inputs give different patterns. */
  lemma EscapeIsInjective(a: string, b: string)
    requires EscapeRegex(a) == EscapeRegex(b)
    ensures a == b
  {
    EscapeThenRead(a);
    EscapeThenRead(b);
  }

  /** An input that reads as a literal pattern without a backslash needs no escaping, and only such an input. */
  lemma {:induction false} UnchangedIffPlain(value: string)
    ensures EscapeRegex(value) == value <==> '\\' !in value && ReadLiterals(value) == Some(value)
    ensures |EscapeRegex(value)| >= |value|
  {
    if value != "" {
      UnchangedIffPlain(value[1..]);
      EscapedIsSyntax(value[0]);
      hide Escaped, SyntaxCharacter;
      assert value == [value[0]] + value[1..];
      if Escaped(value[0]) {
        assert |EscapeRegex(value)| > |value|;
      } else {
        assert EscapeRegex(value)[1..] == EscapeRegex(value[1..]);
      }
    }
  }
}
