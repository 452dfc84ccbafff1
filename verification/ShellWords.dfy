/**
 Shell quoting, and a reader to undo it.

 The reader follows section 2.2 (Quoting) of the POSIX.1-2017 Shell Command
 Language for blanks, single quotes and the backslash. It refuses every other
 character that is special to the shell when it appears outside quotes, so a text
 that it reads cannot start an expansion, a redirection or a second command.
 */
module ShellWords {
  import opened Prelude

  predicate IsAsciiAlphanumeric(c: char) {
    '0' <= c <= '9' || 'A' <= c <= 'Z' || 'a' <= c <= 'z'
  }

  predicate IsAsciiSafe(c: char) {
    IsAsciiAlphanumeric(c) || c == '-' || c == '_' || c == '/' || c == '.' || c == ':' || c == '='
  }

  /** `wide` is the set of characters beyond ASCII that Unicode calls alphanumeric. */
  predicate IsSafe(c: char, wide: set<char>) {
    IsAsciiSafe(c) || (c as int >= 128 && c in wide)
  }

  predicate AllSafe(s: string, wide: set<char>) {
    forall i :: 0 <= i < |s| ==> IsSafe(s[i], wide)
  }

  /** Each single quote becomes: close the quotes, an escaped quote, open them again. */
  function Escaped(s: string): string {
    if s == "" then ""
    else Escaped(s[..|s| - 1]) + if s[|s| - 1] == '\'' then "'\\''" else [s[|s| - 1]]
  }

  function Quoted(s: string, wide: set<char>): string {
    if AllSafe(s, wide) then s else "'" + Escaped(s) + "'"
  }

  method ShellQuote(s: string, wide: set<char>) returns (result: string)
    ensures result == Quoted(s, wide)
  {
    if AllSafe(s, wide) { return s; }
    result := "'";
    for i := 0 to |s|
      invariant result == "'" + Escaped(s[..i])
    {
      assert s[..i + 1][..i] == s[..i];
      if s[i] == '\'' {
        result := result + "'\\''";
      } else {
        result := result + [s[i]];
      }
    }
    assert s[..|s|] == s;
    result := result + "'";
  }

  // ------------------------------------------------------------ the reader

  predicate IsBlank(c: char) {
    c == ' ' || c == '\t'
  }

  /** Means something to the shell outside quotes: the characters of section 2.2 that this reader does not undo. */
  predicate IsSpecial(c: char) {
    || c == '|' || c == '&' || c == ';' || c == '<' || c == '>' || c == '(' || c == ')' || c == '$' || c == '`'
    || c == '\\' || c == '"' || c == '\'' || c == ' ' || c == '\t' || c == '\n'
    || c == '*' || c == '?' || c == '[' || c == '#' || c == '~'
  }

  function Begun(word: Option<string>): string {
    if word.Some? then word.value else ""
  }

  /** Outside quotes; `word` is the word in progress, if one has begun. */
  function Read(t: string, word: Option<string>): Option<seq<string>>
    decreases |t|
  {
    if t == "" then Some(if word.None? then [] else [word.value])
    else if IsBlank(t[0]) then
      var rest := Read(t[1..], None);
      if word.None? || rest.None? then rest else Some([word.value] + rest.value)
    else if t[0] == '\'' then ReadQuoted(t[1..], Begun(word))
    else if t[0] == '\\' && |t| >= 2 && t[1] != '\n' then Read(t[2..], Some(Begun(word) + [t[1]]))
    else if !IsSpecial(t[0]) then Read(t[1..], Some(Begun(word) + [t[0]]))
    else None
  }

  /** Inside single quotes, where everything but the closing quote stands for itself. */
  function ReadQuoted(t: string, word: string): Option<seq<string>>
    decreases |t|
  {
    if t == "" then None
    else if t[0] == '\'' then Read(t[1..], Some(word))
    else ReadQuoted(t[1..], word + [t[0]])
  }

  // ------------------------------------------------------------ what is left unquoted

  /** A letter, a digit, one of `-_/.:=`, or alphanumeric beyond ASCII. */
  predicate PlainChar(c: char, wide: set<char>) {
    || 'a' <= c <= 'z' || 'A' <= c <= 'Z' || '0' <= c <= '9'
    || c == '-' || c == '_' || c == '/' || c == '.' || c == ':' || c == '='
    || (c as int >= 128 && c in wide)
  }

  /** A string is printed as it is exactly when all its characters are plain; any other one is put in quotes. */
  lemma UnquotedIff(s: string, wide: set<char>)
    ensures Quoted(s, wide) == s <==> forall i :: 0 <= i < |s| ==> PlainChar(s[i], wide)
    ensures Quoted(s, wide) != s ==> Quoted(s, wide) == "'" + InQuotes(s) + "'"
    ensures forall c: char :: PlainChar(c, wide) ==> !IsSpecial(c)
  {
    if !AllSafe(s, wide) { EscapedLength(s); }
    InQuotesIs(s);
  }

  /** What stands between the quotes: every character as it is, but a single quote as `'\''`. */
  function InQuotes(s: string): string {
    if s == "" then "" else (if s[0] == '\'' then "'\\''" else [s[0]]) + InQuotes(s[1..])
  }

  lemma {:induction false} InQuotesIs(s: string)
    ensures Escaped(s) == InQuotes(s)
  {
    if s != "" {
      EscapedCons(s);
      InQuotesIs(s[1..]);
    }
  }

  lemma {:induction false} EscapedLength(s: string)
    ensures |Escaped(s)| >= |s|
  {
    if s != "" { EscapedLength(s[..|s| - 1]); }
  }

  // ------------------------------------------------------------ quoting is undone

  lemma SafeIsPlain(c: char, wide: set<char>)
    requires IsSafe(c, wide)
    ensures !IsSpecial(c)
  {
  }

  lemma ReadPlain(t: string, word: Option<string>)
    requires t != "" && !IsSpecial(t[0])
    ensures Read(t, word) == Read(t[1..], Some(Begun(word) + [t[0]]))
  {
  }

  ghost predicate AllPlain(s: string) {
    forall i :: 0 <= i < |s| ==> !IsSpecial(s[i])
  }

  lemma {:induction false} ReadPlainRun(s: string, rest: string, word: Option<string>)
    requires AllPlain(s) && s != ""
    ensures Read(s + rest, word) == Read(rest, Some(Begun(word) + s))
  {
    var t, next := s + rest, Begun(word) + [s[0]];
    assert t[0] == s[0] && t[1..] == s[1..] + rest;
    ReadPlain(t, word);
    if |s| == 1 {
      assert s[1..] + rest == rest;
      assert next == Begun(word) + s;
    } else {
      ReadPlainRun(s[1..], rest, Some(next));
      assert next + s[1..] == Begun(word) + s;
    }
  }

  lemma ReadSafe(s: string, wide: set<char>, rest: string, word: Option<string>)
    requires AllSafe(s, wide) && s != ""
    ensures Read(s + rest, word) == Read(rest, Some(Begun(word) + s))
  {
    forall i | 0 <= i < |s| ensures !IsSpecial(s[i]) { SafeIsPlain(s[i], wide); }
    ReadPlainRun(s, rest, word);
  }

  lemma {:induction false} EscapedConcat(a: string, b: string)
    ensures Escaped(a + b) == Escaped(a) + Escaped(b)
  {
    if b == "" {
      assert a + b == a;
    } else {
      assert (a + b)[..|a + b| - 1] == a + b[..|b| - 1];
      EscapedConcat(a, b[..|b| - 1]);
    }
  }

  lemma EscapedCons(s: string)
    requires s != ""
    ensures Escaped(s) == (if s[0] == '\'' then "'\\''" else [s[0]]) + Escaped(s[1..])
  {
    assert s == [s[0]] + s[1..];
    EscapedConcat([s[0]], s[1..]);
    assert [s[0]][..0] == "";
    assert Escaped([s[0]]) == if s[0] == '\'' then "'\\''" else [s[0]];
  }

  lemma ReadEscapedQuote(t: string, word: string)
    ensures ReadQuoted("'\\''" + t, word) == ReadQuoted(t, word + "'")
  {
    var u, v, w := "'\\''" + t, "\\''" + t, "'" + t;
    assert u[0] == '\'' && u[1..] == v;
    assert ReadQuoted(u, word) == Read(v, Some(word));
    assert v[0] == '\\' && v[1] == '\'' && v[2..] == w;
    assert word + [v[1]] == word + "'";
    assert Read(v, Some(word)) == Read(w, Some(word + "'"));
    assert w[0] == '\'' && w[1..] == t;
  }

  lemma {:induction false} ReadEscaped(s: string, rest: string, word: string)
    ensures ReadQuoted(Escaped(s) + ("'" + rest), word) == Read(rest, Some(word + s))
  {
    if s == "" {
      assert Escaped(s) + ("'" + rest) == "'" + rest;
      assert ("'" + rest)[1..] == rest;
      assert word + s == word;
    } else {
      EscapedCons(s);
      var tail := Escaped(s[1..]) + ("'" + rest);
      if s[0] == '\'' {
        assert Escaped(s) + ("'" + rest) == "'\\''" + tail;
        ReadEscapedQuote(tail, word);
        ReadEscaped(s[1..], rest, word + "'");
        assert word + "'" + s[1..] == word + s;
      } else {
        assert Escaped(s) + ("'" + rest) == [s[0]] + tail;
        assert ([s[0]] + tail)[1..] == tail;
        ReadEscaped(s[1..], rest, word + [s[0]]);
        assert word + [s[0]] + s[1..] == word + s;
      }
    }
  }

  /** Reading a quoted string in the middle of a text appends exactly that string to the word. */
  lemma ReadQuotedWord(s: string, wide: set<char>, rest: string, word: Option<string>)
    ensures Read(Quoted(s, wide) + rest, word) == Read(rest, if s == "" then word else Some(Begun(word) + s))
  {
    if AllSafe(s, wide) {
      if s == "" {
        assert Quoted(s, wide) + rest == rest;
      } else {
        ReadSafe(s, wide, rest, word);
      }
    } else {
      ReadUnsafe(s, rest, word);
    }
  }

  lemma ReadUnsafe(s: string, rest: string, word: Option<string>)
    ensures Read(("'" + Escaped(s) + "'") + rest, word) == Read(rest, Some(Begun(word) + s))
  {
    var t := ("'" + Escaped(s) + "'") + rest;
    assert t[0] == '\'' && t[1..] == Escaped(s) + ("'" + rest);
    ReadEscaped(s, rest, Begun(word));
  }
}
