/**
 The here-document that carries the filter rules at the end of a replay script,
 and a reader after section 2.7.4 (Here-Document) of the POSIX.1-2017 Shell
 Command Language: lines up to, and not including, one that is the delimiter.
 */
module Heredoc {
  import opened Prelude

  const DELIMITER := "#E#"
  const OPENING := " <<'#E#'\n"

  // ------------------------------------------------------------ lines

  /** The index of the first `c`, or the length when there is none. */
  function IndexOf(t: string, c: char): (n: nat)
    ensures n <= |t| && c !in t[..n] && (n < |t| ==> t[n] == c)
  {
    if t == "" || t[0] == c then 0
    else
      var n := IndexOf(t[1..], c) + 1;
      assert t[..n] == [t[0]] + t[1..][..n - 1];
      n
  }

  predicate EndsWithNewline(t: string) {
    t != "" && t[|t| - 1] == '\n'
  }

  /** The pieces between separators: one more than there are separators. */
  function Split(t: string, c: char): (pieces: seq<string>)
    ensures pieces != [] && forall p :: p in pieces ==> c !in p
    decreases |t|
  {
    var n := IndexOf(t, c);
    if n == |t| then assert t[..n] == t; [t] else [t[..n]] + Split(t[n + 1..], c)
  }

  /** Every piece followed by `c`. */
  function Terminated(pieces: seq<string>, c: char): string {
    if pieces == [] then "" else pieces[0] + ([c] + Terminated(pieces[1..], c))
  }

  /** The lines of a text that ends with a newline, or is empty. */
  function Lines(t: string): seq<string>
    decreases |t|
  {
    var n := IndexOf(t, '\n');
    if n == |t| then [] else [t[..n]] + Lines(t[n + 1..])
  }

  // ------------------------------------------------------------ the writer

  function StripNewline(rules: string): string {
    if EndsWithNewline(rules) then rules[..|rules| - 1] else rules
  }

  function Body(rules: string, eolNulls: bool): string {
    if eolNulls then Terminated(Split(StripNewline(rules), '\n'), '\0') + ";\n"
    else if EndsWithNewline(rules) then rules
    else rules + "\n"
  }

  lemma {:induction false} TerminatedSnoc(pieces: seq<string>, p: string, c: char)
    ensures Terminated(pieces + [p], c) == Terminated(pieces, c) + (p + [c])
  {
    if pieces == [] {
      assert [] + [p] == [p] && [p][1..] == [];
    } else {
      assert (pieces + [p])[1..] == pieces[1..] + [p];
      TerminatedSnoc(pieces[1..], p, c);
    }
  }

  method WriteFilterHeredoc(rules: string, eolNulls: bool) returns (out: string)
    ensures out == OPENING + Body(rules, eolNulls) + DELIMITER
    ensures out + "\n" == OPENING + Tail(Body(rules, eolNulls))
    ensures out == " <<'#E#'\n" + Body(rules, eolNulls) + "#E#"
  {
    out := OPENING;
    if eolNulls {
      var pieces := Split(StripNewline(rules), '\n');
      for i := 0 to |pieces|
        invariant out == OPENING + Terminated(pieces[..i], '\0')
      {
        assert pieces[..i + 1] == pieces[..i] + [pieces[i]];
        TerminatedSnoc(pieces[..i], pieces[i], '\0');
        out := out + (pieces[i] + ['\0']);
      }
      assert pieces[..|pieces|] == pieces;
      out := out + ";\n";
    } else {
      out := out + rules;
      if !EndsWithNewline(rules) {
        out := out + "\n";
      }
    }
    out := out + DELIMITER;
    ScriptTail(OPENING, Body(rules, eolNulls));
  }

  lemma ScriptTail(opening: string, body: string)
    ensures (opening + body + DELIMITER) + "\n" == opening + Tail(body)
  {
  }

  // ------------------------------------------------------------ the reader

  /** The document at the start of `t`; `None` when its delimiter never comes. */
  function ReadDocument(t: string): Option<string>
    decreases |t|
  {
    var n := IndexOf(t, '\n');
    if n == |t| then None
    else if t[..n] == DELIMITER then Some("")
    else match ReadDocument(t[n + 1..])
      case None => None
      case Some(rest) => Some(t[..n] + (['\n'] + rest))
  }

  /** What stands in the script after the opening line: the document, the delimiter, the last newline. */
  function Tail(body: string): string {
    body + (DELIMITER + "\n")
  }

  lemma {:induction false} IndexOfUnique(t: string, c: char, n: nat)
    requires n <= |t| && c !in t[..n] && (n < |t| ==> t[n] == c)
    ensures IndexOf(t, c) == n
  {
    if n != 0 {
      assert t[0] == t[..n][0];
      assert t[1..][..n - 1] == t[..n][1..];
      IndexOfUnique(t[1..], c, n - 1);
    }
  }

  lemma FirstPiece(p: string, c: char, rest: string)
    requires c !in p
    ensures
      var t := p + ([c] + rest);
      IndexOf(t, c) == |p| && t[..|p|] == p && t[|p| + 1..] == rest
  {
    var t := p + ([c] + rest);
    assert t[..|p|] == p;
    IndexOfUnique(t, c, |p|);
  }

  lemma DelimiterRead()
    ensures ReadDocument(Tail("")) == Some("")
  {
    var t := Tail("");
    assert t == "#E#\n" && t[..3] == DELIMITER;
    IndexOfUnique(t, '\n', 3);
  }

  lemma ReadLine(line: string, rest: string)
    requires '\n' !in line
    ensures
      var t := line + (['\n'] + rest);
      && Lines(t) == [line] + Lines(rest)
      && ReadDocument(t) ==
         if line == DELIMITER then Some("")
         else if ReadDocument(rest).None? then None
         else Some(line + (['\n'] + ReadDocument(rest).value))
  {
    FirstPiece(line, '\n', rest);
  }

  lemma FirstLine(t: string) returns (line: string, rest: string)
    requires EndsWithNewline(t)
    ensures '\n' !in line && t == line + (['\n'] + rest)
    ensures rest == "" || EndsWithNewline(rest)
  {
    var n := IndexOf(t, '\n');
    IndexInside(t);
    line, rest := t[..n], t[n + 1..];
    assert t == line + ([t[n]] + rest);
    assert rest != "" ==> rest[|rest| - 1] == t[|t| - 1];
  }

  lemma IndexInside(t: string)
    requires EndsWithNewline(t)
    ensures IndexOf(t, '\n') < |t|
  {
    assert t[..|t|] == t && t[|t| - 1] in t;
  }

  lemma SameSuffix(line: string, x: string, y: string)
    ensures line + (['\n'] + x) == line + (['\n'] + y) <==> x == y
  {
    if line + (['\n'] + x) == line + (['\n'] + y) {
      assert (line + (['\n'] + x))[|line| + 1..] == x;
      assert (line + (['\n'] + y))[|line| + 1..] == y;
    }
  }

  /** The reader stops early exactly when one of the lines is the delimiter. */
  lemma {:induction false} DocumentReadBack(t: string)
    requires t == "" || EndsWithNewline(t)
    ensures ReadDocument(Tail(t)).Some?
    ensures ReadDocument(Tail(t)) == Some(t) <==> DELIMITER !in Lines(t)
    decreases |t|
  {
    if t == "" {
      DelimiterRead();
    } else {
      var line, rest := FirstLine(t);
      assert Tail(t) == line + (['\n'] + Tail(rest));
      ReadLine(line, rest);
      ReadLine(line, Tail(rest));
      DocumentReadBack(rest);
      SameSuffix(line, ReadDocument(Tail(rest)).value, rest);
    }
  }

  /**
   Newline-terminated rules come back, up to their last newline, exactly when no
   rule is the delimiter itself.
   */
  lemma RulesReadBack(rules: string)
    ensures ReadDocument(Tail(Body(rules, false))) == Some(Body(rules, false))
       <==> DELIMITER !in Lines(Body(rules, false))
    ensures Body(rules, false) == if rules != "" && rules[|rules| - 1] == '\n' then rules else rules + "\n"
  {
    DocumentReadBack(Body(rules, false));
  }

  /** A rule that is the delimiter: the reader takes it for the end, and every rule after it is lost. */
  lemma RulesCutShort(rest: string)
    requires EndsWithNewline(rest)
    ensures ReadDocument(Tail(Body("#E#\n" + rest, false))) == Some("")
  {
    var rules := "#E#\n" + rest;
    assert rules == DELIMITER + (['\n'] + rest);
    assert rules[|rules| - 1] == rest[|rest| - 1];
    assert Tail(rules) == DELIMITER + (['\n'] + Tail(rest));
    ReadLine(DELIMITER, Tail(rest));
  }

  // ------------------------------------------------------------ NUL-terminated rules

  lemma {:induction false} NoNewlineInside(pieces: seq<string>, c: char)
    requires c != '\n' && forall p :: p in pieces ==> '\n' !in p
    ensures '\n' !in Terminated(pieces, c)
  {
    if pieces != [] {
      assert pieces[0] in pieces;
      assert forall p :: p in pieces[1..] ==> p in pieces;
      NoNewlineInside(pieces[1..], c);
    }
  }

  /** With NUL terminators the document is one line that ends in `;`, so it is never cut short. */
  lemma NulDocumentReadBack(rules: string)
    ensures ReadDocument(Tail(Body(rules, true))) == Some(Body(rules, true))
  {
    var pieces := Split(StripNewline(rules), '\n');
    NoNewlineInside(pieces, '\0');
    var line := Terminated(pieces, '\0') + [';'];
    var body := Body(rules, true);
    assert body == line + (['\n'] + "");
    assert line[|line| - 1] == ';' && DELIMITER[2] == '#';
    ReadLine(line, "");
    DocumentReadBack(body);
  }

  /** The rules of a NUL-terminated document; `None` when it does not close with `;` and a newline. */
  function NulRules(body: string): Option<seq<string>>
    decreases |body|
  {
    var n := IndexOf(body, '\0');
    if body == ";\n" then Some([])
    else if n == |body| then None
    else match NulRules(body[n + 1..])
      case None => None
      case Some(rest) => Some([body[..n]] + rest)
  }

  ghost predicate AllFree(list: seq<string>, c: char) {
    forall p :: p in list ==> c !in p
  }

  lemma FirstFree(list: seq<string>, c: char)
    requires AllFree(list, c) && list != []
    ensures c !in list[0] && AllFree(list[1..], c)
  {
    assert list[0] in list;
    assert forall p :: p in list[1..] ==> p in list;
  }

  lemma ConcatAssoc(a: string, b: string, c: string, d: string)
    ensures (a + (b + c)) + d == a + (b + (c + d))
  {
  }

  lemma NulCons(p: string, rest: string)
    requires '\0' !in p && NulRules(rest).Some?
    ensures NulRules(p + (['\0'] + rest)) == Some([p] + NulRules(rest).value)
  {
    var body := p + (['\0'] + rest);
    FirstPiece(p, '\0', rest);
    assert body[|p|] == '\0';
  }

  lemma {:induction false} NulRulesReadBack(pieces: seq<string>)
    requires AllFree(pieces, '\0')
    ensures NulRules(Terminated(pieces, '\0') + ";\n") == Some(pieces)
  {
    if pieces == [] {
      assert Terminated(pieces, '\0') + ";\n" == ";\n";
    } else {
      var p, rest := pieces[0], Terminated(pieces[1..], '\0') + ";\n";
      ConcatAssoc(p, ['\0'], Terminated(pieces[1..], '\0'), ";\n");
      FirstFree(pieces, '\0');
      NulRulesReadBack(pieces[1..]);
      NulCons(p, rest);
      assert pieces == [p] + pieces[1..];
    }
  }

  lemma SplitOne(p: string)
    requires '\n' !in p
    ensures Split(p, '\n') == [p]
  {
    IndexOfUnique(p, '\n', |p|);
  }

  lemma SplitCons(p: string, rest: string)
    requires '\n' !in p
    ensures Split(p + (['\n'] + rest), '\n') == [p] + Split(rest, '\n')
  {
    FirstPiece(p, '\n', rest);
  }

  lemma StripCons(p: string, rest: string)
    ensures
      var t := p + (['\n'] + rest);
      rest == "" || EndsWithNewline(rest) ==>
        && EndsWithNewline(t)
        && StripNewline(t) == if rest == "" then p else p + (['\n'] + StripNewline(rest))
  {
  }

  /** Splitting newline-terminated rules at their newlines gives them back, if there is at least one. */
  lemma {:induction false} SplitTerminated(list: seq<string>)
    requires list != [] && AllFree(list, '\n')
    ensures EndsWithNewline(Terminated(list, '\n'))
    ensures Split(StripNewline(Terminated(list, '\n')), '\n') == list
  {
    var p, rest := list[0], Terminated(list[1..], '\n');
    FirstFree(list, '\n');
    StripCons(p, rest);
    assert list == [p] + list[1..];
    if list[1..] == [] {
      SplitOne(p);
    } else {
      SplitTerminated(list[1..]);
      SplitCons(p, StripNewline(rest));
    }
  }

  /** From the empty list one empty rule comes back. */
  lemma NulEmptyList()
    ensures
      var read := ReadDocument(Tail(Body(Terminated([], '\n'), true)));
      read.Some? && NulRules(read.value) == Some([""])
  {
    NulDocumentReadBack("");
    IndexOfUnique("", '\n', 0);
    assert Split("", '\n') == [""];
    NulRulesReadBack([""]);
  }

  lemma {:induction false} NulRulesPieces(body: string)
    ensures NulRules(body).Some? ==> forall p :: p in NulRules(body).value ==> '\0' !in p
    decreases |body|
  {
    var n := IndexOf(body, '\0');
    if n < |body| { NulRulesPieces(body[n + 1..]); }
  }

  /** A list goes through the NUL-terminated document unchanged exactly when it is neither empty nor holds a NUL. */
  lemma NulListReadBack(list: seq<string>)
    requires forall p :: p in list ==> '\n' !in p
    ensures
      var read := ReadDocument(Tail(Body(Terminated(list, '\n'), true)));
      && read.Some?
      && (NulRules(read.value) == Some(list) <==> list != [] && forall p :: p in list ==> '\0' !in p)
  {
    NulDocumentReadBack(Terminated(list, '\n'));
    var body := Body(Terminated(list, '\n'), true);
    NulRulesPieces(body);
    if list == [] {
      NulEmptyList();
    } else {
      SplitTerminated(list);
      if forall p :: p in list ==> '\0' !in p {
        NulRulesReadBack(list);
      }
    }
  }

  /** A rule that holds a NUL comes back as two. */
  lemma NulRuleSplits(a: string, b: string)
    requires '\n' !in a + b && '\0' !in a + b
    ensures
      var read := ReadDocument(Tail(Body(Terminated([a + ['\0'] + b], '\n'), true)));
      read.Some? && NulRules(read.value) == Some([a, b])
  {
    var rule := a + ['\0'] + b;
    var rules := Terminated([rule], '\n');
    assert '\n' !in rule;
    SplitTerminated([rule]);
    NulDocumentReadBack(rules);
    assert '\0' !in a && '\0' !in b;
    NulRulesReadBack([a, b]);
    TerminatedPair(a, b);
  }

  lemma TerminatedPair(a: string, b: string)
    ensures Terminated([a + ['\0'] + b], '\0') == Terminated([a, b], '\0')
  {
    assert [a + ['\0'] + b][1..] == [] && [a, b][1..] == [b] && [b][1..] == [];
    assert Terminated([b], '\0') == b + ['\0'];
  }

  /** In NUL mode a final newline makes no difference. */
  lemma NulFinalNewline(rules: string)
    requires rules == "" || rules[|rules| - 1] != '\n'
    ensures Body(rules, true) == Body(rules + "\n", true)
  {
    assert StripNewline(rules + "\n") == rules;
  }
}
