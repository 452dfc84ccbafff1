/**
 The replay script's option text: which arguments of the original command line
 are replayed, how they are rewritten, and what a shell reads from the result.
 */
module ReplayScript {
  import opened Prelude
  import opened ShellWords

  // ------------------------------------------------------------ classifying one argument

  /** What the writers do with an argument. */
  datatype Kind =
    | Filter(takesValue: bool)  // dropped, with the next argument when that is its value
    | NamedBatch(name: string)  // becomes --read-batch=<name>
    | BareBatch                 // the batch name is the next argument
    | Other                     // passed through

  predicate IsFilterOption(p: string) {
    "--files-from" <= p || "--filter" <= p || "--include" <= p || "--exclude" <= p
  }

  predicate IsBareWriteBatch(p: string) {
    p == "--write-batch" || p == "--only-write-batch"
  }

  /** In the order of `write_replay_options`. */
  function KindOf(p: string): Kind {
    if IsFilterOption(p) then Filter('=' !in p)
    else if p == "-f" then Filter(true)
    else if "--write-batch=" <= p then NamedBatch(p[|"--write-batch="|..])
    else if "--only-write-batch=" <= p then NamedBatch(p[|"--only-write-batch="|..])
    else if IsBareWriteBatch(p) then BareBatch
    else Other
  }

  /** In the order of `generate_script_with_args`. */
  function KindBatchFirst(p: string): Kind {
    if "--write-batch=" <= p then NamedBatch(p[|"--write-batch="|..])
    else if "--only-write-batch=" <= p then NamedBatch(p[|"--only-write-batch="|..])
    else if IsBareWriteBatch(p) then BareBatch
    else if IsFilterOption(p) then Filter('=' !in p)
    else if p == "-f" then Filter(true)
    else Other
  }

  /** The order of the tests does not matter: the options they look for exclude one another. */
  lemma ClassifiersAgree(p: string)
    ensures KindOf(p) == KindBatchFirst(p)
  {
    if "--write-batch=" <= p || "--only-write-batch=" <= p || IsBareWriteBatch(p) {
      assert |p| > 2 && (p[2] == 'w' || p[2] == 'o');
    }
  }

  datatype Arg = Arg(text: string, kind: Kind)

  function Classified(args: seq<string>): (out: seq<Arg>)
    ensures |out| == |args| && forall i :: 0 <= i < |args| ==> out[i] == Arg(args[i], KindOf(args[i]))
  {
    seq(|args|, i requires 0 <= i < |args| => Arg(args[i], KindOf(args[i])))
  }

  // ------------------------------------------------------------ emitting one option

  /** One emitted option, before quoting. */
  datatype Item = Plain(arg: string) | ReadBatch(name: string) | BareReadBatch

  function ItemOf(a: Arg): Item {
    match a.kind
    case NamedBatch(name) => ReadBatch(name)
    case BareBatch => BareReadBatch
    case _ => Plain(a.text)
  }

  const READ_BATCH := "--read-batch"
  const READ_BATCH_IS := "--read-batch="

  /** The word the shell should see. */
  function Word(x: Item): string {
    match x
    case Plain(arg) => arg
    case ReadBatch(name) => READ_BATCH_IS + name
    case BareReadBatch => READ_BATCH
  }

  /** The text of an option after its blank. */
  function Body(x: Item, wide: set<char>): string {
    match x
    case Plain(arg) => Quoted(arg, wide)
    case ReadBatch(name) => READ_BATCH_IS + Quoted(name, wide)
    case BareReadBatch => READ_BATCH
  }

  function Emit(x: Item, wide: set<char>): string {
    [' '] + Body(x, wide)
  }

  method WriteItem(x: Item, wide: set<char>) returns (out: string)
    ensures out == Emit(x, wide)
  {
    match x
    case Plain(arg) =>
      var q := ShellQuote(arg, wide);
      out := [' '] + q;
    case ReadBatch(name) =>
      var q := ShellQuote(name, wide);
      out := [' '] + (READ_BATCH_IS + q);
    case BareReadBatch =>
      out := [' '] + READ_BATCH;
  }

  function Join(pieces: seq<string>): string {
    if pieces == [] then "" else Join(pieces[..|pieces| - 1]) + pieces[|pieces| - 1]
  }

  function Pieces(items: seq<Item>, wide: set<char>): (pieces: seq<string>)
    ensures |pieces| == |items| && forall i :: 0 <= i < |items| ==> pieces[i] == Emit(items[i], wide)
  {
    seq(|items|, i requires 0 <= i < |items| => Emit(items[i], wide))
  }

  function EmitAll(items: seq<Item>, wide: set<char>): string {
    Join(Pieces(items, wide))
  }

  lemma {:induction false} JoinConcat(a: seq<string>, b: seq<string>)
    ensures Join(a + b) == Join(a) + Join(b)
  {
    if b == [] {
      assert a + b == a;
    } else {
      assert (a + b)[..|a + b| - 1] == a + b[..|b| - 1];
      JoinConcat(a, b[..|b| - 1]);
    }
  }

  lemma JoinOne(piece: string)
    ensures Join([piece]) == piece
  {
    assert [piece][..0] == [];
  }

  lemma EmitSnoc(items: seq<Item>, x: Item, wide: set<char>)
    ensures EmitAll(items + [x], wide) == EmitAll(items, wide) + Emit(x, wide)
  {
    assert Pieces(items + [x], wide) == Pieces(items, wide) + [Emit(x, wide)];
    JoinConcat(Pieces(items, wide), [Emit(x, wide)]);
    JoinOne(Emit(x, wide));
  }

  lemma EmitCons(items: seq<Item>, wide: set<char>)
    requires items != []
    ensures EmitAll(items, wide) == Emit(items[0], wide) + EmitAll(items[1..], wide)
  {
    assert Pieces(items, wide) == [Emit(items[0], wide)] + Pieces(items[1..], wide);
    JoinConcat([Emit(items[0], wide)], Pieces(items[1..], wide));
    JoinOne(Emit(items[0], wide));
  }

  // ------------------------------------------------------------ which arguments are kept

  predicate TakesValue(a: Arg) {
    a.kind.Filter? && a.kind.takesValue
  }

  /** Argument `i` is the value of an option that was itself looked at and dropped. */
  predicate IsConsumed(args: seq<Arg>, elide: seq<bool>, i: nat)
    requires |elide| == |args| && i <= |args|
  {
    1 < i && !elide[i - 1] && TakesValue(args[i - 1]) && !IsConsumed(args, elide, i - 1)
  }

  predicate IsKept(args: seq<Arg>, elide: seq<bool>, i: nat)
    requires |elide| == |args| && i < |args|
  {
    1 <= i && !elide[i] && !args[i].kind.Filter? && !IsConsumed(args, elide, i)
  }

  /** The kept arguments before index `n`, in order and rewritten. */
  function Items(args: seq<Arg>, elide: seq<bool>, n: nat): seq<Item>
    requires |elide| == |args| && n <= |args|
  {
    if n == 0 then []
    else if IsKept(args, elide, n - 1) then Items(args, elide, n - 1) + [ItemOf(args[n - 1])]
    else Items(args, elide, n - 1)
  }

  function OptionText(args: seq<Arg>, elide: seq<bool>, wide: set<char>): string
    requires |elide| == |args|
  {
    EmitAll(Items(args, elide, |args|), wide)
  }

  lemma SkipOne(args: seq<Arg>, elide: seq<bool>, i: nat)
    requires |elide| == |args| && 1 <= i < |args| && (elide[i] || args[i].kind.Filter?)
    ensures Items(args, elide, i + 1) == Items(args, elide, i)
    ensures elide[i] || !TakesValue(args[i]) ==> !IsConsumed(args, elide, i + 1)
  {
  }

  lemma SkipTwo(args: seq<Arg>, elide: seq<bool>, i: nat)
    requires |elide| == |args| && 1 <= i < |args| - 1
    requires !elide[i] && TakesValue(args[i]) && !IsConsumed(args, elide, i)
    ensures Items(args, elide, i + 2) == Items(args, elide, i) && !IsConsumed(args, elide, i + 2)
  {
    SkipOne(args, elide, i);
    assert IsConsumed(args, elide, i + 1);
  }

  lemma KeepOne(args: seq<Arg>, elide: seq<bool>, i: nat)
    requires |elide| == |args| && 1 <= i < |args|
    requires !elide[i] && !args[i].kind.Filter? && !IsConsumed(args, elide, i)
    ensures Items(args, elide, i + 1) == Items(args, elide, i) + [ItemOf(args[i])]
    ensures !IsConsumed(args, elide, i + 1)
  {
  }

  /** The loop over the arguments; what it collects is what the source writes. */
  method SelectOptions(args: seq<Arg>, elide: seq<bool>) returns (items: seq<Item>)
    requires |elide| == |args|
    ensures items == Items(args, elide, |args|)
  {
    items := [];
    if args == [] { return; }
    var i := 1;
    while i < |args|
      invariant 1 <= i
      invariant i <= |args| ==> !IsConsumed(args, elide, i)
      invariant items == Items(args, elide, Min(i, |args|))
    {
      if elide[i] {
        SkipOne(args, elide, i);
        i := i + 1;
      } else if args[i].kind.Filter? {
        SkipOne(args, elide, i);
        if args[i].kind.takesValue {
          if i + 1 < |args| { SkipTwo(args, elide, i); }
          i := i + 1;
        }
        i := i + 1;
      } else {
        KeepOne(args, elide, i);
        items := items + [ItemOf(args[i])];
        i := i + 1;
      }
    }
  }

  method WriteItems(items: seq<Item>, wide: set<char>) returns (out: string)
    ensures out == EmitAll(items, wide)
  {
    out := "";
    ghost var pieces := Pieces(items, wide);
    for i := 0 to |items|
      invariant out == Join(pieces[..i])
    {
      var piece := WriteItem(items[i], wide);
      assert pieces[..i + 1][..i] == pieces[..i];
      out := out + piece;
    }
    assert pieces[..|items|] == pieces;
  }

  // ------------------------------------------------------------ what the shell reads

  function Words(items: seq<Item>): seq<string> {
    if items == [] then [] else [Word(items[0])] + Words(items[1..])
  }

  function NonEmpty(words: seq<string>): seq<string> {
    if words == [] then []
    else if words[0] == "" then NonEmpty(words[1..])
    else [words[0]] + NonEmpty(words[1..])
  }

  lemma ReadBatchIsSafe(wide: set<char>)
    ensures AllSafe(READ_BATCH, wide) && AllSafe(READ_BATCH_IS, wide)
  {
    assert forall i :: 0 <= i < |READ_BATCH_IS| ==> IsAsciiSafe(READ_BATCH_IS[i]);
    assert forall i :: 0 <= i < |READ_BATCH| ==> IsAsciiSafe(READ_BATCH[i]);
  }

  function InProgress(word: string): Option<string> {
    if word == "" then None else Some(word)
  }

  lemma ReadPlainItem(arg: string, wide: set<char>, rest: string)
    ensures Read(Quoted(arg, wide) + rest, None) == Read(rest, InProgress(arg))
  {
    ReadQuotedWord(arg, wide, rest, None);
    assert "" + arg == arg;
  }

  lemma ReadBatchItem(name: string, wide: set<char>, rest: string)
    ensures Read(READ_BATCH_IS + (Quoted(name, wide) + rest), None) == Read(rest, Some(READ_BATCH_IS + name))
  {
    ReadBatchIsSafe(wide);
    ReadSafe(READ_BATCH_IS, wide, Quoted(name, wide) + rest, None);
    assert "" + READ_BATCH_IS == READ_BATCH_IS;
    ReadQuotedWord(name, wide, rest, Some(READ_BATCH_IS));
    if name == "" { assert READ_BATCH_IS + name == READ_BATCH_IS; }
  }

  lemma ReadBareItem(wide: set<char>, rest: string)
    ensures Read(READ_BATCH + rest, None) == Read(rest, Some(READ_BATCH))
  {
    ReadBatchIsSafe(wide);
    ReadSafe(READ_BATCH, wide, rest, None);
    assert "" + READ_BATCH == READ_BATCH;
  }

  /** One emitted option starts a new word and leaves it in progress. */
  lemma ReadEmitted(x: Item, wide: set<char>, rest: string)
    ensures Read(Body(x, wide) + rest, None) == Read(rest, InProgress(Word(x)))
  {
    match x
    case Plain(arg) =>
      ReadPlainItem(arg, wide, rest);
    case ReadBatch(name) =>
      ConcatAssoc(READ_BATCH_IS, Quoted(name, wide), rest);
      ReadBatchItem(name, wide, rest);
    case BareReadBatch =>
      ReadBareItem(wide, rest);
  }

  function Prepend(word: Option<string>, words: seq<string>): seq<string> {
    if word.None? then words else [word.value] + words
  }

  lemma ReadBlank(t: string, word: Option<string>, words: seq<string>)
    requires Read(t, None) == Some(words)
    ensures Read([' '] + t, word) == Some(Prepend(word, words))
  {
    assert ([' '] + t)[1..] == t;
  }

  lemma NonEmptyCons(items: seq<Item>)
    requires items != []
    ensures NonEmpty(Words(items)) == Prepend(InProgress(Word(items[0])), NonEmpty(Words(items[1..])))
  {
    assert Words(items)[0] == Word(items[0]) && Words(items)[1..] == Words(items[1..]);
  }

  lemma ConcatAssoc(a: string, b: string, c: string)
    ensures (a + b) + c == a + (b + c)
  {
  }

  lemma EmitHead(items: seq<Item>, wide: set<char>)
    requires items != []
    ensures EmitAll(items, wide) == [' '] + (Body(items[0], wide) + EmitAll(items[1..], wide))
  {
    EmitCons(items, wide);
    ConcatAssoc([' '], Body(items[0], wide), EmitAll(items[1..], wide));
  }

  lemma {:induction false} ReadAllEmitted(items: seq<Item>, wide: set<char>, word: Option<string>)
    ensures Read(EmitAll(items, wide), word) == Some(Prepend(word, NonEmpty(Words(items))))
  {
    if items == [] {
      assert Prepend(word, []) == if word.None? then [] else [word.value];
    } else {
      var x, rest := items[0], EmitAll(items[1..], wide);
      ReadEmitted(x, wide, rest);
      ReadAllEmitted(items[1..], wide, InProgress(Word(x)));
      NonEmptyCons(items);
      ReadBlank(Body(x, wide) + rest, word, NonEmpty(Words(items)));
      EmitHead(items, wide);
    }
  }

  /** The shell reads exactly the kept, rewritten arguments, in order, less the empty ones. */
  lemma OptionsReadBack(args: seq<Arg>, elide: seq<bool>, wide: set<char>)
    requires |elide| == |args|
    ensures Read(OptionText(args, elide, wide), None) == Some(NonEmpty(Words(Items(args, elide, |args|))))
  {
    ReadAllEmitted(Items(args, elide, |args|), wide, None);
  }

  lemma {:induction false} NonEmptyIdentity(words: seq<string>)
    ensures NonEmpty(words) == words <==> "" !in words
    ensures |NonEmpty(words)| <= |words|
  {
    if words != [] {
      NonEmptyIdentity(words[1..]);
      assert words == [words[0]] + words[1..];
    }
  }

  lemma {:induction false} EmptyWordIff(args: seq<string>, elide: seq<bool>, n: nat)
    requires |elide| == |args| && n <= |args|
    ensures "" in Words(Items(Classified(args), elide, n)) <==>
      exists i :: 0 <= i < n && IsKept(Classified(args), elide, i) && args[i] == ""
  {
    if n != 0 {
      EmptyWordIff(args, elide, n - 1);
      if IsKept(Classified(args), elide, n - 1) {
        var items := Items(Classified(args), elide, n - 1);
        var x := ItemOf(Classified(args)[n - 1]);
        EmptyWord(args[n - 1]);
        WordsSnoc(items, x);
      }
    }
  }

  lemma {:induction false} WordsSnoc(items: seq<Item>, x: Item)
    ensures Words(items + [x]) == Words(items) + [Word(x)]
  {
    if items == [] {
      assert [] + [x] == [x] && [x][1..] == [];
    } else {
      assert (items + [x])[1..] == items[1..] + [x];
      WordsSnoc(items[1..], x);
    }
  }

  lemma EmptyWord(p: string)
    ensures Word(ItemOf(Arg(p, KindOf(p)))) == "" <==> p == ""
  {
  }

  /** Nothing is lost exactly when no kept argument is empty. */
  lemma OptionsLossless(args: seq<string>, elide: seq<bool>, wide: set<char>)
    requires |elide| == |args|
    ensures
      var kinds := Classified(args);
      Read(OptionText(kinds, elide, wide), None) == Some(Words(Items(kinds, elide, |args|))) <==>
        forall i :: 0 <= i < |args| && IsKept(kinds, elide, i) ==> args[i] != ""
  {
    OptionsReadBack(Classified(args), elide, wide);
    NonEmptyIdentity(Words(Items(Classified(args), elide, |args|)));
    EmptyWordIff(args, elide, |args|);
  }

  /** An empty argument: the writer keeps it, and the shell never sees it. */
  lemma EmptyArgumentLost(wide: set<char>)
    ensures
      var kinds := Classified(["rsync", ""]);
      && Words(Items(kinds, [false, false], 2)) == [""]
      && Read(OptionText(kinds, [false, false], wide), None) == Some([])
  {
    var kinds := Classified(["rsync", ""]);
    assert KindOf("") == Other;
    assert Items(kinds, [false, false], 1) == [];
    assert Items(kinds, [false, false], 2) == [Plain("")];
    assert Words([Plain("")]) == [""];
    assert NonEmpty([""]) == [];
    OptionsReadBack(kinds, [false, false], wide);
  }

  lemma ReadBatchIsOther(name: string)
    ensures KindOf(READ_BATCH_IS + name) == Other && KindOf(READ_BATCH) == Other
  {
    var w := READ_BATCH_IS + name;
    assert w[2] == 'r' && |w| > 2;
  }

  lemma WordIsOther(p: string, kind: Kind)
    requires kind == KindOf(p) && !kind.Filter?
    ensures KindOf(Word(ItemOf(Arg(p, kind)))) == Other
  {
    match kind
    case NamedBatch(name) => ReadBatchIsOther(name);
    case BareBatch => ReadBatchIsOther("");
    case Other =>
  }

  lemma {:induction false} ItemsAreKept(args: seq<Arg>, elide: seq<bool>, n: nat)
    requires |elide| == |args| && n <= |args|
    ensures forall x :: x in Items(args, elide, n) ==>
      exists i :: 0 <= i < n && IsKept(args, elide, i) && x == ItemOf(args[i])
  {
    if n != 0 { ItemsAreKept(args, elide, n - 1); }
  }

  /** No filter option and no write-batch option survives: every emitted word would itself be passed through. */
  lemma NothingForbiddenSurvives(args: seq<string>, elide: seq<bool>)
    requires |elide| == |args|
    ensures forall x :: x in Items(Classified(args), elide, |args|) ==> KindOf(Word(x)) == Other
  {
    ItemsAreKept(Classified(args), elide, |args|);
    forall x | x in Items(Classified(args), elide, |args|) ensures KindOf(Word(x)) == Other {
      var i :| 0 <= i < |args| && IsKept(Classified(args), elide, i) && x == ItemOf(Classified(args)[i]);
      WordIsOther(args[i], KindOf(args[i]));
    }
  }

  /** The attached form `-fRULE` is not recognised as a filter option and passes through. */
  lemma AttachedRuleSurvives(rule: string)
    requires rule != ""
    ensures KindOf("-f" + rule) == Other
  {
    var p := "-f" + rule;
    assert p[1] == 'f' && |p| > 2;
  }

  // ------------------------------------------------------------ the second loop

  /** The options from index `i` on, as the elision-free writer goes through them. */
  function ReplayItems(args: seq<Arg>, i: nat): seq<Item>
    decreases |args| - i
  {
    if i >= |args| then []
    else if args[i].kind.Filter? then ReplayItems(args, if TakesValue(args[i]) then i + 2 else i + 1)
    else [ItemOf(args[i])] + ReplayItems(args, i + 1)
  }

  function ReplayFrom(args: seq<Arg>, i: nat, wide: set<char>): string {
    EmitAll(ReplayItems(args, i), wide)
  }

  lemma ReplayFromStep(args: seq<Arg>, i: nat, wide: set<char>)
    requires i < |args| && !args[i].kind.Filter?
    ensures ReplayFrom(args, i, wide) == Emit(ItemOf(args[i]), wide) + ReplayFrom(args, i + 1, wide)
  {
    EmitCons(ReplayItems(args, i), wide);
  }

  /** The options from index `i` on, as the other writer goes through them: a bare write-batch takes its value. */
  function ArgItems(args: seq<Arg>, i: nat): seq<Item>
    decreases |args| - i
  {
    if i >= |args| then []
    else if args[i].kind.Filter? then ArgItems(args, if TakesValue(args[i]) then i + 2 else i + 1)
    else if !args[i].kind.BareBatch? then [ItemOf(args[i])] + ArgItems(args, i + 1)
    else if i + 1 < |args| then [ReadBatch(args[i + 1].text)] + ArgItems(args, i + 2)
    else []
  }

  function ArgsFrom(args: seq<Arg>, i: nat, wide: set<char>): string {
    EmitAll(ArgItems(args, i), wide)
  }

  lemma ArgsFromStep(args: seq<Arg>, i: nat, wide: set<char>)
    requires i < |args| && !args[i].kind.Filter?
    ensures ArgsFrom(args, i, wide) ==
      if !args[i].kind.BareBatch? then Emit(ItemOf(args[i]), wide) + ArgsFrom(args, i + 1, wide)
      else if i + 1 < |args| then Emit(ReadBatch(args[i + 1].text), wide) + ArgsFrom(args, i + 2, wide)
      else ""
  {
    var items := ArgItems(args, i);
    if items != [] { EmitCons(items, wide); }
  }

  /** Classifying with the tests in the other order gives the same kinds. */
  method ClassifyBatchFirst(args: seq<string>) returns (out: seq<Arg>)
    ensures out == Classified(args)
  {
    out := [];
    for i := 0 to |args|
      invariant out == Classified(args)[..i]
    {
      ClassifiersAgree(args[i]);
      out := out + [Arg(args[i], KindBatchFirst(args[i]))];
    }
  }

  lemma ShiftItem(items: seq<Item>, x: Item, rest: seq<Item>)
    ensures items + ([x] + rest) == (items + [x]) + rest
  {
  }

  method SelectOptionsWithArgs(args: seq<Arg>) returns (items: seq<Item>)
    ensures items == ArgItems(args, 1)
  {
    items := [];
    var i := 1;
    while i < |args|
      invariant ArgItems(args, 1) == items + ArgItems(args, i)
    {
      match args[i].kind {
        case NamedBatch(name) =>
          ShiftItem(items, ReadBatch(name), ArgItems(args, i + 1));
          items := items + [ReadBatch(name)];
        case BareBatch =>
          i := i + 1;
          if i < |args| {
            ShiftItem(items, ReadBatch(args[i].text), ArgItems(args, i + 1));
            items := items + [ReadBatch(args[i].text)];
          }
        case Filter(takesValue) =>
          if takesValue {
            i := i + 1;
          }
        case Other =>
          ShiftItem(items, Plain(args[i].text), ArgItems(args, i + 1));
          items := items + [Plain(args[i].text)];
      }
      i := i + 1;
    }
  }

  /** The other writer as a whole: it does not elide, and it attaches a separate batch name. */
  method WriteOptionsWithArgs(args: seq<string>, wide: set<char>) returns (out: string)
    ensures out == ArgsFrom(Classified(args), 1, wide)
  {
    var kinds := ClassifyBatchFirst(args);
    var items := SelectOptionsWithArgs(kinds);
    out := WriteItems(items, wide);
  }

  /** No option at or after `i` that the loop looks at is a bare write-batch. */
  predicate NoBareFrom(args: seq<Arg>, i: nat)
    decreases |args| - i
  {
    i >= |args| ||
    if args[i].kind.Filter? then NoBareFrom(args, if TakesValue(args[i]) then i + 2 else i + 1)
    else !args[i].kind.BareBatch? && NoBareFrom(args, i + 1)
  }

  lemma EmitStartsBlank(items: seq<Item>, wide: set<char>)
    ensures EmitAll(items, wide) == "" || EmitAll(items, wide)[0] == ' '
  {
    if items != [] { EmitCons(items, wide); }
  }

  lemma SamePrefix(a: string, x: string, y: string)
    ensures a + x == a + y <==> x == y
  {
    if a + x == a + y {
      assert (a + x)[|a|..] == x && (a + y)[|a|..] == y;
    }
  }

  lemma SeparateValueDiffers(rest: string, value: string)
    requires rest == "" || rest[0] == ' '
    ensures ([' '] + READ_BATCH) + rest != ([' '] + READ_BATCH_IS) + value
  {
    var at := |[' '] + READ_BATCH|;
    assert (([' '] + READ_BATCH_IS) + value)[at] == '=';
    if rest != "" {
      assert (([' '] + READ_BATCH) + rest)[at] == rest[0];
    } else {
      assert |([' '] + READ_BATCH) + rest| == at;
    }
  }

  lemma AttachedValue(q: string, more: string)
    ensures ([' '] + (READ_BATCH_IS + q)) + more == ([' '] + READ_BATCH_IS) + (q + more)
  {
    ConcatAssoc([' '], READ_BATCH_IS, q);
    ConcatAssoc([' '] + READ_BATCH_IS, q, more);
  }

  lemma BareDiffers(args: seq<Arg>, i: nat, wide: set<char>)
    requires i < |args| && args[i].kind.BareBatch?
    ensures ReplayFrom(args, i, wide) != ArgsFrom(args, i, wide)
  {
    var rest := ReplayFrom(args, i + 1, wide);
    EmitStartsBlank(ReplayItems(args, i + 1), wide);
    ReplayFromStep(args, i, wide);
    ArgsFromStep(args, i, wide);
    if i + 1 < |args| {
      var q, more := Quoted(args[i + 1].text, wide), ArgsFrom(args, i + 2, wide);
      AttachedValue(q, more);
      SeparateValueDiffers(rest, q + more);
    }
  }

  /** From any point on, the two writers agree exactly when no bare write-batch lies ahead. */
  lemma {:induction false} WritersAgreeFrom(args: seq<Arg>, i: nat, wide: set<char>)
    ensures ReplayFrom(args, i, wide) == ArgsFrom(args, i, wide) <==> NoBareFrom(args, i)
    decreases |args| - i
  {
    if i < |args| {
      if args[i].kind.BareBatch? {
        BareDiffers(args, i, wide);
      } else if args[i].kind.Filter? {
        WritersAgreeFrom(args, if TakesValue(args[i]) then i + 2 else i + 1, wide);
      } else {
        WritersAgreeFrom(args, i + 1, wide);
        ReplayFromStep(args, i, wide);
        ArgsFromStep(args, i, wide);
        SamePrefix(Emit(ItemOf(args[i]), wide), ReplayFrom(args, i + 1, wide), ArgsFrom(args, i + 1, wide));
      }
    }
  }

  function NoElision(args: seq<Arg>): (elide: seq<bool>)
    ensures |elide| == |args| && forall i :: 0 <= i < |args| ==> !elide[i]
  {
    seq(|args|, _ => false)
  }

  lemma {:induction false} ReplayItemsAreRest(args: seq<Arg>, i: nat)
    requires 1 <= i <= |args| && !IsConsumed(args, NoElision(args), i)
    ensures Items(args, NoElision(args), |args|) == Items(args, NoElision(args), i) + ReplayItems(args, i)
    decreases |args| - i
  {
    var elide := NoElision(args);
    if i < |args| {
      if TakesValue(args[i]) {
        SkipOne(args, elide, i);
        if i + 1 < |args| {
          SkipTwo(args, elide, i);
          ReplayItemsAreRest(args, i + 2);
        }
      } else if args[i].kind.Filter? {
        SkipOne(args, elide, i);
        ReplayItemsAreRest(args, i + 1);
      } else {
        KeepOne(args, elide, i);
        ReplayItemsAreRest(args, i + 1);
        ShiftItem(Items(args, elide, i), ItemOf(args[i]), ReplayItems(args, i + 1));
      }
    }
  }

  lemma UnelidedText(args: seq<Arg>, wide: set<char>)
    requires args != []
    ensures OptionText(args, NoElision(args), wide) == ReplayFrom(args, 1, wide)
  {
    ReplayItemsAreRest(args, 1);
    assert Items(args, NoElision(args), 1) == [];
    assert [] + ReplayItems(args, 1) == ReplayItems(args, 1);
  }

  lemma {:induction false} BareAheadIsKept(args: seq<Arg>, i: nat)
    requires 1 <= i <= |args| && !IsConsumed(args, NoElision(args), i)
    ensures NoBareFrom(args, i) <==>
      forall k :: i <= k < |args| && IsKept(args, NoElision(args), k) ==> !args[k].kind.BareBatch?
    decreases |args| - i
  {
    var elide := NoElision(args);
    if i < |args| {
      if TakesValue(args[i]) {
        SkipOne(args, elide, i);
        if i + 1 < |args| {
          SkipTwo(args, elide, i);
          assert IsConsumed(args, elide, i + 1);
          BareAheadIsKept(args, i + 2);
        }
      } else if args[i].kind.Filter? {
        SkipOne(args, elide, i);
        BareAheadIsKept(args, i + 1);
      } else {
        KeepOne(args, elide, i);
        BareAheadIsKept(args, i + 1);
      }
    }
  }

  /** No kept argument is a bare write-batch option. */
  ghost predicate NoBareKept(args: seq<string>) {
    var kinds := Classified(args);
    forall k :: 0 <= k < |args| && IsKept(kinds, NoElision(kinds), k) ==> !IsBareWriteBatch(args[k])
  }

  lemma {:induction false} NoOperandsNoElision(args: seq<string>)
    ensures Elision(args, []) == NoElision(Classified(args))
  {
    assert MatchRight(args, |args|, [], 0) == [];
  }

  lemma BareKind(p: string)
    ensures KindOf(p).BareBatch? <==> IsBareWriteBatch(p)
  {
    ClassifiersAgree(p);
  }

  /**
   The two independently written loops, each as its method promises, emit the same
   text exactly when no kept argument is a bare write-batch option.
   */
  lemma WritersAgree(args: seq<string>, wide: set<char>)
    ensures OptionText(Classified(args), Elision(args, []), wide) == ArgsFrom(Classified(args), 1, wide) <==>
      NoBareKept(args)
  {
    var kinds := Classified(args);
    NoOperandsNoElision(args);
    if args != [] {
      UnelidedText(kinds, wide);
      WritersAgreeFrom(kinds, 1, wide);
      BareAheadIsKept(kinds, 1);
      forall k | 0 <= k < |args| ensures kinds[k].kind.BareBatch? <==> IsBareWriteBatch(args[k]) {
        BareKind(args[k]);
      }
    }
  }

  /** A separate batch name: one writer leaves it separate, the other attaches it. */
  lemma WritersDiffer(wide: set<char>)
    ensures
      var kinds := Classified(["rsync", "--write-batch", "b"]);
      && OptionText(kinds, NoElision(kinds), wide) == EmitAll([BareReadBatch, Plain("b")], wide)
      && ArgsFrom(kinds, 1, wide) == EmitAll([ReadBatch("b")], wide)
      && OptionText(kinds, NoElision(kinds), wide) != ArgsFrom(kinds, 1, wide)
  {
    var kinds := Classified(["rsync", "--write-batch", "b"]);
    BareKind("--write-batch");
    assert kinds[1].kind == BareBatch;
    assert KindOf("b") == Other;
    var elide := NoElision(kinds);
    assert Items(kinds, elide, 1) == [];
    assert Items(kinds, elide, 2) == [BareReadBatch];
    assert Items(kinds, elide, 3) == [BareReadBatch, Plain("b")];
    assert ArgItems(kinds, 3) == [];
    assert ArgItems(kinds, 1) == [ReadBatch("b")];
    UnelidedText(kinds, wide);
    BareDiffers(kinds, 1, wide);
  }

  // ------------------------------------------------------------ which operands are elided

  /** Right to left, matching the last operands first; the positions come out in increasing order. */
  function MatchRight(args: seq<string>, i: nat, operands: seq<string>, oi: nat): seq<nat>
    requires i <= |args| && oi <= |operands|
  {
    if i <= 1 || oi == 0 then []
    else if args[i - 1] == operands[oi - 1] then MatchRight(args, i - 1, operands, oi - 1) + [i - 1]
    else MatchRight(args, i - 1, operands, oi)
  }

  /** `q` places the last `|q|` of the first `oi` operands, in order, in `args[1..i]`. */
  ghost predicate Embeds(q: seq<nat>, args: seq<string>, i: nat, operands: seq<string>, oi: nat)
    requires i <= |args| && oi <= |operands|
  {
    && |q| <= oi
    && (forall j :: 0 <= j < |q| ==> 1 <= q[j] < i && args[q[j]] == operands[oi - |q| + j])
    && (forall j, k :: 0 <= j < k < |q| ==> q[j] < q[k])
  }

  lemma {:induction false} MatchEmbeds(args: seq<string>, i: nat, operands: seq<string>, oi: nat)
    requires i <= |args| && oi <= |operands|
    ensures Embeds(MatchRight(args, i, operands, oi), args, i, operands, oi)
  {
    if i <= 1 || oi == 0 {
    } else if args[i - 1] == operands[oi - 1] {
      MatchEmbeds(args, i - 1, operands, oi - 1);
    } else {
      MatchEmbeds(args, i - 1, operands, oi);
    }
  }

  /** `p` is at least as long as `q` and, aligned at the right end, nowhere left of it. */
  ghost predicate Dominates(p: seq<nat>, q: seq<nat>) {
    q == [] ||
    (p != [] && q[|q| - 1] <= p[|p| - 1] && Dominates(p[..|p| - 1], q[..|q| - 1]))
  }

  lemma {:induction false} DominatesPointwise(p: seq<nat>, q: seq<nat>)
    requires Dominates(p, q)
    ensures |q| <= |p|
    ensures |q| == |p| ==> forall j :: 0 <= j < |p| ==> q[j] <= p[j]
  {
    if q != [] { DominatesPointwise(p[..|p| - 1], q[..|q| - 1]); }
  }

  lemma DropLast(q: seq<nat>, args: seq<string>, i: nat, operands: seq<string>, oi: nat)
    requires i <= |args| && oi <= |operands| && Embeds(q, args, i, operands, oi) && q != []
    ensures 2 <= i && 1 <= oi && q[|q| - 1] <= i - 1
    ensures Embeds(q[..|q| - 1], args, i - 1, operands, oi - 1)
    ensures args[i - 1] != operands[oi - 1] ==> Embeds(q, args, i - 1, operands, oi)
  {
    var n := |q| - 1;
    assert 1 <= q[n] < i && args[q[n]] == operands[oi - 1];
    forall j | 0 <= j < n ensures q[..n][j] < i - 1 {
      assert q[j] < q[n];
    }
  }

  /** Greedy is best: no embedding is longer, and none lies further right. */
  lemma {:induction false} MatchDominates(args: seq<string>, i: nat, operands: seq<string>, oi: nat, q: seq<nat>)
    requires i <= |args| && oi <= |operands| && Embeds(q, args, i, operands, oi)
    ensures Dominates(MatchRight(args, i, operands, oi), q)
  {
    if q != [] {
      DropLast(q, args, i, operands, oi);
      if args[i - 1] == operands[oi - 1] {
        var front := MatchRight(args, i - 1, operands, oi - 1);
        MatchDominates(args, i - 1, operands, oi - 1, q[..|q| - 1]);
        assert (front + [i - 1])[..|front|] == front;
      } else {
        MatchDominates(args, i - 1, operands, oi, q);
      }
    }
  }

  /**
   The elided positions spell the longest suffix of the operands that is a
   subsequence of the arguments after the first, at its rightmost occurrence.
   */
  lemma ElisionIsLongestRightmost(args: seq<string>, operands: seq<string>, q: seq<nat>)
    requires Embeds(q, args, |args|, operands, |operands|)
    ensures
      var p := MatchRight(args, |args|, operands, |operands|);
      && Embeds(p, args, |args|, operands, |operands|)
      && |q| <= |p| && (|q| == |operands| ==> |p| == |operands|)
      && (|q| == |p| ==> forall j :: 0 <= j < |p| ==> q[j] <= p[j])
  {
    MatchEmbeds(args, |args|, operands, |operands|);
    MatchDominates(args, |args|, operands, |operands|, q);
    DominatesPointwise(MatchRight(args, |args|, operands, |operands|), q);
  }

  /** Which arguments the match takes out. */
  function Elision(args: seq<string>, operands: seq<string>): (elide: seq<bool>)
    ensures |elide| == |args|
    ensures forall k :: 0 <= k < |args| ==> (elide[k] <==> k in MatchRight(args, |args|, operands, |operands|))
  {
    seq(|args|, k requires 0 <= k => k in MatchRight(args, |args|, operands, |operands|))
  }

  ghost predicate AbsentBetween(args: seq<string>, lo: nat, hi: nat, text: string) {
    forall k :: lo < k < hi && k < |args| ==> args[k] != text
  }

  /** No operand occurs again between its own place in `q` and the next operand's place, or `i`. */
  ghost predicate LastOccurrences(q: seq<nat>, args: seq<string>, i: nat, operands: seq<string>)
    requires |q| <= |operands|
  {
    q == [] ||
    (var n := |q| - 1;
     AbsentBetween(args, q[n], i, operands[n]) && LastOccurrences(q[..n], args, q[n], operands))
  }

  lemma {:induction false} MatchIsLast(args: seq<string>, i: nat, operands: seq<string>, oi: nat, q: seq<nat>)
    requires i <= |args| && oi <= |operands| && Embeds(q, args, i, operands, oi) && |q| == oi
    ensures MatchRight(args, i, operands, oi) == q <==> LastOccurrences(q, args, i, operands)
  {
    if q != [] {
      var n := |q| - 1;
      DropLast(q, args, i, operands, oi);
      if args[i - 1] != operands[oi - 1] {
        MatchIsLast(args, i - 1, operands, oi, q);
        assert AbsentBetween(args, q[n], i, operands[n]) <==> AbsentBetween(args, q[n], i - 1, operands[n]);
      } else {
        var front := MatchRight(args, i - 1, operands, oi - 1);
        assert q == q[..n] + [q[n]];
        SameSnoc(front, i - 1, q[..n], q[n]);
        if q[n] == i - 1 {
          MatchIsLast(args, i - 1, operands, oi - 1, q[..n]);
        } else {
          assert !AbsentBetween(args, q[n], i, operands[n]);
        }
      }
    }
  }

  lemma SameSnoc(a: seq<nat>, x: nat, b: seq<nat>, y: nat)
    ensures a + [x] == b + [y] <==> a == b && x == y
  {
    if a + [x] == b + [y] {
      assert |a + [x]| == |b + [y]|;
      assert (a + [x])[|a|] == x && (b + [y])[|b|] == y;
      assert (a + [x])[..|a|] == a && (b + [y])[..|b|] == b;
    }
  }

  ghost predicate Increasing(s: seq<nat>) {
    forall a, b :: 0 <= a < b < |s| ==> s[a] < s[b]
  }

  lemma {:induction false} NotBelow(p: seq<nat>, q: seq<nat>, j: nat)
    requires Increasing(p) && Increasing(q) && |p| == |q| && j < |p|
    requires forall k :: 0 <= k < |q| ==> q[k] in p
    ensures p[j] <= q[j]
  {
    var m :| 0 <= m < |p| && p[m] == q[j];
    if j != 0 {
      NotBelow(p, q, j - 1);
      assert p[j - 1] <= q[j - 1] < q[j] == p[m];
      assert forall a :: 0 <= a < j - 1 ==> p[a] < p[j - 1];
    }
  }

  /**
   Suppose the operands really stand at the places `q`. All of those places are
   elided exactly when no operand is repeated before the next operand's place.
   */
  lemma OperandsElidedIff(args: seq<string>, operands: seq<string>, q: seq<nat>)
    requires Embeds(q, args, |args|, operands, |operands|) && |q| == |operands|
    ensures (forall j :: 0 <= j < |q| ==> Elision(args, operands)[q[j]]) <==>
      LastOccurrences(q, args, |args|, operands)
  {
    var p := MatchRight(args, |args|, operands, |operands|);
    MatchIsLast(args, |args|, operands, |operands|, q);
    assert (forall j :: 0 <= j < |q| ==> Elision(args, operands)[q[j]]) <==> forall j :: 0 <= j < |q| ==> q[j] in p;
    if forall j :: 0 <= j < |q| ==> q[j] in p {
      OnlyItself(args, operands, q);
    }
  }

  /** What is elided has the text of an operand, so an elided argument is no filter option when no operand is. */
  lemma ElidedIsOperand(args: seq<string>, operands: seq<string>, q: seq<nat>, k: nat)
    requires Embeds(q, args, |args|, operands, |operands|) && |q| == |operands|
    requires k < |args| && Elision(args, operands)[k]
    ensures exists j :: 0 <= j < |q| && args[k] == args[q[j]]
  {
    var p := MatchRight(args, |args|, operands, |operands|);
    MatchEmbeds(args, |args|, operands, |operands|);
    var m :| 0 <= m < |p| && p[m] == k;
    var j := |operands| - |p| + m;
    assert args[p[m]] == operands[j] == args[q[j]];
  }

  /** Eliding arguments that are no filter options does not change which arguments are values of one. */
  lemma {:induction false} SameConsumed(args: seq<Arg>, elide: seq<bool>, i: nat)
    requires |elide| == |args| && i <= |args|
    requires forall k :: 0 <= k < |args| && elide[k] ==> !args[k].kind.Filter?
    ensures IsConsumed(args, elide, i) <==> IsConsumed(args, NoElision(args), i)
  {
    if i > 1 { SameConsumed(args, elide, i - 1); }
  }

  /**
   Operands that are neither filter options nor the value of one stay out of the
   script under that same condition, and only then.
   */
  lemma OperandsStayOutIff(args: seq<string>, operands: seq<string>, q: seq<nat>)
    requires Embeds(q, args, |args|, operands, |operands|) && |q| == |operands|
    requires forall j :: 0 <= j < |q| ==>
      !KindOf(args[q[j]]).Filter? && !IsConsumed(Classified(args), NoElision(Classified(args)), q[j])
    ensures (forall j :: 0 <= j < |q| ==> !IsKept(Classified(args), Elision(args, operands), q[j])) <==>
      LastOccurrences(q, args, |args|, operands)
  {
    var kinds, elide := Classified(args), Elision(args, operands);
    OperandsElidedIff(args, operands, q);
    forall k | 0 <= k < |args| && elide[k] ensures !kinds[k].kind.Filter? {
      ElidedIsOperand(args, operands, q, k);
    }
    forall j | 0 <= j < |q| ensures IsKept(kinds, elide, q[j]) <==> !elide[q[j]] {
      SameConsumed(kinds, elide, q[j]);
    }
  }

  lemma OnlyItself(args: seq<string>, operands: seq<string>, q: seq<nat>)
    requires Embeds(q, args, |args|, operands, |operands|) && |q| == |operands|
    requires forall j :: 0 <= j < |q| ==> q[j] in MatchRight(args, |args|, operands, |operands|)
    ensures MatchRight(args, |args|, operands, |operands|) == q
  {
    var p := MatchRight(args, |args|, operands, |operands|);
    ElisionIsLongestRightmost(args, operands, q);
    EmbedsIncreasing(p, args, operands);
    EmbedsIncreasing(q, args, operands);
    SamePlaces(p, q);
  }

  lemma EmbedsIncreasing(q: seq<nat>, args: seq<string>, operands: seq<string>)
    requires Embeds(q, args, |args|, operands, |operands|)
    ensures Increasing(q)
  {
  }

  lemma SamePlaces(p: seq<nat>, q: seq<nat>)
    requires Increasing(p) && Increasing(q) && |p| == |q|
    requires forall k :: 0 <= k < |q| ==> q[k] in p
    requires forall k :: 0 <= k < |q| ==> q[k] <= p[k]
    ensures p == q
  {
    forall j | 0 <= j < |q| ensures q[j] == p[j] { NotBelow(p, q, j); }
  }

  /** The value of an `--exclude` is taken for the operand, and the operand itself is written to the script. */
  lemma OperandReemitted(wide: set<char>)
    ensures
      var args, operands := ["rsync", "src", "--exclude", "src", "dest"], ["src", "dest"];
      && Embeds([1, 4], args, 5, operands, 2)
      && OptionText(Classified(args), Elision(args, operands), wide) == EmitAll([Plain("src")], wide)
  {
    var args, operands := ["rsync", "src", "--exclude", "src", "dest"], ["src", "dest"];
    assert MatchRight(args, 3, operands, 0) == [];
    assert MatchRight(args, 4, operands, 1) == [3];
    assert MatchRight(args, 5, operands, 2) == [3, 4];
    var kinds, elide := Classified(args), Elision(args, operands);
    assert !elide[1] && !elide[2] && elide[3] && elide[4];
    assert KindOf("src") == Other && KindOf("--exclude").Filter?;
    assert Items(kinds, elide, 1) == [];
    assert Items(kinds, elide, 2) == [Plain("src")];
    assert Items(kinds, elide, 3) == [Plain("src")];
    assert Items(kinds, elide, 4) == [Plain("src")];
    assert Items(kinds, elide, 5) == [Plain("src")];
  }

  method ElideOperands(args: seq<string>, operands: seq<string>) returns (elide: array<bool>)
    ensures fresh(elide) && elide.Length == |args|
    ensures forall k :: 0 <= k < |args| ==> (elide[k] <==> k in MatchRight(args, |args|, operands, |operands|))
  {
    elide := new bool[|args|](_ => false);
    var oi, i := |operands|, |args|;
    ghost var done: seq<nat> := [];
    assert MatchRight(args, i, operands, oi) + [] == MatchRight(args, i, operands, oi);
    while i > 1 && oi > 0
      invariant 0 <= i <= |args| && 0 <= oi <= |operands|
      invariant MatchRight(args, |args|, operands, |operands|) == MatchRight(args, i, operands, oi) + done
      invariant forall k :: 0 <= k < |args| ==> (elide[k] <==> k in done)
      decreases i
    {
      i := i - 1;
      if args[i] == operands[oi - 1] {
        elide[i] := true;
        oi := oi - 1;
        done := [i] + done;
        assert MatchRight(args, i + 1, operands, oi + 1) + done[1..] == MatchRight(args, i, operands, oi) + done;
      }
    }
    assert [] + done == done;
  }

  method WriteReplayOptions(replayArgs: seq<string>, operands: seq<string>, wide: set<char>) returns (out: string)
    ensures out == OptionText(Classified(replayArgs), Elision(replayArgs, operands), wide)
  {
    var elide := ElideOperands(replayArgs, operands);
    assert elide[..] == Elision(replayArgs, operands);
    var items := SelectOptions(Classified(replayArgs), elide[..]);
    out := WriteItems(items, wide);
  }
}
