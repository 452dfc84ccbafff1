/**
 The replay script's options, word by word: what a shell reads from the script in
 terms of the literal option texts. Nothing here is used by the two writers.
 */
module ReplayTexts {
  import opened Prelude
  import opened ShellWords
  import opened ReplayScript

  // ------------------------------------------------------------ the option texts

  predicate RulesOption(p: string) {
    "--files-from" <= p || "--filter" <= p || "--include" <= p || "--exclude" <= p
  }

  /** An option that does not go into the script. */
  predicate Dropped(p: string) {
    RulesOption(p) || p == "-f"
  }

  /** An option whose value is the next argument. */
  predicate DropsNext(p: string) {
    (RulesOption(p) && '=' !in p) || p == "-f"
  }

  predicate BareWriteBatch(p: string) {
    p == "--write-batch" || p == "--only-write-batch"
  }

  /** The word for an argument that goes into the script. */
  function Replayed(p: string): string {
    if "--write-batch=" <= p then "--read-batch=" + p[14..]
    else if "--only-write-batch=" <= p then "--read-batch=" + p[19..]
    else if BareWriteBatch(p) then "--read-batch"
    else p
  }

  /** No business in a replay script. */
  predicate Forbidden(w: string) {
    Dropped(w) || "--write-batch=" <= w || "--only-write-batch=" <= w || BareWriteBatch(w)
  }

  /** The classifier, text by text. */
  lemma KindTexts(p: string)
    ensures KindOf(p).Filter? <==> Dropped(p)
    ensures KindOf(p).Filter? ==> (KindOf(p).takesValue <==> DropsNext(p))
    ensures KindOf(p).BareBatch? <==> BareWriteBatch(p)
  {
    BareKind(p);
    ClassifiersAgree(p);
  }

  lemma WordTexts(p: string)
    ensures !Dropped(p) ==> Word(ItemOf(Arg(p, KindOf(p)))) == Replayed(p)
  {
    KindTexts(p);
  }

  lemma ReadBatchAllowed(name: string)
    ensures !Forbidden("--read-batch=" + name) && !Forbidden("--read-batch")
  {
    var w := "--read-batch=" + name;
    assert |w| > 2 && w[2] == 'r';
  }

  lemma ReplayedAllowed(p: string)
    requires !Dropped(p)
    ensures !Forbidden(Replayed(p))
  {
    if "--write-batch=" <= p {
      ReadBatchAllowed(p[14..]);
    } else if "--only-write-batch=" <= p {
      ReadBatchAllowed(p[19..]);
    } else {
      ReadBatchAllowed("");
    }
  }

  /** The text for an argument that goes into the script: one blank and the word, its free part quoted. */
  function Printed(p: string, wide: set<char>): string {
    if "--write-batch=" <= p then " --read-batch=" + Quoted(p[14..], wide)
    else if "--only-write-batch=" <= p then " --read-batch=" + Quoted(p[19..], wide)
    else if BareWriteBatch(p) then " --read-batch"
    else " " + Quoted(p, wide)
  }

  lemma EmitTexts(p: string, wide: set<char>)
    ensures !Dropped(p) ==> Emit(ItemOf(Arg(p, KindOf(p))), wide) == Printed(p, wide)
  {
    KindTexts(p);
    NamedText("");
    if KindOf(p).NamedBatch? { NamedText(Quoted(KindOf(p).name, wide)); }
  }

  lemma NamedText(q: string)
    ensures [' '] + ("--read-batch=" + q) == " --read-batch=" + q
    ensures [' '] + "--read-batch" == " --read-batch"
  {
  }

  // ------------------------------------------------------------ the first writer

  /** Argument `i` is the value of a dropped option before it. */
  predicate IsValue(args: seq<string>, elide: seq<bool>, i: nat)
    requires |elide| == |args| && i <= |args|
  {
    1 < i && !elide[i - 1] && DropsNext(args[i - 1]) && !IsValue(args, elide, i - 1)
  }

  predicate Stays(args: seq<string>, elide: seq<bool>, i: nat)
    requires |elide| == |args| && i < |args|
  {
    1 <= i && !elide[i] && !Dropped(args[i]) && !IsValue(args, elide, i)
  }

  /** The words of the first `n` arguments, in order. */
  function Staying(args: seq<string>, elide: seq<bool>, n: nat): seq<string>
    requires |elide| == |args| && n <= |args|
  {
    if n == 0 then []
    else if Stays(args, elide, n - 1) then Staying(args, elide, n - 1) + [Replayed(args[n - 1])]
    else Staying(args, elide, n - 1)
  }

  lemma {:induction false} SameValues(args: seq<string>, elide: seq<bool>, i: nat)
    requires |elide| == |args| && i <= |args|
    ensures IsConsumed(Classified(args), elide, i) <==> IsValue(args, elide, i)
  {
    if i > 1 {
      SameValues(args, elide, i - 1);
      KindTexts(args[i - 1]);
    }
  }

  lemma SameStays(args: seq<string>, elide: seq<bool>, i: nat)
    requires |elide| == |args| && i < |args|
    ensures IsKept(Classified(args), elide, i) <==> Stays(args, elide, i)
  {
    SameValues(args, elide, i);
    KindTexts(args[i]);
  }

  lemma {:induction false} WordsStay(args: seq<string>, elide: seq<bool>, n: nat)
    requires |elide| == |args| && n <= |args|
    ensures Words(Items(Classified(args), elide, n)) == Staying(args, elide, n)
  {
    if n != 0 {
      WordsStay(args, elide, n - 1);
      StayStep(args, elide, n - 1, {});
      var kinds := Classified(args);
      MoreWords(Items(kinds, elide, n - 1), Items(kinds, elide, n), ItemOf(kinds[n - 1]),
                Stays(args, elide, n - 1), Replayed(args[n - 1]));
    }
  }

  lemma MoreWords(before: seq<Item>, after: seq<Item>, x: Item, stays: bool, word: string)
    requires after == if stays then before + [x] else before
    requires stays ==> Word(x) == word
    ensures Words(after) == if stays then Words(before) + [word] else Words(before)
  {
    WordsSnoc(before, x);
  }

  lemma MorePieces(before: seq<Item>, after: seq<Item>, x: Item, stays: bool, text: string, wide: set<char>)
    requires after == if stays then before + [x] else before
    requires stays ==> Emit(x, wide) == text
    ensures Pieces(after, wide) == if stays then Pieces(before, wide) + [text] else Pieces(before, wide)
  {
    PiecesSnoc(before, x, wide);
  }

  /** One more argument of the first writer, with the texts told apart. */
  lemma StayStep(args: seq<string>, elide: seq<bool>, i: nat, wide: set<char>)
    requires |elide| == |args| && i < |args|
    ensures
      var kinds := Classified(args);
      Items(kinds, elide, i + 1) ==
        if Stays(args, elide, i) then Items(kinds, elide, i) + [ItemOf(kinds[i])] else Items(kinds, elide, i)
    ensures Stays(args, elide, i) ==>
      && Word(ItemOf(Classified(args)[i])) == Replayed(args[i])
      && Emit(ItemOf(Classified(args)[i]), wide) == Printed(args[i], wide)
  {
    SameStays(args, elide, i);
    WordTexts(args[i]);
    EmitTexts(args[i], wide);
  }

  /** The texts of the first `n` arguments, in order. */
  function StayingTexts(args: seq<string>, elide: seq<bool>, n: nat, wide: set<char>): seq<string>
    requires |elide| == |args| && n <= |args|
  {
    if n == 0 then []
    else if Stays(args, elide, n - 1) then StayingTexts(args, elide, n - 1, wide) + [Printed(args[n - 1], wide)]
    else StayingTexts(args, elide, n - 1, wide)
  }

  lemma PiecesSnoc(items: seq<Item>, x: Item, wide: set<char>)
    ensures Pieces(items + [x], wide) == Pieces(items, wide) + [Emit(x, wide)]
  {
  }

  lemma {:induction false} StayingPieces(args: seq<string>, elide: seq<bool>, n: nat, wide: set<char>)
    requires |elide| == |args| && n <= |args|
    ensures Pieces(Items(Classified(args), elide, n), wide) == StayingTexts(args, elide, n, wide)
  {
    if n != 0 {
      StayingPieces(args, elide, n - 1, wide);
      StayStep(args, elide, n - 1, wide);
      var kinds := Classified(args);
      MorePieces(Items(kinds, elide, n - 1), Items(kinds, elide, n), ItemOf(kinds[n - 1]),
                 Stays(args, elide, n - 1), Printed(args[n - 1], wide), wide);
    }
  }

  /** The first writer's text, character by character. */
  lemma ScriptText(args: seq<string>, operands: seq<string>, wide: set<char>)
    ensures
      var elide := Elision(args, operands);
      OptionText(Classified(args), elide, wide) == Join(StayingTexts(args, elide, |args|, wide))
  {
    StayingPieces(args, Elision(args, operands), |args|, wide);
  }

  lemma {:induction false} StayingAllowed(args: seq<string>, elide: seq<bool>, n: nat)
    requires |elide| == |args| && n <= |args|
    ensures forall w :: w in Staying(args, elide, n) ==> !Forbidden(w)
  {
    if n != 0 {
      StayingAllowed(args, elide, n - 1);
      if Stays(args, elide, n - 1) { ReplayedAllowed(args[n - 1]); }
    }
  }

  lemma {:induction false} NonEmptyMembers(words: seq<string>)
    ensures forall w :: w in NonEmpty(words) <==> w in words && w != ""
  {
    if words != [] { NonEmptyMembers(words[1..]); }
  }

  /**
   What the shell reads from the first writer's text: the arguments that stay, each
   as it is or with its write-batch form turned into read-batch, less the empty
   ones; and nothing that is forbidden.
   */
  lemma ScriptWords(args: seq<string>, operands: seq<string>, wide: set<char>)
    ensures
      var elide := Elision(args, operands);
      var words := NonEmpty(Staying(args, elide, |args|));
      && Read(OptionText(Classified(args), elide, wide), None) == Some(words)
      && forall w :: w in words ==> !Forbidden(w)
  {
    var elide := Elision(args, operands);
    OptionsReadBack(Classified(args), elide, wide);
    WordsStay(args, elide, |args|);
    StayingAllowed(args, elide, |args|);
    NonEmptyMembers(Staying(args, elide, |args|));
  }

  // ------------------------------------------------------------ the second writer

  /** The words of the arguments from `i` on: a bare write-batch takes the next argument as its name. */
  function Remaining(args: seq<string>, i: nat): seq<string>
    decreases |args| - i
  {
    if i >= |args| then []
    else if Dropped(args[i]) then Remaining(args, if DropsNext(args[i]) then i + 2 else i + 1)
    else if !BareWriteBatch(args[i]) then [Replayed(args[i])] + Remaining(args, i + 1)
    else if i + 1 < |args| then ["--read-batch=" + args[i + 1]] + Remaining(args, i + 2)
    else []
  }

  lemma {:induction false} WordsRemain(args: seq<string>, i: nat)
    ensures Words(ArgItems(Classified(args), i)) == Remaining(args, i)
    decreases |args| - i
  {
    if i < |args| {
      KindTexts(args[i]);
      WordTexts(args[i]);
      WordsRemain(args, i + 1);
      WordsRemain(args, i + 2);
      var items := ArgItems(Classified(args), i);
      if !Dropped(args[i]) && items != [] {
        assert items[1..] == ArgItems(Classified(args), if BareWriteBatch(args[i]) then i + 2 else i + 1);
      }
    }
  }

  /** The texts of the arguments from `i` on. */
  function RemainingTexts(args: seq<string>, i: nat, wide: set<char>): seq<string>
    decreases |args| - i
  {
    if i >= |args| then []
    else if Dropped(args[i]) then RemainingTexts(args, if DropsNext(args[i]) then i + 2 else i + 1, wide)
    else if !BareWriteBatch(args[i]) then [Printed(args[i], wide)] + RemainingTexts(args, i + 1, wide)
    else if i + 1 < |args| then [" --read-batch=" + Quoted(args[i + 1], wide)] + RemainingTexts(args, i + 2, wide)
    else []
  }

  lemma PiecesCons(x: Item, items: seq<Item>, wide: set<char>)
    ensures Pieces([x] + items, wide) == [Emit(x, wide)] + Pieces(items, wide)
  {
  }

  /** One step of the second writer, with the texts told apart. */
  lemma RemainingStep(args: seq<string>, i: nat, wide: set<char>)
    requires i < |args|
    ensures
      var kinds := Classified(args);
      ArgItems(kinds, i) ==
        if Dropped(args[i]) then ArgItems(kinds, if DropsNext(args[i]) then i + 2 else i + 1)
        else if !BareWriteBatch(args[i]) then [ItemOf(kinds[i])] + ArgItems(kinds, i + 1)
        else if i + 1 < |args| then [ReadBatch(args[i + 1])] + ArgItems(kinds, i + 2)
        else []
    ensures !Dropped(args[i]) ==> Emit(ItemOf(Classified(args)[i]), wide) == Printed(args[i], wide)
    ensures i + 1 < |args| ==> Emit(ReadBatch(args[i + 1]), wide) == " --read-batch=" + Quoted(args[i + 1], wide)
  {
    KindTexts(args[i]);
    EmitTexts(args[i], wide);
    if i + 1 < |args| { NamedText(Quoted(args[i + 1], wide)); }
  }

  lemma {:induction false} RemainingPieces(args: seq<string>, i: nat, wide: set<char>)
    ensures Pieces(ArgItems(Classified(args), i), wide) == RemainingTexts(args, i, wide)
    decreases |args| - i
  {
    if i < |args| {
      var kinds := Classified(args);
      RemainingPieces(args, i + 1, wide);
      RemainingPieces(args, i + 2, wide);
      RemainingStep(args, i, wide);
      PiecesCons(ItemOf(kinds[i]), ArgItems(kinds, i + 1), wide);
      if i + 1 < |args| { PiecesCons(ReadBatch(args[i + 1]), ArgItems(kinds, i + 2), wide); }
    }
  }

  /** The second writer's text, character by character. */
  lemma ScriptTextWithArgs(args: seq<string>, wide: set<char>)
    ensures ArgsFrom(Classified(args), 1, wide) == Join(RemainingTexts(args, 1, wide))
  {
    RemainingPieces(args, 1, wide);
  }

  lemma {:induction false} RemainingAllowed(args: seq<string>, i: nat)
    ensures forall w :: w in Remaining(args, i) ==> !Forbidden(w)
    decreases |args| - i
  {
    if i < |args| {
      RemainingAllowed(args, i + 1);
      RemainingAllowed(args, i + 2);
      if !Dropped(args[i]) { ReplayedAllowed(args[i]); }
      if i + 1 < |args| { ReadBatchAllowed(args[i + 1]); }
    }
  }

  /** What the shell reads from the second writer's text. */
  lemma ScriptWordsWithArgs(args: seq<string>, wide: set<char>)
    ensures
      var words := NonEmpty(Remaining(args, 1));
      && Read(ArgsFrom(Classified(args), 1, wide), None) == Some(words)
      && forall w :: w in words ==> !Forbidden(w)
  {
    ReadAllEmitted(ArgItems(Classified(args), 1), wide, None);
    WordsRemain(args, 1);
    RemainingAllowed(args, 1);
    NonEmptyMembers(Remaining(args, 1));
  }
}
