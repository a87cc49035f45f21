/** A query from its words to its answer, on the engine's own elements. */
module QueryFind {
  import opened Values
  import opened QueryModel
  import opened QueryGrammar
  import opened QueryParser
  import opened QueryWords
  import opened QueryEvaluation
  import opened QueryErrors
  import opened QueryEngine

  /** Appends elements until there are no words left or a call fails. */
  method ParseArguments(q: Query, words: Words, argv: seq<string>) returns (ok: bool)
    requires q.Valid()
    modifies q, q.Owned()
    ensures q.Valid() && TakeAll(words, old(q.Abs()), argv) == (q.Abs(), ok)
  {
    hide FromArgs;
    var rest := argv;
    while rest != []
      invariant q.Valid() && fresh(q.Owned() - old(q.Owned()))
      invariant TakeAll(words, old(q.Abs()), argv) == TakeAll(words, q.Abs(), rest)
      decreases |rest|
    {
      var used;
      ok, used := q.AppendElementFromArgs(words, rest);
      if !ok || used == 0 || used > |rest| { return false; }
      rest := rest[used..];
    }
    ok := true;
  }

  /** A query of the grammar, spelled in words, is true of an object exactly when its meaning is, and no error is
      recorded, unless a predicate that is asked fails; then the answer is false and an error is recorded, if the
      query is safe for the predicates in it, or no callback of theirs takes errors back. */
  method Matches(words: Words, argv: seq<string>, cb: Callbacks, ghost e: Expr, ghost v: Predicate -> bool,
                 ghost spell: Spellings, ghost t: Traits)
    returns (result: bool, error: Error)
    requires Understands(words, spell) && Spellable(spell, ExprTokens(e)) && Agrees(cb, v)
    requires AllSpelled(words, spell, ExprTokens(e), argv) && ExprDepth(e) < W32
    ensures var tree := Tree(Run(START, ExprTokens(e)).0.frames);
      if Judge(tree, cb, 0).0 != Fault then error == NoError && (result <==> ExprHolds(e, v))
      else (Safe(tree, t) && AllBehave(cb, t, Leaves(tree))) || KeepErrors(cb, Leaves(tree)) ==>
        !result && error != NoError
  {
    hide TakeAll, Run, Evaluate, Judge, Understands, ExprHolds, AllSpelled, ExprTokens, Agrees;
    hide Safe, AllBehave, KeepErrors;
    var q := new Query();
    var ok := ParseArguments(q, words, argv);
    WordsAreTokens(words, spell, START, ExprTokens(e), argv);
    QueryAnswers(e, cb, v);
    ParsesGrammar(e, v);
    ghost var tree := Tree(q.Abs().frames);
    if Judge(tree, cb, 0).0 == Fault && Safe(tree, t) && AllBehave(cb, t, Leaves(tree)) { SafeKeeps(tree, cb, t, 0); }
    if KeepErrors(cb, Leaves(tree)) { UnclearedAnswers(q.Abs(), cb); }
    result := q.EvaluateObject(cb);
    error := q.lastError;
  }
}
