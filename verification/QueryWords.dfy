/** Queries given as command-line words. */
module QueryWords {
  import opened Values
  import opened QueryModel
  import opened QueryGrammar
  import opened QueryParser

  datatype Operators = Operators(and: string, or: string, not: string, open: string, close: string)

  /** What a parse callback makes of its words. */
  datatype Parsed = Parsed(ok: bool, element: Predicate, used: nat, error: Error)

  datatype Words = Words(
    operators: Operators,
    synonyms: map<string, string>,
    parsers: map<string, (Predicate, seq<string>, Error) -> Parsed>)

  function Resolve(w: Words, s: string): string { if s in w.synonyms then w.synonyms[s] else s }

  /** QEQueryAppendElementFromArgs: the new state, whether it succeeds, and how many words it uses up.  The name of
      an element is looked up among the synonyms twice, its callback by the first. */
  function FromArgs(w: Words, st: State, argv: seq<string>): (r: (State, bool, nat))
    requires Open(st)
    ensures Open(r.0)
  {
    if argv == [] then (st, false, 0)
    else if Resolve(w, argv[0]) == w.operators.not then
      if |argv| == 1 then (st.(error := Syntax), false, 1) else FromWord(w, st, argv, 1, true)
    else FromWord(w, st, argv, 0, false)
  }

  function FromWord(w: Words, st: State, argv: seq<string>, index: nat, negated: bool): (r: (State, bool, nat))
    requires Open(st) && index < |argv|
    ensures Open(r.0)
  {
    var verb := Resolve(w, argv[index]);
    if verb == w.operators.and then
      if negated then (st.(error := Syntax), false, index) else Used(OneWord(AppendAndOperator(st)), index)
    else if verb == w.operators.or then
      if negated then (st.(error := Syntax), false, index) else Used(OneWord(AppendOrOperator(st)), index)
    else if verb == w.operators.open then Used(OneWord(StartGroup(st, OrKind, negated)), index)
    else if verb == w.operators.close then Used(OneWord(EndGroup(st)), index)
    else Used(FromVerb(w, st, verb, argv[index..], negated), index)
  }

  /** An element with the predicate verb; args starts at its word. */
  function FromVerb(w: Words, st: State, verb: string, args: seq<string>, negated: bool): (r: (State, bool, nat))
    requires Open(st)
    ensures Open(r.0)
  {
    if verb !in w.parsers then (st.(error := NoParseCallback), false, 0)
    else
      var parsed := w.parsers[verb](Predicate(Resolve(w, verb), []), args, st.error);
      var s := st.(error := parsed.error);
      if !parsed.ok then (s, false, 0)
      else
        var (s', ok) := AppendElement(s, Leaf(parsed.element, negated));
        (s', ok, parsed.used)
  }

  function OneWord(r: (State, bool)): (State, bool, nat) { (r.0, r.1, 1) }

  function Used(r: (State, bool, nat), index: nat): (State, bool, nat) {
    (r.0, r.1, if r.1 then index + r.2 else index)
  }

  /** Taking elements until there is nothing left or something fails. */
  function TakeAll(w: Words, st: State, argv: seq<string>): (r: (State, bool))
    requires Open(st)
    ensures Open(r.0)
    decreases |argv|
  {
    if argv == [] then (st, true)
    else
      var (s, ok, used) := FromArgs(w, st, argv);
      if ok && 0 < used <= |argv| then TakeAll(w, s, argv[used..]) else (s, false)
  }

  // ---- words for tokens ----

  /** A word stands for what it is a synonym of, and only otherwise for itself. */
  ghost predicate ReadsAs(w: Words, s: string, word: string) {
    (s in w.synonyms && w.synonyms[s] == word) || (s !in w.synonyms && s == word)
  }

  /** How a predicate is given: the word of its parse callback, or one that stands for it, and then these. */
  datatype Spelling = Spelling(verb: string, arguments: seq<string>)

  type Spellings = map<Predicate, Spelling>

  function Length(spell: Spellings, t: Token): (n: nat)
    requires t.TPred? ==> t.what in spell
    ensures n > 0
  {
    match t
    case TOpen(negated) => if negated then 2 else 1
    case TPred(negated, what) => (if negated then 2 else 1) + |spell[what].arguments|
    case _ => 1
  }

  /** argv starts with words for the token. */
  ghost predicate Spells(w: Words, spell: Spellings, t: Token, argv: seq<string>)
    requires t.TPred? ==> t.what in spell
  {
    Length(spell, t) <= |argv| &&
    match t
    case TAnd => ReadsAs(w, argv[0], w.operators.and)
    case TOr => ReadsAs(w, argv[0], w.operators.or)
    case TClose => ReadsAs(w, argv[0], w.operators.close)
    case TOpen(negated) =>
      if negated then ReadsAs(w, argv[0], w.operators.not) && ReadsAs(w, argv[1], w.operators.open)
      else ReadsAs(w, argv[0], w.operators.open)
    case TPred(negated, what) =>
      if negated then ReadsAs(w, argv[0], w.operators.not) && SpellsPredicate(w, spell[what], argv[1..])
      else SpellsPredicate(w, spell[what], argv)
  }

  ghost predicate SpellsPredicate(w: Words, p: Spelling, argv: seq<string>) {
    && |argv| > |p.arguments| && ReadsAs(w, argv[0], p.verb)
    && forall i :: 0 <= i < |p.arguments| ==> argv[i + 1] == p.arguments[i]
  }

  predicate Spellable(spell: Spellings, ts: seq<Token>) {
    forall i :: 0 <= i < |ts| && ts[i].TPred? ==> ts[i].what in spell
  }

  /** argv is words for the tokens, one after the other. */
  ghost predicate AllSpelled(w: Words, spell: Spellings, ts: seq<Token>, argv: seq<string>)
    requires Spellable(spell, ts)
  {
    if ts == [] then argv == []
    else Spells(w, spell, ts[0], argv) && AllSpelled(w, spell, ts[1..], argv[Length(spell, ts[0])..])
  }

  predicate IsOperator(o: Operators, s: string) { s == o.and || s == o.or || s == o.not || s == o.open || s == o.close }

  /** The operators are told apart, and the parse callback of each spelling takes exactly that spelling. */
  ghost predicate Understands(w: Words, spell: Spellings) {
    Apart(w.operators) && forall p :: p in spell ==> Understood(w, p, spell[p])
  }

  predicate Apart(o: Operators) {
    && o.and != o.or && o.and != o.not && o.and != o.open && o.and != o.close && o.or != o.not
    && o.or != o.open && o.or != o.close && o.not != o.open && o.not != o.close && o.open != o.close
  }

  /** The callback is given an element whose name is what the word stands for. */
  ghost predicate Understood(w: Words, p: Predicate, words: Spelling) {
    && !IsOperator(w.operators, words.verb) && words.verb in w.parsers
    && forall name, argv, error :: ReadsAs(w, words.verb, name) && SpellsPredicate(w, words, argv) ==>
         w.parsers[words.verb](Predicate(name, []), argv, error) == Parsed(true, p, 1 + |words.arguments|, error)
  }

  lemma Resolves(w: Words, s: string, word: string)
    ensures Resolve(w, s) == word <==> ReadsAs(w, s, word)
  {
  }

  lemma OneToken(w: Words, spell: Spellings, st: State, t: Token, argv: seq<string>)
    requires Open(st) && Understands(w, spell) && (t.TPred? ==> t.what in spell) && Spells(w, spell, t, argv)
    ensures FromArgs(w, st, argv).0 == Step(st, t).0 && FromArgs(w, st, argv).1 == Step(st, t).1
    ensures Step(st, t).1 ==> FromArgs(w, st, argv).2 == Length(spell, t)
  {
    hide AppendElement, AppendAndOperator, AppendOrOperator, StartGroup, EndGroup;
    if t.TPred? {
      var verb, index := spell[t.what].verb, if t.negated then 1 else 0;
      assert Understood(w, t.what, spell[t.what]);
      Resolves(w, verb, Resolve(w, verb));
      Resolves(w, argv[index], verb);
      assert argv[0..] == argv;
      assert w.parsers[verb](Predicate(Resolve(w, verb), []), argv[index..], st.error)
        == Parsed(true, t.what, 1 + |spell[t.what].arguments|, st.error);
      assert st.(error := st.error) == st;
      assert FromArgs(w, st, argv) == FromWord(w, st, argv, index, t.negated);
    }
  }

  /** Words do to the builder what the tokens they stand for do, for every sequence of tokens. */
  lemma {:induction false} WordsAreTokens(w: Words, spell: Spellings, st: State, ts: seq<Token>, argv: seq<string>)
    requires Open(st) && Understands(w, spell) && Spellable(spell, ts) && AllSpelled(w, spell, ts, argv)
    ensures TakeAll(w, st, argv) == Run(st, ts)
    decreases |ts|
  {
    hide Spells, FromArgs, Understands, Step;
    if ts != [] {
      OneToken(w, spell, st, ts[0], argv);
      Enough(w, spell, ts[0], argv);
      var (s, ok) := Step(st, ts[0]);
      if ok { WordsAreTokens(w, spell, s, ts[1..], argv[Length(spell, ts[0])..]); }
    }
  }

  lemma Enough(w: Words, spell: Spellings, t: Token, argv: seq<string>)
    requires (t.TPred? ==> t.what in spell) && Spells(w, spell, t, argv)
    ensures 0 < Length(spell, t) <= |argv|
  {
  }

  /** A query of the grammar, spelled out in words. */
  lemma ParsesWords(w: Words, spell: Spellings, e: Expr, argv: seq<string>, v: Predicate -> bool)
    requires Understands(w, spell) && Spellable(spell, ExprTokens(e)) && AllSpelled(w, spell, ExprTokens(e), argv)
    ensures var (s, ok) := TakeAll(w, START, argv);
      && (ok <==> ExprDepth(e) < W32)
      && (ok ==> IsComplete(s) && (Holds(Tree(s.frames), v) <==> ExprHolds(e, v)))
  {
    WordsAreTokens(w, spell, START, ExprTokens(e), argv);
    ParsesGrammar(e, v);
  }

  /** NOT before ")" is taken and ignored. */
  lemma NotBeforeCloseIgnored(w: Words, st: State, not: string, argv: seq<string>)
    requires Open(st) && Apart(w.operators) && ReadsAs(w, not, w.operators.not)
    requires argv != [] && ReadsAs(w, argv[0], w.operators.close)
    ensures var (r, plain) := (FromArgs(w, st, [not] + argv), FromArgs(w, st, argv));
      r.0 == plain.0 && r.1 == plain.1 && r.2 == plain.2 + 1
  {
    hide EndGroup;
  }

  /** The words that are refused on sight, whatever has been built: NOT with nothing after it, NOT before AND or OR, and
      a word, after NOT or not, that is no operator (but a second NOT) and has no parse callback. */
  ghost predicate Unusable(w: Words, argv: seq<string>, error: Error) {
    argv != [] &&
    var o, negated := w.operators, ReadsAs(w, argv[0], w.operators.not);
    if negated && |argv| == 1 then error == Syntax
    else
      var s := argv[if negated then 1 else 0];
      if ReadsAs(w, s, o.and) || ReadsAs(w, s, o.or) then negated && error == Syntax
      else
        && error == NoParseCallback && !ReadsAs(w, s, o.open) && !ReadsAs(w, s, o.close)
        && forall verb :: ReadsAs(w, s, verb) ==> verb !in w.parsers
  }

  /** They record that error and change nothing else; only NOT is used up. */
  lemma UnusableRefused(w: Words, st: State, argv: seq<string>, error: Error)
    requires Open(st) && Unusable(w, argv, error)
    ensures FromArgs(w, st, argv)
      == (st.(error := error), false, if ReadsAs(w, argv[0], w.operators.not) then 1 else 0)
  {
    var negated := ReadsAs(w, argv[0], w.operators.not);
    if |argv| > 1 || !negated {
      var s := argv[if negated then 1 else 0];
      Resolves(w, s, Resolve(w, s));
    }
  }

  /** Whatever fails, and why: NOT is used up, and no other word. */
  lemma FailureUses(w: Words, st: State, argv: seq<string>)
    requires Open(st) && !FromArgs(w, st, argv).1
    ensures FromArgs(w, st, argv).2 == if argv != [] && ReadsAs(w, argv[0], w.operators.not) then 1 else 0
  {
    if argv != [] { Resolves(w, argv[0], w.operators.not); }
  }

  /** So does a word whose callback refuses; the error is the callback's. */
  lemma CallbackRefuses(w: Words, st: State, argv: seq<string>, verb: string, name: string)
    requires Open(st) && argv != [] && ReadsAs(w, argv[0], verb) && !IsOperator(w.operators, verb)
    requires verb in w.parsers && ReadsAs(w, verb, name)
    ensures var parsed := w.parsers[verb](Predicate(name, []), argv, st.error);
      !parsed.ok ==> FromArgs(w, st, argv) == (st.(error := parsed.error), false, 0)
  {
    assert argv[0..] == argv;
  }
}
