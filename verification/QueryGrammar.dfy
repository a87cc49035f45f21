/** The queries the documentation of the engine describes, and what they mean: groups bind tightest, then
    NOT, then AND, then OR. */
module QueryGrammar {
  import opened QueryModel

  datatype Expr = One(t: Term) | Or(e: Expr, t: Term)
  datatype Term = Single(f: Factor) | And(t: Term, written: bool, f: Factor)   // AND may be left out
  datatype Factor = Pred(negated: bool, what: Predicate) | Parens(negated: bool, e: Expr)

  /** A word of the query; NOT is part of the word it applies to, as it is taken in one call. */
  datatype Token = TAnd | TOr | TOpen(negated: bool) | TClose | TPred(negated: bool, what: Predicate)

  function ExprTokens(e: Expr): seq<Token> {
    match e
    case One(t) => TermTokens(t)
    case Or(e', t) => ExprTokens(e') + [TOr] + TermTokens(t)
  }

  function TermTokens(t: Term): seq<Token> {
    match t
    case Single(f) => FactorTokens(f)
    case And(t', written, f) => TermTokens(t') + (if written then [TAnd] else []) + FactorTokens(f)
  }

  function FactorTokens(f: Factor): seq<Token> {
    match f
    case Pred(negated, what) => [TPred(negated, what)]
    case Parens(negated, e) => [TOpen(negated)] + ExprTokens(e) + [TClose]
  }

  ghost predicate ExprHolds(e: Expr, v: Predicate -> bool) {
    match e
    case One(t) => TermHolds(t, v)
    case Or(e', t) => ExprHolds(e', v) || TermHolds(t, v)
  }

  ghost predicate TermHolds(t: Term, v: Predicate -> bool) {
    match t
    case Single(f) => FactorHolds(f, v)
    case And(t', _, f) => TermHolds(t', v) && FactorHolds(f, v)
  }

  ghost predicate FactorHolds(f: Factor, v: Predicate -> bool) {
    match f
    case Pred(negated, what) => negated != v(what)
    case Parens(negated, e) => negated != ExprHolds(e, v)
  }

  function LastTerm(e: Expr): Term { e.t }

  /** How deeply groups nest. */
  function ExprDepth(e: Expr): nat {
    match e
    case One(t) => TermDepth(t)
    case Or(e', t) => Max(ExprDepth(e'), TermDepth(t))
  }

  function TermDepth(t: Term): nat {
    match t
    case Single(f) => FactorDepth(f)
    case And(t', _, f) => Max(TermDepth(t'), FactorDepth(f))
  }

  function FactorDepth(f: Factor): nat {
    match f
    case Pred(_, _) => 0
    case Parens(_, e) => 1 + ExprDepth(e)
  }

  function Max(a: nat, b: nat): nat { if a > b then a else b }

  // ---- the meaning of what the builder builds ----

  /** The Boolean meaning of a tree; a group without elements is true. */
  ghost predicate Holds(n: Node, v: Predicate -> bool) {
    match n
    case Leaf(what, negated) => negated != v(what)
    case Group(AndKind, negated, args) => negated != AllHold(args, v)
    case Group(OrKind, negated, args) => negated != (args == [] || SomeHolds(args, v))
  }

  ghost predicate AllHold(ns: seq<Node>, v: Predicate -> bool) {
    forall i :: 0 <= i < |ns| ==> Holds(ns[i], v)
  }

  ghost predicate SomeHolds(ns: seq<Node>, v: Predicate -> bool) {
    exists i :: 0 <= i < |ns| && Holds(ns[i], v)
  }

  /** The builder's step for a token. */
  function Step(st: State, t: Token): (r: (State, bool))
    requires Open(st)
    ensures Open(r.0)
  {
    match t
    case TAnd => AppendAndOperator(st)
    case TOr => AppendOrOperator(st)
    case TOpen(negated) => StartGroup(st, OrKind, negated)
    case TClose => EndGroup(st)
    case TPred(negated, what) => AppendElement(st, Leaf(what, negated))
  }

  /** The steps for a sequence of tokens, until one fails. */
  function Run(st: State, ts: seq<Token>): (r: (State, bool))
    requires Open(st)
    ensures Open(r.0)
    decreases |ts|
  {
    if ts == [] then (st, true)
    else
      var (s, ok) := Step(st, ts[0]);
      if ok then Run(s, ts[1..]) else (s, false)
  }

  lemma {:induction false} RunAppend(st: State, ts: seq<Token>, us: seq<Token>)
    requires Open(st)
    ensures Run(st, ts + us) == if Run(st, ts).1 then Run(Run(st, ts).0, us) else Run(st, ts)
    decreases |ts|
  {
    if ts == [] {
      assert ts + us == us;
    } else {
      assert (ts + us)[1..] == ts[1..] + us;
      var (s, ok) := Step(st, ts[0]);
      if ok { RunAppend(s, ts[1..], us); }
    }
  }
}
