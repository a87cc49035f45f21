/** Evaluating a query: left to right, stopping when the answer is known, with the callbacks' errors. */
module QueryEvaluation {
  import opened Values
  import opened QueryModel
  import opened QueryGrammar
  import opened QueryParser

  /** What the evaluation callbacks answer about one object.  A callback is given the error recorded so far and may
      replace it or take it back, and it may answer each time as it likes: the calls for an object are numbered. */
  type Callbacks = map<string, (nat, Predicate, Error) -> (bool, Error)>

  /** What evaluating comes to: the result, the error then recorded, and the number of the next call. */
  datatype Outcome = Outcome(result: bool, error: Error, calls: nat)

  /** _QEQueryElementEvaluate with short circuits. */
  function Evaluate(n: Node, cb: Callbacks, error: Error, calls: nat): (r: Outcome) {
    match n
    case Leaf(what, negated) =>
      Finish(Call(what, cb, error, calls), negated)
    case Group(AndKind, negated, args) =>
      Finish(EvaluateAll(args, cb, error, calls), negated)
    case Group(OrKind, negated, args) =>
      Finish(if args == [] then Outcome(true, error, calls) else EvaluateSome(args, cb, error, calls), negated)
  }

  function Call(what: Predicate, cb: Callbacks, error: Error, calls: nat): Outcome {
    if what.name !in cb then Outcome(false, NoEvaluationCallback, calls)
    else
      var (r, e) := cb[what.name](calls, what, error);
      Outcome(r, e, calls + 1)
  }

  function Finish(o: Outcome, negated: bool): Outcome {
    o.(result := o.error == NoError && o.result != negated)
  }

  function EvaluateAll(ns: seq<Node>, cb: Callbacks, error: Error, calls: nat): (r: Outcome) {
    if ns == [] then Outcome(true, error, calls)
    else
      var o := Evaluate(ns[0], cb, error, calls);
      if o.result then EvaluateAll(ns[1..], cb, o.error, o.calls) else o
  }

  function EvaluateSome(ns: seq<Node>, cb: Callbacks, error: Error, calls: nat): (r: Outcome) {
    if ns == [] then Outcome(false, error, calls)
    else
      var o := Evaluate(ns[0], cb, error, calls);
      if o.result then o else EvaluateSome(ns[1..], cb, o.error, o.calls)
  }

  /** A predicate without a callback is false, negated or not, and that it has none is recorded. */
  lemma NoCallback(what: Predicate, negated: bool, cb: Callbacks, error: Error, calls: nat)
    requires what.name !in cb
    ensures Evaluate(Leaf(what, negated), cb, error, calls) == Outcome(false, NoEvaluationCallback, calls)
  {
  }

  // ---- what that comes to ----

  datatype Verdict = Yes | No | Fault

  /** What a predicate answers when no error is recorded. */
  function Ask(what: Predicate, cb: Callbacks, calls: nat): Verdict {
    var o := Call(what, cb, NoError, calls);
    if o.error != NoError then Fault else if o.result then Yes else No
  }

  function Not(d: Verdict, negated: bool): Verdict {
    if !negated || d == Fault then d else if d == Yes then No else Yes
  }

  function NotAll(r: (Verdict, nat), negated: bool): (Verdict, nat) { (Not(r.0, negated), r.1) }

  /** The first element that is not true decides an AND group, the first that is not false an OR group; an element
      that fails is neither, and nothing is asked after it.  Also the number of the next call. */
  function Judge(n: Node, cb: Callbacks, calls: nat): (Verdict, nat) {
    match n
    case Leaf(what, negated) => NotAll((Ask(what, cb, calls), calls + 1), negated)
    case Group(AndKind, negated, args) => NotAll(First(args, cb, Yes, calls), negated)
    case Group(OrKind, negated, args) =>
      NotAll(if args == [] then (Yes, calls) else First(args, cb, No, calls), negated)
  }

  /** The first verdict other than go. */
  function First(ns: seq<Node>, cb: Callbacks, go: Verdict, calls: nat): (Verdict, nat) {
    if ns == [] then (go, calls)
    else
      var (d, next) := Judge(ns[0], cb, calls);
      if d == go then First(ns[1..], cb, go, next) else (d, next)
  }

  /** o is the outcome of judging to r without a fault. */
  predicate Gives(o: Outcome, r: (Verdict, nat)) { o == Outcome(r.0 == Yes, NoError, r.1) }

  /** As long as no predicate that is asked fails, the evaluator gives the verdict and records no error, whatever
      the callbacks do with errors. */
  lemma {:induction false} EvaluateJudges(n: Node, cb: Callbacks, calls: nat)
    requires Judge(n, cb, calls).0 != Fault
    ensures Gives(Evaluate(n, cb, NoError, calls), Judge(n, cb, calls))
    decreases n
  {
    match n
    case Leaf(what, negated) =>
    case Group(AndKind, negated, args) =>
      EvaluateAllJudges(args, cb, calls);
    case Group(OrKind, negated, args) =>
      if args != [] { EvaluateSomeJudges(args, cb, calls); }
  }

  lemma {:induction false} EvaluateAllJudges(ns: seq<Node>, cb: Callbacks, calls: nat)
    requires First(ns, cb, Yes, calls).0 != Fault
    ensures Gives(EvaluateAll(ns, cb, NoError, calls), First(ns, cb, Yes, calls))
    decreases ns
  {
    if ns != [] {
      EvaluateJudges(ns[0], cb, calls);
      var (d, next) := Judge(ns[0], cb, calls);
      if d == Yes { EvaluateAllJudges(ns[1..], cb, next); }
    }
  }

  lemma {:induction false} EvaluateSomeJudges(ns: seq<Node>, cb: Callbacks, calls: nat)
    requires First(ns, cb, No, calls).0 != Fault
    ensures Gives(EvaluateSome(ns, cb, NoError, calls), First(ns, cb, No, calls))
    decreases ns
  {
    if ns != [] {
      EvaluateJudges(ns[0], cb, calls);
      var (d, next) := Judge(ns[0], cb, calls);
      if d == No { EvaluateSomeJudges(ns[1..], cb, next); }
    }
  }

  /** When it does not fail, a predicate answers as v says. */
  ghost predicate Agrees(cb: Callbacks, v: Predicate -> bool) {
    forall what, calls :: Ask(what, cb, calls) != Fault ==> (v(what) <==> Ask(what, cb, calls) == Yes)
  }

  /** Unless a predicate that is asked fails, the verdict is the Boolean meaning of the tree, whatever the
      predicates that are not asked would do. */
  lemma {:induction false} JudgeHolds(n: Node, cb: Callbacks, v: Predicate -> bool, calls: nat)
    requires Judge(n, cb, calls).0 != Fault && Agrees(cb, v)
    ensures Judge(n, cb, calls).0 == Yes <==> Holds(n, v)
    decreases n
  {
    match n
    case Leaf(what, negated) =>
    case Group(AndKind, negated, args) =>
      AllJudged(args, cb, v, calls);
    case Group(OrKind, negated, args) =>
      if args != [] { SomeJudged(args, cb, v, calls); }
  }

  lemma {:induction false} AllJudged(ns: seq<Node>, cb: Callbacks, v: Predicate -> bool, calls: nat)
    requires First(ns, cb, Yes, calls).0 != Fault && Agrees(cb, v)
    ensures First(ns, cb, Yes, calls).0 == Yes <==> AllHold(ns, v)
    decreases ns
  {
    if ns != [] {
      var (d, next) := Judge(ns[0], cb, calls);
      JudgeHolds(ns[0], cb, v, calls);
      if d == Yes { AllJudged(ns[1..], cb, v, next); }
      assert AllHold(ns, v) <==> Holds(ns[0], v) && AllHold(ns[1..], v) by {
        assert forall i :: 0 < i < |ns| ==> ns[i] == ns[1..][i - 1];
      }
    }
  }

  lemma {:induction false} SomeJudged(ns: seq<Node>, cb: Callbacks, v: Predicate -> bool, calls: nat)
    requires First(ns, cb, No, calls).0 != Fault && Agrees(cb, v)
    ensures First(ns, cb, No, calls).0 == Yes <==> SomeHolds(ns, v)
    decreases ns
  {
    if ns != [] {
      var (d, next) := Judge(ns[0], cb, calls);
      JudgeHolds(ns[0], cb, v, calls);
      if d == No { SomeJudged(ns[1..], cb, v, next); }
      assert forall i :: 0 < i < |ns| ==> ns[i] == ns[1..][i - 1];
      if SomeHolds(ns[1..], v) {
        var i :| 0 <= i < |ns| - 1 && Holds(ns[1..][i], v);
        assert Holds(ns[i + 1], v);
      }
    }
  }

  /** QEQueryEvaluate. */
  function EvaluateQuery(st: State, cb: Callbacks): (r: (bool, Error))
    requires Open(st)
  {
    if !IsComplete(st) then (false, st.error)
    else
      var o := Evaluate(Tree(st.frames), cb, st.error, 0);
      (o.result, o.error)
  }

  /** From the words of the grammar to the answer: a query that parses is true of an object exactly when its
      meaning is, and no error is recorded, as long as no predicate that is asked fails. */
  lemma QueryAnswers(e: Expr, cb: Callbacks, v: Predicate -> bool)
    requires ExprDepth(e) < W32 && Agrees(cb, v)
    ensures var st := Run(START, ExprTokens(e)).0;
      Judge(Tree(st.frames), cb, 0).0 != Fault ==> EvaluateQuery(st, cb) == (ExprHolds(e, v), NoError)
  {
    ParsesGrammar(e, v);
    var tree := Tree(Run(START, ExprTokens(e)).0.frames);
    if Judge(tree, cb, 0).0 != Fault {
      EvaluateJudges(tree, cb, 0);
      JudgeHolds(tree, cb, v, 0);
    }
  }
}
