/** When an error that an evaluation callback records is still there at the end.  Callbacks may take errors back, so
    it depends on the query. */
module QueryErrors {
  import opened Values
  import opened QueryModel
  import opened QueryGrammar
  import opened QueryParser
  import opened QueryInvariant
  import opened QueryEvaluation

  /** What is known of the predicates: which can fail, and which can take back an error. */
  datatype Traits = Traits(fails: Predicate -> bool, clears: Predicate -> bool)

  /** The predicates that occur in a tree. */
  function Leaves(n: Node): set<Predicate> {
    match n
    case Leaf(what, _) => {what}
    case Group(_, _, args) => AllLeaves(args)
  }

  function AllLeaves(ns: seq<Node>): set<Predicate> {
    if ns == [] then {} else Leaves(ns[0]) + AllLeaves(ns[1..])
  }

  /** The callbacks do no more than the traits allow; without a callback a predicate fails. */
  ghost predicate Behaves(cb: Callbacks, t: Traits, what: Predicate) {
    if what.name !in cb then t.fails(what)
    else
      && (forall calls :: !t.fails(what) ==> cb[what.name](calls, what, NoError).1 == NoError)
      && (forall calls, error :: !t.clears(what) && error != NoError ==> cb[what.name](calls, what, error).1 != NoError)
  }

  ghost predicate AllBehave(cb: Callbacks, t: Traits, ps: set<Predicate>) {
    forall what :: what in ps ==> Behaves(cb, t, what)
  }

  predicate CanFail(n: Node, t: Traits) {
    match n
    case Leaf(what, _) => t.fails(what)
    case Group(_, _, args) => AnyCanFail(args, t)
  }

  predicate AnyCanFail(ns: seq<Node>, t: Traits) { ns != [] && (CanFail(ns[0], t) || AnyCanFail(ns[1..], t)) }

  /** With an error recorded no predicate that can take it back is asked: of an AND group only the first element is
      reached, of an OR group all are. */
  predicate Quiet(n: Node, t: Traits) {
    match n
    case Leaf(what, _) => !t.clears(what)
    case Group(AndKind, _, args) => args == [] || Quiet(args[0], t)
    case Group(OrKind, _, args) => AllQuiet(args, t)
  }

  predicate AllQuiet(ns: seq<Node>, t: Traits) { ns == [] || (Quiet(ns[0], t) && AllQuiet(ns[1..], t)) }

  /** After an element of an OR group that can fail come only quiet ones. */
  predicate Safe(n: Node, t: Traits) {
    match n
    case Leaf(_, _) => true
    case Group(AndKind, _, args) => AllSafe(args, t)
    case Group(OrKind, _, args) => SafeInTurn(args, t)
  }

  predicate AllSafe(ns: seq<Node>, t: Traits) { ns == [] || (Safe(ns[0], t) && AllSafe(ns[1..], t)) }

  predicate SafeInTurn(ns: seq<Node>, t: Traits) {
    ns == [] || (Safe(ns[0], t) && SafeInTurn(ns[1..], t) && (CanFail(ns[0], t) ==> AllQuiet(ns[1..], t)))
  }

  predicate Failed(o: Outcome) { !o.result && o.error != NoError }

  /** An error met makes the result false, and there is an error at the end. */
  predicate ErrorStays(n: Node, cb: Callbacks) {
    Judge(n, cb, 0).0 == Fault ==> Failed(Evaluate(n, cb, NoError, 0))
  }

  // ---- safe trees keep errors ----

  lemma {:induction false} QuietKeeps(n: Node, cb: Callbacks, t: Traits, error: Error, calls: nat)
    requires Quiet(n, t) && AllBehave(cb, t, Leaves(n)) && error != NoError
    ensures Failed(Evaluate(n, cb, error, calls))
    decreases n
  {
    match n
    case Leaf(what, _) => assert Behaves(cb, t, what);
    case Group(AndKind, _, args) =>
      if args != [] {
        assert Leaves(args[0]) <= AllLeaves(args);
        QuietKeeps(args[0], cb, t, error, calls);
      }
    case Group(OrKind, _, args) => AllQuietKeep(args, cb, t, error, calls);
  }

  lemma {:induction false} AllQuietKeep(ns: seq<Node>, cb: Callbacks, t: Traits, error: Error, calls: nat)
    requires AllQuiet(ns, t) && AllBehave(cb, t, AllLeaves(ns)) && error != NoError
    ensures Failed(EvaluateSome(ns, cb, error, calls))
    decreases ns
  {
    if ns != [] {
      QuietKeeps(ns[0], cb, t, error, calls);
      var o := Evaluate(ns[0], cb, error, calls);
      AllQuietKeep(ns[1..], cb, t, o.error, o.calls);
    }
  }

  lemma {:induction false} FaultCanFail(n: Node, cb: Callbacks, t: Traits, calls: nat)
    requires AllBehave(cb, t, Leaves(n)) && Judge(n, cb, calls).0 == Fault
    ensures CanFail(n, t)
    decreases n
  {
    match n
    case Leaf(what, _) => assert Behaves(cb, t, what);
    case Group(AndKind, _, args) => FirstCanFail(args, cb, t, Yes, calls);
    case Group(OrKind, _, args) => FirstCanFail(args, cb, t, No, calls);
  }

  lemma {:induction false} FirstCanFail(ns: seq<Node>, cb: Callbacks, t: Traits, go: Verdict, calls: nat)
    requires AllBehave(cb, t, AllLeaves(ns)) && go != Fault && First(ns, cb, go, calls).0 == Fault
    ensures AnyCanFail(ns, t)
    decreases ns
  {
    var (d, next) := Judge(ns[0], cb, calls);
    if d == go { FirstCanFail(ns[1..], cb, t, go, next); } else { FaultCanFail(ns[0], cb, t, calls); }
  }

  /** In a safe tree an error met makes the result false and is not lost. */
  lemma {:induction false} SafeKeeps(n: Node, cb: Callbacks, t: Traits, calls: nat)
    requires Safe(n, t) && AllBehave(cb, t, Leaves(n)) && Judge(n, cb, calls).0 == Fault
    ensures Failed(Evaluate(n, cb, NoError, calls))
    decreases n
  {
    match n
    case Leaf(_, _) =>
    case Group(AndKind, _, args) => AllSafeKeep(args, cb, t, calls);
    case Group(OrKind, _, args) => SafeInTurnKeep(args, cb, t, calls);
  }

  lemma {:induction false} AllSafeKeep(ns: seq<Node>, cb: Callbacks, t: Traits, calls: nat)
    requires AllSafe(ns, t) && AllBehave(cb, t, AllLeaves(ns)) && First(ns, cb, Yes, calls).0 == Fault
    ensures Failed(EvaluateAll(ns, cb, NoError, calls))
    decreases ns
  {
    var (d, next) := Judge(ns[0], cb, calls);
    if d == Yes {
      EvaluateJudges(ns[0], cb, calls);
      AllSafeKeep(ns[1..], cb, t, next);
    } else {
      SafeKeeps(ns[0], cb, t, calls);
    }
  }

  lemma {:induction false} SafeInTurnKeep(ns: seq<Node>, cb: Callbacks, t: Traits, calls: nat)
    requires SafeInTurn(ns, t) && AllBehave(cb, t, AllLeaves(ns)) && First(ns, cb, No, calls).0 == Fault
    ensures Failed(EvaluateSome(ns, cb, NoError, calls))
    decreases ns
  {
    var (d, next) := Judge(ns[0], cb, calls);
    if d == No {
      EvaluateJudges(ns[0], cb, calls);
      SafeInTurnKeep(ns[1..], cb, t, next);
    } else {
      SafeKeeps(ns[0], cb, t, calls);
      FaultCanFail(ns[0], cb, t, calls);
      var o := Evaluate(ns[0], cb, NoError, calls);
      AllQuietKeep(ns[1..], cb, t, o.error, o.calls);
    }
  }

  // ---- other trees can lose one: callbacks that play a script ----

  const FAILURE: Error := EvaluationCallbackFailed

  /** What a callback is to do: give this result, with or without an error. */
  datatype Cue = Cue(result: bool, fault: bool)

  /** The answer to a call that follows the script as far as the traits allow. */
  function Answer(t: Traits, script: seq<Cue>, calls: nat, what: Predicate, error: Error): (bool, Error) {
    if calls >= |script| then (false, error)
    else if script[calls].fault then
      (false, if error == NoError && t.fails(what) then FAILURE else error)
    else
      (script[calls].result, if t.clears(what) then NoError else error)
  }

  function Scripted(t: Traits, names: set<string>, script: seq<Cue>): Callbacks {
    map name | name in names :: (calls, what, error) => Answer(t, script, calls, what, error)
  }

  lemma ScriptedBehaves(t: Traits, ps: set<Predicate>, script: seq<Cue>)
    ensures AllBehave(Scripted(t, set p | p in ps :: p.name, script), t, ps)
  {
  }

  datatype Stage = Stage(traits: Traits, names: set<string>)

  /** A part that can be played: from one error recorded to another, with this result; the verdict if the first is
      NoError. */
  datatype Part = Part(before: Error, result: bool, after: Error, verdict: Verdict)

  const IDLES: Part := Part(FAILURE, false, FAILURE, Fault)
  const FAILS: Part := Part(NoError, false, FAILURE, Fault)

  function Works(b: bool): Part { Part(NoError, b, NoError, if b then Yes else No) }

  function Clears(b: bool): Part { Part(FAILURE, b, NoError, Fault) }

  function Loses(b: bool): Part { Part(NoError, b, NoError, Fault) }

  ghost predicate PlaysAt(n: Node, g: Stage, x: Part, p: seq<Cue>, s: seq<Cue>, q: seq<Cue>) {
    var cb := Scripted(g.traits, g.names, p + s + q);
    && Evaluate(n, cb, x.before, |p|) == Outcome(x.result, x.after, |p| + |s|)
    && (x.before == NoError ==> Judge(n, cb, |p|).0 == x.verdict)
  }

  /** The script s makes n play x wherever it stands in a longer script. */
  ghost predicate Plays(n: Node, g: Stage, x: Part, s: seq<Cue>) { forall p, q :: PlaysAt(n, g, x, p, s, q) }

  /** The same for the elements of a group; which verdict goes on is that of the group. */
  ghost predicate ListPlaysAt(ns: seq<Node>, all: bool, g: Stage, x: Part, p: seq<Cue>, s: seq<Cue>, q: seq<Cue>) {
    var cb := Scripted(g.traits, g.names, p + s + q);
    && Outcome(x.result, x.after, |p| + |s|)
      == (if all then EvaluateAll(ns, cb, x.before, |p|) else EvaluateSome(ns, cb, x.before, |p|))
    && (x.before == NoError ==> First(ns, cb, if all then Yes else No, |p|).0 == x.verdict)
  }

  ghost predicate ListPlays(ns: seq<Node>, all: bool, g: Stage, x: Part, s: seq<Cue>) {
    forall p, q :: ListPlaysAt(ns, all, g, x, p, s, q)
  }

  /** The first element decides. */
  lemma Stops(ns: seq<Node>, all: bool, g: Stage, x: Part, s: seq<Cue>)
    requires ns != [] && Plays(ns[0], g, x, s) && x.result != all
    requires x.before == NoError ==> x.verdict != if all then Yes else No
    ensures ListPlays(ns, all, g, x, s)
  {
    forall p, q ensures ListPlaysAt(ns, all, g, x, p, s, q) {
      assert PlaysAt(ns[0], g, x, p, s, q);
    }
  }

  function Joined(x: Part, y: Part, all: bool): Part {
    Part(x.before, y.result, y.after, if x.verdict == (if all then Yes else No) then y.verdict else x.verdict)
  }

  /** The first element leaves it to the rest. */
  lemma GoesOn(ns: seq<Node>, all: bool, g: Stage, x: Part, s: seq<Cue>, y: Part, u: seq<Cue>)
    requires ns != [] && Plays(ns[0], g, x, s) && x.result == all
    requires ListPlays(ns[1..], all, g, y, u) && y.before == x.after
    ensures ListPlays(ns, all, g, Joined(x, y, all), s + u)
  {
    forall p, q ensures ListPlaysAt(ns, all, g, Joined(x, y, all), p, s + u, q) {
      assert p + s + (u + q) == p + (s + u) + q == (p + s) + u + q;
      assert PlaysAt(ns[0], g, x, p, s, u + q);
      assert ListPlaysAt(ns[1..], all, g, y, p + s, u, q);
      var cb := Scripted(g.traits, g.names, p + (s + u) + q);
      if x.before == NoError && Judge(ns[0], cb, |p|).0 != Fault { EvaluateJudges(ns[0], cb, |p|); }
    }
  }

  function Left(all: bool, e: Error): Part { Part(e, all, e, if all then Yes else No) }

  lemma NoneLeft(all: bool, g: Stage, e: Error)
    ensures ListPlays([], all, g, Left(all, e), [])
  {
    var ns: seq<Node>, s: seq<Cue>, x := [], [], Left(all, e);
    forall p: seq<Cue>, q: seq<Cue> ensures ListPlaysAt(ns, all, g, x, p, s, q) {}
  }

  function InGroup(x: Part, negated: bool): Part {
    Part(x.before, x.after == NoError && x.result != negated, x.after, Not(x.verdict, negated))
  }

  lemma GroupPlays(n: Node, g: Stage, x: Part, s: seq<Cue>)
    requires n.Group? && n.args != [] && ListPlays(n.args, n.kind == AndKind, g, x, s)
    ensures Plays(n, g, InGroup(x, n.negated), s)
  {
    forall p, q ensures PlaysAt(n, g, InGroup(x, n.negated), p, s, q) {
      assert ListPlaysAt(n.args, n.kind == AndKind, g, x, p, s, q);
    }
  }

  /** Every group has elements, and every predicate a callback. */
  predicate Filled(n: Node, names: set<string>) {
    match n
    case Leaf(what, _) => what.name in names
    case Group(_, _, args) => args != [] && AllFilled(args, names)
  }

  predicate AllFilled(ns: seq<Node>, names: set<string>) {
    ns == [] || (Filled(ns[0], names) && AllFilled(ns[1..], names))
  }

  lemma LeafPlays(n: Node, g: Stage, x: Part, c: Cue)
    requires n.Leaf? && n.what.name in g.names
    requires var (r, e) := Answer(g.traits, [c], 0, n.what, x.before);
      x.after == e && x.result == (e == NoError && r != n.negated)
    requires x.before == NoError ==>
      x.verdict == if x.after != NoError then Fault else if x.result then Yes else No
    ensures Plays(n, g, x, [c])
  {
    forall p: seq<Cue>, q: seq<Cue> ensures PlaysAt(n, g, x, p, [c], q) {
      var script := p + [c] + q;
      assert script[|p|] == c;
      assert Scripted(g.traits, g.names, script)[n.what.name](|p|, n.what, x.before)
        == Answer(g.traits, script, |p|, n.what, x.before) == Answer(g.traits, [c], 0, n.what, x.before);
    }
  }

  // ---- what can be played ----

  /** Any result, without an error. */
  lemma {:induction false} Work(n: Node, g: Stage, b: bool) returns (s: seq<Cue>)
    requires Filled(n, g.names)
    ensures Plays(n, g, Works(b), s)
    decreases n, 1
  {
    hide Plays, ListPlays;
    match n {
      case Leaf(_, negated) =>
        s := [Cue(b != negated, false)];
        LeafPlays(n, g, Works(b), s[0]);
      case Group(kind, negated, args) =>
        s := WorkList(args, kind == AndKind, g, b != negated);
        GroupPlays(n, g, Works(b != negated), s);
    }
  }

  lemma {:induction false} WorkList(ns: seq<Node>, all: bool, g: Stage, b: bool) returns (s: seq<Cue>)
    requires AllFilled(ns, g.names) && (ns != [] || b == all)
    ensures ListPlays(ns, all, g, Works(b), s)
    decreases ns, 0
  {
    hide Plays, ListPlays;
    if ns == [] {
      s := [];
      NoneLeft(all, g, NoError);
    } else {
      s := Work(ns[0], g, b);
      if b != all {
        Stops(ns, all, g, Works(b), s);
      } else {
        var u := WorkList(ns[1..], all, g, b);
        GoesOn(ns, all, g, Works(b), s, Works(b), u);
        s := s + u;
      }
    }
  }

  /** Nothing, once there is an error. */
  lemma {:induction false} Idle(n: Node, g: Stage) returns (s: seq<Cue>)
    requires Filled(n, g.names)
    ensures Plays(n, g, IDLES, s)
    decreases n, 1
  {
    hide Plays, ListPlays;
    match n {
      case Leaf(_, _) =>
        s := [Cue(false, true)];
        LeafPlays(n, g, IDLES, s[0]);
      case Group(AndKind, _, args) =>
        s := Idle(args[0], g);
        Stops(args, true, g, IDLES, s);
        GroupPlays(n, g, IDLES, s);
      case Group(OrKind, _, args) =>
        s := IdleList(args, g);
        GroupPlays(n, g, IDLES, s);
    }
  }

  lemma {:induction false} IdleList(ns: seq<Node>, g: Stage) returns (s: seq<Cue>)
    requires AllFilled(ns, g.names)
    ensures ListPlays(ns, false, g, IDLES, s)
    decreases ns, 0
  {
    if ns == [] {
      s := [];
      NoneLeft(false, g, FAILURE);
      assert ListPlays([], false, g, IDLES, []);
    } else {
      s := Idle(ns[0], g);
      var u := IdleList(ns[1..], g);
      hide Plays, ListPlays;
      GoesOn(ns, false, g, IDLES, s, IDLES, u);
      s := s + u;
    }
  }

  /** A failure, where something can fail. */
  lemma {:induction false} Fail(n: Node, g: Stage) returns (s: seq<Cue>)
    requires Filled(n, g.names) && CanFail(n, g.traits)
    ensures Plays(n, g, FAILS, s)
    decreases n, 1
  {
    hide Plays, ListPlays;
    match n {
      case Leaf(_, _) =>
        s := [Cue(false, true)];
        LeafPlays(n, g, FAILS, s[0]);
      case Group(kind, _, args) =>
        s := FailList(args, kind == AndKind, g);
        GroupPlays(n, g, FAILS, s);
    }
  }

  lemma {:induction false} FailList(ns: seq<Node>, all: bool, g: Stage) returns (s: seq<Cue>)
    requires AllFilled(ns, g.names) && AnyCanFail(ns, g.traits)
    ensures ListPlays(ns, all, g, FAILS, s)
    decreases ns, 0
  {
    hide Plays, ListPlays;
    if CanFail(ns[0], g.traits) {
      s := Fail(ns[0], g);
      if all {
        Stops(ns, all, g, FAILS, s);
      } else {
        var u := IdleList(ns[1..], g);
        GoesOn(ns, all, g, FAILS, s, IDLES, u);
        s := s + u;
      }
    } else {
      s := Work(ns[0], g, all);
      var u := FailList(ns[1..], all, g);
      GoesOn(ns, all, g, Works(all), s, FAILS, u);
      s := s + u;
    }
  }

  /** Any result, and the error taken back, where it is not quiet. */
  lemma {:induction false} Clear(n: Node, g: Stage, b: bool) returns (s: seq<Cue>)
    requires Filled(n, g.names) && !Quiet(n, g.traits)
    ensures Plays(n, g, Clears(b), s)
    decreases n, 1
  {
    hide Plays, ListPlays;
    match n {
      case Leaf(_, negated) =>
        s := [Cue(b != negated, false)];
        LeafPlays(n, g, Clears(b), s[0]);
      case Group(AndKind, negated, args) =>
        s := Clear(args[0], g, b != negated);
        if b == negated {
          Stops(args, true, g, Clears(false), s);
        } else {
          var u := WorkList(args[1..], true, g, true);
          GoesOn(args, true, g, Clears(true), s, Works(true), u);
          s := s + u;
        }
        GroupPlays(n, g, Clears(b != negated), s);
      case Group(OrKind, negated, args) =>
        s := ClearList(args, g, b != negated);
        GroupPlays(n, g, Clears(b != negated), s);
    }
  }

  lemma {:induction false} ClearList(ns: seq<Node>, g: Stage, b: bool) returns (s: seq<Cue>)
    requires AllFilled(ns, g.names) && !AllQuiet(ns, g.traits)
    ensures ListPlays(ns, false, g, Clears(b), s)
    decreases ns, 0
  {
    hide Plays, ListPlays;
    if Quiet(ns[0], g.traits) {
      s := Idle(ns[0], g);
      var u := ClearList(ns[1..], g, b);
      GoesOn(ns, false, g, IDLES, s, Clears(b), u);
      s := s + u;
    } else {
      s := Clear(ns[0], g, b);
      if b {
        Stops(ns, false, g, Clears(b), s);
      } else {
        var u := WorkList(ns[1..], false, g, false);
        GoesOn(ns, false, g, Clears(b), s, Works(false), u);
        s := s + u;
      }
    }
  }

  /** Any result, and an error met and lost, where it is not safe. */
  lemma {:induction false} Lose(n: Node, g: Stage, b: bool) returns (s: seq<Cue>)
    requires Filled(n, g.names) && !Safe(n, g.traits)
    ensures Plays(n, g, Loses(b), s)
    decreases n, 1
  {
    hide Plays, ListPlays;
    match n {
      case Group(AndKind, negated, args) =>
        s := LoseAll(args, g, b != negated);
        GroupPlays(n, g, Loses(b != negated), s);
      case Group(OrKind, negated, args) =>
        s := LoseInTurn(args, g, b != negated);
        GroupPlays(n, g, Loses(b != negated), s);
    }
  }

  lemma {:induction false} LoseFirst(ns: seq<Node>, all: bool, g: Stage, b: bool) returns (s: seq<Cue>)
    requires ns != [] && AllFilled(ns, g.names) && !Safe(ns[0], g.traits)
    ensures ListPlays(ns, all, g, Loses(b), s)
    decreases ns, 0
  {
    hide Plays, ListPlays;
    s := Lose(ns[0], g, b);
    if b != all {
      Stops(ns, all, g, Loses(b), s);
    } else {
      var u := WorkList(ns[1..], all, g, all);
      GoesOn(ns, all, g, Loses(b), s, Works(all), u);
      s := s + u;
    }
  }

  lemma {:induction false} LoseAll(ns: seq<Node>, g: Stage, b: bool) returns (s: seq<Cue>)
    requires AllFilled(ns, g.names) && !AllSafe(ns, g.traits)
    ensures ListPlays(ns, true, g, Loses(b), s)
    decreases ns, 1
  {
    hide Plays, ListPlays;
    if Safe(ns[0], g.traits) {
      s := Work(ns[0], g, true);
      var u := LoseAll(ns[1..], g, b);
      GoesOn(ns, true, g, Works(true), s, Loses(b), u);
      s := s + u;
    } else {
      s := LoseFirst(ns, true, g, b);
    }
  }

  lemma {:induction false} LoseInTurn(ns: seq<Node>, g: Stage, b: bool) returns (s: seq<Cue>)
    requires AllFilled(ns, g.names) && !SafeInTurn(ns, g.traits)
    ensures ListPlays(ns, false, g, Loses(b), s)
    decreases ns, 1
  {
    hide Plays, ListPlays;
    if !Safe(ns[0], g.traits) {
      s := LoseFirst(ns, false, g, b);
    } else if CanFail(ns[0], g.traits) && !AllQuiet(ns[1..], g.traits) {
      s := Fail(ns[0], g);
      var u := ClearList(ns[1..], g, b);
      GoesOn(ns, false, g, FAILS, s, Clears(b), u);
      s := s + u;
    } else {
      s := Work(ns[0], g, false);
      var u := LoseInTurn(ns[1..], g, b);
      GoesOn(ns, false, g, Works(false), s, Loses(b), u);
      s := s + u;
    }
  }

  // ---- the exact condition ----

  predicate NoEmptyGroup(n: Node) { n.Leaf? || (n.args != [] && NoneEmpty(n.args)) }

  predicate NoneEmpty(ns: seq<Node>) { ns == [] || (NoEmptyGroup(ns[0]) && NoneEmpty(ns[1..])) }

  lemma {:induction false} FilledWith(n: Node, names: set<string>)
    requires NoEmptyGroup(n) && forall p :: p in Leaves(n) ==> p.name in names
    ensures Filled(n, names)
    decreases n
  {
    if n.Group? { AllFilledWith(n.args, names); }
  }

  lemma {:induction false} AllFilledWith(ns: seq<Node>, names: set<string>)
    requires NoneEmpty(ns) && forall p :: p in AllLeaves(ns) ==> p.name in names
    ensures AllFilled(ns, names)
    decreases ns
  {
    if ns != [] {
      FilledWith(ns[0], names);
      AllFilledWith(ns[1..], names);
    }
  }

  /** Whatever callbacks with these traits do, an error met stays, exactly when the tree is safe.  The tree has no
      empty groups, or nothing in it. */
  lemma ErrorsStay(n: Node, t: Traits)
    requires NoEmptyGroup(n) || n.args == []
    ensures Safe(n, t) <==> forall cb :: AllBehave(cb, t, Leaves(n)) ==> ErrorStays(n, cb)
  {
    assert n.Group? && n.args == [] ==> Safe(n, t);
    if Safe(n, t) {
      forall cb | AllBehave(cb, t, Leaves(n)) ensures ErrorStays(n, cb) {
        if Judge(n, cb, 0).0 == Fault { SafeKeeps(n, cb, t, 0); }
      }
    } else {
      var names := set p | p in Leaves(n) :: p.name;
      var g := Stage(t, names);
      FilledWith(n, names);
      var s := Lose(n, g, true);
      var cb := Scripted(t, names, s);
      assert PlaysAt(n, g, Loses(true), [], s, []);
      assert [] + s + [] == s;
      ScriptedBehaves(t, Leaves(n), s);
      assert !ErrorStays(n, cb);
    }
  }

  // ---- what the builder builds ----

  lemma {:induction false} ShapedNotEmpty(n: Node)
    requires Shaped(n)
    ensures NoEmptyGroup(n)
    decreases n
  {
    if n.Group? { AllShapedNotEmpty(n.args); }
  }

  lemma {:induction false} AllShapedNotEmpty(ns: seq<Node>)
    requires AllShaped(ns)
    ensures NoneEmpty(ns)
    decreases ns
  {
    if ns != [] {
      ShapedNotEmpty(ns[0]);
      AllShapedNotEmpty(ns[1..]);
    }
  }

  /** In every query that is complete and whose groups can be counted, an error met stays exactly when its tree is
      safe. */
  lemma QueryErrorsStay(st: State, t: Traits)
    requires WellBuilt(st) && IsComplete(st) && OrGroups(st.frames) <= W32
    ensures var n := Tree(st.frames);
      Safe(n, t) <==> forall cb :: AllBehave(cb, t, Leaves(n)) ==> ErrorStays(n, cb)
  {
    CompleteIsClosed(st);
    var root := st.frames[0];
    assert Stacked(st.frames, 0);
    var args := root.args;
    if |st.frames| == 2 {
      assert Stacked(st.frames, 1);
      var f := Closed(st.frames[1]);
      args := root.args + [f];
      assert st.frames[..0] + [root.(args := args)] == [root.(args := args)];
      assert Shaped(f);
    }
    AllShapedNotEmpty(args);
    assert Tree(st.frames) == Group(OrKind, false, args);
    ErrorsStay(Tree(st.frames), t);
  }

  // ---- callbacks that leave errors alone ----

  /** None of these predicates' callbacks takes an error back. */
  ghost predicate KeepErrors(cb: Callbacks, ps: set<Predicate>) {
    forall what, calls, error :: what in ps && what.name in cb && error != NoError ==>
      cb[what.name](calls, what, error).1 != NoError
  }

  lemma {:induction false} QuietUncleared(n: Node, t: Traits)
    requires forall what :: what in Leaves(n) ==> !t.clears(what)
    ensures Quiet(n, t)
    decreases n
  {
    match n
    case Leaf(_, _) =>
    case Group(AndKind, _, args) =>
      if args != [] {
        assert Leaves(args[0]) <= AllLeaves(args);
        QuietUncleared(args[0], t);
      }
    case Group(OrKind, _, args) => AllQuietUncleared(args, t);
  }

  lemma {:induction false} AllQuietUncleared(ns: seq<Node>, t: Traits)
    requires forall what :: what in AllLeaves(ns) ==> !t.clears(what)
    ensures AllQuiet(ns, t)
    decreases ns
  {
    if ns != [] {
      QuietUncleared(ns[0], t);
      AllQuietUncleared(ns[1..], t);
    }
  }

  /** A tree in which no predicate can take an error back is safe, whichever can fail. */
  lemma {:induction false} SafeUncleared(n: Node, t: Traits)
    requires forall what :: what in Leaves(n) ==> !t.clears(what)
    ensures Safe(n, t)
    decreases n
  {
    if n.Group? { AllSafeUncleared(n.args, t); }
  }

  lemma {:induction false} AllSafeUncleared(ns: seq<Node>, t: Traits)
    requires forall what :: what in AllLeaves(ns) ==> !t.clears(what)
    ensures AllSafe(ns, t) && SafeInTurn(ns, t)
    decreases ns
  {
    if ns != [] {
      SafeUncleared(ns[0], t);
      AllSafeUncleared(ns[1..], t);
      AllQuietUncleared(ns[1..], t);
    }
  }

  /** With callbacks that leave errors alone any complete query, whichever predicates fail, is answered by its verdict:
      true exactly for yes, and an error recorded exactly for a fault. */
  lemma UnclearedAnswers(st: State, cb: Callbacks)
    requires Open(st) && IsComplete(st) && KeepErrors(cb, Leaves(Tree(st.frames)))
    ensures var verdict, answer := Judge(Tree(st.frames), cb, 0).0, EvaluateQuery(st, cb);
      (answer.0 <==> verdict == Yes) && (answer.1 != NoError <==> verdict == Fault)
  {
    var n, t := Tree(st.frames), Traits(_ => true, _ => false);
    SafeUncleared(n, t);
    if Judge(n, cb, 0).0 == Fault {
      assert AllBehave(cb, t, Leaves(n));
      SafeKeeps(n, cb, t, 0);
    } else {
      EvaluateJudges(n, cb, 0);
    }
  }

  // ---- a callback that takes errors back ----

  /** What a client's callback may do, as it is given the recorded error to assign: it records an error in its first
      calls, and in later ones that there is none. */
  function Recovering(calls: nat, broken: nat): (bool, Error) {
    if calls < broken then (false, EvaluationCallbackFailed) else (true, NoError)
  }

  function RecoveringCallbacks(names: set<string>, broken: nat): Callbacks {
    map name | name in names :: (calls, what, error) => Recovering(calls, broken)
  }

  /** a OR b, where the callback fails for a and recovers for b: the answer is true, and no error is left. */
  lemma ClientLosesError(a: Predicate, b: Predicate)
    requires a.name == b.name
    ensures var st, cb := Run(START, [TPred(false, a), TOr, TPred(false, b)]).0, RecoveringCallbacks({a.name}, 1);
      Judge(Tree(st.frames), cb, 0).0 == Fault && EvaluateQuery(st, cb) == (true, NoError)
  {
    EitherParses(a, b);
    var x, y, cb := Leaf(a, false), Leaf(b, false), RecoveringCallbacks({a.name}, 1);
    assert Recovering(0, 1) == (false, EvaluationCallbackFailed);
    assert a.name in cb && cb[a.name](0, a, NoError) == (false, EvaluationCallbackFailed);
    assert Evaluate(x, cb, NoError, 0) == Outcome(false, EvaluationCallbackFailed, 1);
    assert Evaluate(y, cb, EvaluationCallbackFailed, 1) == Outcome(true, NoError, 2);
    assert Call(a, cb, NoError, 0) == Outcome(false, EvaluationCallbackFailed, 1);
    assert Ask(a, cb, 0) == Fault && Judge(x, cb, 0).0 == Fault;
    assert First([x, y], cb, No, 0).0 == Fault && [x, y][1..] == [y];
    assert EvaluateSome([y], cb, EvaluationCallbackFailed, 1) == Outcome(true, NoError, 2);
    assert EvaluateSome([x, y], cb, NoError, 0) == Outcome(true, NoError, 2);
  }

  lemma EitherParses(a: Predicate, b: Predicate)
    ensures var st := Run(START, [TPred(false, a), TOr, TPred(false, b)]).0;
      IsComplete(st) && Tree(st.frames) == Group(OrKind, false, [Leaf(a, false), Leaf(b, false)])
  {
    hide AppendElement, AppendAndOperator, AppendOrOperator, Run;
    var x, y := Leaf(a, false), Leaf(b, false);
    var s1, s2 := OneFactor([], false, [], x, 0), TermStart([], false, [x], 0, true);
    var s3 := OneFactor([], false, [x], y, 0);
    assert [] + [Frame(OrKind, false, [])] == [Frame(OrKind, false, [])] && [] + [x] == [x] && [x] + [y] == [x, y];
    FirstPredicate([], false, [], 0, false, x, START);
    OrEndsTerm([], false, [], [x], 0, s1);
    FirstPredicate([], false, [x], 0, true, y, s2);
    RunOne(START, TPred(false, a), [TOr, TPred(false, b)]);
    RunOne(s1, TOr, [TPred(false, b)]);
    RunOne(s2, TPred(false, b), []);
    assert [TPred(false, a)] + [TOr, TPred(false, b)] == [TPred(false, a), TOr, TPred(false, b)];
    assert [TOr] + [TPred(false, b)] == [TOr, TPred(false, b)];
    assert [TPred(false, b)] + [] == [TPred(false, b)];
    assert s3.frames == [Frame(OrKind, false, [x, y])];
  }
}
