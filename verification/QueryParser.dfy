/** The builder understands the grammar. */
module QueryParser {
  import opened Values
  import opened QueryModel
  import opened QueryGrammar

  /** An OR group with elements ors is on top of base; c groups are open.  The next word starts a term. */
  ghost function TermStart(base: seq<Frame>, neg: bool, ors: seq<Node>, c: nat, active: bool): State {
    State(base + [Frame(OrKind, neg, ors)], c % W32, active, NoError)
  }

  /** A term of one factor: its node is the last element of the OR group. */
  ghost function OneFactor(base: seq<Frame>, neg: bool, ors: seq<Node>, n: Node, c: nat): State {
    TermStart(base, neg, ors + [n], c, false)
  }

  /** A term of several factors: they are the elements of an implicit AND group on top. */
  ghost function Factors(base: seq<Frame>, neg: bool, ors: seq<Node>, ands: seq<Node>, c: nat): State {
    State(base + [Frame(OrKind, neg, ors), Frame(AndKind, false, ands)], c % W32, false, NoError)
  }

  ghost predicate InTerm(st: State, base: seq<Frame>, neg: bool, ors: seq<Node>, ands: seq<Node>, c: nat) {
    || (|ands| == 1 && st == OneFactor(base, neg, ors, ands[0], c))
    || (|ands| >= 1 && st == Factors(base, neg, ors, ands, c))
  }

  /** The frames of base with one more element in the last. */
  ghost function Within(base: seq<Frame>, n: Node): (r: seq<Frame>)
    requires |base| > 0
    ensures |r| == |base|
  {
    var f := base[|base| - 1];
    base[..|base| - 1] + [f.(args := f.args + [n])]
  }

  /** The state when the group on top of base is closed as node n: a new AND group gives way to it. */
  ghost function AfterClose(base: seq<Frame>, n: Node, c: nat): State
    requires |base| > 0
  {
    var f := base[|base| - 1];
    if f.kind == AndKind && f.args == [] && |base| > 1 then
      State(Within(base[..|base| - 1], if f.negated then Toggled(n) else n), c % W32, false, NoError)
    else State(Within(base, n), c % W32, false, NoError)
  }

  lemma ToggledHolds(n: Node, v: Predicate -> bool)
    ensures Holds(Toggled(n), v) <==> !Holds(n, v)
  {
  }

  lemma SomeHoldsAppend(ns: seq<Node>, n: Node, v: Predicate -> bool)
    ensures SomeHolds(ns + [n], v) <==> SomeHolds(ns, v) || Holds(n, v)
  {
    var ms := ns + [n];
    if SomeHolds(ns, v) {
      var i :| 0 <= i < |ns| && Holds(ns[i], v);
      assert Holds(ms[i], v);
    }
    if Holds(n, v) { assert Holds(ms[|ns|], v); }
  }

  lemma AllHoldAppend(ns: seq<Node>, n: Node, v: Predicate -> bool)
    ensures AllHold(ns + [n], v) <==> AllHold(ns, v) && Holds(n, v)
  {
    var ms := ns + [n];
    assert forall i :: 0 <= i < |ns| ==> ms[i] == ns[i];
    assert ms[|ns|] == n;
  }

  /** The node an AND group closes as. */
  ghost function AndNode(ands: seq<Node>): Node { Group(AndKind, false, ands) }

  /** The node a group closes as: its only element, with the group's negation, or the group itself. */
  ghost function OrNode(neg: bool, ors: seq<Node>): Node {
    if |ors| == 1 then (if neg then Toggled(ors[0]) else ors[0]) else Group(OrKind, neg, ors)
  }

  lemma OrNodeHolds(neg: bool, ors: seq<Node>, v: Predicate -> bool)
    requires ors != []
    ensures Holds(OrNode(neg, ors), v) <==> neg != SomeHolds(ors, v)
  {
    if |ors| == 1 {
      ToggledHolds(ors[0], v);
      assert ors == [] + [ors[0]];
      SomeHoldsAppend([], ors[0], v);
    }
  }

  /** What a group leaves where it was when it is popped and coalesced. */
  ghost function GroupNode(f: Frame): Node {
    if |f.args| == 1 then (if f.negated then Toggled(f.args[0]) else f.args[0]) else Closed(f)
  }

  lemma CoalesceIs(base: seq<Frame>, f: Frame, st: State)
    requires |base| > 0 && st.frames == base + [f]
    ensures PopGroupAndCoalesce(st, false) == (st.(frames := Within(base, GroupNode(f))), true)
  {
    assert Below(st) == base && Top(st) == f;
    var g := base[|base| - 1];
    assert (g.args + [Closed(f)])[..|g.args|] == g.args;
    var s := PopGroup(st).0;
    assert s.frames == Within(base, Closed(f));
    assert Below(s) == base[..|base| - 1];
  }

  /** Closing the OR group on top. */
  lemma CloseOr(base: seq<Frame>, neg: bool, ors: seq<Node>, c: nat, st: State)
    requires |base| > 0 && base[0].kind == OrKind && ors != [] && st == TermStart(base, neg, ors, c, false)
    requires c > 0 && c % W32 != 0
    ensures EndGroup(st) == (AfterClose(base, OrNode(neg, ors), c - 1), true)
  {
    hide PopGroup, PopGroupAndCoalesce;
    CoalesceIs(base, Frame(OrKind, neg, ors), st);
    var s := PopGroupAndCoalesce(st, false).0;
    var s2 := State(Within(base, OrNode(neg, ors)), (c - 1) % W32, false, NoError);
    assert s2 == s.(nesting := (s.nesting - 1) % W32);
    assert EndGroup(st) == EndOrGroup(st);
    ImplicitClose(base, OrNode(neg, ors), c - 1, s2);
  }

  /** The AND group on top gives way to its only element, if there is just one. */
  lemma ImplicitClose(base: seq<Frame>, n: Node, c: nat, st: State)
    requires |base| > 0 && base[0].kind == OrKind && st == State(Within(base, n), c % W32, false, NoError)
    ensures Top(st).kind == AndKind ==> PopGroupAndCoalesce(st, true) == (AfterClose(base, n, c), true)
    ensures Top(st).kind != AndKind ==> st == AfterClose(base, n, c)
  {
    if Top(st).kind == AndKind && |Top(st).args| == 1 {
      var f := Top(st);
      assert f.args == [n];
      var below := base[..|base| - 1];
      CoalesceIs(below, f, st);
      assert PopGroupAndCoalesce(st, true) == PopGroupAndCoalesce(st, false);
    }
  }

  /** The element that a term leaves in its OR group. */
  ghost function TermNode(st: State, ands: seq<Node>): Node
    requires Open(st) && |ands| >= 1
  {
    if Top(st).kind == AndKind then AndNode(ands) else ands[0]
  }

  lemma TermNodeHolds(st: State, base: seq<Frame>, neg: bool, ors: seq<Node>, ands: seq<Node>, c: nat,
                      v: Predicate -> bool)
    requires InTerm(st, base, neg, ors, ands, c)
    ensures Holds(TermNode(st, ands), v) <==> AllHold(ands, v)
  {
    if Top(st).kind == OrKind {
      assert ands == [] + [ands[0]];
      AllHoldAppend([], ands[0], v);
    }
  }

  /** Closing a group at the end of a term. */
  lemma CloseTerm(base: seq<Frame>, neg: bool, ors: seq<Node>, ands: seq<Node>, c: nat, st: State)
    requires |base| > 0 && base[0].kind == OrKind && InTerm(st, base, neg, ors, ands, c)
    requires c > 0 && c % W32 != 0
    ensures EndGroup(st) == (AfterClose(base, OrNode(neg, ors + [TermNode(st, ands)]), c - 1), true)
  {
    var ors' := ors + [TermNode(st, ands)];
    var st' := TermStart(base, neg, ors', c, false);
    if Top(st).kind == AndKind {
      var s := st.(frames := Below(st));
      assert Below(st) == base + [Frame(OrKind, neg, ors)];
      assert Below(s) == base;
      assert PopGroup(st) == (st', true);
      EndGroupAfterPop(st, st');
    } else {
      assert st == st';
    }
    CloseOr(base, neg, ors', c, st');
  }

  lemma EndGroupAfterPop(st: State, st': State)
    requires Open(st) && Open(st') && !IsComplete(st) && !IsComplete(st')
    requires Top(st).kind == AndKind && Top(st).args != [] && Top(st').kind == OrKind && Top(st').args != []
    requires PopGroup(st) == (st', true)
    ensures EndGroup(st) == EndGroup(st')
  {
  }

  /** A group cannot be closed when the count of open groups has wrapped round to 0. */
  lemma CloseWrapped(base: seq<Frame>, neg: bool, ors: seq<Node>, ands: seq<Node>, c: nat, st: State)
    requires InTerm(st, base, neg, ors, ands, c) && c % W32 == 0
    ensures !EndGroup(st).1
  {
  }

  // ---- one token ----

  lemma OrEndsTerm(base: seq<Frame>, neg: bool, ors: seq<Node>, ands: seq<Node>, c: nat, st: State)
    requires InTerm(st, base, neg, ors, ands, c)
    ensures Step(st, TOr) == (TermStart(base, neg, ors + [TermNode(st, ands)], c, true), true)
  {
    if Top(st).kind == AndKind {
      var s := st.(frames := Below(st), active := true);
      assert Below(st) == base + [Frame(OrKind, neg, ors)];
      assert Below(s) == base;
    } else {
      assert st.frames == base + [Frame(OrKind, neg, ors + [ands[0]])];
    }
  }

  lemma FirstPredicate(base: seq<Frame>, neg: bool, ors: seq<Node>, c: nat, active: bool, n: Node, st: State)
    requires st == TermStart(base, neg, ors, c, active) && (ors == [] || active)
    ensures AppendElement(st, n) == (OneFactor(base, neg, ors, n, c), true)
  {
    assert Below(st) == base;
  }

  lemma AppendToOpen(st: State, e: Node)
    requires Open(st) && (st.active || Top(st).args == [])
    ensures AppendElement(st, e) == (WithTop(st, Top(st).(args := Top(st).args + [e])).(active := false), true)
  {
  }

  /** A new AND group takes over the last element of the OR group it opens in. */
  lemma PushAndYanks(base: seq<Frame>, neg: bool, ors: seq<Node>, n: Node, nesting: int, active: bool)
    ensures PushGroup(State(base + [Frame(OrKind, neg, ors + [n])], nesting, active, NoError), AndKind, false)
      == State(base + [Frame(OrKind, neg, ors), Frame(AndKind, false, [n])], nesting, false, NoError)
  {
    var st := State(base + [Frame(OrKind, neg, ors + [n])], nesting, active, NoError);
    var s1 := State(base + [Frame(OrKind, neg, ors)], nesting, active, NoError);
    assert Below(st) == base && Top(st).args == ors + [n] && (ors + [n])[..|ors|] == ors;
    assert WithTop(st, Top(st).(args := ors)) == s1;
    var s2 := s1.(frames := s1.frames + [Frame(AndKind, false, [])]);
    assert PushGroup(st, AndKind, false) == AppendElement(s2, n).0;
    hide AppendElement;
    AppendToOpen(s2, n);
    assert Below(s2) == s1.frames && [] + [n] == [n];
    assert s1.frames + [Frame(AndKind, false, [n])] == base + [Frame(OrKind, neg, ors), Frame(AndKind, false, [n])];
  }

  /** AND, written or not, opens the implicit group unless it is open. */
  lemma AndOpens(base: seq<Frame>, neg: bool, ors: seq<Node>, ands: seq<Node>, c: nat, st: State)
    requires InTerm(st, base, neg, ors, ands, c)
    ensures var s := AppendAndOperator(st).0;
      AppendAndOperator(st).1 && s == Factors(base, neg, ors, ands, c).(active := Top(st).kind == AndKind)
  {
    if Top(st).kind == OrKind {
      PushAndYanks(base, neg, ors, ands[0], c % W32, true);
      assert ands == [ands[0]];
    }
  }

  /** A predicate in a term joins its AND group, whether AND is written or not. */
  lemma NextPredicate(base: seq<Frame>, neg: bool, ors: seq<Node>, ands: seq<Node>, c: nat, st: State, n: Node)
    requires InTerm(st, base, neg, ors, ands, c)
    ensures AppendElement(st, n) == (Factors(base, neg, ors, ands + [n], c), true)
    ensures AppendElement(AppendAndOperator(st).0, n) == (Factors(base, neg, ors, ands + [n], c), true)
  {
    AndOpens(base, neg, ors, ands, c, st);
    var s := AppendAndOperator(st).0;
    var two := base + [Frame(OrKind, neg, ors)];
    assert s.frames == two + [Frame(AndKind, false, ands)] && Below(s) == two;
    assert Factors(base, neg, ors, ands + [n], c).frames == two + [Frame(AndKind, false, ands + [n])];
    if !s.active {
      var st' := Factors(base, neg, ors, ands, c);
      assert s == st' && InTerm(s, base, neg, ors, ands, c);
      AndOpens(base, neg, ors, ands, c, s);
      var s' := AppendAndOperator(s).0;
      assert Below(s') == two;
    }
  }

  /** The frames below a group opened in a term. */
  ghost function InnerBase(base: seq<Frame>, neg: bool, ors: seq<Node>, ands: seq<Node>, implicit: bool)
    : (b: seq<Frame>)
  {
    base + if implicit then [Frame(OrKind, neg, ors), Frame(AndKind, false, ands)] else [Frame(OrKind, neg, ors)]
  }

  lemma PushOr(frames: seq<Frame>, neg: bool, c: nat, active: bool)
    requires frames != []
    ensures PushGroup(State(frames, c % W32, active, NoError), OrKind, neg) == TermStart(frames, neg, [], c + 1, active)
  {
  }

  /** A parenthesis that starts a term. */
  lemma OpenFirst(base: seq<Frame>, neg: bool, ors: seq<Node>, c: nat, active: bool, neg': bool, st: State)
    requires st == TermStart(base, neg, ors, c, active) && (ors == [] || active)
    ensures Step(st, TOpen(neg')) == (TermStart(InnerBase(base, neg, ors, [], !active), neg', [], c + 1, active), true)
  {
    if !active {
      var s := PushGroup(st, AndKind, false);
      assert s == State(InnerBase(base, neg, ors, [], true), c % W32, false, NoError);
      PushOr(s.frames, neg', c, false);
    } else {
      PushOr(st.frames, neg', c, true);
    }
  }

  /** A parenthesis later in a term, whether AND is written or not. */
  lemma OpenNext(base: seq<Frame>, neg: bool, ors: seq<Node>, ands: seq<Node>, c: nat, neg': bool, st: State)
    requires InTerm(st, base, neg, ors, ands, c)
    ensures var inner := InnerBase(base, neg, ors, ands, true);
      && Step(st, TOpen(neg')) == (TermStart(inner, neg', [], c + 1, false), true)
      && Step(AppendAndOperator(st).0, TOpen(neg'))
        == (TermStart(inner, neg', [], c + 1, Top(st).kind == AndKind), true)
  {
    var inner := InnerBase(base, neg, ors, ands, true);
    AndOpens(base, neg, ors, ands, c, st);
    PushOr(inner, neg', c, false);
    PushOr(inner, neg', c, true);
    if Top(st).kind == OrKind {
      PushAndYanks(base, neg, ors, ands[0], c % W32, false);
      assert ands == [ands[0]];
    }
  }

  /** A group closed is the last element where it was opened. */
  lemma ClosedWhereOpened(base: seq<Frame>, neg: bool, ors: seq<Node>, ands: seq<Node>, implicit: bool, n: Node, c: nat)
    requires ands != [] ==> implicit
    ensures AfterClose(InnerBase(base, neg, ors, ands, implicit), n, c) ==
      if ands == [] then OneFactor(base, neg, ors, n, c) else Factors(base, neg, ors, ands + [n], c)
  {
    var b := InnerBase(base, neg, ors, ands, implicit);
    if implicit {
      assert b[..|b| - 1] == base + [Frame(OrKind, neg, ors)];
      assert (base + [Frame(OrKind, neg, ors)])[..|base|] == base;
    } else {
      assert b[..|b| - 1] == base;
    }
  }

  // ---- sequences of tokens ----

  ghost predicate Grounded(base: seq<Frame>) { base == [] || base[0].kind == OrKind }

  /** Succeeding exactly when the groups stay countable. */
  ghost predicate Counts(ok: bool, c: nat, depth: nat) { c < W32 ==> (ok <==> c + depth < W32) }

  lemma RunOne(st: State, t: Token, ts: seq<Token>)
    requires Open(st)
    ensures Run(st, [t] + ts) == if Step(st, t).1 then Run(Step(st, t).0, ts) else (Step(st, t).0, false)
    ensures Run(st, [t]) == Step(st, t)
  {
    assert ([t] + ts)[1..] == ts;
    assert [t][1..] == [];
  }

  lemma {:induction false} RunExpr(e: Expr, base: seq<Frame>, neg: bool, c: nat, active: bool, st: State,
                                   v: Predicate -> bool)
    returns (ors: seq<Node>, ands: seq<Node>)
    requires Grounded(base) && st == TermStart(base, neg, [], c, active)
    ensures var (s, ok) := Run(st, ExprTokens(e));
      && Counts(ok, c, ExprDepth(e))
      && (ok ==> InTerm(s, base, neg, ors, ands, c) && (SomeHolds(ors, v) || AllHold(ands, v) <==> ExprHolds(e, v)))
      && (ok ==> (Top(s).kind == OrKind <==> LastTerm(e).Single?))
    decreases e, 0
  {
    hide Run, AppendElement, AppendAndOperator, AppendOrOperator, StartGroup, PushGroup, EndGroup, Holds, TermTokens,
      TermHolds;
    match e
    case One(t) =>
      ors := [];
      ands := RunTerm(t, base, neg, [], c, active, st, v);
    case Or(e', t) =>
      var ors', ands' := RunExpr(e', base, neg, c, active, st, v);
      ors, ands := ors', ands';
      var (s, ok) := Run(st, ExprTokens(e'));
      RunAppend(st, ExprTokens(e') + [TOr], TermTokens(t));
      RunAppend(st, ExprTokens(e'), [TOr]);
      if ok {
        OrEndsTerm(base, neg, ors', ands', c, s);
        TermNodeHolds(s, base, neg, ors', ands', c, v);
        SomeHoldsAppend(ors', TermNode(s, ands'), v);
        RunOne(s, TOr, []);
        ors := ors' + [TermNode(s, ands')];
        ands := RunTerm(t, base, neg, ors, c, true, Step(s, TOr).0, v);
      }
  }

  lemma {:induction false} RunTerm(t: Term, base: seq<Frame>, neg: bool, ors: seq<Node>, c: nat, active: bool,
                                   st: State, v: Predicate -> bool)
    returns (ands: seq<Node>)
    requires Grounded(base) && st == TermStart(base, neg, ors, c, active) && (ors == [] || active)
    ensures var (s, ok) := Run(st, TermTokens(t));
      && Counts(ok, c, TermDepth(t))
      && (ok ==> InTerm(s, base, neg, ors, ands, c) && (AllHold(ands, v) <==> TermHolds(t, v)))
      && (ok ==> (Top(s).kind == OrKind <==> t.Single?))
    decreases t
  {
    hide Run, AppendElement, AppendAndOperator, AppendOrOperator, StartGroup, PushGroup, EndGroup, Holds,
      FactorTokens, FactorHolds;
    match t
    case Single(f) =>
      var n := RunFirst(f, base, neg, ors, c, active, st, v);
      ands := [n];
      AllHoldAppend([], n, v);
      assert [] + [n] == [n];
    case And(t', written, f) =>
      var ands' := RunTerm(t', base, neg, ors, c, active, st, v);
      ands := ands';
      var (s, ok) := Run(st, TermTokens(t'));
      var op := if written then [TAnd] else [];
      assert TermTokens(t) == TermTokens(t') + (op + FactorTokens(f));
      RunAppend(st, TermTokens(t'), op + FactorTokens(f));
      if ok {
        var n := RunNext(f, written, base, neg, ors, ands', c, s, v);
        ands := ands' + [n];
        AllHoldAppend(ands', n, v);
      }
  }

  /** The first factor of a term. */
  lemma {:induction false} RunFirst(f: Factor, base: seq<Frame>, neg: bool, ors: seq<Node>, c: nat, active: bool,
                                    st: State, v: Predicate -> bool)
    returns (n: Node)
    requires Grounded(base) && st == TermStart(base, neg, ors, c, active) && (ors == [] || active)
    ensures var (s, ok) := Run(st, FactorTokens(f));
      && Counts(ok, c, FactorDepth(f))
      && (ok ==> s == OneFactor(base, neg, ors, n, c) && (Holds(n, v) <==> FactorHolds(f, v)))
    decreases f
  {
    hide Run, AppendElement, AppendAndOperator, AppendOrOperator, StartGroup, PushGroup, EndGroup, ExprTokens,
      ExprHolds, AfterClose;
    match f
    case Pred(negated, what) =>
      n := Leaf(what, negated);
      FirstPredicate(base, neg, ors, c, active, n, st);
      RunOne(st, TPred(negated, what), []);
    case Parens(negated, e) =>
      OpenFirst(base, neg, ors, c, active, negated, st);
      n := RunParens(e, negated, InnerBase(base, neg, ors, [], !active), c, active, st, v);
      ClosedWhereOpened(base, neg, ors, [], !active, n, c);
  }

  /** A later factor of a term, with the AND before it if it is written. */
  lemma {:induction false} RunNext(f: Factor, written: bool, base: seq<Frame>, neg: bool, ors: seq<Node>,
                                   ands: seq<Node>, c: nat, st: State, v: Predicate -> bool)
    returns (n: Node)
    requires Grounded(base) && InTerm(st, base, neg, ors, ands, c)
    ensures var (s, ok) := Run(st, (if written then [TAnd] else []) + FactorTokens(f));
      && Counts(ok, c, FactorDepth(f))
      && (ok ==> s == Factors(base, neg, ors, ands + [n], c) && (Holds(n, v) <==> FactorHolds(f, v)))
    decreases f
  {
    hide Run, AppendElement, AppendAndOperator, AppendOrOperator, StartGroup, PushGroup, EndGroup, ExprTokens,
      ExprHolds, AfterClose;
    AndOpens(base, neg, ors, ands, c, st);
    var s := if written then Step(st, TAnd).0 else st;
    RunOne(st, TAnd, FactorTokens(f));
    assert [] + FactorTokens(f) == FactorTokens(f);
    assert Run(st, (if written then [TAnd] else []) + FactorTokens(f)) == Run(s, FactorTokens(f));
    match f
    case Pred(negated, what) =>
      n := Leaf(what, negated);
      NextPredicate(base, neg, ors, ands, c, st, n);
      RunOne(s, TPred(negated, what), []);
    case Parens(negated, e) =>
      var inner := InnerBase(base, neg, ors, ands, true);
      OpenNext(base, neg, ors, ands, c, negated, st);
      n := RunParens(e, negated, inner, c, written && Top(st).kind == AndKind, s, v);
      ClosedWhereOpened(base, neg, ors, ands, true, n, c);
  }

  /** A group in parentheses, opened above b. */
  lemma {:induction false} RunParens(e: Expr, neg: bool, b: seq<Frame>, c: nat, active: bool, st: State,
                                     v: Predicate -> bool)
    returns (n: Node)
    requires Open(st) && |b| > 0 && Grounded(b) && Step(st, TOpen(neg)) == (TermStart(b, neg, [], c + 1, active), true)
    ensures var (s, ok) := Run(st, [TOpen(neg)] + ExprTokens(e) + [TClose]);
      && Counts(ok, c, 1 + ExprDepth(e))
      && (ok ==> s == AfterClose(b, n, c) && (Holds(n, v) <==> neg != ExprHolds(e, v)))
    decreases e, 1
  {
    hide Run, AppendElement, AppendAndOperator, AppendOrOperator, StartGroup, PushGroup, EndGroup, ExprTokens, Holds,
      ExprHolds;
    var st1 := TermStart(b, neg, [], c + 1, active);
    var ors, ands := RunExpr(e, b, neg, c + 1, active, st1, v);
    var (s, ok) := Run(st1, ExprTokens(e));
    RunAppend(st, [TOpen(neg)] + ExprTokens(e), [TClose]);
    RunOne(st, TOpen(neg), ExprTokens(e));
    n := Leaf(Predicate("", []), false);
    if ok {
      RunOne(s, TClose, []);
      if (c + 1) % W32 == 0 {
        CloseWrapped(b, neg, ors, ands, c + 1, s);
      } else {
        CloseTerm(b, neg, ors, ands, c + 1, s);
        var ors' := ors + [TermNode(s, ands)];
        n := OrNode(neg, ors');
        TermNodeHolds(s, b, neg, ors, ands, c + 1, v);
        SomeHoldsAppend(ors, TermNode(s, ands), v);
        OrNodeHolds(neg, ors', v);
      }
    }
  }

  /** The tree below the root, with the groups still open. */
  function Tree(frames: seq<Frame>): Node
    requires frames != []
    decreases |frames|
  {
    var last := |frames| - 1;
    if last == 0 then Closed(frames[0])
    else
      var f := frames[last - 1];
      Tree(frames[..last - 1] + [f.(args := f.args + [Closed(frames[last])])])
  }

  lemma RootTree(ors: seq<Node>, ands: seq<Node>, st: State)
    requires InTerm(st, [], false, ors, ands, 0)
    ensures Tree(st.frames) == Group(OrKind, false, ors + [TermNode(st, ands)])
  {
    var f := Frame(OrKind, false, ors + [TermNode(st, ands)]);
    assert [] + [f] == [f];
    if Top(st).kind == AndKind {
      assert st.frames[..0] + [f] == [f];
    }
  }

  /** A query of the grammar is accepted as long as its groups can be counted; it is then complete, and its
      tree means what the query means. */
  lemma ParsesGrammar(e: Expr, v: Predicate -> bool)
    ensures Run(START, ExprTokens(e)).1 <==> ExprDepth(e) < W32
    ensures Run(START, ExprTokens(e)).1 ==>
      var s := Run(START, ExprTokens(e)).0;
      IsComplete(s) && (Holds(Tree(s.frames), v) <==> ExprHolds(e, v))
  {
    hide Run, ExprTokens, Tree;
    assert [] + [Frame(OrKind, false, [])] == [Frame(OrKind, false, [])];
    var ors, ands := RunExpr(e, [], false, 0, false, START, v);
    var (s, ok) := Run(START, ExprTokens(e));
    if ok {
      TermNodeHolds(s, [], false, ors, ands, 0, v);
      SomeHoldsAppend(ors, TermNode(s, ands), v);
      RootTree(ors, ands, s);
    }
  }

  /** AND after a query that is accepted is accepted.  What is left is complete, and a further AND accepted too, exactly
      when the last term is a single factor: taking it into the implicit group counts as appending it. */
  lemma TrailingAnd(e: Expr)
    requires Run(START, ExprTokens(e)).1
    ensures var (s, ok) := Run(START, ExprTokens(e) + [TAnd]);
      ok && (IsComplete(s) <==> LastTerm(e).Single?) && (AppendAndOperator(s).1 <==> LastTerm(e).Single?)
  {
    hide Run, ExprTokens, PushGroup, StartGroup;
    assert [] + [Frame(OrKind, false, [])] == [Frame(OrKind, false, [])];
    var s := Run(START, ExprTokens(e)).0;
    var ors, ands := RunExpr(e, [], false, 0, false, START, _ => true);
    RunAppend(START, ExprTokens(e), [TAnd]);
    RunOne(s, TAnd, []);
    AndOpens([], false, ors, ands, 0, s);
  }
}
