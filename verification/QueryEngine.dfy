/** The query engine: the builder as it works on the elements themselves. */
module QueryEngine {
  import opened Values
  import opened QueryModel
  import opened QueryHeap
  import opened QueryWords
  import opened QueryEvaluation
  import opened QueryParser

  /** An AND group on top that is about to get the last element of the group below. */
  function YankedState(st: State, negated: bool): (r: State)
    requires Open(st) && Top(st).args != []
    ensures Open(r)
  {
    var args := Top(st).args;
    st.(frames := WithTopFrame(st.frames, Top(st).(args := args[..|args| - 1])) + [Frame(AndKind, negated, [])])
  }

  lemma CoalesceBy(st: State, only: bool)
    requires Open(st)
    ensures var can := |Top(st).args| == 1 && |st.frames| > 1;
      var (s, ok) := QueryModel.PopGroup(st);
      && (can ==> ok && Top(s).args != [])
      && QueryModel.PopGroupAndCoalesce(st, only) ==
        if only && !can then (st, true)
        else if !can then (s, ok)
        else
          var f := WithoutLast(Top(s));
          (s.(frames := WithTopFrame(s.frames, f.(args := f.args + [Survivor(Closed(Top(st)))]))), true)
  {
  }

  function Appended(st: State, e: Node): (r: State)
    requires Open(st)
    ensures Open(r)
  {
    State(WithTopFrame(st.frames, Top(st).(args := Top(st).args + [e])), st.nesting, false, st.error)
  }

  lemma AppendIs(st: State, e: Node)
    requires Open(st)
    ensures st.active || Top(st).args == [] ==> QueryModel.AppendElement(st, e) == (Appended(st, e), true)
    ensures !st.active && Top(st).args != [] ==>
      var (s, ok) := QueryModel.AppendAndOperator(st);
      QueryModel.AppendElement(st, e) == if ok then (Appended(s, e), true) else (s, false)
  {
    hide QueryModel.AppendAndOperator, QueryModel.StartGroup, QueryModel.PushGroup;
  }

  lemma PushAndIs(st: State, negated: bool)
    requires Open(st) && Top(st).args != []
    ensures var args := Top(st).args;
      QueryModel.PushGroup(st, AndKind, negated)
        == QueryModel.AppendElement(YankedState(st, negated), args[|args| - 1]).0
  {
  }

  lemma PushEmptyIs(st: State, kind: Kind, negated: bool)
    requires Open(st) && (kind == OrKind || Top(st).args == [])
    ensures QueryModel.PushGroup(st, kind, negated) == st.(
      frames := st.frames + [Frame(kind, negated, [])],
      nesting := if kind == OrKind then (st.nesting + 1) % W32 else st.nesting)
  {
  }

  class Query {
    var queryRoot: Element
    var queryStack: seq<Element>
    var queryStackTop: Element
    var nestingLevel: uint32
    var logicOpActive: bool
    var lastError: Error
    ghost var shape: Shape

    ghost predicate Valid()
      reads this, shape.heap.Keys
    {
      && Formed(shape) && queryStack == shape.stack
      && queryRoot == queryStack[0] && queryStackTop == TopOf(shape)
      && forall e :: e in shape.heap ==> shape.heap[e] == e.Contents()
    }

    ghost function Abs(): State
      reads this
    {
      State(shape.frames, nestingLevel as int, logicOpActive, lastError)
    }

    /** The elements this query holds. */
    ghost function Owned(): set<Element>
      reads this
    {
      shape.heap.Keys
    }

    constructor ()
      ensures Valid() && Abs() == START && fresh(Owned())
    {
      var root := new Element(GroupOf(OrKind), false);
      queryRoot, queryStackTop := root, root;
      queryStack := [root];
      nestingLevel, logicOpActive, lastError := 0, false, NoError;
      shape := Shape(map[root := root.Contents()], [root], [Frame(OrKind, false, [])], map[]);
      new;
      assert OpenAt(shape, 0);
    }

    method IsComplete() returns (complete: bool)
      ensures complete == QueryModel.IsComplete(Abs())
    {
      complete := nestingLevel == 0 && !logicOpActive && lastError == NoError;
    }

    method StackTopIs(kind: Kind) returns (yes: bool)
      requires Valid()
      ensures yes <==> Top(Abs()).kind == kind
    {
      assert OpenAt(shape, |shape.stack| - 1);
      yes := queryStackTop.verb == GroupOf(kind);
    }

    method StackTopHasCount(n: int) returns (yes: bool)
      requires Valid()
      ensures yes <==> |Top(Abs()).args| == n
    {
      assert OpenAt(shape, |shape.stack| - 1);
      yes := |queryStackTop.elements| == n;
    }

    /** Appends an element that is not in the query to the group on top. */
    method Attach(y: Element, ghost n: Node)
      requires Valid() && y !in Owned() && StandsFor(shape.closed, y, y.Contents(), n)
      modifies queryStackTop, this`shape
      ensures Valid() && shape == old(Attached(shape, y, y.Contents(), n)) && Owned() == old(Owned()) + {y}
    {
      hide Formed, StandsFor, OpenAt;
      FormedIs(shape);
      AttachKeeps(shape, y, y.Contents(), n);
      queryStackTop.elements := queryStackTop.elements + [y];
      shape := Attached(shape, y, y.Contents(), n);
    }

    /** Takes the last element out of the group on top. */
    method YankElement() returns (y: Element)
      requires Valid() && Top(Abs()).args != []
      modifies queryStackTop, this`shape
      ensures Valid() && y in old(Owned()) && Owned() == old(Owned()) - {y}
      ensures shape == old(Yanked(shape, y)) && old(queryStackTop.elements) == queryStackTop.elements + [y]
      ensures var args := old(Top(Abs()).args); StandsFor(shape.closed, y, y.Contents(), args[|args| - 1])
    {
      hide Formed, StandsFor, OpenAt;
      FormedIs(shape);
      YankIs(shape);
      var n := |queryStackTop.elements|;
      y := queryStackTop.elements[n - 1];
      YankKeeps(shape, y);
      queryStackTop.elements := queryStackTop.elements[..n - 1];
      shape := Yanked(shape, y);
    }

    /** Makes a new group the last element of the group on top, and the group on top. */
    method Stack(g: Element, ghost f: Frame)
      requires Valid() && g !in Owned() && f.args == [] && g.Contents() == Cell(GroupOf(f.kind), [], f.negated)
      modifies this`queryStack, this`queryStackTop, this`shape, queryStackTop
      ensures Valid() && shape == old(Pushed(shape, g, f)) && Owned() == old(Owned()) + {g} && queryStackTop == g
    {
      hide Formed, StandsFor, OpenAt;
      FormedIs(shape);
      PushKeeps(shape, g, f);
      queryStackTop.elements := queryStackTop.elements + [g];
      queryStack := queryStack + [g];
      queryStackTop := g;
      shape := Pushed(shape, g, f);
    }

    /** QEQueryAppendElement. */
    method AppendElement(e: Element, ghost n: Node) returns (ok: bool)
      requires Valid() && e !in Owned() && StandsFor(shape.closed, e, e.Contents(), n)
      requires n.Leaf? || logicOpActive || Top(Abs()).args == []
      modifies this, queryStackTop
      ensures Valid() && QueryModel.AppendElement(old(Abs()), n) == (Abs(), ok)
      ensures fresh(Owned() - old(Owned()) - {e})
      ensures queryStackTop == old(queryStackTop) || fresh(queryStackTop)
      ensures old(logicOpActive || Top(Abs()).args == []) ==> queryStackTop == old(queryStackTop)
      decreases if !logicOpActive && Top(Abs()).args != [] then 5 else 0, 1
    {
      hide Formed, OpenAt, StandsFor, Appended, QueryModel.AppendElement, QueryModel.AppendAndOperator;
      FormedIs(shape);
      AppendIs(Abs(), n);
      LeafStandsFor(shape.closed, e, n);
      ok := ImplicitAnd();
      if ok {
        LeafStandsFor(shape.closed, e, n);
        Put(e, n);
      }
    }

    /** The element follows the operator, if any. */
    method Put(e: Element, ghost n: Node)
      requires Valid() && e !in Owned() && StandsFor(shape.closed, e, e.Contents(), n)
      modifies this`shape, this`logicOpActive, queryStackTop
      ensures Valid() && Abs() == Appended(old(Abs()), n) && Owned() == old(Owned()) + {e}
    {
      hide Formed, OpenAt, StandsFor, Attached, WithTopFrame;
      FormedIs(shape);
      AttachedIs(shape, e, e.Contents(), n);
      Attach(e, n);
      logicOpActive := false;
    }

    /** Without an operator an element that is not the first of its group is taken with AND. */
    method ImplicitAnd() returns (ok: bool)
      requires Valid()
      modifies this, queryStackTop
      ensures Valid() && fresh(Owned() - old(Owned()))
      ensures queryStackTop == old(queryStackTop) || fresh(queryStackTop)
      ensures if old(!logicOpActive && Top(Abs()).args != [])
        then QueryModel.AppendAndOperator(old(Abs())) == (Abs(), ok)
        else ok && Abs() == old(Abs()) && shape == old(shape) && queryStackTop == old(queryStackTop)
      decreases if !logicOpActive && Top(Abs()).args != [] then 5 else 0, 0
    {
      hide Formed, OpenAt, QueryModel.AppendAndOperator;
      FormedIs(shape);
      ok := true;
      var empty := StackTopHasCount(0);
      if !logicOpActive && !empty {
        ok := AppendAndOperator();
      }
    }

    /** QEQueryAppendAndOperator. */
    method AppendAndOperator() returns (ok: bool)
      requires Valid()
      modifies this, queryStackTop
      ensures Valid() && QueryModel.AppendAndOperator(old(Abs())) == (Abs(), ok)
      ensures fresh(Owned() - old(Owned()))
      ensures queryStackTop == old(queryStackTop) || fresh(queryStackTop)
      decreases 4, 0
    {
      hide Formed, OpenAt, QueryModel.StartGroup;
      FormedIs(shape);
      if logicOpActive {
        lastError := Syntax;
        return false;
      }
      logicOpActive := true;
      ok := true;
      var or := StackTopIs(OrKind);
      if or {
        ok := StartGroup(AndKind, false);
      }
    }

    /** _QEQueryStartGroup; clients ask for OR groups only. */
    method StartGroup(kind: Kind, negated: bool) returns (ok: bool)
      requires Valid()
      modifies this, queryStackTop
      ensures Valid() && QueryModel.StartGroup(old(Abs()), kind, negated) == (Abs(), ok)
      ensures fresh(Owned() - old(Owned()))
      ensures queryStackTop == old(queryStackTop) || fresh(queryStackTop)
      decreases 3, 0
    {
      hide Formed, OpenAt, QueryModel.PushGroup;
      FormedIs(shape);
      var or := StackTopIs(OrKind);
      if !logicOpActive && or {
        PushGroup(AndKind, false);
      }
      ghost var mid := Owned();
      PushGroup(kind, negated);
      assert Owned() - old(Owned()) <= (Owned() - mid) + (mid - old(Owned()));
      ok := true;
    }

    /** _QEQueryPushGroup. */
    method PushGroup(kind: Kind, negated: bool)
      requires Valid()
      modifies this, queryStackTop
      ensures Valid() && QueryModel.PushGroup(old(Abs()), kind, negated) == Abs()
      ensures fresh(queryStackTop) && fresh(Owned() - old(Owned()))
      decreases 2, 0
    {
      hide Formed, OpenAt, StandsFor, Yanked, Pushed, QueryModel.AppendElement, QueryModel.AppendAndOperator,
        QueryModel.StartGroup, QueryModel.PushGroup;
      FormedIs(shape);
      var newGroup := new Element(GroupOf(kind), negated);
      if kind == AndKind {
        var empty := StackTopHasCount(0);
        if empty {
          PushEmptyIs(old(Abs()), kind, negated);
          PushedIs(shape, newGroup, Frame(kind, negated, []));
          Stack(newGroup, Frame(kind, negated, []));
        } else {
          StackOverYanked(newGroup, negated);
        }
      } else {
        PushEmptyIs(old(Abs()), kind, negated);
        PushedIs(shape, newGroup, Frame(kind, negated, []));
        nestingLevel := if nestingLevel == 0xFFFF_FFFF then 0 else nestingLevel + 1;
        Stack(newGroup, Frame(kind, negated, []));
      }
    }

    /** A new AND group goes where the last element of the group on top was. */
    method StackForYanked(newGroup: Element, ghost negated: bool) returns (yanked: Element)
      requires Valid() && Top(Abs()).args != []
      requires newGroup !in Owned() && newGroup.Contents() == Cell(GroupOf(AndKind), [], negated)
      modifies this, queryStackTop
      ensures Valid() && Abs() == YankedState(old(Abs()), negated) && queryStackTop == newGroup
      ensures Owned() == old(Owned()) - {yanked} + {newGroup} && yanked in old(Owned()) && yanked !in Owned()
      ensures var args := old(Top(Abs()).args); StandsFor(shape.closed, yanked, yanked.Contents(), args[|args| - 1])
    {
      hide Formed, OpenAt, StandsFor, Yanked, Pushed;
      FormedIs(shape);
      yanked := YankElement();
      YankedIs(old(shape), yanked);
      FormedIs(shape);
      PushedIs(shape, newGroup, Frame(AndKind, negated, []));
      Stack(newGroup, Frame(AndKind, negated, []));
    }

    /** A new AND group takes over the last element of the group it is opened in. */
    method StackOverYanked(newGroup: Element, ghost negated: bool)
      requires Valid() && Top(Abs()).args != []
      requires newGroup !in Owned() && newGroup.Contents() == Cell(GroupOf(AndKind), [], negated)
      modifies this, queryStackTop, newGroup
      ensures Valid() && QueryModel.PushGroup(old(Abs()), AndKind, negated) == Abs()
      ensures queryStackTop == newGroup && fresh(Owned() - old(Owned()) - {newGroup})
      decreases 1, 0
    {
      hide Formed, OpenAt, StandsFor, QueryModel.AppendElement, QueryModel.PushGroup;
      FormedIs(shape);
      ghost var args := Top(Abs()).args;
      PushAndIs(Abs(), negated);
      var yanked := StackForYanked(newGroup, negated);
      ghost var mid := Owned();
      var _ := AppendElement(yanked, args[|args| - 1]);
      assert Owned() - old(Owned()) - {newGroup} <= Owned() - mid - {yanked};
    }

    /** _QEQueryPopGroup. */
    method PopGroup() returns (ok: bool)
      requires Valid()
      modifies this
      ensures Valid() && QueryModel.PopGroup(old(Abs())) == (Abs(), ok)
      ensures shape == if ok then Popped(old(shape)) else old(shape)
    {
      var stackDepth := |queryStack|;
      if stackDepth < 2 {
        lastError := GroupNesting;
        return false;
      }
      PopKeeps(shape);
      PoppedIs(shape);
      queryStack := queryStack[..stackDepth - 1];
      queryStackTop := queryStack[stackDepth - 2];
      shape := Popped(shape);
      ok := true;
    }

    /** Takes a group of one element, the last of the group on top, out of the query with its element. */
    method YankGroupOfOne(single: Element, ghost g: Node) returns (groupOfOne: Element)
      requires Valid() && LastIsSingle(shape, single, g)
      modifies this`shape, queryStackTop
      ensures Valid() && Owned() <= old(Owned()) && single !in Owned() && single in old(Owned())
      ensures groupOfOne.negated == g.negated && StandsFor(shape.closed, single, single.Contents(), g.args[0])
      ensures |shape.frames| > 0 && shape.frames == WithTopFrame(old(shape).frames, WithoutLast(TopFrame(old(shape))))
    {
      hide Formed, OpenAt, StandsFor, Yanked;
      FormedIs(shape);
      SingleIs(shape, single, g);
      groupOfOne := YankElement();
      YankedIs(old(shape), groupOfOne);
      SingleDropped(old(shape), single, g, groupOfOne);
      GroupStandsFor(shape.closed, groupOfOne, groupOfOne.Contents(), g);
      shape := Dropped(shape, single);
    }

    /** A group of one element, the last of the group on top, gives way to it. */
    method GiveWay(single: Element, ghost g: Node)
      requires Valid() && LastIsSingle(shape, single, g)
      modifies this`shape, queryStackTop, single
      ensures Valid() && Owned() <= old(Owned())
      ensures var f := WithoutLast(TopFrame(old(shape)));
        shape.frames == WithTopFrame(old(shape).frames, f.(args := f.args + [Survivor(g)]))
    {
      hide Formed, OpenAt, StandsFor, Attached, WithTopFrame, Survivor;
      FormedIs(shape);
      ghost var f := WithoutLast(TopFrame(shape));
      TopReplaced(shape.frames, f, f.(args := f.args + [Survivor(g)]));
      SurvivorIs(g);
      var groupOfOne := YankGroupOfOne(single, g);
      FormedIs(shape);
      NegatedStandsFor(shape.closed, single, single.Contents(), g.args[0], g.negated);
      single.NegateIf(groupOfOne.negated);
      ghost var mid := shape;
      assert TopFrame(mid) == f;
      AttachedIs(mid, single, single.Contents(), Survivor(g));
      Attach(single, Survivor(g));
      assert shape.frames == WithTopFrame(mid.frames, f.(args := f.args + [Survivor(g)]));
    }

    /** _QEQueryPopGroupAndCoalesce. */
    method PopGroupAndCoalesce(onlyIfCanCoalesce: bool) returns (ok: bool)
      requires Valid()
      modifies this, Owned()
      ensures Valid() && QueryModel.PopGroupAndCoalesce(old(Abs()), onlyIfCanCoalesce) == (Abs(), ok)
      ensures Owned() <= old(Owned())
    {
      hide Formed, OpenAt, LastIsSingle, WithTopFrame, Survivor, QueryModel.PopGroup, QueryModel.PopGroupAndCoalesce;
      FormedIs(shape);
      TopIs(shape);
      CoalesceBy(Abs(), onlyIfCanCoalesce);
      var one := StackTopHasCount(1);
      var canCoalesce := one && queryStackTop != queryRoot;
      if onlyIfCanCoalesce && !canCoalesce { return true; }
      var singleElement: Element? := null;
      if canCoalesce {
        singleElement := queryStackTop.elements[0];
        LoneElement(shape);
      }
      ok := PopGroup();
      if ok && canCoalesce {
        GiveWay(singleElement, Closed(old(Top(Abs()))));
      }
    }

    /** QEQueryAppendOrOperator. */
    method AppendOrOperator() returns (ok: bool)
      requires Valid()
      modifies this
      ensures Valid() && QueryModel.AppendOrOperator(old(Abs())) == (Abs(), ok)
      ensures Owned() == old(Owned())
    {
      hide Formed, OpenAt, QueryModel.PopGroup;
      FormedIs(shape);
      if logicOpActive {
        lastError := Syntax;
        return false;
      }
      logicOpActive := true;
      ok := true;
      var and := StackTopIs(AndKind);
      if and { ok := PopGroup(); }
    }

    /** QEQueryEndGroup. */
    method EndGroup() returns (ok: bool)
      requires Valid()
      modifies this, Owned()
      ensures Valid() && QueryModel.EndGroup(old(Abs())) == (Abs(), ok)
      ensures Owned() <= old(Owned())
    {
      hide Formed, OpenAt, QueryModel.PopGroup, QueryModel.EndOrGroup;
      FormedIs(shape);
      var complete := IsComplete();
      if complete { lastError := GroupNesting; return false; }
      var empty := StackTopHasCount(0);
      if empty { lastError := EmptyGroup; return false; }
      var and := StackTopIs(AndKind);
      if and {
        ok := PopGroup();
        if !ok { return; }
      }
      ok := EndOrGroup();
    }

    /** The rest of QEQueryEndGroup, when an implicit AND group on top has been closed. */
    method EndOrGroup() returns (ok: bool)
      requires Valid()
      modifies this, Owned()
      ensures Valid() && QueryModel.EndOrGroup(old(Abs())) == (Abs(), ok)
      ensures Owned() <= old(Owned())
    {
      hide Formed, OpenAt, QueryModel.PopGroupAndCoalesce, QueryModel.EndImplicit;
      FormedIs(shape);
      var and := StackTopIs(AndKind);
      if and { lastError := GroupNesting; return false; }
      var or := StackTopIs(OrKind);
      assert or;
      ok := PopGroupAndCoalesce(false);
      FormedIs(shape);
      if !ok { lastError := GroupNesting; return; }
      nestingLevel := if nestingLevel == 0 then 0xFFFF_FFFF else nestingLevel - 1;
      ok := EndImplicit();
    }

    /** The AND group that is on top when a group has been closed. */
    method EndImplicit() returns (ok: bool)
      requires Valid()
      modifies this, Owned()
      ensures Valid() && QueryModel.EndImplicit(old(Abs())) == (Abs(), ok)
      ensures Owned() <= old(Owned())
    {
      hide Formed, OpenAt, QueryModel.PopGroupAndCoalesce;
      FormedIs(shape);
      ok := true;
      var and := StackTopIs(AndKind);
      if and {
        ok := PopGroupAndCoalesce(true);
        FormedIs(shape);
        if !ok { lastError := GroupNesting; }
      }
    }

    /** QEQueryAppendElementFromArgs. */
    method AppendElementFromArgs(words: Words, argv: seq<string>) returns (ok: bool, used: nat)
      requires Valid()
      modifies this, Owned()
      ensures Valid() && FromArgs(words, old(Abs()), argv) == (Abs(), ok, used)
      ensures fresh(Owned() - old(Owned()))
    {
      hide Formed, OpenAt, QueryModel.AppendAndOperator, QueryModel.AppendOrOperator, QueryModel.StartGroup,
        QueryModel.EndGroup, FromVerb;
      FormedIs(shape);
      if argv == [] { return false, 0; }
      var index: nat := 0;
      var negated := Resolve(words, argv[0]) == words.operators.not;
      if negated {
        index := 1;
        if |argv| == 1 { lastError := Syntax; return false, 1; }
      }
      var verb := Resolve(words, argv[index]);
      var more := 1;
      if verb == words.operators.and {
        if negated { lastError := Syntax; return false, index; }
        ok := AppendAndOperator();
      } else if verb == words.operators.or {
        if negated { lastError := Syntax; return false, index; }
        ok := AppendOrOperator();
      } else if verb == words.operators.open {
        ok := StartGroup(OrKind, negated);
      } else if verb == words.operators.close {
        ok := EndGroup();
      } else {
        ok, more := AppendFromVerb(words, verb, argv[index..], negated);
      }
      used := if ok then index + more else index;
    }

    /** The part of QEQueryAppendElementFromArgs for words that are not operators. */
    method AppendFromVerb(words: Words, verb: string, args: seq<string>, negated: bool) returns (ok: bool, used: nat)
      requires Valid()
      modifies this, Owned()
      ensures Valid() && FromVerb(words, old(Abs()), verb, args, negated) == (Abs(), ok, used)
      ensures fresh(Owned() - old(Owned()))
    {
      hide Formed, OpenAt, StandsFor, QueryModel.AppendElement;
      FormedIs(shape);
      var element := new Element(Client(Predicate(Resolve(words, verb), [])), negated);
      if verb !in words.parsers {
        lastError := NoParseCallback;
        return false, 0;
      }
      var parsed := words.parsers[verb](element.verb.what, args, lastError);
      lastError := parsed.error;
      if !parsed.ok { return false, 0; }
      element.verb := Client(parsed.element);
      ghost var n := Leaf(parsed.element, negated);
      LeafStandsFor(shape.closed, element, n);
      ok := AppendElement(element, n);
      used := parsed.used;
    }

    /** _QEQueryElementEvaluate, with short circuits. */
    method EvaluateElement(element: Element, cb: Callbacks, calls: nat, ghost n: Node)
      returns (result: bool, next: nat)
      requires Valid() && Shows(shape.heap, element, n)
      modifies this`lastError
      ensures Outcome(result, lastError, next) == Evaluate(n, cb, old(lastError), calls)
      decreases n, 1
    {
      hide Formed;
      result, next := false, calls;
      match element.verb {
        case Client(what) =>
          if what.name in cb {
            var answer := cb[what.name](calls, what, lastError);
            result, lastError := answer.0, answer.1;
            next := calls + 1;
          } else {
            lastError := NoEvaluationCallback;
          }
        case GroupOf(AndKind) =>
          result, next := EvaluateAnd(element, cb, calls, n);
        case GroupOf(OrKind) =>
          result, next := EvaluateOr(element, cb, calls, n);
      }
      if element.negated { result := !result; }
      if lastError != NoError { result := false; }
    }

    /** The elements of an AND group, until one is false. */
    method EvaluateAnd(element: Element, cb: Callbacks, calls: nat, ghost n: Node) returns (result: bool, next: nat)
      requires Valid() && Shows(shape.heap, element, n) && n.Group?
      modifies this`lastError
      ensures Outcome(result, lastError, next) == EvaluateAll(n.args, cb, old(lastError), calls)
      decreases n, 0
    {
      hide Formed, Evaluate;
      next := calls;
      var count := |element.elements|;
      for i := 0 to count
        invariant Valid()
        invariant EvaluateAll(n.args, cb, old(lastError), calls) == EvaluateAll(n.args[i..], cb, lastError, next)
      {
        assert n.args[i..][0] == n.args[i] && n.args[i..][1..] == n.args[i + 1..];
        var yes;
        yes, next := EvaluateElement(element.elements[i], cb, next, n.args[i]);
        if !yes { return false, next; }
      }
      result := true;
    }

    /** The elements of an OR group, until one is true; an OR group without elements is true. */
    method EvaluateOr(element: Element, cb: Callbacks, calls: nat, ghost n: Node) returns (result: bool, next: nat)
      requires Valid() && Shows(shape.heap, element, n) && n.Group?
      modifies this`lastError
      ensures Outcome(result, lastError, next) ==
        if n.args == [] then Outcome(true, old(lastError), calls) else EvaluateSome(n.args, cb, old(lastError), calls)
      decreases n, 0
    {
      hide Formed, Evaluate;
      next := calls;
      var count := |element.elements|;
      result := count == 0;
      for i := 0 to count
        invariant Valid() && (result <==> count == 0)
        invariant EvaluateSome(n.args, cb, old(lastError), calls) == EvaluateSome(n.args[i..], cb, lastError, next)
        invariant i == 0 ==> lastError == old(lastError) && next == calls
      {
        assert n.args[i..][0] == n.args[i] && n.args[i..][1..] == n.args[i + 1..];
        var yes;
        yes, next := EvaluateElement(element.elements[i], cb, next, n.args[i]);
        if yes { return true, next; }
      }
    }

    /** QEQueryEvaluate; calls are numbered from 0 for each object. */
    method EvaluateObject(cb: Callbacks) returns (result: bool)
      requires Valid()
      modifies this`lastError
      ensures Valid() && (result, lastError) == EvaluateQuery(old(Abs()), cb)
      ensures old(nestingLevel != 0 || logicOpActive || lastError != NoError) ==>
        !result && lastError == old(lastError)
    {
      var complete := IsComplete();
      if !complete || lastError != NoError { return false; }
      RootShows(shape);
      var calls;
      result, calls := EvaluateElement(queryRoot, cb, 0, Tree(shape.frames));
    }
  }
}
