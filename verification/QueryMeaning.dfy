/** Operators and the closing of groups rearrange the tree without changing what it means. */
module QueryMeaning {
  import opened Values
  import opened QueryModel
  import opened QueryGrammar
  import opened QueryParser
  import opened QueryInvariant

  /** The query built so far, with the groups still open taken as closed. */
  ghost predicate Means(st: State, v: Predicate -> bool)
    requires Open(st)
  {
    Holds(Tree(st.frames), v)
  }

  lemma LastCongruent(f: Frame, n: Node, m: Node, v: Predicate -> bool)
    requires Holds(n, v) == Holds(m, v)
    ensures Holds(Closed(f.(args := f.args + [n])), v) == Holds(Closed(f.(args := f.args + [m])), v)
  {
    SomeHoldsAppend(f.args, n, v);
    SomeHoldsAppend(f.args, m, v);
    AllHoldAppend(f.args, n, v);
    AllHoldAppend(f.args, m, v);
  }

  /** The group on top may be replaced by one of the same meaning. */
  lemma {:induction false} TreeCongruent(base: seq<Frame>, f: Frame, g: Frame, v: Predicate -> bool)
    requires Holds(Closed(f), v) == Holds(Closed(g), v)
    ensures Holds(Tree(base + [f]), v) == Holds(Tree(base + [g]), v)
    decreases |base|
  {
    if base != [] {
      var below := base[..|base| - 1];
      var h := base[|base| - 1];
      assert (base + [f])[..|base| - 1] == below && (base + [g])[..|base| - 1] == below;
      LastCongruent(h, Closed(f), Closed(g), v);
      TreeCongruent(below, h.(args := h.args + [Closed(f)]), h.(args := h.args + [Closed(g)]), v);
    }
  }

  /** The last element of the group on top may be replaced by one of the same meaning. */
  lemma ElementCongruent(base: seq<Frame>, f: Frame, n: Node, m: Node, v: Predicate -> bool)
    requires Holds(n, v) == Holds(m, v)
    ensures Holds(Tree(base + [f.(args := f.args + [n])]), v) == Holds(Tree(base + [f.(args := f.args + [m])]), v)
  {
    LastCongruent(f, n, m, v);
    TreeCongruent(base, f.(args := f.args + [n]), f.(args := f.args + [m]), v);
  }

  lemma PopMeans(st: State, v: Predicate -> bool)
    requires Open(st)
    ensures Means(PopGroup(st).0, v) == Means(st, v)
  {
    if |st.frames| > 1 {
      var last := |st.frames| - 1;
      assert Below(st)[..last - 1] == st.frames[..last - 1];
    }
  }

  /** A group of one element means what the element means, but for its own negation. */
  lemma SingleHolds(f: Frame, v: Predicate -> bool)
    requires |f.args| == 1
    ensures Holds(Closed(f), v) == Holds(if f.negated then Toggled(f.args[0]) else f.args[0], v)
  {
    ToggledHolds(f.args[0], v);
    assert f.args == [] + [f.args[0]];
    SomeHoldsAppend([], f.args[0], v);
    AllHoldAppend([], f.args[0], v);
  }

  /** Coalescing keeps the meaning. */
  lemma CoalesceMeans(st: State, only: bool, v: Predicate -> bool)
    requires Open(st)
    ensures Means(PopGroupAndCoalesce(st, only).0, v) == Means(st, v)
  {
    PopMeans(st, v);
    if |Top(st).args| == 1 && |st.frames| > 1 {
      var f := st.frames[|st.frames| - 2];
      var single := Top(st).args[0];
      var n := if Top(st).negated then Toggled(single) else single;
      SingleHolds(Top(st), v);
      var base := st.frames[..|st.frames| - 2];
      ElementCongruent(base, f, Closed(Top(st)), n, v);
      assert Below(st)[..|Below(st)| - 1] == base;
      assert (f.args + [Closed(Top(st))])[..|f.args|] == f.args;
      assert PopGroupAndCoalesce(st, only).0.frames == base + [f.(args := f.args + [n])];
      assert PopGroup(st).0.frames == base + [f.(args := f.args + [Closed(Top(st))])];
    }
  }

  /** Closing a group keeps the meaning. */
  lemma EndMeans(st: State, v: Predicate -> bool)
    requires Open(st)
    ensures Means(EndGroup(st).0, v) == Means(st, v)
  {
    hide PopGroup, PopGroupAndCoalesce;
    if !IsComplete(st) && Top(st).args != [] {
      var s := if Top(st).kind == AndKind then PopGroup(st).0 else st;
      PopMeans(st, v);
      CoalesceMeans(s, false, v);
      var s1 := PopGroupAndCoalesce(s, false).0;
      CoalesceMeans(s1.(nesting := (s1.nesting - 1) % W32), true, v);
    }
  }

  lemma TreeOfTwo(base: seq<Frame>, f: Frame, g: Frame)
    ensures Tree(base + [f, g]) == Tree(base + [f.(args := f.args + [Closed(g)])])
  {
    assert (base + [f, g])[..|base|] == base;
  }

  /** An AND group that takes over an element means what the element meant. */
  lemma YankMeans(st: State, v: Predicate -> bool)
    requires Open(st) && Top(st).args != []
    ensures Means(PushGroup(st, AndKind, false), v) == Means(st, v)
  {
    hide PushGroup, AppendElement, AppendAndOperator, StartGroup, Tree, Holds;
    PushIs(st);
    var args := Top(st).args;
    var rest := args[..|args| - 1];
    var g := Frame(AndKind, false, [args[|args| - 1]]);
    SingleHolds(g, v);
    ElementCongruent(Below(st), Top(st).(args := rest), args[|args| - 1], Closed(g), v);
    assert rest + g.args == args;
    TreeOfTwo(Below(st), Top(st).(args := rest), g);
    assert PushGroup(st, AndKind, false).frames == Below(st) + [Top(st).(args := rest), g];
    assert st.frames == Below(st) + [Top(st)];
  }

  lemma PushEmpty(st: State)
    requires Open(st) && Top(st).args == []
    ensures PushGroup(st, AndKind, false).frames == st.frames + [Frame(AndKind, false, [])]
  {
  }

  /** So does an empty one. */
  lemma EmptyAndMeans(st: State, v: Predicate -> bool)
    requires Open(st) && Top(st).args == []
    ensures Means(PushGroup(st, AndKind, false), v) == Means(st, v)
  {
    hide PushGroup, AppendElement, AppendAndOperator, StartGroup, Tree;
    var g := Frame(AndKind, false, []);
    PushEmpty(st);
    assert PushGroup(st, AndKind, false).frames == Below(st) + [Top(st), g];
    var f := Top(st);
    assert AllHold([], v) && [] + [Closed(g)] == [Closed(g)];
    SomeHoldsAppend([], Closed(g), v);
    AllHoldAppend([], Closed(g), v);
    TreeCongruent(Below(st), f, f.(args := [Closed(g)]), v);
    TreeOfTwo(Below(st), f, g);
    assert st.frames == Below(st) + [f];
  }

  /** The calls for AND, OR and ")" keep the meaning of what is built, in any state, whether they succeed or fail;
      only elements and "(" change it. */
  lemma OperatorsKeepMeaning(st: State, t: Token, v: Predicate -> bool)
    requires Open(st) && (t == TAnd || t == TOr || t == TClose)
    ensures Means(Step(st, t).0, v) == Means(st, v)
  {
    hide PopGroup, PushGroup, EndGroup, Tree;
    var s := st.(active := true);
    match t
    case TClose => EndMeans(st, v);
    case TOr => PopMeans(s, v);
    case TAnd =>
      if Top(st).args == [] { EmptyAndMeans(s, v); } else { YankMeans(s, v); }
      assert AppendAndOperator(st).0 == if st.active then st.(error := Syntax) else
        if Top(st).kind == OrKind then StartGroup(s, AndKind, false).0 else s;
      assert Means(PushGroup(s, AndKind, false), v) == Means(st, v);
  }
}
