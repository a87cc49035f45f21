/** What every call of the builder keeps, whether it succeeds or fails, and whatever came before it. */
module QueryInvariant {
  import opened Values
  import opened QueryModel
  import opened QueryGrammar
  import opened QueryParser

  /** A closed OR group has at least two elements, a closed AND group at least one. */
  predicate Shaped(n: Node) {
    match n
    case Leaf(_, _) => true
    case Group(kind, _, args) =>
      |args| >= (if kind == OrKind then 2 else 1) && forall i :: 0 <= i < |args| ==> Shaped(args[i])
  }

  predicate AllShaped(ns: seq<Node>) { forall i :: 0 <= i < |ns| ==> Shaped(ns[i]) }

  /** An AND group sits on an OR group and is not negated; the root is an OR group and is not negated. */
  predicate Stacked(frames: seq<Frame>, i: int)
    requires 0 <= i < |frames|
  {
    && AllShaped(frames[i].args)
    && (frames[i].kind == AndKind || i == 0 ==> !frames[i].negated)
    && (if i == 0 then frames[i].kind == OrKind else frames[i].kind == AndKind ==> frames[i - 1].kind == OrKind)
  }

  predicate AllStacked(frames: seq<Frame>) { forall i :: 0 <= i < |frames| ==> Stacked(frames, i) }

  /** How many OR groups are open. */
  function OrGroups(frames: seq<Frame>): nat
    decreases |frames|
  {
    if frames == [] then 0
    else OrGroups(frames[..|frames| - 1]) + if frames[|frames| - 1].kind == OrKind then 1 else 0
  }

  predicate WellBuilt(st: State) {
    && Open(st) && AllStacked(st.frames)
    && st.nesting == (OrGroups(st.frames) - 1) % W32
    && (Top(st).kind == AndKind && Top(st).args == [] ==> st.active)
  }

  lemma PushStacked(frames: seq<Frame>, f: Frame)
    requires AllStacked(frames) && frames != []
    requires AllShaped(f.args) && (f.kind == AndKind ==> !f.negated && frames[|frames| - 1].kind == OrKind)
    ensures AllStacked(frames + [f]) && OrGroups(frames + [f]) == OrGroups(frames) + if f.kind == OrKind then 1 else 0
  {
    var now := frames + [f];
    assert now[..|now| - 1] == frames;
    forall i | 0 <= i < |now| ensures Stacked(now, i) {
      if i < |frames| { assert Stacked(frames, i); }
    }
  }

  lemma PopStacked(frames: seq<Frame>)
    requires AllStacked(frames) && |frames| > 1
    ensures AllStacked(frames[..|frames| - 1])
    ensures OrGroups(frames) == OrGroups(frames[..|frames| - 1]) + if frames[|frames| - 1].kind == OrKind then 1 else 0
  {
    var rest := frames[..|frames| - 1];
    forall i | 0 <= i < |rest| ensures Stacked(rest, i) { assert Stacked(frames, i); }
  }

  /** The last frame with other elements. */
  lemma ArgsStacked(frames: seq<Frame>, args: seq<Node>)
    requires AllStacked(frames) && frames != [] && AllShaped(args)
    ensures var now := frames[..|frames| - 1] + [frames[|frames| - 1].(args := args)];
      AllStacked(now) && OrGroups(now) == OrGroups(frames)
  {
    var now := frames[..|frames| - 1] + [frames[|frames| - 1].(args := args)];
    assert now[..|now| - 1] == frames[..|frames| - 1];
    forall i | 0 <= i < |now| ensures Stacked(now, i) { assert Stacked(frames, i); }
  }

  lemma OrGroupsPositive(frames: seq<Frame>)
    requires AllStacked(frames) && frames != []
    ensures OrGroups(frames) > 0
    decreases |frames|
  {
    assert Stacked(frames, 0);
    if |frames| > 1 {
      PopStacked(frames);
      OrGroupsPositive(frames[..|frames| - 1]);
    }
  }

  lemma AppendOpenKeeps(st: State, e: Node)
    requires Open(st) && AllStacked(st.frames) && st.nesting == (OrGroups(st.frames) - 1) % W32 && Shaped(e)
    ensures WellBuilt(WithTop(st, Top(st).(args := Top(st).args + [e])).(active := false))
  {
    hide OrGroups, Shaped;
    assert Stacked(st.frames, |st.frames| - 1);
    ArgsStacked(st.frames, Top(st).args + [e]);
  }

  /** The frames below a new AND group, which takes over the last element of the OR group below. */
  function Yanked(st: State): (r: State)
    requires Open(st) && Top(st).args != []
    ensures Open(r)
  {
    var s := WithTop(st, Top(st).(args := Top(st).args[..|Top(st).args| - 1]));
    s.(frames := s.frames + [Frame(AndKind, false, [])])
  }

  lemma PushIs(st: State)
    requires Open(st) && Top(st).args != []
    ensures var args := Top(st).args;
      PushGroup(st, AndKind, false) == WithTop(Yanked(st), Frame(AndKind, false, [args[|args| - 1]])).(active := false)
  {
    var e := Top(st).args[|Top(st).args| - 1];
    assert PushGroup(st, AndKind, false) == AppendElement(Yanked(st), e).0;
    hide AppendElement;
    AppendToOpen(Yanked(st), e);
    assert [] + [e] == [e];
  }

  lemma YankedStacked(st: State)
    requires WellBuilt(st) && Top(st).kind == OrKind && Top(st).args != []
    ensures AllStacked(Yanked(st).frames) && OrGroups(Yanked(st).frames) == OrGroups(st.frames)
    ensures Shaped(Top(st).args[|Top(st).args| - 1])
  {
    var args := Top(st).args;
    assert Stacked(st.frames, |st.frames| - 1);
    ArgsStacked(st.frames, args[..|args| - 1]);
    PushStacked(WithTop(st, Top(st).(args := args[..|args| - 1])).frames, Frame(AndKind, false, []));
  }

  lemma PushAndKeeps(st: State)
    requires WellBuilt(st) && Top(st).kind == OrKind && (st.active || Top(st).args != [])
    ensures WellBuilt(PushGroup(st, AndKind, false))
    ensures Top(st).args != [] ==> !PushGroup(st, AndKind, false).active
  {
    if Top(st).args == [] {
      PushStacked(st.frames, Frame(AndKind, false, []));
    } else {
      var e := Top(st).args[|Top(st).args| - 1];
      PushIs(st);
      hide PushGroup, AppendElement, AllStacked, OrGroups;
      YankedStacked(st);
      AppendOpenKeeps(Yanked(st), e);
      assert [] + [e] == [e];
    }
  }

  lemma PushOrKeeps(st: State, negated: bool)
    requires WellBuilt(st)
    ensures WellBuilt(PushGroup(st, OrKind, negated))
  {
    PushStacked(st.frames, Frame(OrKind, negated, []));
  }

  lemma PopKeeps(st: State)
    requires WellBuilt(st) && Top(st).kind == AndKind && Top(st).args != []
    ensures PopGroup(st).1 && WellBuilt(PopGroup(st).0) && Top(PopGroup(st).0).kind == OrKind
    ensures Top(PopGroup(st).0).args != []
  {
    hide AllStacked, OrGroups, AppendElement, PushGroup;
    AndOnTop(st);
    PopStacked(st.frames);
    ArgsStacked(Below(st), st.frames[|st.frames| - 2].args + [Closed(Top(st))]);
  }

  /** An AND group on top sits on an OR group, and may be closed there. */
  lemma AndOnTop(st: State)
    requires WellBuilt(st) && Top(st).kind == AndKind && Top(st).args != []
    ensures |st.frames| > 1 && st.frames[|st.frames| - 2].kind == OrKind
    ensures AllShaped(st.frames[|st.frames| - 2].args + [Closed(Top(st))])
  {
    assert Stacked(st.frames, 0) && Stacked(st.frames, |st.frames| - 1) && Stacked(st.frames, |st.frames| - 2);
  }

  lemma ToggledShaped(n: Node)
    requires Shaped(n)
    ensures Shaped(Toggled(n))
  {
  }

  lemma GroupNodeShaped(f: Frame)
    requires f.args != [] && AllShaped(f.args)
    ensures Shaped(GroupNode(f))
  {
    ToggledShaped(f.args[0]);
  }

  /** Popping the group on top, which gives way to its only element. */
  lemma CoalesceKeeps(st: State, only: bool)
    requires WellBuilt(st) && Top(st).args != [] && (only ==> Top(st).kind == AndKind && |Top(st).args| == 1)
    ensures var (s, ok) := PopGroupAndCoalesce(st, only);
      if !ok then |st.frames| == 1 && s == st.(error := GroupNesting)
      else if |st.frames| == 1 then only && s == st
      else
        && AllStacked(s.frames) && s.active == st.active && s.error == st.error && s.nesting == st.nesting
        && OrGroups(s.frames) == OrGroups(st.frames) - (if Top(st).kind == OrKind then 1 else 0)
        && Top(s).args != [] && Top(s).kind == st.frames[|st.frames| - 2].kind
  {
    if |st.frames| > 1 {
      var base, f := Below(st), Top(st);
      CoalesceIs(base, f, st);
      assert PopGroupAndCoalesce(st, only) == PopGroupAndCoalesce(st, false);
      hide PopGroupAndCoalesce, PopGroup;
      assert Stacked(st.frames, |st.frames| - 1) && Stacked(st.frames, |st.frames| - 2);
      PopStacked(st.frames);
      GroupNodeShaped(f);
      ArgsStacked(base, base[|base| - 1].args + [GroupNode(f)]);
    } else {
      assert Stacked(st.frames, 0);
    }
  }

  lemma StaysOpen(st: State)
    requires Open(st) && |Top(st).args| != 1
    ensures PopGroupAndCoalesce(st, true) == (st, true)
  {
  }

  lemma AndKeeps(st: State)
    requires WellBuilt(st)
    ensures WellBuilt(AppendAndOperator(st).0)
  {
    if !st.active && Top(st).kind == OrKind { PushAndKeeps(st.(active := true)); }
  }

  /** An empty AND group, then an OR group on it. */
  lemma StartEmptyKeeps(st: State, negated: bool)
    requires WellBuilt(st) && Top(st).kind == OrKind && Top(st).args == []
    ensures WellBuilt(PushGroup(PushGroup(st, AndKind, false), OrKind, negated))
  {
    hide AppendElement, StartGroup, AppendAndOperator, AllStacked, OrGroups, Shaped;
    var f := Frame(AndKind, false, []);
    PushStacked(st.frames, f);
    PushStacked(st.frames + [f], Frame(OrKind, negated, []));
  }

  lemma StartKeeps(st: State, negated: bool)
    requires WellBuilt(st)
    ensures WellBuilt(StartGroup(st, OrKind, negated).0)
  {
    hide PushGroup, WellBuilt;
    assert Open(st) by { WellBuiltIs(st); }
    if !st.active && Top(st).kind == OrKind {
      if Top(st).args == [] {
        StartEmptyKeeps(st, negated);
      } else {
        PushAndKeeps(st);
        PushOrKeeps(PushGroup(st, AndKind, false), negated);
      }
    } else {
      PushOrKeeps(st, negated);
    }
  }

  lemma WellBuiltIs(st: State)
    requires WellBuilt(st)
    ensures Open(st)
  {
  }

  /** Closing an OR group, and the AND group below if that now has a single element. */
  lemma EndOrKeeps(st: State)
    requires WellBuilt(st) && Top(st).kind == OrKind
    ensures WellBuilt(EndGroup(st).0)
  {
    hide PopGroup, PopGroupAndCoalesce, AllStacked, OrGroups;
    if !IsComplete(st) && Top(st).args != [] {
      CoalesceKeeps(st, false);
      var (s1, ok1) := PopGroupAndCoalesce(st, false);
      if ok1 {
        var s2 := s1.(nesting := (s1.nesting - 1) % W32);
        assert WellBuilt(s2);
        if Top(s2).kind == AndKind { ImplicitEndKeeps(s2); }
      }
    }
  }

  lemma ImplicitEndKeeps(st: State)
    requires WellBuilt(st) && Top(st).kind == AndKind && Top(st).args != []
    ensures PopGroupAndCoalesce(st, true).1 && WellBuilt(PopGroupAndCoalesce(st, true).0)
  {
    hide AllStacked, OrGroups, PopGroup, PopGroupAndCoalesce;
    if |Top(st).args| == 1 {
      AndOnTop(st);
      CoalesceKeeps(st, true);
    } else {
      StaysOpen(st);
    }
  }

  lemma EndKeeps(st: State)
    requires WellBuilt(st)
    ensures WellBuilt(EndGroup(st).0)
  {
    if !IsComplete(st) && Top(st).args != [] && Top(st).kind == AndKind {
      var s := PopGroup(st).0;
      PopKeeps(st);
      hide AllStacked, OrGroups, AppendElement;
      EndGroupAfterPop(st, s);
      EndOrKeeps(s);
    } else if Top(st).kind == OrKind {
      EndOrKeeps(st);
    }
  }

  lemma OrKeeps(st: State)
    requires WellBuilt(st)
    ensures WellBuilt(AppendOrOperator(st).0)
  {
    if !st.active && Top(st).kind == AndKind { PopKeeps(st); }
  }

  /** One call. */
  lemma StepKeeps(st: State, t: Token)
    requires WellBuilt(st)
    ensures WellBuilt(Step(st, t).0)
  {
    match t
    case TAnd => AndKeeps(st);
    case TOr => OrKeeps(st);
    case TOpen(negated) => StartKeeps(st, negated);
    case TClose => EndKeeps(st);
    case TPred(negated, what) =>
      AndKeeps(st);
      var s := if !st.active && Top(st).args != [] then AppendAndOperator(st).0 else st;
      AppendOpenKeeps(s, Leaf(what, negated));
  }

  /** Every sequence of calls, those that fail included. */
  function Calls(st: State, ts: seq<Token>): (r: State)
    requires Open(st)
    ensures Open(r)
    decreases |ts|
  {
    if ts == [] then st else Calls(Step(st, ts[0]).0, ts[1..])
  }

  lemma {:induction false} CallsKeep(st: State, ts: seq<Token>)
    requires WellBuilt(st)
    ensures WellBuilt(Calls(st, ts))
    decreases |ts|
  {
    if ts != [] {
      StepKeeps(st, ts[0]);
      CallsKeep(Step(st, ts[0]).0, ts[1..]);
    }
  }

  lemma StartWellBuilt()
    ensures WellBuilt(START)
  {
    assert START.frames[..0] == [];
  }

  // ---- what the count of open groups means ----

  /** Without an open OR group but the root there is at most an implicit AND group on it. */
  lemma {:induction false} OnlyRoot(frames: seq<Frame>)
    requires AllStacked(frames) && frames != []
    ensures OrGroups(frames) == 1 <==> |frames| == 1 || (|frames| == 2 && frames[1].kind == AndKind)
    decreases |frames|
  {
    var last := |frames| - 1;
    assert frames[..0] == [];
    assert Stacked(frames, 0) && Stacked(frames, last);
    if last > 0 {
      PopStacked(frames);
      var rest := frames[..last];
      OrGroupsPositive(rest);
      OnlyRoot(rest);
      if frames[last].kind == AndKind && last == 2 { assert Stacked(frames, 1); }
    }
  }

  /** As long as the open groups can be counted, a query is complete exactly when no operator is pending, no error is
      recorded, and no group is open but the root and an implicit AND group on it. */
  lemma CompleteIsClosed(st: State)
    requires WellBuilt(st) && OrGroups(st.frames) <= W32
    ensures IsComplete(st) <==>
      && !st.active && st.error == NoError
      && (|st.frames| == 1 || (|st.frames| == 2 && st.frames[1].kind == AndKind && st.frames[1].args != []))
  {
    OrGroupsPositive(st.frames);
    OnlyRoot(st.frames);
  }

  lemma EndOrNests(st: State)
    requires WellBuilt(st) && Top(st).kind == OrKind && Top(st).args != [] && EndOrGroup(st).1
    ensures |st.frames| > 1 && EndOrGroup(st).0.nesting == (st.nesting - 1) % W32
  {
    hide PopGroup, PopGroupAndCoalesce, AllStacked, OrGroups;
    CoalesceKeeps(st, false);
    var s1 := PopGroupAndCoalesce(st, false).0;
    var s2 := s1.(nesting := (s1.nesting - 1) % W32);
    assert WellBuilt(s2);
    if Top(s2).kind == AndKind {
      if |Top(s2).args| == 1 { CoalesceKeeps(s2, true); } else { StaysOpen(s2); }
    }
  }

  lemma PopCounts(st: State)
    requires WellBuilt(st) && Top(st).kind == AndKind && Top(st).args != []
    ensures PopGroup(st).1 && PopGroup(st).0.nesting == st.nesting
    ensures OrGroups(PopGroup(st).0.frames) == OrGroups(st.frames)
  {
    PopKeeps(st);
    PopStacked(st.frames);
    assert Stacked(st.frames, |st.frames| - 1) && Stacked(st.frames, |st.frames| - 2);
    ArgsStacked(Below(st), st.frames[|st.frames| - 2].args + [Closed(Top(st))]);
  }

  lemma SeveralOpen(st: State)
    requires WellBuilt(st) && OrGroups(st.frames) <= W32 && Top(st).kind == OrKind && |st.frames| > 1
    ensures st.nesting > 0
  {
    OrGroupsPositive(st.frames);
    OnlyRoot(st.frames);
  }

  /** As long as the open groups can be counted, a group is closed only when the nesting level is positive: it never
      underflows. */
  lemma NestingNeverUnderflows(st: State)
    requires WellBuilt(st) && OrGroups(st.frames) <= W32 && EndGroup(st).1
    ensures st.nesting > 0 && EndGroup(st).0.nesting == st.nesting - 1
  {
    hide PopGroup, PopGroupAndCoalesce, EndOrGroup, AllStacked, OrGroups;
    var s := st;
    if Top(st).kind == AndKind {
      PopKeeps(st);
      PopCounts(st);
      s := PopGroup(st).0;
    }
    assert EndGroup(st) == EndOrGroup(s);
    EndOrNests(s);
    SeveralOpen(s);
  }

  // ---- which calls fail, and with what error ----

  /** Some group in parentheses is open. */
  predicate InParens(st: State) { exists i :: 0 < i < |st.frames| && st.frames[i].kind == OrKind }

  lemma {:induction false} ParensAreOrGroups(frames: seq<Frame>)
    requires AllStacked(frames) && frames != []
    ensures OrGroups(frames) > 1 <==> exists i :: 0 < i < |frames| && frames[i].kind == OrKind
    decreases |frames|
  {
    var last := |frames| - 1;
    var rest := frames[..last];
    if last == 0 {
      assert OrGroups(rest) == 0;
    } else {
      PopStacked(frames);
      ParensAreOrGroups(rest);
      OrGroupsPositive(rest);
      assert forall i :: 0 <= i < last ==> rest[i] == frames[i];
    }
  }

  /** The error that a call ends with, if it fails: an operator after an operator, ")" where no group in parentheses is
      open or the innermost open group has nothing in it.  An empty group is told from a missing one where it can be. */
  function Failure(st: State, t: Token): Option<Error>
    requires Open(st)
  {
    match t
    case TAnd => if st.active then Some(Syntax) else None
    case TOr => if st.active then Some(Syntax) else None
    case TClose =>
      if Top(st).args == [] && (InParens(st) || st.active || st.error != NoError) then Some(EmptyGroup)
      else if !InParens(st) then Some(GroupNesting) else None
    case _ => None
  }

  /** When the top group is an OR group with elements: it is closed unless it is the root. */
  lemma EndOrFails(st: State)
    requires WellBuilt(st) && Top(st).kind == OrKind && Top(st).args != []
    ensures EndOrGroup(st).1 <==> |st.frames| > 1
    ensures EndOrGroup(st).0.error == if |st.frames| > 1 then st.error else GroupNesting
  {
    hide PopGroup, PopGroupAndCoalesce, AllStacked, OrGroups;
    CoalesceKeeps(st, false);
    var (s1, ok1) := PopGroupAndCoalesce(st, false);
    if ok1 {
      var s2 := s1.(nesting := (s1.nesting - 1) % W32);
      assert WellBuilt(s2);
      if Top(s2).kind == AndKind {
        ImplicitEndKeeps(s2);
        if |Top(s2).args| == 1 { CoalesceKeeps(s2, true); } else { StaysOpen(s2); }
      }
    }
  }

  lemma EndFails(st: State)
    requires WellBuilt(st) && OrGroups(st.frames) <= W32 && Top(st).args != [] && !IsComplete(st)
    ensures EndGroup(st).1 <==> OrGroups(st.frames) > 1
    ensures EndGroup(st).0.error == if OrGroups(st.frames) > 1 then st.error else GroupNesting
  {
    hide AllStacked, OrGroups, EndOrGroup, PopGroup;
    OrGroupsPositive(st.frames);
    OnlyRoot(st.frames);
    var s := st;
    if Top(st).kind == AndKind {
      PopKeeps(st);
      PopCounts(st);
      PopHeight(st);
      s := PopGroup(st).0;
    }
    assert EndGroup(st) == EndOrGroup(s);
    EndOrFails(s);
  }

  lemma PopHeight(st: State)
    requires WellBuilt(st) && Top(st).kind == AndKind && Top(st).args != []
    ensures |st.frames| > 1 && |PopGroup(st).0.frames| == |st.frames| - 1 && PopGroup(st).0.error == st.error
    ensures |st.frames| == 2 ==> st.frames[1].kind == AndKind
  {
    AndOnTop(st);
  }

  lemma PushRecordsNothing(st: State, kind: Kind, negated: bool)
    requires Open(st)
    ensures PushGroup(st, kind, negated).error == st.error
  {
    if kind == AndKind && Top(st).args != [] {
      var args := Top(st).args;
      var s := WithTop(st, Top(st).(args := args[..|args| - 1]));
      AppendToOpen(s.(frames := s.frames + [Frame(kind, negated, [])]), args[|args| - 1]);
    }
  }

  lemma AndFails(st: State)
    requires Open(st)
    ensures AppendAndOperator(st).1 <==> !st.active
    ensures AppendAndOperator(st).0.error == if st.active then Syntax else st.error
  {
    PushRecordsNothing(st.(active := true), AndKind, false);
  }

  lemma StartFails(st: State, negated: bool)
    requires Open(st)
    ensures StartGroup(st, OrKind, negated).1 && StartGroup(st, OrKind, negated).0.error == st.error
  {
    PushRecordsNothing(st, AndKind, false);
    PushRecordsNothing(PushGroup(st, AndKind, false), OrKind, negated);
    PushRecordsNothing(st, OrKind, negated);
  }

  /** As long as groups can be counted, exactly these calls fail, with these errors. */
  lemma StepFails(st: State, t: Token)
    requires WellBuilt(st) && OrGroups(st.frames) <= W32
    ensures Step(st, t).1 <==> Failure(st, t) == None
    ensures Failure(st, t).Some? ==> Step(st, t).0.error == Failure(st, t).value
    ensures Failure(st, t) == None ==> Step(st, t).0.error == st.error
  {
    hide AllStacked, OrGroups, EndOrGroup, PopGroup, AppendAndOperator, StartGroup;
    OrGroupsPositive(st.frames);
    ParensAreOrGroups(st.frames);
    AndFails(st);
    if t.TOpen? { StartFails(st, t.negated); }
    if t.TClose? && Top(st).args != [] && !IsComplete(st) { EndFails(st); }
    if t.TOr? && !st.active && Top(st).kind == AndKind {
      PopKeeps(st.(active := true));
      PopHeight(st.(active := true));
    }
  }
}
