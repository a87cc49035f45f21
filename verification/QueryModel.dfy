/** The query builder as a state machine over values: the groups still open, innermost last, each with
    the elements already complete in it. */
module QueryModel {
  import opened Values

  datatype Error =
    | NoError | Unspecified | NoMemory | GroupNesting | EmptyGroup | Syntax | NoParseCallback
    | NoEvaluationCallback | InvalidOrMissingArgument | ParseCallbackFailed | EvaluationCallbackFailed

  datatype Kind = AndKind | OrKind

  /** A client predicate with its arguments. */
  datatype Predicate = Predicate(name: string, arguments: seq<string>)

  datatype Node =
    | Leaf(what: Predicate, negated: bool)
    | Group(kind: Kind, negated: bool, args: seq<Node>)

  /** An open group without the open group it may hold as its last argument. */
  datatype Frame = Frame(kind: Kind, negated: bool, args: seq<Node>)

  datatype State = State(frames: seq<Frame>, nesting: int, active: bool, error: Error)

  /** There is at least the root. */
  predicate Open(st: State) { |st.frames| > 0 }

  function Top(st: State): Frame
    requires Open(st)
  {
    st.frames[|st.frames| - 1]
  }

  function Below(st: State): seq<Frame>
    requires Open(st)
  {
    st.frames[..|st.frames| - 1]
  }

  function WithTop(st: State, f: Frame): (st': State)
    requires Open(st)
    ensures Open(st')
  {
    st.(frames := Below(st) + [f])
  }

  function Closed(f: Frame): Node { Group(f.kind, f.negated, f.args) }

  function Toggled(n: Node): Node {
    match n
    case Leaf(what, negated) => Leaf(what, !negated)
    case Group(kind, negated, args) => Group(kind, !negated, args)
  }

  const START: State := State([Frame(OrKind, false, [])], 0, false, NoError)

  function IsComplete(st: State): bool {
    st.nesting == 0 && !st.active && st.error == NoError
  }

  // ---- the operations; each gives the new state and whether it succeeds ----

  /** QEQueryAppendElement. */
  function AppendElement(st: State, e: Node): (r: (State, bool))
    requires Open(st)
    ensures Open(r.0)
    decreases if !st.active && Top(st).args != [] then 5 else 0
  {
    if !st.active && Top(st).args != [] then
      var (s, ok) := AppendAndOperator(st);
      if !ok then (s, false) else (WithTop(s, Top(s).(args := Top(s).args + [e])).(active := false), true)
    else (WithTop(st, Top(st).(args := Top(st).args + [e])).(active := false), true)
  }

  /** QEQueryAppendAndOperator. */
  function AppendAndOperator(st: State): (r: (State, bool))
    requires Open(st)
    ensures Open(r.0)
    decreases 4
  {
    if st.active then (st.(error := Syntax), false)
    else if Top(st).kind == OrKind then StartGroup(st.(active := true), AndKind, false)
    else (st.(active := true), true)
  }

  /** _QEQueryStartGroup. */
  function StartGroup(st: State, kind: Kind, negated: bool): (r: (State, bool))
    requires Open(st)
    ensures Open(r.0)
    decreases 3
  {
    var s := if !st.active && Top(st).kind == OrKind then PushGroup(st, AndKind, false) else st;
    (PushGroup(s, kind, negated), true)
  }

  /** _QEQueryPushGroup; memory is not modelled, so it succeeds.  A new AND group takes the last element
      of the group it is opened in. */
  function PushGroup(st: State, kind: Kind, negated: bool): (r: State)
    requires Open(st)
    ensures Open(r)
    decreases 2
  {
    if kind == OrKind then
      st.(frames := st.frames + [Frame(kind, negated, [])], nesting := (st.nesting + 1) % W32)
    else
      var args := Top(st).args;
      if args == [] then st.(frames := st.frames + [Frame(kind, negated, [])])
      else
        var y := args[|args| - 1];
        var s := WithTop(st, Top(st).(args := args[..|args| - 1]));
        AppendElement(s.(frames := s.frames + [Frame(kind, negated, [])]), y).0
  }

  /** _QEQueryPopGroup. */
  function PopGroup(st: State): (r: (State, bool))
    requires Open(st)
    ensures Open(r.0)
  {
    if |st.frames| < 2 then (st.(error := GroupNesting), false)
    else
      var s := st.(frames := Below(st));
      (WithTop(s, Top(s).(args := Top(s).args + [Closed(Top(st))])), true)
  }

  /** _QEQueryPopGroupAndCoalesce: a group of one element gives way to it, handing on its negation. */
  function PopGroupAndCoalesce(st: State, onlyIfCanCoalesce: bool): (r: (State, bool))
    requires Open(st)
    ensures Open(r.0)
  {
    var canCoalesce := |Top(st).args| == 1 && |st.frames| > 1;
    if onlyIfCanCoalesce && !canCoalesce then (st, true)
    else
      var (s, ok) := PopGroup(st);
      if !ok || !canCoalesce then (s, ok)
      else
        var single := Top(st).args[0];
        var rest := Top(s).args[..|Top(s).args| - 1];
        (WithTop(s, Top(s).(args := rest + [if Top(st).negated then Toggled(single) else single])), true)
  }

  /** QEQueryAppendOrOperator. */
  function AppendOrOperator(st: State): (r: (State, bool))
    requires Open(st)
    ensures Open(r.0)
  {
    if st.active then (st.(error := Syntax), false)
    else if Top(st).kind == AndKind then PopGroup(st.(active := true))
    else (st.(active := true), true)
  }

  /** QEQueryEndGroup. */
  function EndGroup(st: State): (r: (State, bool))
    requires Open(st)
    ensures Open(r.0)
  {
    if IsComplete(st) then (st.(error := GroupNesting), false)
    else if Top(st).args == [] then (st.(error := EmptyGroup), false)
    else
      var (s, ok) := if Top(st).kind == AndKind then PopGroup(st) else (st, true);
      if ok then EndOrGroup(s) else (s, false)
  }

  /** The rest of QEQueryEndGroup, when an implicit AND group on top has been closed. */
  function EndOrGroup(st: State): (r: (State, bool))
    requires Open(st)
    ensures Open(r.0)
  {
    if Top(st).kind == AndKind then (st.(error := GroupNesting), false)
    else
      var (s1, ok1) := PopGroupAndCoalesce(st, false);
      if !ok1 then (s1.(error := GroupNesting), false)
      else
        EndImplicit(s1.(nesting := (s1.nesting - 1) % W32))
  }

  /** The AND group that is on top when a group has been closed. */
  function EndImplicit(st: State): (r: (State, bool))
    requires Open(st)
    ensures Open(r.0)
  {
    if Top(st).kind != AndKind then (st, true)
    else
      var (s, ok) := PopGroupAndCoalesce(st, true);
      if ok then (s, true) else (s.(error := GroupNesting), false)
  }
}
