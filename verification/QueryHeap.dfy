/** The elements of a query as objects that refer to each other: which shapes of references the builder makes,
    and how its changes in place keep to them. */
module QueryHeap {
  import opened QueryModel
  import opened QueryParser

  datatype Verb = Client(what: Predicate) | GroupOf(kind: Kind)

  function VerbOf(n: Node): Verb {
    match n
    case Leaf(what, _) => Client(what)
    case Group(kind, _, _) => GroupOf(kind)
  }

  function ArgsOf(n: Node): seq<Node> { if n.Group? then n.args else [] }

  class Element {
    var verb: Verb
    var elements: seq<Element>
    var negated: bool

    constructor (verb: Verb, negated: bool)
      ensures Contents() == Cell(verb, [], negated)
    {
      this.verb := verb;
      this.elements := [];
      this.negated := negated;
    }

    ghost function Contents(): Cell
      reads this
    {
      Cell(verb, elements, negated)
    }

    /** Takes over the negation of a group. */
    method NegateIf(group: bool)
      modifies this
      ensures Contents() == old(Contents()).(negated := old(negated) != group)
    {
      if group { negated := !negated; }
    }
  }

  datatype Cell = Cell(verb: Verb, elements: seq<Element>, negated: bool)

  /** What a complete element stands for, and the only place that refers to it. */
  datatype Entry = Entry(node: Node, parent: Element, index: int)

  /** The contents of all elements of a query; its open groups and what they stand for; its complete elements. */
  datatype Shape = Shape(heap: map<Element, Cell>, stack: seq<Element>, frames: seq<Frame>, closed: map<Element, Entry>)

  ghost predicate Kid(closed: map<Element, Entry>, e: Element, i: int, kid: Element, n: Node) {
    kid in closed && closed[kid] == Entry(n, e, i)
  }

  /** The first of the elements of e stand for ns. */
  ghost predicate Kids(closed: map<Element, Entry>, e: Element, elements: seq<Element>, ns: seq<Node>) {
    && |ns| <= |elements|
    && forall i {:trigger ns[i]} {:trigger elements[i]} :: 0 <= i < |ns| ==> Kid(closed, e, i, elements[i], ns[i])
  }

  ghost predicate StandsFor(closed: map<Element, Entry>, e: Element, cell: Cell, n: Node) {
    cell.verb == VerbOf(n) && cell.negated == n.negated && |cell.elements| == |ArgsOf(n)|
      && Kids(closed, e, cell.elements, ArgsOf(n))
  }

  /** The i-th open group; the next is its last element. */
  ghost predicate OpenAt(h: Shape, i: int)
    requires 0 <= i < |h.stack| == |h.frames|
  {
    var e, f := h.stack[i], h.frames[i];
    && e in h.heap && e !in h.closed
    && OpenCell(h.closed, e, h.heap[e], f, h.stack[i + 1..])
  }

  ghost predicate OpenCell(closed: map<Element, Entry>, e: Element, cell: Cell, f: Frame, above: seq<Element>) {
    && cell.verb == GroupOf(f.kind) && cell.negated == f.negated && Kids(closed, e, cell.elements, f.args)
    && cell.elements[|f.args|..] == if above == [] then [] else [above[0]]
  }

  ghost predicate ClosedAt(h: Shape, e: Element) {
    e in h.heap && e in h.closed && StandsFor(h.closed, e, h.heap[e], h.closed[e].node)
  }

  ghost predicate Distinct(s: seq<Element>) { forall i, j :: 0 <= i < j < |s| ==> s[i] != s[j] }

  ghost predicate Formed(h: Shape) {
    && 0 < |h.stack| == |h.frames| && Distinct(h.stack)
    && (forall i {:trigger OpenAt(h, i)} :: 0 <= i < |h.stack| ==> OpenAt(h, i))
    && (forall e {:trigger ClosedAt(h, e)} :: e in h.closed ==> ClosedAt(h, e))
    && (forall e :: e in h.heap ==> e in h.closed || e in h.stack) && (forall e :: e in h.stack ==> e in h.heap)
  }

  function TopOf(h: Shape): Element
    requires |h.stack| > 0
  {
    h.stack[|h.stack| - 1]
  }

  function TopFrame(h: Shape): Frame
    requires |h.frames| > 0
  {
    h.frames[|h.frames| - 1]
  }

  function WithTopFrame(frames: seq<Frame>, f: Frame): seq<Frame>
    requires |frames| > 0
  {
    frames[..|frames| - 1] + [f]
  }

  lemma TopReplaced(frames: seq<Frame>, f: Frame, g: Frame)
    requires |frames| > 0
    ensures var now := WithTopFrame(frames, f);
      |now| == |frames| && now[|now| - 1] == f && WithTopFrame(now, g) == WithTopFrame(frames, g)
  {
  }

  /** y is not the place of any of these kids, or is new. */
  ghost predicate Elsewhere(closed: map<Element, Entry>, y: Element, e: Element, n: int) {
    y in closed ==> closed[y].parent != e || closed[y].index >= n
  }

  lemma KidsKept(was: map<Element, Entry>, now: map<Element, Entry>, y: Element, e: Element, elements: seq<Element>,
                 ns: seq<Node>)
    requires Kids(was, e, elements, ns) && Elsewhere(was, y, e, |ns|)
    requires forall c :: c in was && c != y ==> c in now && now[c] == was[c]
    ensures Kids(now, e, elements, ns)
  {
    forall i | 0 <= i < |ns| ensures Kid(now, e, i, elements[i], ns[i]) {
      assert Kid(was, e, i, elements[i], ns[i]);
    }
  }

  lemma LeafStandsFor(closed: map<Element, Entry>, e: Element, n: Node)
    ensures n.Leaf? ==> (StandsFor(closed, e, e.Contents(), n) <==> e.Contents() == Cell(Client(n.what), [], n.negated))
  {
  }

  lemma FormedIs(h: Shape)
    requires Formed(h)
    ensures 0 < |h.stack| == |h.frames| && (forall e :: e in h.stack ==> e in h.heap)
  {
  }

  lemma ClosedOwned(h: Shape)
    requires Formed(h)
    ensures h.closed.Keys <= h.heap.Keys
  {
    forall e | e in h.closed ensures e in h.heap { assert ClosedAt(h, e); }
  }

  // ---- appending to the group on top ----

  ghost function Attached(h: Shape, y: Element, cell: Cell, n: Node): Shape
    requires Formed(h)
  {
    var t, f := TopOf(h), TopFrame(h);
    var top := h.heap[t];
    Shape(h.heap[t := top.(elements := top.elements + [y])][y := cell], h.stack,
          WithTopFrame(h.frames, f.(args := f.args + [n])), h.closed[y := Entry(n, t, |f.args|)])
  }

  lemma AttachedIs(h: Shape, y: Element, cell: Cell, n: Node)
    requires Formed(h)
    ensures var f := TopFrame(h); Attached(h, y, cell, n).frames == WithTopFrame(h.frames, f.(args := f.args + [n]))
  {
  }

  lemma AttachKeeps(h: Shape, y: Element, cell: Cell, n: Node)
    requires Formed(h) && y !in h.heap && StandsFor(h.closed, y, cell, n)
    ensures OpenAt(h, |h.stack| - 1) && Formed(Attached(h, y, cell, n))
  {
    var last := |h.stack| - 1;
    var t, f := TopOf(h), TopFrame(h);
    assert OpenAt(h, last);
    var h' := Attached(h, y, cell, n);
    ClosedOwned(h);
    forall i | 0 <= i < |h.stack| ensures OpenAt(h', i) {
      assert OpenAt(h, i);
      KidsKept(h.closed, h'.closed, y, h.stack[i], h.heap[h.stack[i]].elements, h.frames[i].args);
    }
    forall e | e in h'.closed ensures ClosedAt(h', e) {
      if e == y {
        KidsKept(h.closed, h'.closed, y, y, cell.elements, ArgsOf(n));
      } else {
        assert ClosedAt(h, e);
        KidsKept(h.closed, h'.closed, y, e, h.heap[e].elements, ArgsOf(h.closed[e].node));
      }
    }
  }

  // ---- taking the last element out of the group on top ----

  ghost function Yanked(h: Shape, y: Element): Shape
    requires Formed(h) && TopFrame(h).args != []
  {
    YankIs(h);
    var t, f := TopOf(h), TopFrame(h);
    var top := h.heap[t];
    Shape(h.heap[t := top.(elements := top.elements[..|top.elements| - 1])] - {y}, h.stack,
          WithTopFrame(h.frames, f.(args := f.args[..|f.args| - 1])), h.closed - {y})
  }

  lemma YankIs(h: Shape)
    requires Formed(h) && TopFrame(h).args != []
    ensures OpenAt(h, |h.stack| - 1)
    ensures var elements, args := h.heap[TopOf(h)].elements, TopFrame(h).args;
      && |elements| == |args|
      && var y := elements[|elements| - 1];
      && y in h.heap && y !in h.stack && StandsFor(h.closed - {y}, y, h.heap[y], args[|args| - 1])
      && y in h.closed && h.closed[y] == Entry(args[|args| - 1], TopOf(h), |args| - 1)
  {
    assert OpenAt(h, |h.stack| - 1);
    var elements, args := h.heap[TopOf(h)].elements, TopFrame(h).args;
    var y := elements[|elements| - 1];
    assert Kid(h.closed, TopOf(h), |args| - 1, y, args[|args| - 1]);
    assert ClosedAt(h, y);
    forall i | 0 <= i < |h.stack| ensures h.stack[i] != y { assert OpenAt(h, i); }
    KidsKept(h.closed, h.closed - {y}, y, y, h.heap[y].elements, ArgsOf(args[|args| - 1]));
  }

  lemma YankedIs(h: Shape, y: Element)
    requires Formed(h) && TopFrame(h).args != []
    ensures var f := TopFrame(h); Yanked(h, y).frames == WithTopFrame(h.frames, f.(args := f.args[..|f.args| - 1]))
  {
  }

  lemma YankKeeps(h: Shape, y: Element)
    requires Formed(h) && TopFrame(h).args != []
    requires var elements := h.heap[TopOf(h)].elements; elements != [] && y == elements[|elements| - 1]
    ensures Formed(Yanked(h, y)) && y !in Yanked(h, y).heap
  {
    YankIs(h);
    var last := |h.stack| - 1;
    var h' := Yanked(h, y);
    forall i | 0 <= i < |h.stack| ensures OpenAt(h', i) {
      assert OpenAt(h, i);
      KidsKept(h.closed, h'.closed, y, h.stack[i], h'.heap[h.stack[i]].elements, h'.frames[i].args);
    }
    forall e | e in h'.closed ensures ClosedAt(h', e) {
      assert ClosedAt(h, e);
      KidsKept(h.closed, h'.closed, y, e, h.heap[e].elements, ArgsOf(h.closed[e].node));
    }
  }

  // ---- a new group on top ----

  ghost function Pushed(h: Shape, g: Element, f: Frame): Shape
    requires Formed(h)
  {
    var top := h.heap[TopOf(h)];
    Shape(h.heap[TopOf(h) := top.(elements := top.elements + [g])][g := Cell(GroupOf(f.kind), [], f.negated)],
          h.stack + [g], h.frames + [f], h.closed)
  }

  lemma PushedIs(h: Shape, g: Element, f: Frame)
    requires Formed(h)
    ensures Pushed(h, g, f).closed == h.closed && Pushed(h, g, f).frames == h.frames + [f]
  {
  }

  lemma PushedOpen(h: Shape, g: Element, f: Frame)
    requires Formed(h) && g !in h.heap && f.args == []
    ensures var h' := Pushed(h, g, f);
      && |h'.stack| == |h'.frames| && Distinct(h'.stack)
      && forall i {:trigger OpenAt(h', i)} :: 0 <= i < |h'.stack| ==> OpenAt(h', i)
  {
    var last := |h.stack| - 1;
    var h' := Pushed(h, g, f);
    ClosedOwned(h);
    forall i | 0 <= i < |h'.stack| ensures OpenAt(h', i) {
      if i <= last { assert OpenAt(h, i) && OpenAt(h, last); }
    }
  }

  lemma PushedClosed(h: Shape, g: Element, f: Frame)
    requires Formed(h) && g !in h.heap && f.args == []
    ensures var h' := Pushed(h, g, f); forall e {:trigger ClosedAt(h', e)} :: e in h'.closed ==> ClosedAt(h', e)
  {
    hide Kids;
    var h' := Pushed(h, g, f);
    assert OpenAt(h, |h.stack| - 1);
    forall e | e in h'.closed ensures ClosedAt(h', e) { assert ClosedAt(h, e); }
  }

  lemma PushKeeps(h: Shape, g: Element, f: Frame)
    requires Formed(h) && g !in h.heap && f.args == []
    ensures OpenAt(h, |h.stack| - 1) && Formed(Pushed(h, g, f))
  {
    hide OpenAt, ClosedAt;
    PushedOpen(h, g, f);
    PushedClosed(h, g, f);
  }

  // ---- the group on top is complete ----

  function Popped(h: Shape): Shape
    requires |h.stack| == |h.frames| > 1
  {
    var k := |h.stack| - 1;
    var f := h.frames[k - 1];
    Shape(h.heap, h.stack[..k], h.frames[..k - 1] + [f.(args := f.args + [Closed(h.frames[k])])],
          h.closed[h.stack[k] := Entry(Closed(h.frames[k]), h.stack[k - 1], |f.args|)])
  }

  lemma PoppedIs(h: Shape)
    requires |h.stack| == |h.frames| > 1
    ensures var below := h.frames[..|h.frames| - 1];
      var f := below[|below| - 1];
      Popped(h).frames == WithTopFrame(below, f.(args := f.args + [Closed(TopFrame(h))]))
  {
    var below := h.frames[..|h.frames| - 1];
    assert below[..|below| - 1] == h.frames[..|h.frames| - 2];
  }

  /** The group below is on top now. */
  lemma UncoveredOpen(h: Shape)
    requires Formed(h) && |h.stack| > 1
    ensures var k := |h.stack| - 1;
      && h.stack[k - 1] in h.heap && h.stack[k - 1] != h.stack[k]
      && OpenCell(Popped(h).closed, h.stack[k - 1], h.heap[h.stack[k - 1]], Popped(h).frames[k - 1], [])
      && h.stack[k - 1] !in Popped(h).closed
  {
    var k := |h.stack| - 1;
    var e, f := h.stack[k - 1], h.frames[k - 1];
    var closed := Popped(h).closed;
    assert OpenAt(h, k - 1) && OpenAt(h, k);
    var elements := h.heap[e].elements;
    assert elements[|f.args|..][0] == h.stack[k..][0];
    KidsKept(h.closed, closed, h.stack[k], e, elements, f.args);
    var ns := f.args + [Closed(h.frames[k])];
    forall i | 0 <= i < |ns| ensures Kid(closed, e, i, elements[i], ns[i]) {
      if i < |f.args| { assert Kid(closed, e, i, elements[i], f.args[i]); }
    }
  }

  lemma PopKeeps(h: Shape)
    requires Formed(h) && |h.stack| > 1
    ensures Formed(Popped(h))
  {
    var k := |h.stack| - 1;
    var t := h.stack[k];
    var h' := Popped(h);
    assert OpenAt(h, k);
    UncoveredOpen(h);
    forall i | 0 <= i < k ensures OpenAt(h', i) {
      if i < k - 1 {
        assert OpenAt(h, i);
        KidsKept(h.closed, h'.closed, t, h.stack[i], h.heap[h.stack[i]].elements, h.frames[i].args);
        assert h'.stack[i + 1..][0] == h.stack[i + 1..][0];
      } else {
        assert h'.stack[i + 1..] == [];
      }
    }
    PoppedClosed(h);
  }

  lemma PoppedClosed(h: Shape)
    requires Formed(h) && |h.stack| > 1
    ensures forall e {:trigger ClosedAt(Popped(h), e)} :: e in Popped(h).closed ==> ClosedAt(Popped(h), e)
  {
    var k := |h.stack| - 1;
    var t := h.stack[k];
    var h' := Popped(h);
    assert OpenAt(h, k);
    forall e | e in h'.closed ensures ClosedAt(h', e) {
      if e == t {
        KidsKept(h.closed, h'.closed, t, t, h.heap[t].elements, TopFrame(h).args);
      } else {
        assert ClosedAt(h, e);
        KidsKept(h.closed, h'.closed, t, e, h.heap[e].elements, ArgsOf(h.closed[e].node));
      }
    }
  }

  // ---- an element whose group is gone ----

  function Dropped(h: Shape, y: Element): Shape { Shape(h.heap - {y}, h.stack, h.frames, h.closed - {y}) }

  lemma DropKeeps(h: Shape, y: Element)
    requires Formed(h) && y in h.closed && h.closed[y].parent !in h.heap
    ensures Formed(Dropped(h, y)) && ClosedAt(h, y) && StandsFor(Dropped(h, y).closed, y, h.heap[y], h.closed[y].node)
  {
    var h' := Dropped(h, y);
    assert ClosedAt(h, y);
    KidsKept(h.closed, h'.closed, y, y, h.heap[y].elements, ArgsOf(h.closed[y].node));
    forall i | 0 <= i < |h.stack| ensures h.stack[i] in h'.heap && OpenAt(h', i) {
      assert OpenAt(h, i);
      KidsKept(h.closed, h'.closed, y, h.stack[i], h.heap[h.stack[i]].elements, h.frames[i].args);
    }
    forall e | e in h'.closed ensures ClosedAt(h', e) {
      assert ClosedAt(h, e);
      KidsKept(h.closed, h'.closed, y, e, h.heap[e].elements, ArgsOf(h.closed[e].node));
    }
  }

  // ---- a group of one element gives way to it ----

  function Survivor(g: Node): Node
    requires g.Group? && |g.args| == 1
  {
    if g.negated then Toggled(g.args[0]) else g.args[0]
  }

  lemma SurvivorIs(g: Node)
    requires g.Group? && |g.args| == 1
    ensures Survivor(g) == if g.negated then Toggled(g.args[0]) else g.args[0]
  {
  }

  function WithoutLast(f: Frame): Frame
    requires f.args != []
  {
    f.(args := f.args[..|f.args| - 1])
  }

  /** The last element of the group on top is the group g, whose only element is single. */
  ghost predicate LastIsSingle(h: Shape, single: Element, g: Node) {
    && |h.stack| > 0 && |h.frames| > 0 && TopOf(h) in h.heap && TopFrame(h).args != []
    && g.Group? && |g.args| == 1 && TopFrame(h).args[|TopFrame(h).args| - 1] == g
    && var elements := h.heap[TopOf(h)].elements;
    && elements != [] && elements[|elements| - 1] in h.heap && h.heap[elements[|elements| - 1]].elements == [single]
  }

  /** single is referred to by the group alone. */
  lemma SingleIs(h: Shape, single: Element, g: Node)
    requires Formed(h) && LastIsSingle(h, single, g)
    ensures var elements := h.heap[TopOf(h)].elements;
      single in h.closed && single in h.heap && h.closed[single] == Entry(g.args[0], elements[|elements| - 1], 0)
      && single != elements[|elements| - 1] && single != TopOf(h)
  {
    YankIs(h);
    var y := h.heap[TopOf(h)].elements[|h.heap[TopOf(h)].elements| - 1];
    assert ClosedAt(h, y) && Kid(h.closed, y, 0, single, g.args[0]);
    assert ClosedAt(h, single);
    assert OpenAt(h, |h.stack| - 1);
  }

  lemma SingleDropped(h: Shape, single: Element, g: Node, y: Element)
    requires Formed(h) && LastIsSingle(h, single, g) && Formed(Yanked(h, y))
    requires var elements := h.heap[TopOf(h)].elements; y == elements[|elements| - 1]
    ensures var h' := Yanked(h, y);
      && single in h'.heap && Formed(Dropped(h', single))
      && StandsFor(Dropped(h', single).closed, single, h'.heap[single], g.args[0])
      && Dropped(h', single).frames == h'.frames && single != TopOf(h')
  {
    SingleIs(h, single, g);
    YankKeeps(h, y);
    DropKeeps(Yanked(h, y), single);
  }

  lemma GroupStandsFor(closed: map<Element, Entry>, e: Element, cell: Cell, n: Node)
    requires StandsFor(closed, e, cell, n)
    ensures cell.negated == n.negated
  {
  }

  lemma NegatedStandsFor(closed: map<Element, Entry>, e: Element, cell: Cell, n: Node, group: bool)
    requires StandsFor(closed, e, cell, n)
    ensures StandsFor(closed, e, cell.(negated := cell.negated != group), if group then Toggled(n) else n)
  {
  }

  lemma TopIs(h: Shape)
    requires Formed(h)
    ensures TopOf(h) in h.heap && |h.heap[TopOf(h)].elements| == |TopFrame(h).args|
    ensures TopOf(h) == h.stack[0] <==> |h.stack| == 1
  {
    assert OpenAt(h, |h.stack| - 1);
  }

  lemma LoneElement(h: Shape)
    requires Formed(h) && |h.stack| > 1 && |TopFrame(h).args| == 1
    ensures |h.heap[TopOf(h)].elements| == 1 && h.heap[TopOf(h)].elements[0] in h.heap
    ensures LastIsSingle(Popped(h), h.heap[TopOf(h)].elements[0], Closed(TopFrame(h)))
  {
    var k := |h.stack| - 1;
    assert OpenAt(h, k) && OpenAt(h, k - 1);
    var single := h.heap[TopOf(h)].elements[0];
    assert Kid(h.closed, TopOf(h), 0, single, TopFrame(h).args[0]);
    assert ClosedAt(h, single);
    var below := h.heap[h.stack[k - 1]].elements;
    assert below[|h.frames[k - 1].args|..][0] == h.stack[k];
  }

  // ---- the tree an element stands for ----

  /** Following the references from e gives the tree n. */
  ghost predicate Shows(heap: map<Element, Cell>, e: Element, n: Node) {
    && e in heap && heap[e].verb == VerbOf(n) && heap[e].negated == n.negated && |heap[e].elements| == |ArgsOf(n)|
    && (n.Group? ==> forall i :: 0 <= i < |n.args| ==> Shows(heap, heap[e].elements[i], n.args[i]))
  }

  lemma {:induction false} ClosedShows(h: Shape, e: Element, n: Node)
    requires Formed(h) && e in h.closed && h.closed[e].node == n
    ensures Shows(h.heap, e, n)
    decreases n
  {
    assert ClosedAt(h, e);
    if n.Group? {
      var elements := h.heap[e].elements;
      forall i | 0 <= i < |n.args| ensures Shows(h.heap, elements[i], n.args[i]) {
        assert Kid(h.closed, e, i, elements[i], n.args[i]);
        ClosedShows(h, elements[i], n.args[i]);
      }
    }
  }

  /** The tree of the open groups from the i-th on. */
  function OpenTree(frames: seq<Frame>): Node
    requires frames != []
    decreases |frames|
  {
    var f := frames[0];
    Group(f.kind, f.negated, f.args + if |frames| == 1 then [] else [OpenTree(frames[1..])])
  }

  lemma {:induction false} OpenShows(h: Shape, i: nat)
    requires Formed(h) && i < |h.stack|
    ensures Shows(h.heap, h.stack[i], OpenTree(h.frames[i..]))
    decreases |h.stack| - i
  {
    assert OpenAt(h, i);
    var e, f, n := h.stack[i], h.frames[i], OpenTree(h.frames[i..]);
    var elements := h.heap[e].elements;
    if i + 1 < |h.stack| {
      OpenShows(h, i + 1);
      assert h.frames[i..][1..] == h.frames[i + 1..];
      assert elements[|f.args|..][0] == h.stack[i + 1..][0];
    }
    forall j | 0 <= j < |n.args| ensures Shows(h.heap, elements[j], n.args[j]) {
      if j < |f.args| {
        assert Kid(h.closed, e, j, elements[j], f.args[j]);
        ClosedShows(h, elements[j], f.args[j]);
      }
    }
  }

  /** Closing the open groups one after the other gives the same tree. */
  lemma {:induction false} OpenTreeFolds(base: seq<Frame>, f: Frame, g: Frame)
    ensures OpenTree(base + [f, g]) == OpenTree(base + [f.(args := f.args + [Closed(g)])])
    decreases |base|
  {
    assert g.args + [] == g.args && f.args + [Closed(g)] + [] == f.args + [Closed(g)];
    if base == [] {
      assert [f, g][1..] == [g];
      assert [] + [f, g] == [f, g];
    } else {
      assert (base + [f, g])[1..] == base[1..] + [f, g];
      assert (base + [f.(args := f.args + [Closed(g)])])[1..] == base[1..] + [f.(args := f.args + [Closed(g)])];
      OpenTreeFolds(base[1..], f, g);
    }
  }

  lemma {:induction false} OpenTreeIsTree(frames: seq<Frame>)
    requires frames != []
    ensures OpenTree(frames) == Tree(frames)
    decreases |frames|
  {
    var last := |frames| - 1;
    if last == 0 {
      assert frames[0].args + [] == frames[0].args;
    } else {
      var f := frames[last - 1];
      assert frames == frames[..last - 1] + [f, frames[last]];
      OpenTreeFolds(frames[..last - 1], f, frames[last]);
      OpenTreeIsTree(frames[..last - 1] + [f.(args := f.args + [Closed(frames[last])])]);
    }
  }

  /** The root stands for the whole tree. */
  lemma RootShows(h: Shape)
    requires Formed(h)
    ensures Shows(h.heap, h.stack[0], Tree(h.frames))
  {
    OpenShows(h, 0);
    OpenTreeIsTree(h.frames);
    assert h.frames[0..] == h.frames;
  }
}
