/** The 256 binary search trees of the LZSS encoder, as the values of its three link arrays.

    `sub[x]` is the set of nodes of the subtree rooted at x.  Every node is a member of its own
    subtree and of neither child's, so a chain of child links strictly shrinks these finite sets:
    the trees are acyclic and every descent ends. */
module LzssForest {
  import opened LzssKeys

  datatype Links = Links(lchild: seq<int>, rchild: seq<int>, parent: seq<int>)

  ghost predicate Sized(k: Links) {
    |k.lchild| == N + 1 && |k.rchild| == N + 257 && |k.parent| == N + 1
  }

  /** x is linked into a tree. */
  ghost predicate Node(k: Links, x: int)
    requires Sized(k)
  {
    0 <= x < N && k.parent[x] != NIL
  }

  /** The set of linked positions. */
  ghost function Nodes(k: Links): (s: set<int>)
    requires Sized(k)
    ensures forall x :: x in s <==> Node(k, x)
  {
    set x | 0 <= x < N && Node(k, x)
  }

  /** The subtree hanging off a link, which may be NIL. */
  ghost function Sub(sub: seq<set<int>>, x: int): set<int>
    requires |sub| == N
  {
    if 0 <= x < N then sub[x] else {}
  }

  /** What orders the strings: the rank of the string at each position, and its first byte. */
  datatype Order = Order(rank: seq<int>, head: seq<int>)

  ghost predicate Ranked(o: Order) {
    |o.rank| == N && |o.head| == N && forall x :: 0 <= x < N ==> 0 <= o.head[x] < 256
  }

  /** A link leads to NIL or to a node that names the link's owner as its parent. */
  ghost predicate ChildLink(k: Links, x: int, c: int)
    requires Sized(k)
  {
    c == NIL || (Node(k, c) && k.parent[c] == x)
  }

  /** x hangs off a link of its parent, or off the right link of a root. */
  ghost predicate ParentLink(k: Links, x: int)
    requires Sized(k) && Node(k, x)
  {
    var q := k.parent[x];
    if 0 <= q < N then Node(k, q) && (k.lchild[q] == x || k.rchild[q] == x)
    else ROOT <= q < ROOT + 256 && k.rchild[q] == x
  }

  /** The links of x agree with its neighbours'. */
  ghost predicate LinkedAt(k: Links, x: int)
    requires Sized(k) && Node(k, x)
  {
    ParentLink(k, x) && ChildLink(k, x, k.lchild[x]) && ChildLink(k, x, k.rchild[x])
  }

  /** The subtree of x is x and its children's subtrees, and consists of nodes. */
  ghost predicate SubtreeAt(k: Links, sub: seq<set<int>>, x: int)
    requires Sized(k) && |sub| == N && Node(k, x)
  {
    && sub[x] == {x} + Sub(sub, k.lchild[x]) + Sub(sub, k.rchild[x])
    && (forall y :: y in sub[x] ==> 0 <= y < N && k.parent[y] != NIL)
  }

  /** x separates the strings on its left from those on its right. */
  ghost predicate OrderedAt(k: Links, sub: seq<set<int>>, o: Order, x: int)
    requires Sized(k) && |sub| == N && Ranked(o) && Node(k, x)
  {
    && (forall y :: y in Sub(sub, k.lchild[x]) ==> 0 <= y < N && o.rank[y] < o.rank[x])
    && (forall y :: y in Sub(sub, k.rchild[x]) ==> 0 <= y < N && o.rank[y] > o.rank[x])
  }

  ghost predicate NodeAt(k: Links, sub: seq<set<int>>, o: Order, x: int)
    requires Sized(k) && |sub| == N && Ranked(o) && Node(k, x)
  {
    LinkedAt(k, x) && SubtreeAt(k, sub, x) && OrderedAt(k, sub, o, x)
  }

  /** The subtree at x consists of the nodes whose string starts with byte c. */
  ghost predicate HoldsHead(k: Links, sub: seq<set<int>>, o: Order, x: int, c: int)
    requires Sized(k) && |sub| == N && Ranked(o)
  {
    forall y :: y in Sub(sub, x) <==> 0 <= y < N && k.parent[y] != NIL && o.head[y] == c
  }

  /** The tree under root c holds exactly the nodes whose string starts with that byte. */
  ghost predicate RootAt(k: Links, sub: seq<set<int>>, o: Order, c: int)
    requires Sized(k) && |sub| == N && Ranked(o) && 0 <= c < 256
  {
    && ChildLink(k, ROOT + c, k.rchild[ROOT + c])
    && HoldsHead(k, sub, o, k.rchild[ROOT + c], c)
  }

  /** 256 search trees, ordered by the F-byte strings of their nodes. */
  ghost predicate Forest(k: Links, sub: seq<set<int>>, o: Order) {
    && Sized(k) && |sub| == N && Ranked(o)
    && (forall x {:trigger NodeAt(k, sub, o, x)} :: Node(k, x) ==> NodeAt(k, sub, o, x))
    && (forall c {:trigger RootAt(k, sub, o, c)} :: 0 <= c < 256 ==> RootAt(k, sub, o, c))
  }

  lemma EmptyForest(k: Links, sub: seq<set<int>>, o: Order)
    requires Sized(k) && |sub| == N && Ranked(o)
    requires forall x :: 0 <= x < N ==> k.parent[x] == NIL
    requires forall c :: ROOT <= c < ROOT + 256 ==> k.rchild[c] == NIL
    ensures Forest(k, sub, o) && Nodes(k) == {}
  {
    forall c | 0 <= c < 256 ensures RootAt(k, sub, o, c) {
      assert k.rchild[ROOT + c] == NIL;
    }
  }

  /** Only the strings of nodes matter. */
  lemma SameStringsSameForest(k: Links, sub: seq<set<int>>, o: Order, o': Order)
    requires Forest(k, sub, o) && Ranked(o')
    requires forall x :: x in Nodes(k) ==> o'.rank[x] == o.rank[x] && o'.head[x] == o.head[x]
    ensures Forest(k, sub, o')
  {
    forall x | Node(k, x) ensures NodeAt(k, sub, o', x) {
      assert NodeAt(k, sub, o, x) && x in Nodes(k);
      forall y | y in sub[x] ensures o'.rank[y] == o.rank[y] { assert y in Nodes(k); }
    }
    forall c | 0 <= c < 256 ensures RootAt(k, sub, o', c) {
      assert RootAt(k, sub, o, c);
      forall y | 0 <= y < N && k.parent[y] != NIL ensures o'.head[y] == o.head[y] { assert y in Nodes(k); }
    }
  }

  /** No node lies below itself, and the two subtrees of a node are disjoint. */
  lemma Acyclic(k: Links, sub: seq<set<int>>, o: Order, x: int)
    requires Forest(k, sub, o) && Node(k, x)
    ensures x in sub[x] && x !in Sub(sub, k.lchild[x]) && x !in Sub(sub, k.rchild[x])
    ensures Sub(sub, k.lchild[x]) < sub[x] && Sub(sub, k.rchild[x]) < sub[x]
    ensures Sub(sub, k.lchild[x]) !! Sub(sub, k.rchild[x])
    ensures k.lchild[x] != NIL ==> k.lchild[x] != k.rchild[x]
  {
    assert NodeAt(k, sub, o, x);
    if k.lchild[x] != NIL { assert NodeAt(k, sub, o, k.lchild[x]); }
    forall y | y in Sub(sub, k.lchild[x]) ensures y !in Sub(sub, k.rchild[x]) {}
  }

  /** A subtree that holds a node other than its root holds that node's parent. */
  lemma {:induction false} ParentInSubtree(k: Links, sub: seq<set<int>>, o: Order, x: int, y: int)
    requires Forest(k, sub, o) && Node(k, x) && y in sub[x] && y != x
    ensures 0 <= y < N && k.parent[y] in sub[x]
    decreases sub[x]
  {
    Acyclic(k, sub, o, x);
    assert NodeAt(k, sub, o, x);
    var c := if y in Sub(sub, k.lchild[x]) then k.lchild[x] else k.rchild[x];
    if y != c {
      ParentInSubtree(k, sub, o, c, y);
    }
  }

  // ---- the three ways the encoder changes the links ----

  /** The links of a position outside the trees do not matter. */
  lemma ClearKeepsForest(k: Links, sub: seq<set<int>>, o: Order, r: int)
    requires Forest(k, sub, o) && 0 <= r < N && !Node(k, r)
    ensures var k' := k.(lchild := k.lchild[r := NIL], rchild := k.rchild[r := NIL]);
      Forest(k', sub, o) && Nodes(k') == Nodes(k)
  {
    var k' := k.(lchild := k.lchild[r := NIL], rchild := k.rchild[r := NIL]);
    forall x | Node(k', x) ensures NodeAt(k', sub, o, x) {
      assert NodeAt(k, sub, o, x);
    }
    forall c | 0 <= c < 256 ensures RootAt(k', sub, o, c) {
      assert RootAt(k, sub, o, c);
    }
  }

  /** A new leaf r under the right (or left) link of p, which is a node or a root. */
  ghost function LeafLinks(k: Links, p: int, right: bool, r: int): Links
    requires Sized(k) && 0 <= r < N && 0 <= p < ROOT + 256 && (right || p < N)
  {
    var l := k.lchild[r := NIL];
    var rt := k.rchild[r := NIL];
    Links(if right then l else l[p := r], if right then rt[p := r] else rt, k.parent[r := p])
  }

  ghost function LeafSub(sub: seq<set<int>>, p: int, r: int): seq<set<int>>
    requires |sub| == N
  {
    seq(N, x requires 0 <= x < N => if x == r then {r} else if p in sub[x] then sub[x] + {r} else sub[x])
  }

  /** A descent towards string r that has reached p went the right way at x. */
  ghost predicate PathAt(k: Links, sub: seq<set<int>>, o: Order, p: int, r: int, x: int)
    requires Sized(k) && |sub| == N && Ranked(o) && 0 <= r < N && Node(k, x)
  {
    && (p in Sub(sub, k.lchild[x]) ==> o.rank[r] < o.rank[x])
    && (p in Sub(sub, k.rchild[x]) ==> o.rank[r] > o.rank[x])
  }

  /** p lies on the search path of string r. */
  ghost predicate OnPath(k: Links, sub: seq<set<int>>, o: Order, p: int, r: int)
    requires Sized(k) && |sub| == N && Ranked(o) && 0 <= r < N
  {
    if 0 <= p < N then
      && Node(k, p) && o.head[p] == o.head[r]
      && forall x {:trigger PathAt(k, sub, o, p, r, x)} :: Node(k, x) ==> PathAt(k, sub, o, p, r, x)
    else p == ROOT + o.head[r]
  }

  ghost predicate GoesRight(o: Order, p: int, r: int)
    requires Ranked(o) && 0 <= r < N && p >= 0
  {
    p < N ==> o.rank[r] > o.rank[p]
  }

  lemma LeafLinkedAt(k: Links, sub: seq<set<int>>, o: Order, p: int, right: bool, r: int, x: int)
    requires Forest(k, sub, o) && 0 <= r < N && !Node(k, r)
    requires OnPath(k, sub, o, p, r)
    requires if right then k.rchild[p] == NIL && GoesRight(o, p, r)
             else p < N && k.lchild[p] == NIL && o.rank[r] < o.rank[p]
    requires Node(LeafLinks(k, p, right, r), x)
    ensures LinkedAt(LeafLinks(k, p, right, r), x)
  {
    if p < N { assert NodeAt(k, sub, o, p); }
    if x != r { assert NodeAt(k, sub, o, x); }
  }

  lemma LeafSubtreeAt(k: Links, sub: seq<set<int>>, o: Order, p: int, right: bool, r: int, x: int)
    requires Forest(k, sub, o) && 0 <= r < N && !Node(k, r)
    requires OnPath(k, sub, o, p, r)
    requires if right then k.rchild[p] == NIL && GoesRight(o, p, r)
             else p < N && k.lchild[p] == NIL && o.rank[r] < o.rank[p]
    requires Node(LeafLinks(k, p, right, r), x)
    ensures SubtreeAt(LeafLinks(k, p, right, r), LeafSub(sub, p, r), x)
  {
    hide ParentLink, OrderedAt, HoldsHead;
    if p < N { assert NodeAt(k, sub, o, p); }
    if x != r { assert NodeAt(k, sub, o, x); }
  }

  lemma LeafOrderedAt(k: Links, sub: seq<set<int>>, o: Order, p: int, right: bool, r: int, x: int)
    requires Forest(k, sub, o) && 0 <= r < N && !Node(k, r)
    requires OnPath(k, sub, o, p, r)
    requires if right then k.rchild[p] == NIL && GoesRight(o, p, r)
             else p < N && k.lchild[p] == NIL && o.rank[r] < o.rank[p]
    requires Node(LeafLinks(k, p, right, r), x)
    ensures OrderedAt(LeafLinks(k, p, right, r), LeafSub(sub, p, r), o, x)
  {
    if p < N { assert NodeAt(k, sub, o, p); }
    if x != r {
      assert NodeAt(k, sub, o, x);
      if p < N { assert PathAt(k, sub, o, p, r, x); }
    }
  }

  lemma LeafRootAt(k: Links, sub: seq<set<int>>, o: Order, p: int, right: bool, r: int, c: int)
    requires Forest(k, sub, o) && 0 <= r < N && !Node(k, r)
    requires OnPath(k, sub, o, p, r) && 0 <= c < 256
    requires if right then k.rchild[p] == NIL else p < N && k.lchild[p] == NIL
    ensures RootAt(LeafLinks(k, p, right, r), LeafSub(sub, p, r), o, c)
  {
    assert RootAt(k, sub, o, c);
  }

  lemma LeafKeepsForest(k: Links, sub: seq<set<int>>, o: Order, p: int, right: bool, r: int)
    requires Forest(k, sub, o) && 0 <= r < N && !Node(k, r)
    requires OnPath(k, sub, o, p, r)
    requires if right then k.rchild[p] == NIL && GoesRight(o, p, r)
             else p < N && k.lchild[p] == NIL && o.rank[r] < o.rank[p]
    ensures Forest(LeafLinks(k, p, right, r), LeafSub(sub, p, r), o)
    ensures Nodes(LeafLinks(k, p, right, r)) == Nodes(k) + {r}
  {
    hide LinkedAt, SubtreeAt, OrderedAt, RootAt, PathAt;
    var k', sub' := LeafLinks(k, p, right, r), LeafSub(sub, p, r);
    forall x | Node(k', x) ensures NodeAt(k', sub', o, x) {
      LeafLinkedAt(k, sub, o, p, right, r, x);
      LeafSubtreeAt(k, sub, o, p, right, r, x);
      LeafOrderedAt(k, sub, o, p, right, r, x);
    }
    forall c | 0 <= c < 256 ensures RootAt(k', sub', o, c) {
      LeafRootAt(k, sub, o, p, right, r, c);
    }
  }

  /** The links of p index the arrays they are used on. */
  ghost predicate Bounded(k: Links, p: int) {
    && Sized(k) && 0 <= p < N && 0 <= k.lchild[p] <= N && 0 <= k.rchild[p] <= N
    && 0 <= k.parent[p] < ROOT + 256 && k.parent[p] != NIL
    && (k.rchild[k.parent[p]] == p || k.parent[p] < N)
  }

  lemma NodeBounds(k: Links, sub: seq<set<int>>, o: Order, p: int)
    requires Forest(k, sub, o) && Node(k, p)
    ensures Bounded(k, p)
  {
    assert NodeAt(k, sub, o, p);
  }

  /** r takes the place of p, whose string is the same; the slot of NIL in `parent` is scratch. */
  ghost function ReplacedLinks(k: Links, p: int, r: int): Links
    requires Bounded(k, p) && 0 <= r < N && r != p
  {
    var k1 := Links(k.lchild[r := k.lchild[p]], k.rchild[r := k.rchild[p]],
                    k.parent[r := k.parent[p]][k.lchild[p] := r][k.rchild[p] := r]);
    if k.rchild[k.parent[p]] == p then k1.(rchild := k1.rchild[k.parent[p] := r], parent := k1.parent[p := NIL])
    else k1.(lchild := k1.lchild[k.parent[p] := r], parent := k1.parent[p := NIL])
  }

  /** The places r's links are taken from and written to do not meet. */
  ghost predicate ReplacePair(k: Links, p: int, r: int) {
    && Bounded(k, p) && 0 <= r < N && r != p
    && k.lchild[p] != p && k.rchild[p] != p && k.parent[p] != p
    && k.lchild[p] != r && k.rchild[p] != r && k.parent[p] != r
  }

  lemma ReplacePairs(k: Links, sub: seq<set<int>>, o: Order, p: int, r: int)
    requires Forest(k, sub, o) && Node(k, p) && 0 <= r < N && !Node(k, r)
    ensures ReplacePair(k, p, r)
  {
    assert NodeAt(k, sub, o, p);
    Acyclic(k, sub, o, p);
  }

  ghost function Rename(x: int, p: int, r: int): int { if x == p then r else x }

  /** k' is k with node p renamed to r. */
  ghost predicate Renamed(k: Links, k': Links, p: int, r: int)
    requires Sized(k) && 0 <= p < N && 0 <= r < N
  {
    && Sized(k')
    && k'.lchild[r] == k.lchild[p] && k'.rchild[r] == k.rchild[p] && k'.parent[r] == k.parent[p]
    && k'.parent[p] == NIL
    && (forall x {:trigger k'.parent[x]} {:trigger RenamedAt(k, k', p, r, x)} ::
          0 <= x < N && x != p && x != r ==> RenamedAt(k, k', p, r, x))
    && (forall c {:trigger k'.rchild[c]} :: ROOT <= c < ROOT + 256 ==> k'.rchild[c] == Rename(k.rchild[c], p, r))
  }

  ghost predicate RenamedAt(k: Links, k': Links, p: int, r: int, x: int)
    requires Sized(k) && Sized(k') && 0 <= x < N
  {
    && k'.parent[x] == Rename(k.parent[x], p, r)
    && (k.parent[x] != NIL ==> k'.lchild[x] == Rename(k.lchild[x], p, r) && k'.rchild[x] == Rename(k.rchild[x], p, r))
  }

  lemma ReplacedRenamesAt(k: Links, sub: seq<set<int>>, o: Order, p: int, r: int, x: int)
    requires Forest(k, sub, o) && Bounded(k, p) && 0 <= r < N && !Node(k, r)
    requires 0 <= x < N && x != p && x != r
    ensures RenamedAt(k, ReplacedLinks(k, p, r), p, r, x)
  {
    assert NodeAt(k, sub, o, p);
    Acyclic(k, sub, o, p);
    if Node(k, x) {
      assert NodeAt(k, sub, o, x);
      Acyclic(k, sub, o, x);
    }
  }

  ghost function ReplacedSub(sub: seq<set<int>>, p: int, r: int): seq<set<int>>
    requires |sub| == N && 0 <= p < N
  {
    seq(N, x requires 0 <= x < N =>
      if x == r then sub[p] - {p} + {r} else if p in sub[x] then sub[x] - {p} + {r} else sub[x])
  }

  lemma ReplacedRenames(k: Links, sub: seq<set<int>>, o: Order, p: int, r: int)
    requires Forest(k, sub, o) && Bounded(k, p) && 0 <= r < N && !Node(k, r)
    ensures Renamed(k, ReplacedLinks(k, p, r), p, r)
  {
    var k' := ReplacedLinks(k, p, r);
    assert NodeAt(k, sub, o, p);
    Acyclic(k, sub, o, p);
    forall x | 0 <= x < N && x != p && x != r ensures RenamedAt(k, k', p, r, x) {
      ReplacedRenamesAt(k, sub, o, p, r, x);
    }
    forall c | ROOT <= c < ROOT + 256 ensures k'.rchild[c] == Rename(k.rchild[c], p, r) {
      assert RootAt(k, sub, o, c - ROOT);
    }
  }

  lemma RenamedLinkedAt(k: Links, sub: seq<set<int>>, o: Order, k': Links, p: int, r: int, x: int)
    requires Forest(k, sub, o) && Node(k, p) && 0 <= r < N && !Node(k, r)
    requires Renamed(k, k', p, r) && Node(k', x)
    ensures LinkedAt(k', x)
  {
    assert NodeAt(k, sub, o, p);
    Acyclic(k, sub, o, p);
    if x != r {
      assert NodeAt(k, sub, o, x);
      Acyclic(k, sub, o, x);
    }
  }

  /** The subtree of a child, which is not the new node, is the old one with p renamed. */
  lemma RenamedSubOf(k: Links, sub: seq<set<int>>, o: Order, p: int, r: int, c: int)
    requires Forest(k, sub, o) && Node(k, p) && 0 <= r < N && !Node(k, r) && (c == NIL || Node(k, c))
    ensures var s := Sub(sub, c);
      Sub(ReplacedSub(sub, p, r), Rename(c, p, r)) == if p in s then s - {p} + {r} else s
  {
    if c != NIL {
      assert NodeAt(k, sub, o, c);
      if c == p { assert p in sub[p]; }
    }
  }

  lemma RenamedSubtreeAt(k: Links, sub: seq<set<int>>, o: Order, k': Links, p: int, r: int, x: int)
    requires Forest(k, sub, o) && Node(k, p) && 0 <= r < N && !Node(k, r)
    requires Renamed(k, k', p, r) && Node(k', x)
    ensures SubtreeAt(k', ReplacedSub(sub, p, r), x)
  {
    var y := if x == r then p else x;
    assert NodeAt(k, sub, o, y);
    assert NodeAt(k, sub, o, p);
    Acyclic(k, sub, o, y);
    RenamedSubOf(k, sub, o, p, r, k.lchild[y]);
    RenamedSubOf(k, sub, o, p, r, k.rchild[y]);
    hide Forest, OrderedAt, HoldsHead, ParentLink;
  }

  /** String r may stand where string p does. */
  ghost predicate Fits(k: Links, sub: seq<set<int>>, o: Order, p: int, r: int)
    requires Sized(k) && |sub| == N && Ranked(o) && Node(k, p) && 0 <= r < N
  {
    && o.head[r] == o.head[p]
    && (forall y :: y in Sub(sub, k.lchild[p]) ==> 0 <= y < N && o.rank[y] < o.rank[r])
    && (forall y :: y in Sub(sub, k.rchild[p]) ==> 0 <= y < N && o.rank[y] > o.rank[r])
    && (forall x {:trigger PathAt(k, sub, o, p, r, x)} :: Node(k, x) ==> PathAt(k, sub, o, p, r, x))
  }

  lemma EqualFits(k: Links, sub: seq<set<int>>, o: Order, p: int, r: int)
    requires Forest(k, sub, o) && Node(k, p) && 0 <= r < N
    requires o.rank[r] == o.rank[p] && o.head[r] == o.head[p]
    ensures Fits(k, sub, o, p, r)
  {
    assert NodeAt(k, sub, o, p);
    forall x | Node(k, x) ensures PathAt(k, sub, o, p, r, x) {
      assert NodeAt(k, sub, o, x);
    }
  }

  lemma RenamedOrderedAt(k: Links, sub: seq<set<int>>, o: Order, k': Links, p: int, r: int, x: int)
    requires Forest(k, sub, o) && Node(k, p) && 0 <= r < N && !Node(k, r) && Fits(k, sub, o, p, r)
    requires Renamed(k, k', p, r) && Node(k', x)
    ensures OrderedAt(k', ReplacedSub(sub, p, r), o, x)
  {
    assert NodeAt(k, sub, o, p);
    Acyclic(k, sub, o, p);
    if x != r {
      assert NodeAt(k, sub, o, x) && PathAt(k, sub, o, p, r, x);
      Acyclic(k, sub, o, x);
    }
  }

  lemma RenamedRootAt(k: Links, sub: seq<set<int>>, o: Order, k': Links, p: int, r: int, c: int)
    requires Forest(k, sub, o) && Node(k, p) && 0 <= r < N && !Node(k, r) && o.head[r] == o.head[p]
    requires Renamed(k, k', p, r) && 0 <= c < 256
    ensures RootAt(k', ReplacedSub(sub, p, r), o, c)
  {
    assert NodeAt(k, sub, o, p) && RootAt(k, sub, o, c);
  }

  lemma RenamedNodes(k: Links, sub: seq<set<int>>, o: Order, k': Links, p: int, r: int)
    requires Forest(k, sub, o) && Node(k, p) && 0 <= r < N && !Node(k, r) && Renamed(k, k', p, r)
    ensures Nodes(k') == Nodes(k) - {p} + {r}
  {
    assert NodeAt(k, sub, o, p);
    forall x | 0 <= x < N ensures Node(k', x) <==> x == r || (Node(k, x) && x != p) {
      if x != p && x != r { assert RenamedAt(k, k', p, r, x); }
    }
  }

  lemma RenameKeepsForest(k: Links, sub: seq<set<int>>, o: Order, k': Links, p: int, r: int)
    requires Forest(k, sub, o) && Node(k, p) && 0 <= r < N && !Node(k, r) && Fits(k, sub, o, p, r)
    requires Renamed(k, k', p, r)
    ensures Forest(k', ReplacedSub(sub, p, r), o)
    ensures Nodes(k') == Nodes(k) - {p} + {r}
  {
    hide LinkedAt, SubtreeAt, OrderedAt, RootAt, RenamedAt, PathAt;
    var sub' := ReplacedSub(sub, p, r);
    forall x | Node(k', x) ensures NodeAt(k', sub', o, x) {
      RenamedLinkedAt(k, sub, o, k', p, r, x);
      RenamedSubtreeAt(k, sub, o, k', p, r, x);
      RenamedOrderedAt(k, sub, o, k', p, r, x);
    }
    forall c | 0 <= c < 256 ensures RootAt(k', sub', o, c) {
      RenamedRootAt(k, sub, o, k', p, r, c);
    }
    RenamedNodes(k, sub, o, k', p, r);
  }

  /** Node q, which has at most the one child c, is cut out and c hangs where q did. */
  ghost function SplicedLinks(k: Links, q: int, c: int): Links
    requires Bounded(k, q) && 0 <= c <= N
  {
    var up := k.parent[q];
    var k1 := if k.rchild[up] == q then k.(rchild := k.rchild[up := c]) else k.(lchild := k.lchild[up := c]);
    k1.(parent := k.parent[c := up][q := NIL])
  }

  ghost function SplicedSub(sub: seq<set<int>>, q: int): seq<set<int>>
    requires |sub| == N
  {
    seq(N, x requires 0 <= x < N => sub[x] - {q})
  }

  ghost predicate OnlyChild(k: Links, q: int, c: int)
    requires Bounded(k, q)
  {
    (k.rchild[q] == NIL && c == k.lchild[q]) || (k.lchild[q] == NIL && c == k.rchild[q])
  }

  /** k' is k with every link to q leading to c instead. */
  ghost predicate Spliced(k: Links, k': Links, q: int, c: int)
    requires Bounded(k, q)
  {
    && Sized(k') && k'.parent[q] == NIL
    && (forall x {:trigger k'.parent[x]} {:trigger SplicedAt(k, k', q, c, x)} ::
          0 <= x < N && x != q ==> SplicedAt(k, k', q, c, x))
    && (forall i {:trigger k'.rchild[i]} :: ROOT <= i < ROOT + 256 ==> k'.rchild[i] == Rename(k.rchild[i], q, c))
  }

  ghost predicate SplicedAt(k: Links, k': Links, q: int, c: int, x: int)
    requires Sized(k) && Sized(k') && 0 <= q < N && 0 <= x < N
  {
    && k'.parent[x] == (if x == c then k.parent[q] else k.parent[x])
    && (k.parent[x] != NIL ==> k'.lchild[x] == Rename(k.lchild[x], q, c) && k'.rchild[x] == Rename(k.rchild[x], q, c))
  }

  lemma SplicedLinksAt(k: Links, sub: seq<set<int>>, o: Order, q: int, c: int, x: int)
    requires Forest(k, sub, o) && Bounded(k, q) && OnlyChild(k, q, c)
    requires 0 <= x < N && x != q
    ensures SplicedAt(k, SplicedLinks(k, q, c), q, c, x)
  {
    assert NodeAt(k, sub, o, q);
    Acyclic(k, sub, o, q);
    if Node(k, x) {
      assert NodeAt(k, sub, o, x);
      Acyclic(k, sub, o, x);
    }
  }

  lemma SplicedLinksSplice(k: Links, sub: seq<set<int>>, o: Order, q: int, c: int)
    requires Forest(k, sub, o) && Bounded(k, q) && OnlyChild(k, q, c)
    ensures Spliced(k, SplicedLinks(k, q, c), q, c)
  {
    var k' := SplicedLinks(k, q, c);
    assert NodeAt(k, sub, o, q);
    Acyclic(k, sub, o, q);
    forall x | 0 <= x < N && x != q ensures SplicedAt(k, k', q, c, x) {
      SplicedLinksAt(k, sub, o, q, c, x);
    }
    forall i | ROOT <= i < ROOT + 256 ensures k'.rchild[i] == Rename(k.rchild[i], q, c) {
      assert RootAt(k, sub, o, i - ROOT);
    }
  }

  lemma SplicedLinkedAt(k: Links, sub: seq<set<int>>, o: Order, k': Links, q: int, c: int, x: int)
    requires Forest(k, sub, o) && Bounded(k, q) && OnlyChild(k, q, c)
    requires Spliced(k, k', q, c) && Node(k', x)
    ensures LinkedAt(k', x)
  {
    assert NodeAt(k, sub, o, q);
    Acyclic(k, sub, o, q);
    assert NodeAt(k, sub, o, x);
    Acyclic(k, sub, o, x);
  }

  lemma SplicedSubtreeAt(k: Links, sub: seq<set<int>>, o: Order, k': Links, q: int, c: int, x: int)
    requires Forest(k, sub, o) && Bounded(k, q) && OnlyChild(k, q, c)
    requires Spliced(k, k', q, c) && Node(k', x)
    ensures SubtreeAt(k', SplicedSub(sub, q), x)
  {
    hide ParentLink, OrderedAt, HoldsHead;
    assert NodeAt(k, sub, o, q);
    Acyclic(k, sub, o, q);
    assert NodeAt(k, sub, o, x);
    Acyclic(k, sub, o, x);
  }

  lemma SplicedOrderedAt(k: Links, sub: seq<set<int>>, o: Order, k': Links, q: int, c: int, x: int)
    requires Forest(k, sub, o) && Bounded(k, q) && OnlyChild(k, q, c)
    requires Spliced(k, k', q, c) && Node(k', x)
    ensures OrderedAt(k', SplicedSub(sub, q), o, x)
  {
    assert NodeAt(k, sub, o, q);
    Acyclic(k, sub, o, q);
    assert NodeAt(k, sub, o, x);
    Acyclic(k, sub, o, x);
  }

  lemma SplicedRootAt(k: Links, sub: seq<set<int>>, o: Order, k': Links, q: int, c: int, i: int)
    requires Forest(k, sub, o) && Bounded(k, q) && OnlyChild(k, q, c)
    requires Spliced(k, k', q, c) && 0 <= i < 256
    ensures RootAt(k', SplicedSub(sub, q), o, i)
  {
    assert NodeAt(k, sub, o, q) && RootAt(k, sub, o, i);
    Acyclic(k, sub, o, q);
  }

  lemma SplicedNodes(k: Links, sub: seq<set<int>>, o: Order, k': Links, q: int, c: int)
    requires Forest(k, sub, o) && Bounded(k, q) && OnlyChild(k, q, c) && Spliced(k, k', q, c)
    ensures Nodes(k') == Nodes(k) - {q}
  {
    assert NodeAt(k, sub, o, q);
    forall x | 0 <= x < N ensures Node(k', x) <==> Node(k, x) && x != q {
      if x != q { assert SplicedAt(k, k', q, c, x); }
    }
  }

  lemma SpliceKeepsForest(k: Links, sub: seq<set<int>>, o: Order, k': Links, q: int, c: int)
    requires Forest(k, sub, o) && Bounded(k, q) && OnlyChild(k, q, c) && Spliced(k, k', q, c)
    ensures Forest(k', SplicedSub(sub, q), o)
    ensures Nodes(k') == Nodes(k) - {q}
  {
    hide LinkedAt, SubtreeAt, OrderedAt, RootAt, SplicedAt;
    var sub' := SplicedSub(sub, q);
    forall x | Node(k', x) ensures NodeAt(k', sub', o, x) {
      SplicedLinkedAt(k, sub, o, k', q, c, x);
      SplicedSubtreeAt(k, sub, o, k', q, c, x);
      SplicedOrderedAt(k, sub, o, k', q, c, x);
    }
    forall i | 0 <= i < 256 ensures RootAt(k', sub', o, i) {
      SplicedRootAt(k, sub, o, k', q, c, i);
    }
    SplicedNodes(k, sub, o, k', q, c);
  }

  // ---- descents ----

  lemma {:induction false} SubtreeNested(k: Links, sub: seq<set<int>>, o: Order, x: int, y: int)
    requires Forest(k, sub, o) && Node(k, x) && y in sub[x]
    ensures 0 <= y < N && sub[y] <= sub[x]
    decreases sub[x]
  {
    Acyclic(k, sub, o, x);
    assert NodeAt(k, sub, o, x);
    if y != x {
      SubtreeNested(k, sub, o, if y in Sub(sub, k.lchild[x]) then k.lchild[x] else k.rchild[x], y);
    }
  }

  /** A child of a position on the search path, taken on the right side, is on it too. */
  lemma DescendOnPath(k: Links, sub: seq<set<int>>, o: Order, p: int, right: bool, r: int)
    requires Forest(k, sub, o) && 0 <= r < N && OnPath(k, sub, o, p, r)
    requires if right then k.rchild[p] != NIL && GoesRight(o, p, r)
             else p < N && k.lchild[p] != NIL && o.rank[r] < o.rank[p]
    ensures OnPath(k, sub, o, if right then k.rchild[p] else k.lchild[p], r)
  {
    var c := if right then k.rchild[p] else k.lchild[p];
    if p < N { assert NodeAt(k, sub, o, p); }
    assert RootAt(k, sub, o, o.head[r]);
    assert NodeAt(k, sub, o, c);
    if p < N { ChildHead(k, sub, o, p, c); }
    forall x | Node(k, x) ensures PathAt(k, sub, o, c, r, x) {
      assert NodeAt(k, sub, o, x);
      if p < N { assert PathAt(k, sub, o, p, r, x); }
      if k.lchild[x] != NIL && c in sub[k.lchild[x]] && c != k.lchild[x] {
        ParentInSubtree(k, sub, o, k.lchild[x], c);
      }
      if k.rchild[x] != NIL && c in sub[k.rchild[x]] && c != k.rchild[x] {
        ParentInSubtree(k, sub, o, k.rchild[x], c);
      }
    }
  }

  lemma DescendShrinks(k: Links, sub: seq<set<int>>, o: Order, p: int, right: bool, r: int)
    requires Forest(k, sub, o) && 0 <= r < N && OnPath(k, sub, o, p, r) && (right || p < N)
    requires (if right then k.rchild[p] else k.lchild[p]) != NIL
    ensures var c := if right then k.rchild[p] else k.lchild[p];
      Node(k, c) && sub[c] < if p < N then sub[p] else Nodes(k) + {NIL}
  {
    if p < N {
      Acyclic(k, sub, o, p);
      assert NodeAt(k, sub, o, p);
    } else {
      assert RootAt(k, sub, o, o.head[r]);
      assert NodeAt(k, sub, o, k.rchild[p]);
      assert NIL !in sub[k.rchild[p]];
    }
  }

  lemma ChildHead(k: Links, sub: seq<set<int>>, o: Order, p: int, c: int)
    requires Forest(k, sub, o) && Node(k, p) && c != NIL && (c == k.lchild[p] || c == k.rchild[p])
    ensures Node(k, c) && o.head[c] == o.head[p]
  {
    assert NodeAt(k, sub, o, p) && RootAt(k, sub, o, o.head[p]);
    assert NodeAt(k, sub, o, c);
    var root := k.rchild[ROOT + o.head[p]];
    assert NodeAt(k, sub, o, root);
    SubtreeNested(k, sub, o, root, p);
    assert c in sub[p];
  }

  // ---- deletion of a node with two children ----

  /** q is on the right spine of p's left subtree: all of that subtree outside q's lies below q's. */
  ghost predicate Spine(k: Links, sub: seq<set<int>>, o: Order, p: int, q: int)
    requires Sized(k) && |sub| == N && Ranked(o) && Node(k, p)
  {
    && Node(k, q) && Node(k, k.lchild[p]) && q in Sub(sub, k.lchild[p])
    && (q != k.lchild[p] ==> 0 <= k.parent[q] < N && k.parent[q] in sub[k.lchild[p]] && k.rchild[k.parent[q]] == q)
    && forall y :: y in Sub(sub, k.lchild[p]) && y !in sub[q] ==>
         0 <= y < N && forall z :: z in sub[q] ==> 0 <= z < N && o.rank[y] < o.rank[z]
  }

  lemma SpineStart(k: Links, sub: seq<set<int>>, o: Order, p: int)
    requires Forest(k, sub, o) && Node(k, p) && k.lchild[p] != NIL
    ensures Spine(k, sub, o, p, k.lchild[p])
  {
    assert NodeAt(k, sub, o, p);
    assert NodeAt(k, sub, o, k.lchild[p]);
  }

  lemma SpineStep(k: Links, sub: seq<set<int>>, o: Order, p: int, q: int)
    requires Forest(k, sub, o) && Node(k, p) && Spine(k, sub, o, p, q) && k.rchild[q] != NIL
    ensures Spine(k, sub, o, p, k.rchild[q]) && sub[k.rchild[q]] < sub[q]
  {
    assert NodeAt(k, sub, o, p) && NodeAt(k, sub, o, q) && NodeAt(k, sub, o, k.lchild[p]);
    Acyclic(k, sub, o, q);
    assert NodeAt(k, sub, o, k.rchild[q]);
    SubtreeNested(k, sub, o, k.lchild[p], q);
  }

  lemma PredecessorPathAt(k: Links, sub: seq<set<int>>, o: Order, p: int, q: int, k1: Links, x: int)
    requires Forest(k, sub, o) && Bounded(k, q) && Node(k, p) && q in sub[p] && k.rchild[q] == NIL
    requires Sized(k1) && Node(k, x) && Node(k1, x) && x != q && SplicedAt(k, k1, q, k.lchild[q], x)
    ensures PathAt(k1, SplicedSub(sub, q), o, p, q, x)
  {
    assert NodeAt(k, sub, o, x) && NodeAt(k, sub, o, q);
    if p in Sub(sub, k.lchild[x]) { SubtreeNested(k, sub, o, k.lchild[x], p); }
    if p in Sub(sub, k.rchild[x]) { SubtreeNested(k, sub, o, k.rchild[x], p); }
  }

  /** The rightmost node of the left subtree, cut out, fits in the place of p. */
  lemma PredecessorFits(k: Links, sub: seq<set<int>>, o: Order, p: int, q: int)
    requires Forest(k, sub, o) && Node(k, p) && Spine(k, sub, o, p, q)
    requires Bounded(k, q) && k.rchild[q] == NIL
    ensures p != q
    ensures var k1, sub1 := SplicedLinks(k, q, k.lchild[q]), SplicedSub(sub, q);
      Forest(k1, sub1, o) && Node(k1, p) && !Node(k1, q) && Fits(k1, sub1, o, p, q) && Nodes(k1) == Nodes(k) - {q}
  {
    var c := k.lchild[q];
    var k1, sub1 := SplicedLinks(k, q, c), SplicedSub(sub, q);
    SplicedLinksSplice(k, sub, o, q, c);
    SpliceKeepsForest(k, sub, o, k1, q, c);
    assert NodeAt(k, sub, o, p) && NodeAt(k, sub, o, q);
    Acyclic(k, sub, o, p);
    Acyclic(k, sub, o, q);
    assert RootAt(k, sub, o, o.head[p]);
    SubtreeNested(k, sub, o, k.rchild[ROOT + o.head[p]], p);
    assert SplicedAt(k, k1, q, c, p);
    forall x | Node(k1, x) ensures PathAt(k1, sub1, o, p, q, x) {
      assert SplicedAt(k, k1, q, c, x);
      PredecessorPathAt(k, sub, o, p, q, k1, x);
    }
  }

  /** q, below p's left child, is cut out of its place and takes that child. */
  ghost function DetachedLinks(k: Links, p: int, q: int): Links
    requires Bounded(k, p) && Bounded(k, q)
  {
    if q == k.lchild[p] then k else
    Links(k.lchild[q := k.lchild[p]], k.rchild[k.parent[q] := k.lchild[q]],
          k.parent[k.lchild[q] := k.parent[q]][k.lchild[p] := q])
  }

  /** p, which has two children, replaced by q, the rightmost node of its left subtree. */
  ghost function DeletedLinks(k: Links, p: int, q: int): Links
    requires Bounded(k, p) && Bounded(k, q)
  {
    var k1 := DetachedLinks(k, p, q);
    var k2 := k1.(rchild := k1.rchild[q := k.rchild[p]], parent := k1.parent[k.rchild[p] := q][q := k.parent[p]]);
    var k3 := if k2.rchild[k.parent[p]] == p || k.parent[p] > N then k2.(rchild := k2.rchild[k.parent[p] := q])
              else k2.(lchild := k2.lchild[k.parent[p] := q]);
    k3.(parent := k3.parent[p := NIL])
  }

  /** How the neighbourhoods of p and q meet. */
  ghost predicate DeletePair(k: Links, p: int, q: int)
    requires Bounded(k, p) && Bounded(k, q)
  {
    var l, r, c, u, v := k.lchild[p], k.rchild[p], k.lchild[q], k.parent[p], k.parent[q];
    && k.rchild[q] == NIL && l != NIL && r != NIL && l != r && p != q && q != r && u != p && u != q
    && k.parent[l] == p && k.parent[r] == p && (k.rchild[u] == p || k.lchild[u] == p)
    && (u < N ==> k.lchild[u] != k.rchild[u])
    && (c != NIL ==> c != p && c != q && c != l && c != r && k.parent[c] == q)
    && (q != l ==> v < N && v != p && v != q && v != u && v != r && k.rchild[v] == q && k.lchild[v] != q)
  }

  lemma DeletePairs(k: Links, sub: seq<set<int>>, o: Order, p: int, q: int)
    requires Forest(k, sub, o) && Bounded(k, p) && Spine(k, sub, o, p, q)
    requires Bounded(k, q) && k.rchild[q] == NIL && k.rchild[p] != NIL
    ensures DeletePair(k, p, q)
  {
    assert NodeAt(k, sub, o, p) && NodeAt(k, sub, o, q);
    Acyclic(k, sub, o, p);
    Acyclic(k, sub, o, q);
    assert NodeAt(k, sub, o, k.lchild[p]);
    if k.lchild[q] != NIL { assert NodeAt(k, sub, o, k.lchild[q]); }
    if Node(k, k.parent[p]) {
      assert NodeAt(k, sub, o, k.parent[p]);
      Acyclic(k, sub, o, k.parent[p]);
      assert k.lchild[k.parent[p]] != k.rchild[k.parent[p]];
    }
    if q != k.lchild[p] {
      assert NodeAt(k, sub, o, k.parent[q]);
      Acyclic(k, sub, o, k.parent[q]);
    }
  }

  lemma DeletedParentAt(k: Links, k1: Links, p: int, q: int, x: int)
    requires Bounded(k, p) && Bounded(k, q) && DeletePair(k, p, q) && Sized(k1)
    requires 0 <= x < N && x != p && x != q
    requires SplicedAt(k, k1, q, k.lchild[q], x)
    requires Node(k, x) ==> LinkedAt(k, x)
    requires Node(k, x) && k.lchild[x] != NIL ==> k.lchild[x] != k.rchild[x]
    ensures DeletedLinks(k, p, q).parent[x] == Rename(k1.parent[x], p, q)
  {
  }

  lemma DeletedChildrenAt(k: Links, k1: Links, p: int, q: int, x: int)
    requires Bounded(k, p) && Bounded(k, q) && DeletePair(k, p, q) && Sized(k1)
    requires 0 <= x < N && x != p && x != q
    requires SplicedAt(k, k1, q, k.lchild[q], x)
    requires Node(k, x) ==> LinkedAt(k, x)
    requires Node(k, x) && k.lchild[x] != NIL ==> k.lchild[x] != k.rchild[x]
    ensures k1.parent[x] != NIL ==> DeletedLinks(k, p, q).lchild[x] == Rename(k1.lchild[x], p, q)
    ensures k1.parent[x] != NIL ==> DeletedLinks(k, p, q).rchild[x] == Rename(k1.rchild[x], p, q)
  {
  }

  lemma DeletedRenamesAt(k: Links, sub: seq<set<int>>, o: Order, k1: Links, p: int, q: int, x: int)
    requires Forest(k, sub, o) && Bounded(k, p) && Bounded(k, q) && DeletePair(k, p, q) && Sized(k1)
    requires 0 <= x < N && x != p && x != q && p != q
    requires SplicedAt(k, k1, q, k.lchild[q], x)
    ensures RenamedAt(k1, DeletedLinks(k, p, q), p, q, x)
  {
    if Node(k, x) {
      assert NodeAt(k, sub, o, x);
      Acyclic(k, sub, o, x);
    }
    hide Forest, SplicedAt, DeletedLinks;
    DeletedParentAt(k, k1, p, q, x);
    DeletedChildrenAt(k, k1, p, q, x);
  }

  lemma DeletedRenames(k: Links, sub: seq<set<int>>, o: Order, p: int, q: int)
    requires Forest(k, sub, o) && Bounded(k, p) && Spine(k, sub, o, p, q)
    requires Bounded(k, q) && k.rchild[q] == NIL && k.rchild[p] != NIL
    ensures p != q && Renamed(SplicedLinks(k, q, k.lchild[q]), DeletedLinks(k, p, q), p, q)
  {
    DeletePairs(k, sub, o, p, q);
    var k1, k' := SplicedLinks(k, q, k.lchild[q]), DeletedLinks(k, p, q);
    assert Node(k, q);
    SplicedLinksSplice(k, sub, o, q, k.lchild[q]);
    assert SplicedAt(k, k1, q, k.lchild[q], p);
    forall x | 0 <= x < N && x != p && x != q ensures RenamedAt(k1, k', p, q, x) {
      assert SplicedAt(k, k1, q, k.lchild[q], x);
      DeletedRenamesAt(k, sub, o, k1, p, q, x);
    }
    forall c | ROOT <= c < ROOT + 256 ensures k'.rchild[c] == Rename(k1.rchild[c], p, q) {
      assert RootAt(k, sub, o, c - ROOT);
    }
  }

  lemma PromoteKeepsForest(k: Links, sub: seq<set<int>>, o: Order, p: int, q: int)
    requires Forest(k, sub, o) && Bounded(k, p) && Spine(k, sub, o, p, q)
    requires Bounded(k, q) && k.rchild[q] == NIL && k.rchild[p] != NIL
    ensures Forest(DeletedLinks(k, p, q), ReplacedSub(SplicedSub(sub, q), p, q), o)
    ensures Nodes(DeletedLinks(k, p, q)) == Nodes(k) - {p}
    ensures DeletePair(k, p, q)
  {
    PredecessorFits(k, sub, o, p, q);
    DeletePairs(k, sub, o, p, q);
    DeletedRenames(k, sub, o, p, q);
    RenameKeepsForest(SplicedLinks(k, q, k.lchild[q]), SplicedSub(sub, q), o, DeletedLinks(k, p, q), p, q);
  }
}
