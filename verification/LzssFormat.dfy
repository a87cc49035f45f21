/** The compressed format, as a decoder without a ring buffer reads it: groups of up to eight units
    behind a byte of flags, each unit a byte or a reference into the last N bytes of the text. */
module LzssFormat {
  import opened LzssKeys

  datatype Unit = Literal(b: byte) | Pair(position: int, length: int)

  ghost predicate UnitOk(u: Unit) {
    u.Pair? ==> 0 <= u.position < N && THRESHOLD < u.length <= F
  }

  ghost predicate UnitsOk(us: seq<Unit>) {
    forall k :: 0 <= k < |us| ==> UnitOk(us[k])
  }

  /** 2^j, the weight of the j-th unit's flag. */
  ghost function Weight(j: nat): (w: int)
    ensures w > 0
  {
    if j == 0 then 1 else 2 * Weight(j - 1)
  }

  /** Whether the j-th flag of a group, counted from the low end, says that its unit is a byte. */
  ghost predicate Flag(c: byte, j: nat) {
    if j == 0 then c % 2 == 1 else Flag(c / 2, j - 1)
  }

  /** The units of a code string from the j-th of a group flagged by c on.  A unit cut short ends them. */
  ghost function UnitsFrom(c: byte, j: nat, code: seq<byte>): (us: seq<Unit>)
    requires j <= 8
    ensures UnitsOk(us)
    decreases |code|
  {
    if code == [] then []
    else if j == 8 then UnitsFrom(code[0], 0, code[1..])
    else if Flag(c, j) then [Literal(code[0])] + UnitsFrom(c, j + 1, code[1..])
    else if |code| == 1 then []
    else
      [Pair(code[0] as int + code[1] as int / 16 * 256, code[1] as int % 16 + THRESHOLD + 1)]
      + UnitsFrom(c, j + 1, code[2..])
  }

  ghost function Units(code: seq<byte>): (us: seq<Unit>)
    ensures UnitsOk(us)
  {
    UnitsFrom(0, 8, code)
  }

  // ---- the text that units stand for ----

  /** The ring position that holds the m-th byte of a text. */
  ghost function Slot(m: int): (s: int)
    ensures 0 <= s < N
  {
    (m + N - F) % N
  }

  /** How far ring position i is ahead of ring position r. */
  ghost function Ahead(i: int, r: int): (d: int)
    requires 0 <= i < N && 0 <= r < N
    ensures 0 <= d < N && (d == 0 <==> i == r)
  {
    if i >= r then i - r else i - r + N
  }

  /** h' is h and n bytes that repeat, byte by byte, what is `back` places before them. */
  ghost predicate IsCopy(h: seq<byte>, back: nat, n: nat, h': seq<byte>) {
    && 0 < back <= |h| && |h'| == |h| + n && h <= h'
    && forall m :: |h| <= m < |h'| ==> h'[m] == h'[m - back]
  }

  /** Copies the n bytes from index `from` on to the end, one at a time: the two ranges may overlap. */
  ghost function CopyRun(h: seq<byte>, from: nat, n: nat): (h': seq<byte>)
    requires from < |h|
    ensures |h'| == |h| + n && h <= h'
    decreases n
  {
    if n == 0 then h else CopyRun(h + [h[from]], from + 1, n - 1)
  }

  lemma {:induction false} CopyRunIsCopy(h: seq<byte>, from: nat, n: nat)
    requires from < |h|
    ensures IsCopy(h, |h| - from, n, CopyRun(h, from, n))
    decreases n
  {
    if n > 0 {
      var h1 := h + [h[from]];
      CopyRunIsCopy(h1, from + 1, n - 1);
      var r := CopyRun(h1, from + 1, n - 1);
      assert h1[|h|] == r[|h|] && h1[from] == r[from];
    }
  }

  /** Only one text continues h that way. */
  lemma {:induction false} CopyUnique(h: seq<byte>, back: nat, n: nat, h1: seq<byte>, h2: seq<byte>)
    requires IsCopy(h, back, n, h1) && IsCopy(h, back, n, h2)
    ensures h1 == h2
  {
    if n == 0 {
      assert h1 == h == h2;
    } else {
      var m := |h1| - 1;
      CopyUnique(h, back, n - 1, h1[..m], h2[..m]);
      assert h1[..m][m - back] == h2[..m][m - back];
      assert h1 == h1[..m] + [h1[m]] && h2 == h2[..m] + [h2[m]];
    }
  }

  /** One unit applied to the N bytes before the text and the text so far. */
  ghost function Apply(h: seq<byte>, u: Unit): (h': seq<byte>)
    requires |h| >= N && UnitOk(u)
    ensures h <= h' && |h'| == |h| + (if u.Literal? then 1 else u.length)
  {
    match u
    case Literal(b) => h + [b]
    case Pair(position, length) => CopyRun(h, |h| - N + Ahead(position, Slot(|h|)), length)
  }

  ghost function Expand(h: seq<byte>, us: seq<Unit>): (h': seq<byte>)
    requires |h| >= N && UnitsOk(us)
    ensures h <= h'
    decreases |us|
  {
    if us == [] then h else Expand(Apply(h, us[0]), us[1..])
  }

  /** What the ring holds before the text: F bytes nobody wrote, then spaces. */
  ghost function History(stale: seq<byte>): (h: seq<byte>)
    requires |stale| == F
    ensures |h| == N
  {
    stale + seq(N - F, _ => SPACE)
  }

  /** The text of a code string. */
  ghost function Decoded(stale: seq<byte>, code: seq<byte>): (text: seq<byte>)
    requires |stale| == F
  {
    Expand(History(stale), Units(code))[N..]
  }

  lemma ExpandCons(h: seq<byte>, u: Unit, us: seq<Unit>)
    requires |h| >= N && UnitOk(u) && UnitsOk(us)
    ensures UnitsOk([u] + us) && Expand(h, [u] + us) == Expand(Apply(h, u), us)
  {
    assert ([u] + us)[1..] == us;
  }

  lemma {:induction false} ExpandAppend(h: seq<byte>, us: seq<Unit>, vs: seq<Unit>)
    requires |h| >= N && UnitsOk(us) && UnitsOk(vs)
    ensures UnitsOk(us + vs) && Expand(h, us + vs) == Expand(Expand(h, us), vs)
    decreases |us|
  {
    if us == [] {
      assert us + vs == vs;
    } else {
      assert (us + vs)[1..] == us[1..] + vs;
      ExpandAppend(Apply(h, us[0]), us[1..], vs);
    }
  }

  // ---- the code string of units ----

  ghost function UnitBytes(u: Unit): (bs: seq<byte>)
    requires UnitOk(u)
    ensures |bs| == if u.Literal? then 1 else 2
  {
    match u
    case Literal(b) => [b]
    case Pair(position, length) => [position % 256, position / 256 * 16 + (length - (THRESHOLD + 1))]
  }

  ghost function BodyBytes(us: seq<Unit>): (bs: seq<byte>)
    requires UnitsOk(us)
    ensures |us| <= |bs| <= 2 * |us|
  {
    if us == [] then [] else BodyBytes(us[..|us| - 1]) + UnitBytes(us[|us| - 1])
  }

  /** The flags of a group: bit j is set when unit j is a byte. */
  ghost function FlagByte(us: seq<Unit>): (c: byte)
    requires |us| <= 8
    ensures c < Weight(|us|)
  {
    WeightBound(|us|);
    if us == [] then 0
    else FlagByte(us[..|us| - 1]) + if us[|us| - 1].Literal? then Weight(|us| - 1) else 0
  }

  ghost function GroupBytes(us: seq<Unit>): (bs: seq<byte>)
    requires UnitsOk(us) && |us| <= 8
  {
    [FlagByte(us)] + BodyBytes(us)
  }

  /** The code string: a flag byte and a body for each eight units. */
  ghost function Code(us: seq<Unit>): (bs: seq<byte>)
    requires UnitsOk(us)
  {
    if us == [] then []
    else if |us| <= 8 then GroupBytes(us)
    else GroupBytes(us[..8]) + Code(us[8..])
  }

  /** A group of up to eight units follows whole groups. */
  lemma {:induction false} CodeAppend(us: seq<Unit>, g: seq<Unit>)
    requires UnitsOk(us) && UnitsOk(g) && |us| % 8 == 0 && 0 < |g| <= 8
    ensures UnitsOk(us + g) && Code(us + g) == Code(us) + GroupBytes(g)
  {
    hide BodyBytes, FlagByte, GroupBytes;
    if us == [] {
      assert us + g == g;
    } else {
      assert (us + g)[..8] == us[..8] && (us + g)[8..] == us[8..] + g;
      CodeAppend(us[8..], g);
      if |us| == 8 {
        assert us[..8] == us && us[8..] == [];
        assert Code(us) == GroupBytes(us);
      }
      assert Code(us) == GroupBytes(us[..8]) + Code(us[8..]);
    }
  }

  lemma BodyAppend(us: seq<Unit>, u: Unit)
    requires UnitsOk(us) && UnitOk(u)
    ensures UnitsOk(us + [u]) && BodyBytes(us + [u]) == BodyBytes(us) + UnitBytes(u)
  {
    assert (us + [u])[..|us|] == us;
  }

  lemma FlagAppend(us: seq<Unit>, u: Unit)
    requires |us| < 8
    ensures FlagByte(us + [u]) == FlagByte(us) + if u.Literal? then Weight(|us|) else 0
  {
    assert (us + [u])[..|us|] == us;
  }

  // ---- reading back what was written ----

  lemma {:induction false} FlagOfUnit(us: seq<Unit>, j: nat)
    requires j < |us| <= 8
    ensures FlagByte(us) < 256 && (Flag(FlagByte(us), j) <==> us[j].Literal?)
  {
    var n := |us| - 1;
    var rest := FlagByte(us[..n]);
    WeightBound(|us|);
    if !us[n].Literal? {
      if j < n { FlagOfUnit(us[..n], j); } else { LowerFlags(rest, n); }
    } else if j < n {
      FlagOfUnit(us[..n], j);
      HigherFlag(rest, j, n);
    } else {
      LowerFlags(rest, n);
    }
  }

  lemma {:induction false} HigherFlag(c: byte, j: nat, n: nat)
    requires j < n && c < Weight(n) && c + Weight(n) < 256
    ensures Flag(c + Weight(n), j) <==> Flag(c, j)
  {
    if j > 0 { HigherFlag(c / 2, j - 1, n - 1); }
  }

  lemma {:induction false} LowerFlags(c: byte, n: nat)
    requires c < Weight(n) && c + Weight(n) < 256
    ensures Flag(c + Weight(n), n) && !Flag(c, n)
  {
    if n > 0 { LowerFlags(c / 2, n - 1); }
  }

  lemma {:induction false} WeightGrows(m: nat, n: nat)
    requires m <= n
    ensures Weight(m) <= Weight(n) && (m < n ==> 2 * Weight(m) <= Weight(n))
  {
    if m < n { WeightGrows(m, n - 1); }
  }

  lemma WeightBound(n: nat)
    requires n <= 8
    ensures Weight(n) <= 256 && (n == 8 <==> Weight(n) == 256) && (n < 8 ==> Weight(n) <= 128)
  {
    assert Weight(4) == 16 && Weight(6) == 4 * Weight(4) && Weight(8) == 4 * Weight(6);
    WeightGrows(n, 8);
  }

  lemma {:induction false} BodyCons(us: seq<Unit>)
    requires UnitsOk(us) && us != []
    ensures BodyBytes(us) == UnitBytes(us[0]) + BodyBytes(us[1..])
  {
    if |us| > 1 {
      var init, last := us[..|us| - 1], us[|us| - 1];
      BodyCons(init);
      assert init[1..] == us[1..][..|us| - 2];
      assert BodyBytes(us[1..]) == BodyBytes(init[1..]) + UnitBytes(last);
    }
  }

  lemma UnitReadBack(c: byte, j: nat, u: Unit, rest: seq<byte>)
    requires UnitOk(u) && j < 8 && (Flag(c, j) <==> u.Literal?)
    ensures UnitsFrom(c, j, UnitBytes(u) + rest) == [u] + UnitsFrom(c, j + 1, rest)
  {
    var code := UnitBytes(u) + rest;
    if u.Literal? {
      assert code[1..] == rest;
    } else {
      assert code[2..] == rest && code[0] == u.position % 256
        && code[1] == u.position / 256 * 16 + (u.length - (THRESHOLD + 1));
      assert code[0] as int + code[1] as int / 16 * 256 == u.position
        && code[1] as int % 16 + THRESHOLD + 1 == u.length;
    }
  }

  /** The flags of c from the j-th on tell the kinds of the units. */
  ghost predicate FlagsMatch(c: byte, j: nat, us: seq<Unit>) {
    j + |us| <= 8 && forall k :: 0 <= k < |us| ==> (Flag(c, j + k) <==> us[k].Literal?)
  }

  lemma FlagsMatchTail(c: byte, j: nat, us: seq<Unit>)
    requires us != [] && FlagsMatch(c, j, us)
    ensures j < 8 && (Flag(c, j) <==> us[0].Literal?) && FlagsMatch(c, j + 1, us[1..])
  {
    assert Flag(c, j + 0) <==> us[0].Literal?;
    forall k | 0 <= k < |us[1..]| ensures Flag(c, j + 1 + k) <==> us[1..][k].Literal? {
      assert Flag(c, j + (k + 1)) <==> us[k + 1].Literal?;
    }
  }

  lemma GroupEnds(c: byte, j: nat, rest: seq<byte>)
    requires j <= 8 && (j < 8 ==> rest == [])
    ensures UnitsFrom(c, j, BodyBytes([]) + rest) == Units(rest)
  {
    assert BodyBytes([]) + rest == rest;
  }

  /** Units whose kinds the flags give, from the j-th of their group on, are read back. */
  lemma {:induction false} GroupReadBack(c: byte, j: nat, us: seq<Unit>, rest: seq<byte>)
    requires UnitsOk(us) && FlagsMatch(c, j, us) && (j + |us| < 8 ==> rest == [])
    ensures UnitsFrom(c, j, BodyBytes(us) + rest) == us + Units(rest)
    decreases |us|
  {
    hide UnitsFrom, Units, BodyBytes;
    if us == [] {
      GroupEnds(c, j, rest);
      assert us == [];
    } else {
      FlagsMatchTail(c, j, us);
      BodyCons(us);
      GroupReadBack(c, j + 1, us[1..], rest);
      PrependUnit(c, j, us[0], BodyBytes(us[1..]), rest, us[1..], Units(rest));
      assert us == [us[0]] + us[1..];
    }
  }

  lemma PrependUnit(c: byte, j: nat, u: Unit, body: seq<byte>, rest: seq<byte>, us: seq<Unit>, after: seq<Unit>)
    requires UnitOk(u) && j < 8 && (Flag(c, j) <==> u.Literal?)
    requires UnitsFrom(c, j + 1, body + rest) == us + after
    ensures UnitsFrom(c, j, (UnitBytes(u) + body) + rest) == ([u] + us) + after
  {
    hide UnitsFrom, UnitBytes, Flag;
    UnitReadBack(c, j, u, body + rest);
    assert (UnitBytes(u) + body) + rest == UnitBytes(u) + (body + rest);
    assert [u] + (us + after) == ([u] + us) + after;
  }

  lemma GroupFlagsMatch(g: seq<Unit>)
    requires 0 < |g| <= 8
    ensures FlagByte(g) < 256 && FlagsMatch(FlagByte(g), 0, g)
  {
    FlagOfUnit(g, 0);
    forall k | 0 <= k < |g| ensures Flag(FlagByte(g), 0 + k) <==> g[k].Literal? {
      FlagOfUnit(g, k);
    }
  }

  lemma UnitsOfGroup(g: seq<Unit>, rest: seq<byte>)
    requires UnitsOk(g) && 0 < |g| <= 8 && (|g| < 8 ==> rest == [])
    ensures Units(GroupBytes(g) + rest) == g + Units(rest)
  {
    GroupFlagsMatch(g);
    GroupReadBack(FlagByte(g), 0, g, rest);
    assert (GroupBytes(g) + rest)[1..] == BodyBytes(g) + rest;
  }

  /** Reading is the inverse of writing. */
  lemma {:induction false} CodeReadBack(us: seq<Unit>)
    requires UnitsOk(us)
    ensures Units(Code(us)) == us
    decreases |us|
  {
    if us == [] {
    } else if |us| <= 8 {
      UnitsOfGroup(us, []);
      assert GroupBytes(us) + [] == GroupBytes(us);
    } else {
      CodeReadBack(us[8..]);
      UnitsOfGroup(us[..8], Code(us[8..]));
      assert us == us[..8] + us[8..];
    }
  }
}
