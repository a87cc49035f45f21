/** What the coder does in the numbers of the format: a ring of 4096 bytes that starts as 4078 spaces, the first byte of
    the text put at 4078, pairs of 3 to 18 bytes with 12 bits of ring position, flags from the low bit up. */
module LzssNumbers {
  import opened LzssKeys
  import opened LzssFormat
  import opened LzssWindow
  import opened LzssParse
  import opened LzssDecoder

  /** The byte of text j, which may be before its start: 4078 spaces, and before them what nobody wrote. */
  function TextByte(stale: seq<byte>, text: seq<byte>, j: int): byte
    requires |stale| == 18 && -4096 <= j < |text|
  {
    if j >= 0 then text[j] else if j >= -4078 then 32 else stale[j + 4096]
  }

  /** What ring position p holds when the first m bytes of the text are in the ring, byte j at j + 4078 modulo 4096. */
  function RingByte(stale: seq<byte>, text: seq<byte>, m: nat, p: int): byte
    requires |stale| == 18 && m <= |text| && 0 <= p < 4096
  {
    TextByte(stale, text, m - 1 - (m - 1 + 4078 - p) % 4096)
  }

  /** text' is text and what n steps of copying from ring position p on add to it. */
  predicate ReadsRing(stale: seq<byte>, text: seq<byte>, p: int, n: nat, text': seq<byte>) {
    && |stale| == 18 && |text'| == |text| + n && text <= text'
    && forall m :: |text| <= m < |text'| ==> text'[m] == RingByte(stale, text', m, (p + m - |text|) % 4096)
  }

  // ---- decoding ----

  lemma HistoryByte(stale: seq<byte>, text: seq<byte>, j: int)
    requires |stale| == 18 && -4096 <= j < |text|
    ensures (History(stale) + text)[j + 4096] == TextByte(stale, text, j)
  {
  }

  lemma Remainder(y: int, q: int, r: int)
    requires y == 4096 * q + r && 0 <= r < 4096
    ensures y % 4096 == r
  {
  }

  /** Where the copy of a pair reads its k-th byte. */
  lemma RingIndex(m: nat, p: int, k: nat)
    requires 0 <= p < 4096 && k <= 18
    ensures Ahead(p, Slot(4096 + m)) + m + k - 4096 == m + k - 1 - (m + k - 1 + 4078 - (p + k) % 4096) % 4096
  {
    var c, r := (m + 4078) / 4096, (m + 4078) % 4096;
    Remainder(4096 + m + 4096 - 18, c + 1, r);
    var a, x := Ahead(p, r), if p + k < 4096 then p + k else p + k - 4096;
    Remainder(p + k, if p + k < 4096 then 0 else 1, x);
    var y := m + k - 1 + 4078 - x;
    var b := (if p + k < 4096 then 0 else 1) + if p >= r then 0 else 1;
    Remainder(y, c - 1 + b, 4095 - a);
  }

  /** A pair adds what its ring positions hold. */
  lemma PairReadsRing(stale: seq<byte>, text: seq<byte>, p: int, n: nat)
    requires |stale| == 18 && UnitOk(Pair(p, n))
    ensures var h' := Apply(History(stale) + text, Pair(p, n));
      |h'| >= 4096 && h' == History(stale) + h'[4096..] && ReadsRing(stale, text, p, n, h'[4096..])
  {
    var h := History(stale) + text;
    var from := Ahead(p, Slot(4096 + |text|)) + |text|;
    CopyRunIsCopy(h, from, n);
    CopyReadsRing(stale, text, p, n, Apply(h, Pair(p, n)));
  }

  lemma CopyReadsRing(stale: seq<byte>, text: seq<byte>, p: int, n: nat, h': seq<byte>)
    requires |stale| == 18 && 0 <= p < 4096 && n <= 18
    requires IsCopy(History(stale) + text, 4096 - Ahead(p, Slot(4096 + |text|)), n, h')
    ensures |h'| >= 4096 && h' == History(stale) + h'[4096..] && ReadsRing(stale, text, p, n, h'[4096..])
  {
    hide RingByte, Ahead, Slot, History;
    var h, text' := History(stale) + text, h'[4096..];
    assert h'[..|h|] == h;
    assert h'[..4096] == h[..4096] == History(stale);
    assert h' == History(stale) + text';
    assert text'[..|text|] == text;
    forall m | |text| <= m < |text'| ensures text'[m] == RingByte(stale, text', m, (p + m - |text|) % 4096) {
      CopiedByte(stale, text, p, n, text', m - |text|);
    }
  }

  lemma CopiedByte(stale: seq<byte>, text: seq<byte>, p: int, n: nat, text': seq<byte>, k: nat)
    requires |stale| == 18 && 0 <= p < 4096 && k < n <= 18
    requires IsCopy(History(stale) + text, 4096 - Ahead(p, Slot(4096 + |text|)), n, History(stale) + text')
    ensures |text'| == |text| + n && text'[|text| + k] == RingByte(stale, text', |text| + k, (p + k) % 4096)
  {
    hide Ahead, Slot, History;
    var h', m := History(stale) + text', |text| + k;
    var from := Ahead(p, Slot(4096 + |text|)) + m - 4096;
    RingIndex(|text|, p, k);
    assert h'[4096 + m] == h'[4096 + from];
    HistoryByte(stale, text', from);
  }

  /** The text of a code: a byte adds itself, a pair what its ring positions hold, and the empty code nothing. */
  lemma DecodedUnit(stale: seq<byte>, us: seq<Unit>, u: Unit)
    requires |stale| == 18 && UnitsOk(us) && UnitOk(u)
    ensures UnitsOk(us + [u]) && Decoded(stale, Code([])) == []
    ensures var text, text' := Decoded(stale, Code(us)), Decoded(stale, Code(us + [u]));
      if u.Literal? then text' == text + [u.b] else ReadsRing(stale, text, u.position, u.length, text')
  {
    hide Apply, Code, Units, Expand, ReadsRing;
    CodeReadBack([]);
    CodeReadBack(us);
    CodeReadBack(us + [u]);
    ExpandNone(History(stale));
    ExpandStarts(History(stale), us);
    ExpandSnoc(History(stale), us, u);
    var text := Decoded(stale, Code(us));
    if u.Literal? {
      LiteralAdds(History(stale) + text, u);
      assert (History(stale) + text + [u.b])[4096..] == text + [u.b];
    } else {
      PairReadsRing(stale, text, u.position, u.length);
    }
  }

  lemma ExpandNone(h: seq<byte>)
    requires |h| >= 4096
    ensures UnitsOk([]) && Expand(h, []) == h
  {
  }

  lemma ExpandStarts(h: seq<byte>, us: seq<Unit>)
    requires |h| == 4096 && UnitsOk(us)
    ensures |Expand(h, us)| >= 4096 && Expand(h, us) == h + Expand(h, us)[4096..]
  {
    assert Expand(h, us)[..4096] == h;
  }

  lemma LiteralAdds(h: seq<byte>, u: Unit)
    requires |h| >= 4096 && u.Literal?
    ensures Apply(h, u) == h + [u.b]
  {
  }

  // ---- the bytes of a code ----

  lemma OneUnit(b: byte, p: int, n: nat)
    requires 0 <= p < 4096 && 2 < n <= 18
    ensures UnitOk(Literal(b)) && UnitOk(Pair(p, n))
    ensures Code([Literal(b)]) == [1, b] && Code([Pair(p, n)]) == [0, p % 256, p / 256 * 16 + n - 3]
  {
    var us, vs := [Literal(b)], [Pair(p, n)];
    assert us[..0] == [] && vs[..0] == [];
    assert FlagByte([]) == 0 && Weight(0) == 1;
    assert FlagByte(us) == 1 && FlagByte(vs) == 0;
    assert BodyBytes(us) == [] + UnitBytes(us[0]) && BodyBytes(vs) == [] + UnitBytes(vs[0]);
  }

  /** Eight units at a time behind a byte with their flags, from its low bit up; 1 is for a byte. */
  lemma GroupInNumbers(us: seq<Unit>, j: nat)
    requires UnitsOk(us) && j < |us| && j < 8
    ensures Code(us) != [] && (Code(us)[0] / [1, 2, 4, 8, 16, 32, 64, 128][j] % 2 == 1 <==> us[j].Literal?)
    ensures |us| > 8 ==> Code(us) == Code(us[..8]) + Code(us[8..])
  {
    hide Flag, FlagByte, BodyBytes;
    var g := if |us| > 8 then us[..8] else us;
    FlagOfUnit(g, j);
    FlagIsQuotient(FlagByte(g), j);
  }

  lemma BehindFlags(us: seq<Unit>)
    requires UnitsOk(us) && 0 < |us| <= 8
    ensures Code(us) != [] && Code(us)[1..] == BodyBytes(us)
  {
    hide FlagByte, BodyBytes;
  }

  /** The bytes of a group's units follow one another. */
  lemma UnitInNumbers(us: seq<Unit>, u: Unit)
    requires UnitsOk(us) && 0 < |us| < 8 && UnitOk(u)
    ensures UnitsOk(us + [u]) && Code([u]) != [] && Code(us) != [] && Code(us + [u]) != []
    ensures Code(us + [u])[1..] == Code(us)[1..] + Code([u])[1..]
  {
    hide Code, UnitBytes, BodyBytes;
    BodyAppend(us, u);
    BehindFlags(us);
    BehindFlags([u]);
    BehindFlags(us + [u]);
    BodyCons([u]);
    assert [u][1..] == [];
    NoBody();
  }

  /** A code cut short inside its last unit stands for the units before it. */
  lemma {:induction false} CutReadBack(c: byte, j: nat, us: seq<Unit>, rest: seq<byte>)
    requires UnitsOk(us) && FlagsMatch(c, j, us) && j + |us| < 8
    requires rest == [] || (|rest| == 1 && !Flag(c, j + |us|))
    ensures UnitsFrom(c, j, BodyBytes(us) + rest) == us
    decreases |us|
  {
    hide Flag, UnitBytes, BodyBytes;
    if us == [] {
      NoBody();
      assert [] + rest == rest;
    } else {
      hide UnitsFrom;
      FlagsMatchTail(c, j, us);
      BodyCons(us);
      CutReadBack(c, j + 1, us[1..], rest);
      assert BodyBytes(us) + rest == UnitBytes(us[0]) + (BodyBytes(us[1..]) + rest);
      UnitReadBack(c, j, us[0], BodyBytes(us[1..]) + rest);
      assert us == [us[0]] + us[1..];
    }
  }

  lemma CutGroup(us: seq<Unit>, u: Unit)
    requires UnitsOk(us) && |us| < 8 && UnitOk(u)
    ensures UnitsOk(us + [u])
    ensures var bytes := GroupBytes(us + [u]); |bytes| > 1 && Units(bytes[..|bytes| - 1]) == us
  {
    hide Flag, FlagByte, BodyBytes, UnitsFrom;
    var g := us + [u];
    var c, bytes := FlagByte(g), GroupBytes(g);
    GroupFlagsMatch(g);
    BodyAppend(us, u);
    var cut := bytes[..|bytes| - 1];
    var rest: seq<byte> := if u.Literal? then [] else [u.position % 256];
    assert cut == [c] + (BodyBytes(us) + rest);
    assert forall k :: 0 <= k < |us| ==> us[k] == g[k];
    assert g[|us|] == u && (Flag(c, 0 + |us|) <==> u.Literal?);
    CutReadBack(c, 0, us, rest);
    FlagThenUnits(c, BodyBytes(us) + rest);
  }

  lemma FlagThenUnits(c: byte, body: seq<byte>)
    ensures Units([c] + body) == UnitsFrom(c, 0, body)
  {
    assert ([c] + body)[1..] == body;
  }

  /** The code without its last byte stands for the units but the last. */
  lemma {:induction false} CutShort(us: seq<Unit>, u: Unit)
    requires UnitsOk(us) && UnitOk(u)
    ensures UnitsOk(us + [u])
    ensures var code := Code(us + [u]); code != [] && Units(code[..|code| - 1]) == us
    decreases |us|
  {
    hide GroupBytes, Units;
    if |us| < 8 {
      CutGroup(us, u);
    } else {
      var first, rest := us[..8], us[8..];
      assert us == first + rest && (us + [u])[..8] == first && (us + [u])[8..] == rest + [u];
      CutShort(rest, u);
      var code := Code(rest + [u]);
      UnitsOfGroup(first, code[..|code| - 1]);
      assert Code(us + [u]) == GroupBytes(first) + code;
      var all := Code(us + [u]);
      assert all[..|all| - 1] == GroupBytes(first) + code[..|code| - 1];
    }
  }

  lemma SpaceByte(stale: seq<byte>, text: seq<byte>, m: nat, p: int)
    requires |stale| == 18 && m <= |text| && 0 <= p < 4078 && m <= p
    ensures RingByte(stale, text, m, p) == 32
  {
    Remainder(m - 1 + 4078 - p, 0, m - 1 + 4078 - p);
  }

  lemma ReadsSpaces(stale: seq<byte>, p: int, n: nat, text: seq<byte>)
    requires ReadsRing(stale, [], p, n, text) && n <= 18 && 0 <= p && p + n <= 4078
    ensures text == seq(n, _ => 32)
  {
    hide RingByte;
    forall m | 0 <= m < n ensures text[m] == 32 {
      Remainder(p + m, 0, p + m);
      SpaceByte(stale, text, m, p + m);
    }
  }

  /** From the initial ring a pair gets spaces. */
  lemma SpacesDecoded(stale: seq<byte>, p: int, n: nat)
    requires |stale| == 18 && 2 < n <= 18 && 0 <= p && p + n <= 4078
    ensures Decoded(stale, [0, p % 256, p / 256 * 16 + n - 3]) == seq(n, _ => 32)
  {
    hide Decoded, Code, ReadsRing;
    OneUnit(0, p, n);
    DecodedUnit(stale, [], Pair(p, n));
    assert [] + [Pair(p, n)] == [Pair(p, n)];
    ReadsSpaces(stale, p, n, Decoded(stale, [0, p % 256, p / 256 * 16 + n - 3]));
  }

  // ---- encoding ----

  /** A short source of spaces is matched whole by the initial ring. */
  lemma SpacesFound(src: seq<byte>)
    requires |src| <= 18 && forall i :: 0 <= i < |src| ==> src[i] == 32
    ensures Found(src, 0) == |src|
  {
    var n := |src|;
    assert First(0) == -18 && Lookahead(src, 0) == n;
    forall q | -18 <= q < 0 ensures MatchLen(src, 0, q) == n {
      assert Text(src, 0, n) == Text(src, q, n);
      LcpIs(Text(src, 0, n), Text(src, q, n), n);
    }
    assert MatchLen(src, 0, -1) == n;
  }

  /** At the start nothing but spaces can be matched. */
  lemma NothingFound(src: seq<byte>)
    requires src != [] && src[0] != 32
    ensures Found(src, 0) == 0
  {
    var n := Lookahead(src, 0);
    assert First(0) == -18;
    forall q | -18 <= q < 0 ensures MatchLen(src, 0, q) == 0 {
      assert Text(src, 0, n)[0] == src[0] && Text(src, q, n)[0] == 32;
      LcpIs(Text(src, 0, n), Text(src, q, n), 0);
    }
    assert MatchLen(src, 0, -1) == 0;
  }

  /** What the compressor makes of 3 to 18 spaces: one pair, from ring positions that hold spaces. */
  lemma SpacesEncoded(src: seq<byte>, us: seq<Unit>)
    requires 2 < |src| <= 18 && (forall i :: 0 <= i < |src| ==> src[i] == 32) && Emitted(src, us, |src|)
    ensures exists p :: 4060 <= p < 4078 && Code(us) == [0, p % 256, p / 256 * 16 + |src| - 3]
  {
    SpacesFound(src);
    assert UnitCount(src, |src|) == 0;
    assert Step(src, 0) == |src|;
    assert UnitCount(src, 0) == 1 + UnitCount(src, |src|);
    assert us == [us[0]] && us[..0] == [];
    assert Parses(src, us, |src|);
    assert UnitFits(src, 0, us[0]) by { assert Parses(src, us[..0], |src| - UnitLength(us[0])); }
    var q :| First(0) <= q < 0 && Slot(q) == us[0].position;
    assert First(0) == -18;
    Remainder(q + 4078, 0, q + 4078);
    OneUnit(0, us[0].position, |src|);
  }
}
