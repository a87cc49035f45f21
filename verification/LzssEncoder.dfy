/** The compressor. */
module LzssEncoder {
  import opened LzssKeys
  import opened LzssBuffer
  import opened LzssFormat
  import opened LzssForest
  import opened LzssEncodeState
  import opened LzssWindow
  import opened LzssSearch
  import opened LzssParse

  /** The match fields hold what the search at pos found. */
  ghost predicate MatchFound(src: seq<byte>, pos: nat, mp: int, ml: int)
    requires pos <= |src|
  {
    && 0 <= ml <= F && Min(ml, Lookahead(src, pos)) == Found(src, pos)
    && (ml > 0 ==> exists q :: First(pos) <= q < pos && Slot(q) == mp && MatchLen(src, pos, q) == Found(src, pos))
  }

  /** The strings of the window up to position pos have been inserted. */
  ghost predicate Registered(sp: EncodeState, src: seq<byte>, pos: nat)
    reads sp, sp.lchild, sp.rchild, sp.parent, sp.textBuf
  {
    && pos < |src| && sp.Valid()
    && Holds(sp.textBuf[..], src, pos + Lookahead(src, pos))
    && Tracks(sp.Positions(), sp.textBuf[..], First(pos), pos)
  }

  /** Position pos has just been inserted. */
  ghost predicate Searched(sp: EncodeState, src: seq<byte>, pos: nat)
    reads sp, sp.lchild, sp.rchild, sp.parent, sp.textBuf
  {
    Registered(sp, src, pos) && MatchFound(src, pos, sp.matchPosition, sp.matchLength)
  }

  lemma NotLinked(ps: set<int>, t: seq<byte>, lo: int, hi: int, j: int)
    requires IsText(t) && InWindow(ps, t, lo, hi) && (j < lo || hi < j) && hi - j < N && j - lo < N
    ensures Slot(j) !in ps
  {
    if Slot(j) in ps {
      var q :| lo <= q <= hi && Slot(q) == Slot(j);
      SlotInjective(q, j);
    }
  }

  lemma PrimedHolds(t: seq<byte>, src: seq<byte>, len: nat)
    requires Primed(t) && len <= F && len <= |src|
    requires forall k :: 0 <= k < len ==> t[N - F + k] == src[k]
    ensures Holds(t, src, len)
  {
    forall j | len - N <= j < len && -(N - F) <= j ensures HoldsAt(t, src, j) {
      assert Slot(j) == j + N - F;
      if j >= 0 { assert t[N - F + j] == src[j]; }
    }
  }

  lemma AfterInsert(ps: set<int>, t: seq<byte>, src: seq<byte>, pos: nat, mp: int, ml: int)
    requires Ready(ps, t, src, pos) && LongestMatch(t, Slot(pos), ps, mp, ml) && Slot(pos) !in ps
    ensures MatchFound(src, pos, mp, ml) && Tracks(Inserted(ps, pos, mp, ml), t, First(pos), pos)
  {
    SearchFinds(ps, t, src, pos, mp, ml);
    TracksInsert(ps, t, First(pos), pos - 1, mp, ml);
  }

  lemma ReadyNotLinked(ps: set<int>, t: seq<byte>, src: seq<byte>, pos: nat)
    requires Ready(ps, t, src, pos)
    ensures Slot(pos) !in ps
  {
    NotLinked(ps, t, First(pos), pos - 1, pos);
  }

  /** Inserts position pos when all is ready for it. */
  method Insert(sp: EncodeState, src: seq<byte>, ghost pos: nat, r: int)
    requires sp.Valid() && pos < |src| && r == Slot(pos) && Ready(sp.Positions(), sp.textBuf[..], src, pos)
    modifies sp, sp.lchild, sp.rchild, sp.parent
    ensures Searched(sp, src, pos)
  {
    ghost var ps, t := sp.Positions(), sp.textBuf[..];
    ReadyNotLinked(ps, t, src, pos);
    sp.InsertNode(r);
    AfterInsert(ps, t, src, pos, sp.matchPosition, sp.matchLength);
    assert sp.Positions() == Inserted(ps, pos, sp.matchPosition, sp.matchLength);
  }

  /** Reads up to F bytes into the last F bytes of the ring. */
  method ReadAhead(sp: EncodeState, src: seq<byte>) returns (len: nat)
    requires sp.Valid() && sp.Positions() == {} && Primed(sp.textBuf[..])
    modifies sp.textBuf
    ensures sp.Valid() && sp.Positions() == {} && Primed(sp.textBuf[..])
    ensures len == Lookahead(src, 0) && Holds(sp.textBuf[..], src, len)
  {
    var r := N - F;
    len := 0;
    while len < F && len < |src|
      invariant len <= F && len <= |src| && Primed(sp.textBuf[..])
      invariant forall k :: 0 <= k < len ==> sp.textBuf[N - F + k] == src[k]
    {
      sp.textBuf[r + len] := src[len];
      len := len + 1;
    }
    SameStringsSameForest(sp.LinkValues(), sp.sub, OrderOf(old(sp.textBuf[..])), OrderOf(sp.textBuf[..]));
    PrimedHolds(sp.textBuf[..], src, len);
  }

  lemma SlotBefore(j: int)
    requires -F <= j <= 0
    ensures Slot(j) == N - F + j
  {
  }

  /** Inserts the string that starts with one more space. */
  method InsertBefore(sp: EncodeState, ghost lo: int, r: int)
    requires sp.Valid() && Primed(sp.textBuf[..]) && Priming(sp.Positions(), sp.textBuf[..], lo)
    requires -F < lo <= 0 && r == N - F + lo - 1
    modifies sp, sp.lchild, sp.rchild, sp.parent
    ensures sp.Valid() && Priming(sp.Positions(), sp.textBuf[..], lo - 1)
  {
    ghost var ps, t := sp.Positions(), sp.textBuf[..];
    NotLinked(ps, t, lo, -1, lo - 1);
    SlotBefore(lo - 1);
    sp.InsertNode(r);
    PrimingStep(ps, t, lo, sp.matchPosition, sp.matchLength);
  }

  lemma ReadyAtStart(ps: set<int>, t: seq<byte>, src: seq<byte>)
    requires Primed(t) && Priming(ps, t, -F) && src != [] && Holds(t, src, Lookahead(src, 0))
    ensures Ready(ps, t, src, 0) && Slot(0) == N - F
  {
    PrimingDone(ps, t);
  }

  /** Reads the first bytes and inserts the strings that start with the spaces before them, the last
      first, and then the whole string just read. */
  method Prime(src: seq<byte>) returns (sp: EncodeState, len: nat)
    ensures fresh(sp) && fresh(sp.lchild) && fresh(sp.rchild) && fresh(sp.parent) && fresh(sp.textBuf)
    ensures len == Lookahead(src, 0)
    ensures src != [] ==> Searched(sp, src, 0)
  {
    sp := new EncodeState();
    var r := N - F;
    len := ReadAhead(sp, src);
    if len == 0 { return; }
    ghost var t := sp.textBuf[..];
    for i := 1 to F + 1
      invariant sp.Valid() && sp.textBuf[..] == t
      invariant Priming(sp.Positions(), t, 1 - i)
    {
      InsertBefore(sp, 1 - i, r - i);
    }
    ReadyAtStart(sp.Positions(), t, src);
    Insert(sp, src, 0, r);
  }

  // ---- moving on by one position ----

  /** Deleting the oldest string leaves the strings the next position may match. */
  lemma OldestDeleted(ps: set<int>, t: seq<byte>, pos: nat)
    requires IsText(t) && Tracks(ps, t, First(pos), pos)
    ensures Tracks(ps - {Slot(pos + F)}, t, First(pos + 1), pos)
  {
    if First(pos) == pos - (N - F) {
      assert Slot(pos + F) == Slot(First(pos));
      TracksDelete(ps, t, First(pos), pos);
    } else {
      var j := pos + F - N;
      assert Slot(pos + F) == Slot(j);
      NotLinked(ps, t, First(pos), pos, j);
      assert ps - {Slot(pos + F)} == ps;
    }
  }

  lemma TextGrows(ps: set<int>, t: seq<byte>, src: seq<byte>, pos: nat)
    requires pos + F < |src| && Holds(t, src, pos + F) && Tracks(ps, t, First(pos + 1), pos)
    ensures var t' := PutByte(t, Slot(pos + F), src[pos + F]);
      && Ready(ps, t', src, pos + 1)
      && forall p :: p in ps ==> 0 <= p < N && Key(t', p) == Key(t, p)
  {
    var t' := PutByte(t, Slot(pos + F), src[pos + F]);
    PutByteHolds(t, src, pos + F);
    forall q | First(pos + 1) <= q <= pos ensures Key(t', Slot(q)) == Key(t, Slot(q)) {
      PutByteKeepsKeys(t, pos + F, src[pos + F], q);
    }
    TracksKeep(ps, t, t', First(pos + 1), pos);
    forall p | p in ps ensures 0 <= p < N && Key(t', p) == Key(t, p) {
      var q :| First(pos + 1) <= q <= pos && Slot(q) == p;
    }
  }

  lemma NextSlot(j: int)
    ensures Slot(j + 1) == (Slot(j) + 1) % N
  {
  }

  /** Puts the next byte of the source in the ring; no string in the trees changes. */
  method ReadByte(sp: EncodeState, src: seq<byte>, ghost pos: nat, s: int, c: byte)
    requires sp.Valid() && pos + F < |src| && s == Slot(pos + F) && c == src[pos + F]
    requires Holds(sp.textBuf[..], src, pos + F) && Tracks(sp.Positions(), sp.textBuf[..], First(pos + 1), pos)
    modifies sp.textBuf
    ensures sp.Valid() && Ready(sp.Positions(), sp.textBuf[..], src, pos + 1)
  {
    ghost var t := sp.textBuf[..];
    TextGrows(sp.Positions(), t, src, pos);
    sp.textBuf[s] := c;
    if s < F - 1 {
      sp.textBuf[s + N] := c;
    }
    ghost var t' := sp.textBuf[..];
    assert t' == PutByte(t, s, c);
    forall x | x in sp.Positions() ensures OrderOf(t').head[x] == OrderOf(t).head[x] {
      assert Key(t', x)[0] == Key(t, x)[0];
    }
    SameStringsSameForest(sp.LinkValues(), sp.sub, OrderOf(t), OrderOf(t'));
  }

  /** Deletes the string that leaves the window, if there is one. */
  method DeleteOldest(sp: EncodeState, ghost pos: nat, s: int)
    requires sp.Valid() && Tracks(sp.Positions(), sp.textBuf[..], First(pos), pos) && s == Slot(pos + F)
    modifies sp, sp.lchild, sp.rchild, sp.parent
    ensures sp.Valid() && Tracks(sp.Positions(), sp.textBuf[..], First(pos + 1), pos)
  {
    OldestDeleted(sp.Positions(), sp.textBuf[..], pos);
    sp.DeleteNode(s);
  }

  /** One round of the loop that deletes an old string, reads a byte and registers the next string. */
  method StepReading(sp: EncodeState, src: seq<byte>, ghost pos: nat, s: int, r: int, c: byte)
    returns (s': int, r': int)
    requires Registered(sp, src, pos) && pos + F < |src| && s == Slot(pos + F) && r == Slot(pos) && c == src[pos + F]
    modifies sp, sp.lchild, sp.rchild, sp.parent, sp.textBuf
    ensures Searched(sp, src, pos + 1) && s' == Slot(pos + 1 + F) && r' == Slot(pos + 1)
  {
    hide Tracks, Holds, Slot, Ready, MatchFound, EncodeState.Valid, EncodeState.Positions;
    DeleteOldest(sp, pos, s);
    ReadByte(sp, src, pos, s, c);
    NextSlot(pos + F);
    NextSlot(pos);
    s' := (s + 1) % N;
    r' := (r + 1) % N;
    Insert(sp, src, pos + 1, r');
  }

  lemma ReadyWhenDraining(ps: set<int>, t: seq<byte>, src: seq<byte>, pos: nat)
    requires pos + 1 < |src| <= pos + F && Holds(t, src, pos + Lookahead(src, pos))
    requires Tracks(ps, t, First(pos + 1), pos)
    ensures Ready(ps, t, src, pos + 1)
  {
  }

  /** One round of the loop after the end of the source: no byte is left to read. */
  method StepDraining(sp: EncodeState, src: seq<byte>, ghost pos: nat, s: int, r: int, len: nat)
    returns (s': int, r': int, len': nat)
    requires Registered(sp, src, pos) && |src| <= pos + F && s == Slot(pos + F) && r == Slot(pos) && len == |src| - pos
    modifies sp, sp.lchild, sp.rchild, sp.parent
    ensures len' == len - 1 && s' == Slot(pos + 1 + F) && r' == Slot(pos + 1)
    ensures len' > 0 ==> Searched(sp, src, pos + 1)
  {
    hide Tracks, Holds, Slot, Ready, MatchFound, EncodeState.Valid, EncodeState.Positions;
    DeleteOldest(sp, pos, s);
    NextSlot(pos + F);
    NextSlot(pos);
    s' := (s + 1) % N;
    r' := (r + 1) % N;
    len' := len - 1;
    if len' > 0 {
      ReadyWhenDraining(sp.Positions(), sp.textBuf[..], src, pos);
      Insert(sp, src, pos + 1, r');
    }
  }

  lemma RegisteredIs(sp: EncodeState, src: seq<byte>, pos: nat)
    requires Registered(sp, src, pos)
    ensures pos < |src|
  {
  }

  /** Moves on by the n bytes just encoded, reading as many new ones as there are. */
  method Advance(sp: EncodeState, src: seq<byte>, ghost pos: nat, rd0: nat, s0: int, r0: int, len0: nat, n: nat)
    returns (rd: nat, s: int, r: int, len: nat)
    requires Registered(sp, src, pos) && s0 == Slot(pos + F) && r0 == Slot(pos)
    requires len0 == Lookahead(src, pos) && rd0 == pos + len0 && 1 <= n <= len0
    modifies sp, sp.lchild, sp.rchild, sp.parent, sp.textBuf
    ensures s == Slot(pos + n + F) && r == Slot(pos + n) && len == Lookahead(src, pos + n) && rd == pos + n + len
    ensures len > 0 ==> Searched(sp, src, pos + n)
  {
    hide Registered, MatchFound, Slot;
    RegisteredIs(sp, src, pos);
    rd, s, r, len := rd0, s0, r0, len0;
    var i := 0;
    while i < n && rd < |src|
      invariant i <= n && s == Slot(pos + i + F) && r == Slot(pos + i)
      invariant len == Lookahead(src, pos + i) && rd == pos + i + len
      invariant Registered(sp, src, pos + i) && (i > 0 ==> Searched(sp, src, pos + i))
    {
      s, r := StepReading(sp, src, pos + i, s, r, src[rd]);
      rd := rd + 1;
      i := i + 1;
    }
    while i < n
      invariant i <= n && s == Slot(pos + i + F) && r == Slot(pos + i)
      invariant len == Lookahead(src, pos + i) && rd == pos + i + len
      invariant i < n ==> rd == |src|
      invariant len > 0 ==> Registered(sp, src, pos + i) && (i > 0 ==> Searched(sp, src, pos + i))
    {
      s, r, len := StepDraining(sp, src, pos + i, s, r, len);
      i := i + 1;
    }
  }

  // ---- writing units ----

  /** code_buf holds the group g, whose next flag has the value of mask. */
  ghost predicate GroupHeld(code: seq<byte>, mask: int, ptr: int, g: seq<Unit>) {
    && |code| == 17 && UnitsOk(g) && |g| < 8
    && mask == Weight(|g|) && ptr == 1 + |BodyBytes(g)| && ptr <= 17
    && code[..ptr] == GroupBytes(g)
  }

  lemma GroupAppend(g: seq<Unit>, u: Unit)
    requires UnitsOk(g) && UnitOk(u) && |g| < 8
    ensures UnitsOk(g + [u])
    ensures FlagByte(g + [u]) == FlagByte(g) + (if u.Literal? then Weight(|g|) else 0)
    ensures BodyBytes(g + [u]) == BodyBytes(g) + UnitBytes(u)
  {
    BodyAppend(g, u);
    FlagAppend(g, u);
  }

  /** 'Send one byte'. */
  method AddLiteral(codeBuf: array<byte>, mask: int, ptr: nat, c: byte, ghost g: seq<Unit>) returns (ptr': nat)
    requires GroupHeld(codeBuf[..], mask, ptr, g)
    modifies codeBuf
    ensures 1 <= ptr' <= 17 && codeBuf[..ptr'] == GroupBytes(g + [Literal(c)])
  {
    hide FlagByte, BodyBytes, Weight;
    WeightBound(|g|);
    GroupAppend(g, Literal(c));
    codeBuf[0] := codeBuf[0] as int + mask;
    codeBuf[ptr] := c;
    ptr' := ptr + 1;
    assert codeBuf[..ptr'] == [codeBuf[0]] + codeBuf[1..ptr] + [c];
    assert codeBuf[1..ptr] == BodyBytes(g);
  }

  /** Sends a position and length pair. */
  method AddPair(codeBuf: array<byte>, ghost mask: int, ptr: nat, position: int, length: int, ghost g: seq<Unit>)
    returns (ptr': nat)
    requires GroupHeld(codeBuf[..], mask, ptr, g) && UnitOk(Pair(position, length))
    modifies codeBuf
    ensures 1 <= ptr' <= 17 && codeBuf[..ptr'] == GroupBytes(g + [Pair(position, length)])
  {
    hide FlagByte, BodyBytes, Weight;
    GroupAppend(g, Pair(position, length));
    ptr' := ptr;
    codeBuf[ptr'] := position % 256;
    ptr' := ptr' + 1;
    codeBuf[ptr'] := position / 256 * 16 + (length - (THRESHOLD + 1));
    ptr' := ptr' + 1;
    assert codeBuf[..ptr'] == codeBuf[..ptr] + UnitBytes(Pair(position, length));
    assert codeBuf[..ptr] == GroupBytes(g);
  }

  /** The unit for the match found at pos. */
  lemma UnitForMatch(src: seq<byte>, pos: nat, mp: int, ml: int, u: Unit)
    requires pos < |src| && MatchFound(src, pos, mp, ml)
    requires var n := Min(ml, Lookahead(src, pos));
      u == if n <= THRESHOLD then Literal(src[pos]) else Pair(mp, n)
    ensures UnitFits(src, pos, u) && UnitOk(u) && UnitLength(u) == Step(src, pos)
  {
  }

  /** Adds to the code buffer the byte at r or the pair for the match, and sets the match length to the
      number of bytes encoded. */
  method EmitUnit(sp: EncodeState, src: seq<byte>, ghost pos: nat, r: int, len: nat, codeBuf: array<byte>,
                  mask: int, ptr: nat, ghost g: seq<Unit>)
    returns (ptr': nat, ghost u: Unit)
    requires Searched(sp, src, pos) && r == Slot(pos) && len == Lookahead(src, pos)
    requires codeBuf != sp.textBuf && GroupHeld(codeBuf[..], mask, ptr, g)
    modifies sp`matchLength, codeBuf
    ensures Registered(sp, src, pos) && sp.matchLength == Step(src, pos) == UnitLength(u)
    ensures UnitOk(u) && UnitFits(src, pos, u)
    ensures 1 <= ptr' <= 17 && codeBuf[..ptr'] == GroupBytes(g + [u])
  {
    assert sp.textBuf[r] == src[pos] by { assert HoldsAt(sp.textBuf[..], src, pos); }
    u := if Min(sp.matchLength, len) <= THRESHOLD then Literal(src[pos])
         else Pair(sp.matchPosition, Min(sp.matchLength, len));
    UnitForMatch(src, pos, sp.matchPosition, sp.matchLength, u);
    if sp.matchLength > len {
      sp.matchLength := len;
    }
    if sp.matchLength <= THRESHOLD {
      sp.matchLength := 1;
      ptr' := AddLiteral(codeBuf, mask, ptr, sp.textBuf[r], g);
    } else {
      ptr' := AddPair(codeBuf, mask, ptr, sp.matchPosition, sp.matchLength, g);
    }
  }

  /** Copies the code buffer to the output; false when it does not fit. */
  method Flush(dst: array<byte>, at: nat, dstlen: nat, out: nat, codeBuf: array<byte>, ptr: nat,
               ghost before: seq<byte>, ghost written: seq<byte>)
    returns (ok: bool, out': nat)
    requires dst != codeBuf && |before| == dst.Length && at + dstlen <= dst.Length && ptr <= codeBuf.Length
    requires |written| == out <= dstlen && dst[..] == Filled(before, at, written)
    modifies dst
    ensures ok <==> out + ptr <= dstlen
    ensures ok ==> out' == out + ptr && dst[..] == Filled(before, at, written + codeBuf[..ptr])
    ensures dst[..at] == before[..at] && dst[at + dstlen..] == before[at + dstlen..]
  {
    out' := out;
    for i := 0 to ptr
      invariant out' == out + i <= dstlen && dst[..] == Filled(before, at, written + codeBuf[..i])
    {
      if out' < dstlen {
        FilledPut(before, at, written + codeBuf[..i], codeBuf[i]);
        dst[at + out'] := codeBuf[i];
        out' := out' + 1;
        assert codeBuf[..i + 1] == codeBuf[..i] + [codeBuf[i]];
        assert written + codeBuf[..i + 1] == (written + codeBuf[..i]) + [codeBuf[i]];
      } else {
        ok := false;
        return;
      }
    }
    ok := true;
  }

  /** written is the code of all units but those of the last, open group g. */
  ghost predicate Grouped(us: seq<Unit>, g: seq<Unit>, written: seq<byte>) {
    && UnitsOk(us) && |g| <= |us| && g == us[|us| - |g|..] && (|us| - |g|) % 8 == 0
    && written == Code(us[..|us| - |g|])
  }

  lemma GroupGrows(us: seq<Unit>, g: seq<Unit>, written: seq<byte>, u: Unit)
    requires Grouped(us, g, written) && UnitOk(u)
    ensures UnitsOk(g + [u]) && Grouped(us + [u], g + [u], written)
  {
    assert (us + [u])[..|us| - |g|] == us[..|us| - |g|];
  }

  /** Writing out the open group writes all units. */
  lemma GroupCloses(src: seq<byte>, us: seq<Unit>, g: seq<Unit>, written: seq<byte>, pos: nat)
    requires Emitted(src, us, pos) && Grouped(us, g, written) && 0 < |g| <= 8
    ensures UnitsOk(g) && Code(us) == written + GroupBytes(g)
    ensures |written| + |GroupBytes(g)| <= CompressedSize(src)
    ensures pos == |src| ==> |written| + |GroupBytes(g)| == CompressedSize(src)
  {
    hide Code, Emitted, GroupBytes, CompressedSize;
    var done := us[..|us| - |g|];
    assert us == done + g;
    CodeAppend(done, g);
    EmittedFits(src, us, pos);
  }

  lemma NewGroup(us: seq<Unit>)
    requires UnitsOk(us) && |us| % 8 == 0
    ensures Grouped(us, [], Code(us))
  {
    assert us[..|us| - 0] == us;
  }

  /** The output so far: whole groups in the buffer, the units since in the code buffer. */
  ghost predicate Outputting(buf: seq<byte>, before: seq<byte>, at: nat, dstlen: nat, out: nat, written: seq<byte>) {
    && |before| == |buf| && at + dstlen <= |buf| && out == |written| <= dstlen && buf == Filled(before, at, written)
  }

  /** The group g has just grown.  When it is full it is written out and a new one begun. */
  method CloseGroup(src: seq<byte>, ghost pos: nat, codeBuf: array<byte>, mask: int, ptr: nat, ghost us: seq<Unit>,
                    ghost g: seq<Unit>, dst: array<byte>, at: nat, dstlen: nat, out: nat,
                    ghost before: seq<byte>, ghost written: seq<byte>)
    returns (ok: bool, mask': int, ptr': nat, out': nat, ghost g': seq<Unit>, ghost written': seq<byte>)
    requires dst != codeBuf && codeBuf.Length == 17 && Outputting(dst[..], before, at, dstlen, out, written)
    requires Emitted(src, us, pos) && UnitsOk(g) && 0 < |g| <= 8 && Grouped(us, g, written)
    requires ptr <= 17 && codeBuf[..ptr] == GroupBytes(g) && mask == if |g| == 8 then 0 else Weight(|g|)
    modifies codeBuf, dst
    ensures ok ==> Outputting(dst[..], before, at, dstlen, out', written') && Grouped(us, g', written')
    ensures ok ==> GroupHeld(codeBuf[..], mask', ptr', g')
    ensures !ok ==> CompressedSize(src) > dstlen
    ensures dst[..at] == before[..at] && dst[at + dstlen..] == before[at + dstlen..]
  {
    hide Code, Parses, Emitted, FlagByte, BodyBytes;
    mask', ptr', out', g', written', ok := mask, ptr, out, g, written, true;
    if mask == 0 {
      GroupCloses(src, us, g, written, pos);
      written' := written + codeBuf[..ptr];
      ok, out' := Flush(dst, at, dstlen, out, codeBuf, ptr, before, written);
      if !ok { return; }
      codeBuf[0] := 0;
      ptr', mask', g' := 1, 1, [];
      NewGroup(us);
      assert codeBuf[..1] == [0] == GroupBytes([]);
    } else {
      assert |codeBuf[..ptr]| == 1 + |BodyBytes(g)|;
    }
  }

  lemma NextMask(n: nat)
    requires n < 8
    ensures Weight(n) * 2 % 256 == if n == 7 then 0 else Weight(n + 1)
  {
    WeightBound(n + 1);
  }

  lemma GroupHeldIs(code: seq<byte>, mask: int, ptr: int, g: seq<Unit>)
    requires GroupHeld(code, mask, ptr, g)
    ensures |g| < 8 && mask == Weight(|g|) && |code| == 17
  {
  }

  /** Encodes the match at pos; when that fills a group, writes the group out. */
  method EmitAndFlush(sp: EncodeState, src: seq<byte>, ghost pos: nat, r: int, len: nat, codeBuf: array<byte>,
                      mask: int, ptr: nat, ghost us: seq<Unit>, ghost g: seq<Unit>,
                      dst: array<byte>, at: nat, dstlen: nat, out: nat,
                      ghost before: seq<byte>, ghost written: seq<byte>)
    returns (ok: bool, mask': int, ptr': nat, out': nat,
             ghost us': seq<Unit>, ghost g': seq<Unit>, ghost written': seq<byte>)
    requires Searched(sp, src, pos) && r == Slot(pos) && len == Lookahead(src, pos)
    requires codeBuf != sp.textBuf && dst != sp.textBuf && dst != codeBuf
    requires Outputting(dst[..], before, at, dstlen, out, written) && Grouped(us, g, written)
    requires GroupHeld(codeBuf[..], mask, ptr, g) && Emitted(src, us, pos)
    modifies sp`matchLength, codeBuf, dst
    ensures Registered(sp, src, pos) && sp.matchLength == Step(src, pos)
    ensures ok ==> Outputting(dst[..], before, at, dstlen, out', written') && Grouped(us', g', written')
    ensures ok ==> GroupHeld(codeBuf[..], mask', ptr', g') && Emitted(src, us', pos + Step(src, pos))
    ensures !ok ==> CompressedSize(src) > dstlen
    ensures dst[..at] == before[..at] && dst[at + dstlen..] == before[at + dstlen..]
  {
    hide *;
    GroupHeldIs(codeBuf[..], mask, ptr, g);
    ghost var u;
    ptr', u := EmitUnit(sp, src, pos, r, len, codeBuf, mask, ptr, g);
    EmittedAppend(src, us, pos, u);
    GroupGrows(us, g, written, u);
    NextMask(|g|);
    us' := us + [u];
    ok, mask', ptr', out', g', written' :=
      CloseGroup(src, pos + Step(src, pos), codeBuf, mask * 2 % 256, ptr', us', g + [u],
                 dst, at, dstlen, out, before, written);
  }

  lemma StartsEmpty(src: seq<byte>, buf: seq<byte>, at: nat, dstlen: nat, code: seq<byte>)
    requires at + dstlen <= |buf| && |code| == 17 && code[0] == 0
    ensures Emitted(src, [], 0) && Grouped([], [], []) && Slot(0 + F) == 0 && Slot(0) == N - F
    ensures GroupHeld(code, 1, 1, []) && Outputting(buf, buf, at, dstlen, 0, [])
  {
    NewGroup([]);
    assert code[..1] == [0];
    assert Filled(buf, at, []) == buf;
  }

  lemma StepFits(src: seq<byte>, pos: nat)
    requires pos < |src|
    ensures 1 <= Step(src, pos) <= Lookahead(src, pos)
  {
  }

  lemma NothingLeft(src: seq<byte>, pos: nat)
    requires pos <= |src|
    ensures Lookahead(src, pos) == 0 <==> pos == |src|
  {
  }

  /** With no group open all units are written. */
  lemma AllWritten(src: seq<byte>, us: seq<Unit>, g: seq<Unit>, written: seq<byte>, code: seq<byte>, mask: int,
                   ptr: int)
    requires Emitted(src, us, |src|) && Grouped(us, g, written) && GroupHeld(code, mask, ptr, g) && ptr <= 1
    ensures written == Code(us) && |written| == CompressedSize(src)
  {
    assert g == [];
    assert us[..|us| - 0] == us;
    EmittedFits(src, us, |src|);
  }

  lemma GroupToFlush(code: seq<byte>, mask: int, ptr: int, g: seq<Unit>)
    requires GroupHeld(code, mask, ptr, g) && ptr > 1
    ensures ptr <= |code| && UnitsOk(g) && 0 < |g| <= 8 && code[..ptr] == GroupBytes(g)
  {
  }

  lemma OutputtingIs(buf: seq<byte>, before: seq<byte>, at: nat, dstlen: nat, out: nat, written: seq<byte>)
    requires Outputting(buf, before, at, dstlen, out, written)
    ensures |before| == |buf| && at + dstlen <= |buf| && out == |written| <= dstlen
      && buf == Filled(before, at, written)
    ensures buf[..at] == before[..at] && buf[at + dstlen..] == before[at + dstlen..]
  {
  }

  /** Writes the units of the open group, if any. */
  method FlushRest(src: seq<byte>, codeBuf: array<byte>, ghost mask: int, ptr: nat, ghost us: seq<Unit>,
                   ghost g: seq<Unit>, dst: array<byte>, at: nat, dstlen: nat, out: nat,
                   ghost before: seq<byte>, ghost written: seq<byte>)
    returns (ok: bool, n: nat)
    requires dst != codeBuf && Outputting(dst[..], before, at, dstlen, out, written) && Grouped(us, g, written)
    requires GroupHeld(codeBuf[..], mask, ptr, g) && Emitted(src, us, |src|)
    modifies dst
    ensures ok <==> CompressedSize(src) <= dstlen
    ensures ok ==> n == CompressedSize(src) == |Code(us)| && at + n <= dst.Length
    ensures ok ==> dst[..] == Filled(before, at, Code(us))
    ensures dst[..at] == before[..at] && dst[at + dstlen..] == before[at + dstlen..]
  {
    n := out;
    hide *;
    if ptr > 1 {
      GroupToFlush(codeBuf[..], mask, ptr, g);
      GroupCloses(src, us, g, written, |src|);
      OutputtingIs(dst[..], before, at, dstlen, out, written);
      ok, n := Flush(dst, at, dstlen, out, codeBuf, ptr, before, written);
    } else {
      AllWritten(src, us, g, written, codeBuf[..], mask, ptr);
      ok := true;
      OutputtingIs(dst[..], before, at, dstlen, out, written);
    }
  }

  /** Compresses src into dst[at..at + dstlen].  Not ok stands for the null pointer of compress_lzss, and n
      for the distance of the returned pointer from the start. */
  method CompressLzss(dst: array<byte>, at: nat, dstlen: nat, src: seq<byte>) returns (ok: bool, n: nat)
    requires at + dstlen <= dst.Length
    modifies dst
    ensures ok <==> src != [] && CompressedSize(src) <= dstlen
    ensures ok ==> n == CompressedSize(src)
    ensures ok ==>
      exists us :: Emitted(src, us, |src|) && at + |Code(us)| <= dst.Length
        && dst[..] == Filled(old(dst[..]), at, Code(us))
    ensures dst[..at] == old(dst[..at]) && dst[at + dstlen..] == old(dst[at + dstlen..])
  {
    hide *;
    ghost var before := dst[..];
    var codeBuf := new byte[17](_ => 0);
    var mask, ptr := 1, 1;
    var s, r := 0, N - F;
    var sp, len := Prime(src);
    n := 0;
    NothingLeft(src, 0);
    if len == 0 { return false, 0; }
    var rd := len;
    ghost var pos, us, g, written := 0, [], [], [];
    StartsEmpty(src, dst[..], at, dstlen, codeBuf[..]);
    while len > 0
      invariant pos <= |src| && s == Slot(pos + F) && r == Slot(pos) && len == Lookahead(src, pos) && rd == pos + len
      invariant len > 0 ==> Searched(sp, src, pos)
      invariant Outputting(dst[..], before, at, dstlen, n, written) && Grouped(us, g, written)
      invariant GroupHeld(codeBuf[..], mask, ptr, g) && Emitted(src, us, pos)
      invariant dst[..at] == before[..at] && dst[at + dstlen..] == before[at + dstlen..]
      decreases |src| - pos
    {
      NothingLeft(src, pos);
      StepFits(src, pos);
      ok, mask, ptr, n, us, g, written := EmitAndFlush(sp, src, pos, r, len, codeBuf, mask, ptr, us, g, dst, at,
        dstlen, n, before, written);
      if !ok { return false, 0; }
      ghost var step := Step(src, pos);
      rd, s, r, len := Advance(sp, src, pos, rd, s, r, len, sp.matchLength);
      pos := pos + step;
    }
    NothingLeft(src, pos);
    ok, n := FlushRest(src, codeBuf, mask, ptr, us, g, dst, at, dstlen, n, before, written);
  }
}
