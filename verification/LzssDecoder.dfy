/** The decompressor: it keeps the last N bytes in a ring and counts eight units per flag byte by
    shifting ones into view. */
module LzssDecoder {
  import opened LzssKeys
  import opened LzssBuffer
  import opened LzssFormat

  /** The value of a 32-bit signed integer that receives n. */
  function AsInt32(n: int): (i: int)
    ensures -0x8000_0000 <= i < 0x8000_0000 && (i - n) % 0x1_0000_0000 == 0
  {
    (n + 0x8000_0000) % 0x1_0000_0000 - 0x8000_0000
  }

  /** The flag register after j shifts: the flags left, below eight ones. */
  ghost function Register(c: byte, j: nat): bv32
    requires j <= 8
  {
    (c as bv32 | 0xFF00) >> j
  }

  lemma FlagTwoOn(c: byte, j: nat)
    requires 2 <= j
    ensures Flag(c, j) == Flag(c / 4, j - 2)
  {
    assert Flag(c, j) == Flag(c / 2, j - 1) && c / 2 / 2 == c / 4;
  }

  lemma FlagLow(c: byte)
    ensures Flag(c, 0) <==> c % 2 == 1
    ensures Flag(c, 1) <==> c / 2 % 2 == 1
    ensures Flag(c, 2) <==> c / 4 % 2 == 1
    ensures Flag(c, 3) <==> c / 8 % 2 == 1
  {
    FlagTwoOn(c, 2);
    FlagTwoOn(c, 3);
    assert c / 4 / 2 == c / 8;
  }

  lemma FlagHigh(c: byte)
    ensures Flag(c, 4) <==> c / 16 % 2 == 1
    ensures Flag(c, 5) <==> c / 32 % 2 == 1
    ensures Flag(c, 6) <==> c / 64 % 2 == 1
    ensures Flag(c, 7) <==> c / 128 % 2 == 1
  {
    hide Flag;
    FlagLow(c / 16);
    FlagTwoOn(c, 4);
    FlagTwoOn(c, 5);
    FlagTwoOn(c, 6);
    FlagTwoOn(c, 7);
    FlagTwoOn(c / 4, 2);
    FlagTwoOn(c / 4, 3);
    FlagTwoOn(c / 4, 4);
    FlagTwoOn(c / 4, 5);
    assert c / 4 / 4 == c / 16 && c / 16 / 2 == c / 32 && c / 16 / 4 == c / 64 && c / 16 / 8 == c / 128;
  }

  lemma FlagIsQuotient(c: byte, j: nat)
    requires j < 8
    ensures Flag(c, j) <==> c / [1, 2, 4, 8, 16, 32, 64, 128][j] % 2 == 1
  {
    hide Flag;
    FlagLow(c);
    FlagHigh(c);
  }

  /** The lowest bit of the register is the next flag, and bit 8 runs out after eight units. */
  lemma RegisterCountsEight(c: byte, j: nat)
    requires j < 8
    ensures Register(c, j) & 1 == 1 <==> Flag(c, j)
    ensures Register(c, j) >> 1 == Register(c, j + 1)
    ensures Register(c, j + 1) & 0x100 == 0 <==> j + 1 == 8
  {
    FlagIsQuotient(c, j);
    if j == 0 {} else if j == 1 {} else if j == 2 {} else if j == 3 {}
    else if j == 4 {} else if j == 5 {} else if j == 6 {} else {}
  }

  /** The ring holds the last N bytes of h, and r is the position to be written next. */
  ghost predicate RingHolds(ring: seq<byte>, h: seq<byte>, r: int) {
    && |ring| >= N && |h| >= N && r == Slot(|h|)
    && forall i :: 0 <= i < N ==> ring[i] == h[|h| - N + Ahead(i, r)]
  }

  lemma RingPut(ring: seq<byte>, h: seq<byte>, r: int, c: byte)
    requires RingHolds(ring, h, r)
    ensures RingHolds(ring[r := c], h + [c], (r + 1) % N)
  {
  }

  /** A position and the write position keep their distance while both advance. */
  lemma AheadStays(m: nat, i: int, k: nat)
    requires 0 <= i < N && k < N
    ensures Ahead((i + k) % N, Slot(m + k)) == Ahead(i, Slot(m))
  {
    var r, i' := Slot(m), if i + k < N then i + k else i + k - N;
    assert (i + k) % N == i';
    assert Slot(m + k) == if r + k < N then r + k else r + k - N;
  }

  lemma RingGet(ring: seq<byte>, h0: seq<byte>, h: seq<byte>, i: int, k: nat, r: int)
    requires |h0| >= N && |h| == |h0| + k && RingHolds(ring, h, r)
    requires 0 <= i < N && k < N
    ensures |h0| - N + Ahead(i, Slot(|h0|)) + k < |h|
    ensures ring[(i + k) % N] == h[|h0| - N + Ahead(i, Slot(|h0|)) + k]
  {
    AheadStays(|h0|, i, k);
  }

  /** What has been written: all of the text so far, or as much of the final text as fits. */
  ghost predicate Written(out: seq<byte>, dstlen: nat, h: seq<byte>, full: bool, final: seq<byte>) {
    && |h| >= N && |out| <= dstlen && h <= final
    && if full then |out| == dstlen && out <= final[N..] else out == h[N..]
  }

  lemma WrittenPut(out: seq<byte>, dstlen: nat, h: seq<byte>, final: seq<byte>, c: byte)
    requires Written(out, dstlen, h, false, final) && |out| < dstlen && h + [c] <= final
    ensures Written(out + [c], dstlen, h + [c], false, final)
  {
  }

  lemma WrittenFull(out: seq<byte>, dstlen: nat, h: seq<byte>, final: seq<byte>)
    requires Written(out, dstlen, h, false, final) && |out| == dstlen
    ensures Written(out, dstlen, h, true, final)
  {
    assert h[N..] <= final[N..];
  }

  lemma WrittenAll(out: seq<byte>, dstlen: nat, h: seq<byte>, full: bool, final: seq<byte>)
    requires Written(out, dstlen, h, full, final) && (full || final == h)
    ensures out == final[N..][..Min(dstlen, |final[N..]|)]
  {
  }

  /** A ring of spaces with F bytes that were in memory before. */
  method NewRing(stale: seq<byte>) returns (ring: array<byte>)
    requires |stale| == F
    ensures fresh(ring) && ring.Length == N + F - 1 && RingHolds(ring[..], History(stale), N - F)
  {
    ring := new byte[N + F - 1](i requires 0 <= i < N + F - 1 => if N - F <= i < N then stale[i - (N - F)] else 0);
    for i := 0 to N - F
      invariant forall k :: 0 <= k < i ==> ring[k] == SPACE
      invariant forall k :: N - F <= k < N ==> ring[k] == stale[k - (N - F)]
    {
      ring[i] := SPACE;
    }
  }

  /** The run so far: the buffer before it, the bytes written, the text they are part of (preceded by
      the first ring), whether the buffer was found full, and the text the whole code stands for. */
  datatype Run = Run(before: seq<byte>, out: seq<byte>, h: seq<byte>, full: bool, final: seq<byte>)

  ghost predicate Decoding(buf: seq<byte>, ring: seq<byte>, at: nat, dstlen: nat, len: nat, r: int, run: Run) {
    && |run.out| == len <= dstlen && at + dstlen <= |run.before|
    && buf == Filled(run.before, at, run.out)
    && Written(run.out, dstlen, run.h, run.full, run.final)
    && |ring| == N + F - 1 && 0 <= r < N && (!run.full ==> RingHolds(ring, run.h, r))
  }

  /** One byte to the output, if it has room, and to the ring. */
  method PutByte(dst: array<byte>, at: nat, dstlen: nat, textBuf: array<byte>, len: nat, r: int, c: byte,
                 ghost run: Run)
    returns (ok: bool, len': nat, r': int, ghost run': Run)
    requires dst != textBuf && Decoding(dst[..], textBuf[..], at, dstlen, len, r, run)
    requires !run.full ==> run.h + [c] <= run.final
    modifies dst, textBuf
    ensures Decoding(dst[..], textBuf[..], at, dstlen, len', r', run')
    ensures ok <==> len < dstlen
    ensures run' == if ok then run.(out := run.out + [c], h := run.h + [c]) else run.(full := true)
  {
    len', r', run' := len, r, run;
    if len < dstlen {
      FilledPut(run.before, at, run.out, c);
      WrittenPut(run.out, dstlen, run.h, run.final, c);
      RingPut(textBuf[..], run.h, r, c);
      dst[at + len] := c;
      len' := len + 1;
      run' := run.(out := run.out + [c], h := run.h + [c]);
    } else {
      if !run.full { WrittenFull(run.out, dstlen, run.h, run.final); }
      run' := run.(full := true);
      return false, len', r', run';
    }
    textBuf[r] := c;
    r' := (r + 1) % N;
    ok := true;
  }

  /** The text after a pair: the copy starts where ring position i points. */
  ghost function AfterCopy(h: seq<byte>, i: int, n: nat): seq<byte>
    requires |h| >= N && 0 <= i < N
  {
    CopyRun(h, |h| - N + Ahead(i, Slot(|h|)), n)
  }

  /** The copy loop: n bytes from ring position i on, until the output is full. */
  method CopyMatch(dst: array<byte>, at: nat, dstlen: nat, textBuf: array<byte>, start: nat, r0: int, i: int, n: nat,
                   ghost run0: Run, ghost text: seq<byte>)
    returns (len: nat, r: int, ghost run: Run)
    requires dst != textBuf && Decoding(dst[..], textBuf[..], at, dstlen, start, r0, run0)
    requires 0 <= i < N && n <= F
    requires !run0.full ==> IsCopy(run0.h, N - Ahead(i, Slot(|run0.h|)), n, text) && text <= run0.final
    modifies dst, textBuf
    ensures Decoding(dst[..], textBuf[..], at, dstlen, len, r, run)
    ensures run.before == run0.before && run.final == run0.final
    ensures !run.full ==> !run0.full && run.h == text
  {
    len, r, run := start, r0, run0;
    ghost var m := |run0.h|;
    var k := 0;
    while k < n
      invariant 0 <= k <= n
      invariant Decoding(dst[..], textBuf[..], at, dstlen, len, r, run)
      invariant run.before == run0.before && run.final == run0.final && (run0.full ==> run.full)
      invariant !run.full ==> run.h == text[..m + k]
    {
      var c := textBuf[(i + k) % N];
      if !run.full {
        RingGet(textBuf[..], run0.h, run.h, i, k, r);
        assert c == text[..m + k][m + k - (N - Ahead(i, Slot(m)))] == text[m + k];
        assert run.h + [c] == text[..m + k + 1];
      }
      var ok;
      ok, len, r, run := PutByte(dst, at, dstlen, textBuf, len, r, c, run);
      if !ok { return; }
      k := k + 1;
    }
  }

  /** The next unit of a text, as the flag says a byte or a pair. */
  lemma LiteralNext(h: seq<byte>, c: byte, j: nat, code: seq<byte>)
    requires |h| >= N && j < 8 && code != [] && Flag(c, j)
    ensures Expand(h, UnitsFrom(c, j, code)) == Expand(h + [code[0]], UnitsFrom(c, j + 1, code[1..]))
    ensures h + [code[0]] <= Expand(h, UnitsFrom(c, j, code))
  {
    ExpandCons(h, Literal(code[0]), UnitsFrom(c, j + 1, code[1..]));
  }

  lemma PairUnits(c: byte, j: nat, code: seq<byte>, i: int, n: nat)
    requires j < 8 && |code| >= 2 && !Flag(c, j)
    requires i == code[0] as int + code[1] as int / 16 * 256 && n == code[1] as int % 16 + THRESHOLD + 1
    ensures 0 <= i < N && n <= F && UnitsFrom(c, j, code) == [Pair(i, n)] + UnitsFrom(c, j + 1, code[2..])
  {
  }

  lemma PairNext(h: seq<byte>, c: byte, j: nat, code: seq<byte>, i: int, n: nat)
    requires |h| >= N && j < 8 && |code| >= 2 && !Flag(c, j)
    requires i == code[0] as int + code[1] as int / 16 * 256 && n == code[1] as int % 16 + THRESHOLD + 1
    ensures 0 <= i < N && n <= F
    ensures Expand(h, UnitsFrom(c, j, code)) == Expand(AfterCopy(h, i, n), UnitsFrom(c, j + 1, code[2..]))
    ensures AfterCopy(h, i, n) <= Expand(h, UnitsFrom(c, j, code))
    ensures IsCopy(h, N - Ahead(i, Slot(|h|)), n, AfterCopy(h, i, n))
  {
    PairUnits(c, j, code, i, n);
    var rest := UnitsFrom(c, j + 1, code[2..]);
    ExpandCons(h, Pair(i, n), rest);
    assert Apply(h, Pair(i, n)) == AfterCopy(h, i, n);
    CopyRunIsCopy(h, |h| - N + Ahead(i, Slot(|h|)), n);
  }

  /** A code string that ends inside a unit has no more units. */
  lemma NoUnit(h: seq<byte>, c: byte, j: nat, code: seq<byte>)
    requires |h| >= N && j <= 8
    requires code == [] || (j < 8 && |code| == 1 && !Flag(c, j))
    ensures Expand(h, UnitsFrom(c, j, code)) == h
  {
  }

  /** The register after j units of the group flagged by c; it starts out as zero. */
  ghost predicate FlagsSeen(flags: bv32, c: byte, j: nat) {
    1 <= j <= 8 && (flags == Register(c, j - 1) || (flags == 0 && j == 8))
  }

  /** Brings the next flag to the low end of the register, reading a flag byte when eight are used up. */
  method NextFlag(flags: bv32, src: seq<byte>, pos: nat, ghost c: byte, ghost j: nat)
    returns (ok: bool, flags': bv32, pos': nat, literal: bool, ghost c': byte, ghost j': nat)
    requires FlagsSeen(flags, c, j) && pos <= |src|
    ensures !ok ==> j == 8 && pos == |src|
    ensures ok ==> j' < 8 && pos <= pos' <= |src| && FlagsSeen(flags', c', j' + 1) && (literal <==> Flag(c', j'))
    ensures ok ==> if j < 8 then c' == c && j' == j && pos' == pos
      else j' == 0 && pos' == pos + 1 && c' == src[pos]
  {
    RegisterCountsEight(c, j - 1);
    flags', pos', c', j' := flags >> 1, pos, c, j;
    if flags' & 0x100 == 0 {
      if pos == |src| { return false, flags', pos', false, c', j'; }
      c', j' := src[pos], 0;
      flags' := src[pos] as bv32 | 0xFF00;
      pos' := pos + 1;
      assert flags' == Register(c', 0);
    }
    RegisterCountsEight(c', j');
    literal := flags' & 1 == 1;
    ok := true;
  }

  /** What remains to be read stands for what remains of the text. */
  ghost predicate Remaining(run: Run, c: byte, j: nat, code: seq<byte>)
    requires j <= 8
  {
    |run.h| >= N && (!run.full ==> run.final == Expand(run.h, UnitsFrom(c, j, code)))
  }

  lemma RemainingInGroup(run: Run, c: byte, j: nat, src: seq<byte>, pos: nat)
    requires j <= 8 && pos <= |src| && Remaining(run, c, j, src[pos..])
    ensures j == 8 && pos == |src| && !run.full ==> run.final == run.h
    ensures j == 8 && pos < |src| ==> Remaining(run, src[pos], 0, src[pos + 1..])
  {
    if pos < |src| { assert src[pos..][1..] == src[pos + 1..]; }
  }

  /** Reads one unit, of the kind `literal`, unless src ends first or the output has no room for a byte. */
  method DecodeUnit(dst: array<byte>, at: nat, dstlen: nat, textBuf: array<byte>, len: nat, r: int, src: seq<byte>,
                    pos: nat, literal: bool, ghost c: byte, ghost j: nat, ghost run: Run)
    returns (more: bool, pos': nat, len': nat, r': int, ghost run': Run)
    requires dst != textBuf && Decoding(dst[..], textBuf[..], at, dstlen, len, r, run)
    requires pos <= |src| && j < 8 && (literal <==> Flag(c, j)) && Remaining(run, c, j, src[pos..])
    modifies dst, textBuf
    ensures Decoding(dst[..], textBuf[..], at, dstlen, len', r', run')
    ensures run'.before == run.before && run'.final == run.final
    ensures pos <= pos' <= |src|
    ensures more ==> pos < pos' && Remaining(run', c, j + 1, src[pos'..])
    ensures !more ==> run'.full || run'.final == run'.h
  {
    pos', len', r', run' := pos, len, r, run;
    ghost var code := src[pos..];
    if literal {
      if pos < |src| {
        assert code != [];
        LiteralNext(run.h, c, j, code);
        more, len', r', run' := PutByte(dst, at, dstlen, textBuf, len, r, src[pos], run);
        pos' := pos + 1;
        assert code[1..] == src[pos'..];
      } else {
        more := false;
        NoUnit(run.h, c, j, code);
      }
    } else {
      if pos + 1 < |src| {
        var i := src[pos] as int + src[pos + 1] as int / 16 * 256;
        var k := src[pos + 1] as int % 16 + THRESHOLD;
        assert code[0] == src[pos] && code[1] == src[pos + 1];
        PairNext(run.h, c, j, code, i, k + 1);
        len', r', run' := CopyMatch(dst, at, dstlen, textBuf, len, r, i, k + 1, run, AfterCopy(run.h, i, k + 1));
        pos' := pos + 2;
        more := true;
        assert code[2..] == src[pos'..];
      } else {
        more := false;
        NoUnit(run.h, c, j, code);
      }
    }
  }

  /** Expands src into dst[at..at + dstlen] and returns the number of bytes written, as decompress_lzss does,
      in a 32-bit integer.  `stale` is what memory happens to hold where decompress_lzss leaves the ring unset. */
  method DecompressLzss(dst: array<byte>, at: nat, dstlen: nat, src: seq<byte>, stale: seq<byte>) returns (n: int)
    requires at + dstlen <= dst.Length && |stale| == F
    modifies dst
    ensures var text := Decoded(stale, src);
      && n == AsInt32(Min(dstlen, |text|))
      && dst[..] == Filled(old(dst[..]), at, text[..Min(dstlen, |text|)])
  {
    hide UnitsFrom, Expand, AsInt32, Flag, Register;
    var textBuf := NewRing(stale);
    var r := N - F;
    var flags: bv32 := 0;
    var pos: nat, len: nat := 0, 0;      // read in src, written to dst
    ghost var c: byte, j := 0, 8;        // the flag byte in use, the units of it seen
    ghost var run := Run(dst[..], [], History(stale), false, Expand(History(stale), Units(src)));
    ghost var final := run.final;
    assert src[0..] == src;
    assert Filled(dst[..], at, []) == dst[..];
    var more := true;
    while more
      invariant pos <= |src| && FlagsSeen(flags, c, j)
      invariant Decoding(dst[..], textBuf[..], at, dstlen, len, r, run)
      invariant run.before == old(dst[..]) && run.final == final
      invariant more ==> Remaining(run, c, j, src[pos..])
      invariant !more ==> run.full || final == run.h
      decreases |src| - pos, more
    {
      var ok, literal;
      ghost var c', j';
      RemainingInGroup(run, c, j, src, pos);
      ok, flags, pos, literal, c', j' := NextFlag(flags, src, pos, c, j);
      if !ok { break; }
      more, pos, len, r, run := DecodeUnit(dst, at, dstlen, textBuf, len, r, src, pos, literal, c', j', run);
      c, j := c', j' + 1;
    }
    WrittenAll(run.out, dstlen, run.h, run.full, final);
    n := AsInt32(len);
  }
}
