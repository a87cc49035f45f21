/** Choosing among kexts with the same bundle identifier: the newest, and the first of those. */
module KextNewest {
  import opened Values

  /** version is absent when the bundle has none, and -1 when it cannot be parsed. */
  datatype Kext = Kext(path: string, bundle: string, version: Option<int>)

  predicate Versioned(k: Kext) { k.version.Some? && k.version.value != -1 }

  /** An element with the bundle identifier of k that decides about k. */
  predicate Decides(m: Kext, k: Kext) { m.bundle == k.bundle && Versioned(m) && m.version.value > 0 }

  /** The first element that decides, or the number of elements. */
  function Decider(a: seq<Kext>, k: Kext): (i: nat)
    ensures i <= |a| && (i < |a| ==> Decides(a[i], k)) && forall j :: 0 <= j < i ==> !Decides(a[j], k)
  {
    if a == [] then 0 else if Decides(a[0], k) then 0 else 1 + Decider(a[1..], k)
  }

  /** The array after _appendIfNewest. */
  function Appended(a: seq<Kext>, k: Kext): seq<Kext> {
    if !Versioned(k) then a
    else
      var i := Decider(a, k);
      if i == |a| then a + [k]
      else if a[i].version.value >= k.version.value then a
      else a[..i] + a[i + 1..] + [k]
  }

  /** The array after calls for all of ks, or only for those not in it already. */
  function Kept(ks: seq<Kext>, check: bool): seq<Kext> {
    if ks == [] then []
    else
      var a, k := Kept(ks[..|ks| - 1], check), ks[|ks| - 1];
      if check && k in a then a else Appended(a, k)
  }

  function All(ks: seq<Kext>): seq<Kext> { Kept(ks, false) }

  class KextArray {
    var kexts: seq<Kext>

    constructor ()
      ensures kexts == []
    {
      kexts := [];
    }

    /** _appendIfNewest. */
    method AppendIfNewest(k: Kext)
      modifies this
      ensures kexts == Appended(old(kexts), k)
    {
      if k.version.None? || k.version.value == -1 { return; }
      var version := k.version.value;
      for i := 0 to |kexts|
        invariant kexts == old(kexts) && forall j :: 0 <= j < i ==> !Decides(kexts[j], k)
      {
        var m := kexts[i];
        if m.bundle == k.bundle && m.version.Some? {
          var v := m.version.value;
          if v > 0 && v > version { return; }
          if v > 0 && v == version { return; }
          if v > 0 && v < version {
            kexts := kexts[..i] + kexts[i + 1..] + [k];
            return;
          }
        }
      }
      kexts := kexts + [k];
    }

    /** A loop of filterKextsForCache over kexts that match its filters, after those of done; an element that is in
        the array already is not looked at again. */
    method AppendAll(ks: seq<Kext>, ghost done: seq<Kext>)
      requires kexts == Kept(done, true)
      modifies this
      ensures kexts == Kept(done + ks, true)
    {
      assert done + ks[..0] == done;
      for i := 0 to |ks|
        invariant kexts == Kept(done + ks[..i], true)
      {
        ghost var so := done + ks[..i + 1];
        assert so[..|so| - 1] == done + ks[..i] && so[|so| - 1] == ks[i];
        if ks[i] !in kexts { AppendIfNewest(ks[i]); }
      }
      assert ks[..|ks|] == ks;
    }

    /** The first pass of filterKextsForCache. */
    method FirstPass(repositoryKexts: seq<Kext>, namedKexts: seq<Kext>)
      requires kexts == []
      modifies this
      ensures kexts == Kept(repositoryKexts + namedKexts, true)
    {
      AppendAll(repositoryKexts, []);
      assert [] + repositoryKexts == repositoryKexts;
      AppendAll(namedKexts, repositoryKexts);
    }
  }

  // ---- what is chosen ----

  predicate Positive(k: Kext) { k.version.Some? && k.version.value > 0 }

  predicate AllPositive(ks: seq<Kext>) { forall i :: 0 <= i < |ks| ==> Positive(ks[i]) }

  /** The i-th kext is newer than the others with its bundle identifier, or as new and before them. */
  predicate Wins(ks: seq<Kext>, i: nat)
    requires i < |ks| && AllPositive(ks)
  {
    forall j :: 0 <= j < |ks| && j != i && ks[j].bundle == ks[i].bundle ==> Beats(ks, i, j)
  }

  predicate Beats(ks: seq<Kext>, i: nat, j: nat)
    requires i < |ks| && j < |ks| && Positive(ks[i]) && Positive(ks[j])
  {
    ks[j].version.value < ks[i].version.value || (ks[j].version.value == ks[i].version.value && i < j)
  }

  /** The winners among the first n, in order. */
  function Picked(ks: seq<Kext>, n: nat): seq<Kext>
    requires n <= |ks| && AllPositive(ks)
  {
    if n == 0 then [] else Picked(ks, n - 1) + if Wins(ks, n - 1) then [ks[n - 1]] else []
  }

  /** Picked holds winners only, and all of them. */
  lemma {:induction false} PickedAre(ks: seq<Kext>, n: nat, k: Kext)
    requires n <= |ks| && AllPositive(ks)
    ensures k in Picked(ks, n) <==> exists i :: 0 <= i < n && ks[i] == k && Wins(ks, i)
  {
    if n > 0 { PickedAre(ks, n - 1, k); }
  }

  /** The winner of a bundle identifier. */
  lemma {:induction false} WinnerExists(ks: seq<Kext>, bundle: string) returns (i: nat)
    requires AllPositive(ks) && exists k :: k in ks && k.bundle == bundle
    ensures i < |ks| && ks[i].bundle == bundle && Wins(ks, i)
    decreases |ks|
  {
    var last := |ks| - 1;
    var front := ks[..last];
    if exists k :: k in front && k.bundle == bundle {
      i := WinnerExists(front, bundle);
      if ks[last].bundle == bundle && ks[last].version.value > ks[i].version.value {
        forall j | 0 <= j < last && ks[j].bundle == bundle ensures Beats(ks, last, j) {
          if j != i { assert front[j].bundle == front[i].bundle && Beats(front, i, j); }
        }
        i := last;
      } else {
        forall j | 0 <= j < last && j != i && ks[j].bundle == bundle ensures Beats(ks, i, j) {
          assert front[j].bundle == front[i].bundle && Beats(front, i, j);
        }
      }
    } else {
      i := last;
      forall j | 0 <= j < last ensures ks[j].bundle != bundle { assert front[j] in front; }
    }
  }

  lemma OneWinner(ks: seq<Kext>, i: nat, j: nat)
    requires AllPositive(ks) && i < |ks| && j < |ks|
    ensures Wins(ks, i) && Wins(ks, j) && ks[i].bundle == ks[j].bundle ==> i == j
  {
  }

  lemma {:induction false} DeciderIs(a: seq<Kext>, k: Kext, i: nat)
    requires i <= |a| && (forall j :: 0 <= j < i ==> !Decides(a[j], k)) && (i < |a| ==> Decides(a[i], k))
    ensures Decider(a, k) == i
    decreases i
  {
    if i > 0 { DeciderIs(a[1..], k, i - 1); }
  }

  /** One more kext takes the place of an older winner and leaves the others. */
  lemma WinsNext(ks: seq<Kext>, k: Kext, i: nat)
    requires AllPositive(ks) && Positive(k) && i < |ks|
    ensures Wins(ks + [k], i) <==> Wins(ks, i) && !(k.bundle == ks[i].bundle && k.version.value > ks[i].version.value)
  {
    var now := ks + [k];
    forall j | 0 <= j < |ks| ensures Beats(now, i, j) <==> Beats(ks, i, j) {}
    assert now[|ks|] == k && (Beats(now, i, |ks|) <==> k.version.value <= ks[i].version.value);
  }

  lemma {:induction false} PickedKeeps(ks: seq<Kext>, k: Kext, n: nat)
    requires AllPositive(ks) && Positive(k) && n <= |ks|
    requires forall i :: 0 <= i < n && Wins(ks, i) ==>
      k.bundle != ks[i].bundle || k.version.value <= ks[i].version.value
    ensures Picked(ks + [k], n) == Picked(ks, n)
    decreases n
  {
    if n > 0 {
      WinsNext(ks, k, n - 1);
      PickedKeeps(ks, k, n - 1);
    }
  }

  /** Picked up to n, when the winner w is replaced. */
  lemma {:induction false} PickedDrops(ks: seq<Kext>, k: Kext, w: nat, n: nat)
    requires AllPositive(ks) && Positive(k) && w < n <= |ks| && Wins(ks, w)
    requires k.bundle == ks[w].bundle && k.version.value > ks[w].version.value
    ensures var a, i := Picked(ks, n), |Picked(ks, w)|;
      i < |a| && a[i] == ks[w] && a[..i] == Picked(ks, w) && Picked(ks + [k], n) == a[..i] + a[i + 1..]
    decreases n
  {
    WinsNext(ks, k, n - 1);
    if w == n - 1 {
      forall i | 0 <= i < w && Wins(ks, i) ensures k.bundle != ks[i].bundle {
        OneWinner(ks, i, w);
      }
      PickedKeeps(ks, k, w);
    } else {
      OneWinner(ks, w, n - 1);
      PickedDrops(ks, k, w, n - 1);
    }
  }

  lemma OthersDiffer(ks: seq<Kext>, w: nat, n: nat, j: nat)
    requires AllPositive(ks) && w < |ks| && n <= w && Wins(ks, w) && j < |Picked(ks, n)|
    ensures Picked(ks, n)[j].bundle != ks[w].bundle
  {
    var m := Picked(ks, n)[j];
    PickedAre(ks, n, m);
    var i :| 0 <= i < n && ks[i] == m && Wins(ks, i);
    OneWinner(ks, i, w);
  }

  lemma WinnerDecides(ks: seq<Kext>, k: Kext, w: nat)
    requires AllPositive(ks) && w < |ks| && Wins(ks, w) && k.bundle == ks[w].bundle
    ensures Decider(Picked(ks, |ks|), k) == |Picked(ks, w)| < |Picked(ks, |ks|)|
    ensures Picked(ks, |ks|)[|Picked(ks, w)|] == ks[w]
  {
    var newer := Kext(k.path, k.bundle, Some(ks[w].version.value + 1));
    PickedDrops(ks, newer, w, |ks|);
    var a, i := Picked(ks, |ks|), |Picked(ks, w)|;
    forall j | 0 <= j < i ensures !Decides(a[j], k) {
      assert a[j] == a[..i][j];
      OthersDiffer(ks, w, w, j);
    }
    DeciderIs(a, k, i);
  }

  lemma NoneDecides(ks: seq<Kext>, k: Kext)
    requires AllPositive(ks) && forall m :: m in ks ==> m.bundle != k.bundle
    ensures Decider(Picked(ks, |ks|), k) == |Picked(ks, |ks|)|
  {
    var a := Picked(ks, |ks|);
    forall j | 0 <= j < |a| ensures !Decides(a[j], k) { PickedAre(ks, |ks|, a[j]); }
    DeciderIs(a, k, |a|);
  }

  lemma PickedNext(ks: seq<Kext>, k: Kext)
    requires AllPositive(ks) && Positive(k)
    ensures Picked(ks + [k], |ks| + 1) == Picked(ks + [k], |ks|) + if Wins(ks + [k], |ks|) then [k] else []
  {
  }

  lemma AppendPicks(ks: seq<Kext>, k: Kext)
    requires AllPositive(ks) && Positive(k)
    ensures Appended(Picked(ks, |ks|), k) == Picked(ks + [k], |ks| + 1)
  {
    hide Picked, Decider, Wins, Positive;
    assert Versioned(k) by { PositiveIs(k); }
    PickedNext(ks, k);
    if exists m :: m in ks && m.bundle == k.bundle {
      var w := WinnerExists(ks, k.bundle);
      WinnerDecides(ks, k, w);
      PositiveIs(ks[w]);
      if ks[w].version.value >= k.version.value {
        NotNewer(ks, k, w);
      } else {
        PickedDrops(ks, k, w, |ks|);
        NewWinner(ks, k, w);
      }
    } else {
      NoneDecides(ks, k);
      FirstOfBundle(ks, k);
    }
  }

  lemma PositiveIs(k: Kext)
    requires Positive(k)
    ensures k.version.Some? && k.version.value > 0
  {
  }

  lemma NotNewer(ks: seq<Kext>, k: Kext, w: nat)
    requires AllPositive(ks) && Positive(k) && w < |ks| && Wins(ks, w) && ks[w].bundle == k.bundle
    requires ks[w].version.value >= k.version.value
    ensures Picked(ks + [k], |ks|) == Picked(ks, |ks|) && !Wins(ks + [k], |ks|)
  {
    forall i | 0 <= i < |ks| && Wins(ks, i) && k.bundle == ks[i].bundle ensures i == w { OneWinner(ks, i, w); }
    PickedKeeps(ks, k, |ks|);
    assert !Beats(ks + [k], |ks|, w);
  }

  lemma NewWinner(ks: seq<Kext>, k: Kext, w: nat)
    requires AllPositive(ks) && Positive(k) && w < |ks| && Wins(ks, w) && ks[w].bundle == k.bundle
    requires ks[w].version.value < k.version.value
    ensures Wins(ks + [k], |ks|)
  {
    forall j | 0 <= j < |ks| && ks[j].bundle == k.bundle ensures Beats(ks + [k], |ks|, j) {
      if j != w { assert Beats(ks, w, j); }
    }
  }

  lemma FirstOfBundle(ks: seq<Kext>, k: Kext)
    requires AllPositive(ks) && Positive(k) && forall m :: m in ks ==> m.bundle != k.bundle
    ensures Picked(ks + [k], |ks|) == Picked(ks, |ks|) && Wins(ks + [k], |ks|)
  {
    PickedKeeps(ks, k, |ks|);
    assert forall j :: 0 <= j < |ks| ==> ks[j] in ks;
  }

  /** After any sequence of kexts with positive versions the array holds the winners, in order. */
  lemma {:induction false} AllPicks(ks: seq<Kext>)
    requires AllPositive(ks)
    ensures All(ks) == Picked(ks, |ks|)
    decreases |ks|
  {
    if ks != [] {
      var front := ks[..|ks| - 1];
      AllPicks(front);
      AppendPicks(front, ks[|ks| - 1]);
      assert front + [ks[|ks| - 1]] == ks;
    }
  }

  /** A kext that is in the array already changes nothing. */
  lemma AlreadyThere(ks: seq<Kext>, k: Kext)
    requires AllPositive(ks) && k in All(ks)
    ensures Appended(All(ks), k) == All(ks)
  {
    AllPicks(ks);
    PickedAre(ks, |ks|, k);
    var w :| 0 <= w < |ks| && ks[w] == k && Wins(ks, w);
    WinnerDecides(ks, k, w);
  }

  /** Passing over elements of the array makes no difference then. */
  lemma {:induction false} CheckMakesNoDifference(ks: seq<Kext>)
    requires AllPositive(ks)
    ensures Kept(ks, true) == All(ks)
    decreases |ks|
  {
    if ks != [] {
      var front, k := ks[..|ks| - 1], ks[|ks| - 1];
      CheckMakesNoDifference(front);
      if k in All(front) { AlreadyThere(front, k); }
    }
  }

  // ---- any versions: when exactly one kext of a bundle identifier stays ----

  /** The kexts with this bundle identifier that have a version. */
  function Of(ks: seq<Kext>, bundle: string): (r: seq<Kext>)
    ensures forall k :: k in r <==> k in ks && Mine(k, bundle)
  {
    if ks == [] then []
    else
      var k := ks[|ks| - 1];
      Of(ks[..|ks| - 1], bundle) + if Mine(k, bundle) then [k] else []
  }

  predicate Mine(k: Kext, bundle: string) {
    k.bundle == bundle && k.version.Some? && k.version.value != -1
  }

  lemma {:induction false} OfConcat(a: seq<Kext>, b: seq<Kext>, bundle: string)
    ensures Of(a + b, bundle) == Of(a, bundle) + Of(b, bundle)
    decreases |b|
  {
    if b == [] {
      assert a + b == a;
    } else {
      var last := |b| - 1;
      assert (a + b)[..|a + b| - 1] == a + b[..last];
      OfConcat(a, b[..last], bundle);
    }
  }

  lemma OfOne(k: Kext, bundle: string)
    ensures Of([k], bundle) == if Mine(k, bundle) then [k] else []
  {
    assert [k][..0] == [];
  }

  lemma OfParts(a: seq<Kext>, i: nat, bundle: string)
    requires i < |a|
    ensures Of(a, bundle) == Of(a[..i], bundle) + Of([a[i]], bundle) + Of(a[i + 1..], bundle)
    ensures Of(a[..i] + a[i + 1..], bundle) == Of(a[..i], bundle) + Of(a[i + 1..], bundle)
  {
    assert a == (a[..i] + [a[i]]) + a[i + 1..];
    OfConcat(a[..i] + [a[i]], a[i + 1..], bundle);
    OfConcat(a[..i], [a[i]], bundle);
    OfConcat(a[..i], a[i + 1..], bundle);
  }

  /** Bundle identifiers do not mix. */
  lemma OfAppended(a: seq<Kext>, k: Kext, bundle: string)
    ensures Of(Appended(a, k), bundle) == if k.bundle == bundle then Appended(Of(a, bundle), k) else Of(a, bundle)
  {
    hide Decider, Of;
    if Versioned(k) {
      var i := Decider(a, k);
      OfOne(k, bundle);
      DeciderFound(a, k);
      if i == |a| {
        OfConcat(a, [k], bundle);
        if k.bundle == bundle { OfDecider(a, k, i); }
      } else {
        OfParts(a, i, bundle);
        OfOne(a[i], bundle);
        OfConcat(a[..i] + a[i + 1..], [k], bundle);
        if k.bundle == bundle {
          OfDecider(a, k, i);
          var m := Of(a, bundle);
          var j := |Of(a[..i], bundle)|;
          assert m[..j] == Of(a[..i], bundle) && m[j + 1..] == Of(a[i + 1..], bundle) && m[j] == a[i];
        }
      }
    }
  }

  lemma DeciderFound(a: seq<Kext>, k: Kext)
    ensures Decider(a, k) < |a| ==> Decides(a[Decider(a, k)], k)
  {
  }

  lemma NoneDecidesOf(a: seq<Kext>, k: Kext)
    requires forall j :: 0 <= j < |a| ==> !Decides(a[j], k)
    ensures forall x :: x in Of(a, k.bundle) ==> !Decides(x, k)
  {
    forall x | x in Of(a, k.bundle) ensures !Decides(x, k) {
      var j :| 0 <= j < |a| && a[j] == x;
    }
  }

  lemma DeciderMeans(a: seq<Kext>, k: Kext, i: nat)
    requires i == Decider(a, k)
    ensures i <= |a| && (i < |a| ==> Decides(a[i], k))
    ensures forall j :: 0 <= j < i ==> !Decides(a[..i][j], k)
  {
  }

  /** Without the others the element that decides comes after the same ones. */
  lemma OfDecider(a: seq<Kext>, k: Kext, i: nat)
    requires i == Decider(a, k)
    ensures Decider(Of(a, k.bundle), k) == |Of(a[..i], k.bundle)|
    ensures i == |a| ==> a[..i] == a
  {
    hide Of, Decider, Decides;
    DeciderMeans(a, k, i);
    NoneDecidesOf(a[..i], k);
    if i < |a| {
      OfSplit(a, i, k);
    } else {
      assert a[..i] == a;
      DeciderAfter(Of(a, k.bundle), k, Of(a, k.bundle), []);
    }
  }

  lemma OfSplit(a: seq<Kext>, i: nat, k: Kext)
    requires i < |a| && Decides(a[i], k) && forall x :: x in Of(a[..i], k.bundle) ==> !Decides(x, k)
    ensures Decider(Of(a, k.bundle), k) == |Of(a[..i], k.bundle)|
  {
    hide Of, Decider;
    OfParts(a, i, k.bundle);
    OfOne(a[i], k.bundle);
    var front, back := Of(a[..i], k.bundle), Of(a[i + 1..], k.bundle);
    assert front + [a[i]] + back == front + ([a[i]] + back);
    DeciderAfter(Of(a, k.bundle), k, front, [a[i]] + back);
  }

  lemma DeciderAfter(m: seq<Kext>, k: Kext, front: seq<Kext>, back: seq<Kext>)
    requires m == front + back && (back != [] ==> Decides(back[0], k))
    requires forall x :: x in front ==> !Decides(x, k)
    ensures Decider(m, k) == |front|
  {
    forall j | 0 <= j < |front| ensures !Decides(m[j], k) { assert m[j] == front[j] && front[j] in front; }
    DeciderIs(m, k, |front|);
  }

  lemma KeptNext(ks: seq<Kext>, k: Kext, check: bool)
    ensures var a := Kept(ks, check); Kept(ks + [k], check) == if check && k in a then a else Appended(a, k)
  {
    assert (ks + [k])[..|ks|] == ks;
  }

  lemma {:induction false} OfKept(ks: seq<Kext>, check: bool, bundle: string)
    ensures Of(Kept(ks, check), bundle) == Kept(Of(ks, bundle), check)
    decreases |ks|
  {
    if ks != [] {
      var front, k := ks[..|ks| - 1], ks[|ks| - 1];
      var a, m := Kept(front, check), Of(front, bundle);
      OfKept(front, check, bundle);
      OfAppended(a, k, bundle);
      assert Mine(k, bundle) ==> (k in a <==> k in Of(a, bundle));
      assert Of(ks, bundle) == if Mine(k, bundle) then m + [k] else m;
      hide Decider, Of;
      KeptNext(m, k, check);
      if k.bundle == bundle && !Versioned(k) { assert Appended(a, k) == a; }
    }
  }

  /** Nothing gets in but kexts that were given and have a version. */
  lemma {:induction false} KeptVersioned(ks: seq<Kext>, check: bool, k: Kext)
    requires k in Kept(ks, check)
    ensures k in ks && k.version.Some? && k.version.value != -1
    decreases |ks|
  {
    var front := ks[..|ks| - 1];
    if k in Kept(front, check) { KeptVersioned(front, check, k); }
  }

  predicate AllVersioned(ks: seq<Kext>) { forall i :: 0 <= i < |ks| ==> Versioned(ks[i]) }

  /** The i-th is of the greatest version, and the first of those. */
  predicate IsBest(ks: seq<Kext>, i: nat)
    requires i < |ks| && AllVersioned(ks)
  {
    forall j :: 0 <= j < |ks| ==>
      ks[j].version.value < ks[i].version.value || (ks[j].version.value == ks[i].version.value && i <= j)
  }

  predicate SameBundle(ks: seq<Kext>, bundle: string) { forall i :: 0 <= i < |ks| ==> Mine(ks[i], bundle) }

  lemma OneIsKept(k: Kext, check: bool)
    requires Versioned(k)
    ensures Kept([k], check) == [k] && IsBest([k], 0)
  {
    assert [k][..0] == [] && [] + [k] == [k];
    DeciderIs([], k, 0);
  }

  /** If the first has a positive version, the best stays alone. */
  lemma {:induction false} PositiveKeepsBest(ks: seq<Kext>, check: bool, bundle: string) returns (w: nat)
    requires ks != [] && SameBundle(ks, bundle) && Positive(ks[0])
    ensures w < |ks| && AllVersioned(ks) && IsBest(ks, w) && Kept(ks, check) == [ks[w]] && Positive(ks[w])
    decreases |ks|
  {
    hide Kept, Appended, IsBest;
    var front, k := ks[..|ks| - 1], ks[|ks| - 1];
    w := 0;
    assert front + [k] == ks;
    if front == [] {
      OneIsKept(k, check);
    } else {
      w := PositiveKeepsBest(front, check, bundle);
      var m := front[w];
      KeptNext(front, k, check);
      MeetsBest(m, k);
      BestNext(front, k, w);
      if k.version.value > m.version.value { w := |ks| - 1; }
    }
  }

  lemma MeetsBest(m: Kext, k: Kext)
    requires m.bundle == k.bundle && Positive(m) && Versioned(k)
    ensures Appended([m], k) == if k.version.value > m.version.value then [k] else [m]
  {
    DeciderIs([m], k, 0);
    assert [m][..0] + [m][1..] + [k] == [k];
  }

  lemma BestNext(ks: seq<Kext>, k: Kext, w: nat)
    requires w < |ks| && AllVersioned(ks) && IsBest(ks, w) && Versioned(k)
    ensures AllVersioned(ks + [k])
    ensures IsBest(ks + [k], if k.version.value > ks[w].version.value then |ks| else w)
  {
    var now := ks + [k];
    assert now[|ks|] == k && forall j :: 0 <= j < |ks| ==> now[j] == ks[j];
  }

  /** All of them, but repetitions where the array is checked, are one kext. */
  predicate Alone(ks: seq<Kext>, check: bool) {
    if check then forall i :: 0 <= i < |ks| ==> ks[i] == ks[0] else |ks| == 1
  }

  /** If it does not, it stays, and any other kext makes two. */
  lemma {:induction false} OthersJoin(ks: seq<Kext>, check: bool, bundle: string)
    requires ks != [] && SameBundle(ks, bundle) && !Positive(ks[0])
    ensures var a := Kept(ks, check); |a| > 0 && a[0] == ks[0] && (|a| == 1 <==> Alone(ks, check))
    decreases |ks|
  {
    var front, k := ks[..|ks| - 1], ks[|ks| - 1];
    if front == [] {
      DeciderIs([], k, 0);
      assert Kept([], check) == [];
    } else {
      hide Appended, Kept, Alone, Positive;
      AloneNext(front, k, check);
      OthersJoin(front, check, bundle);
      var a := Kept(front, check);
      KeptNext(front, k, check);
      assert front + [k] == ks;
      assert forall j :: 0 <= j < |front| ==> front[j] == ks[j];
      JoinsOthers(a, k);
    }
  }

  lemma AloneNext(ks: seq<Kext>, k: Kext, check: bool)
    requires ks != []
    ensures Alone(ks + [k], check) <==> check && Alone(ks, check) && k == ks[0]
  {
    var now := ks + [k];
    assert forall i :: 0 <= i < |ks| ==> now[i] == ks[i];
    assert now[|ks|] == k;
  }

  lemma JoinsOthers(a: seq<Kext>, k: Kext)
    requires a != [] && !Positive(a[0]) && Versioned(k)
    ensures var b := Appended(a, k); |b| >= 2 && b[0] == a[0]
  {
    DeciderFound(a, k);
  }

  /** Of the kexts with a bundle identifier exactly one is in the array at the end, if and only if the first of them
      that has a version has a positive one, or there is no other; if it is positive, the one that stays is of the
      greatest version, and the first of those. */
  lemma ExactlyOne(ks: seq<Kext>, check: bool, bundle: string) returns (w: nat)
    requires Of(ks, bundle) != []
    ensures var ms, kept := Of(ks, bundle), Of(Kept(ks, check), bundle);
      && (|kept| == 1 <==> Positive(ms[0]) || Alone(ms, check))
      && (Positive(ms[0]) ==> w < |ms| && AllVersioned(ms) && IsBest(ms, w) && kept == [ms[w]])
  {
    var ms := Of(ks, bundle);
    OfKept(ks, check, bundle);
    w := 0;
    if Positive(ms[0]) { w := PositiveKeepsBest(ms, check, bundle); } else { OthersJoin(ms, check, bundle); }
  }

  /** Such a kext without a positive version, and another beside it, do occur. */
  lemma VersionZeroStaysTwice(a: Kext, b: Kext)
    requires a.bundle == b.bundle && a.version == b.version == Some(0)
    ensures All([a, b]) == [a, b]
  {
    assert [a, b][..1] == [a] && [a][..0] == [];
    DeciderIs([], a, 0);
    assert [] + [a] == [a];
    assert Kept([a], false) == Appended(Kept([], false), a) == [a];
    DeciderIs([a], b, 1);
  }
}
