/**
  Putting the recorded matches back into the token list.

  After the rules have replaced every match by a marker token such as #KAI#,
  tokenize walks the recorded matches marker by marker, in the order the markers
  were recorded, and each value overwrites the first token still equal to its
  marker, found with `list.index`, which raises ValueError when the marker is no
  longer there. The failure is modelled as `Failure(marker)`.

  `Place` and `Restore` follow the code value by value. `Fill` and
  `FillAll` are an independent description of the outcome: the n-th occurrence of
  a marker receives its n-th value.
*/
module Restoration {
  import opened Wrappers

  /** The matches recorded for each marker, in the order they were recorded. */
  type Entries = seq<(string, seq<string>)>

  /** How many tokens equal k. */
  function Count(ts: seq<string>, k: string): nat
  {
    if ts == [] then 0 else (if ts[0] == k then 1 else 0) + Count(ts[1..], k)
  }

  /** list.index: the first index holding k, or nothing when k does not occur. */
  function IndexOf(ts: seq<string>, k: string): (r: Option<nat>)
    ensures r.Some? ==> r.value < |ts| && ts[r.value] == k && k !in ts[..r.value]
    ensures r.None? <==> k !in ts
  {
    if ts == [] then None
    else if ts[0] == k then Some(0)
    else
      match IndexOf(ts[1..], k)
      case None => None
      case Some(i) =>
        assert ts[..i + 1] == [ts[0]] + ts[1..][..i];
        Some(i + 1)
  }

  /** `tokens.index(k)` on a list held in an array. */
  method Index(a: array<string>, k: string) returns (r: Option<nat>)
    ensures r == IndexOf(a[..], k)
  {
    var i := 0;
    while i < a.Length
      invariant 0 <= i <= a.Length
      invariant k !in a[..i]
    {
      if a[i] == k {
        IndexFirst(a[..], k, i);
        return Some(i);
      }
      assert a[..i + 1] == a[..i] + [a[i]];
      i := i + 1;
    }
    assert a[..] == a[..a.Length];
    return None;
  }

  /** IndexOf is determined by where k first occurs. */
  lemma IndexFirst(ts: seq<string>, k: string, i: nat)
    requires i < |ts| && ts[i] == k && k !in ts[..i]
    ensures IndexOf(ts, k) == Some(i)
  {
  }

  /** `for v in vs: tokens[tokens.index(k)] = v` */
  function Place(ts: seq<string>, k: string, vs: seq<string>): Result<seq<string>, string>
    decreases |vs|
  {
    if vs == [] then Success(ts)
    else
      match IndexOf(ts, k)
      case None => Failure(k)
      case Some(i) => Place(ts[i := vs[0]], k, vs[1..])
  }

  /** The loop over the recorded markers. */
  function Restore(ts: seq<string>, d: Entries): Result<seq<string>, string>
    decreases |d|
  {
    if d == [] then Success(ts)
    else
      match Place(ts, d[0].0, d[0].1)
      case Failure(k) => Failure(k)
      case Success(ts') => Restore(ts', d[1..])
  }

  /** Restore what is left after the current marker's remaining values. */
  function Then(r: Result<seq<string>, string>, d: Entries): Result<seq<string>, string>
  {
    match r
    case Failure(k) => Failure(k)
    case Success(ts) => Restore(ts, d)
  }

  /** The restoration of lines 68-70 on the token list in place. On success the
      array holds the restored tokens; on failure the marker whose lookup failed is
      returned (the caller discards the partly rewritten list, as the exception
      does). */
  method RestoreInPlace(a: array<string>, d: Entries) returns (err: Option<string>)
    modifies a
    ensures Restore(old(a[..]), d).Success? <==> err.None?
    ensures err.None? ==> a[..] == Restore(old(a[..]), d).value
    ensures err.Some? ==> err.value == Restore(old(a[..]), d).error
  {
    ghost var goal := Restore(a[..], d);
    var e := 0;
    while e < |d|
      invariant 0 <= e <= |d|
      invariant Restore(a[..], d[e..]) == goal
    {
      var (k, vs) := d[e];
      assert d[e..][1..] == d[e + 1..];
      var x := 0;
      while x < |vs|
        invariant 0 <= x <= |vs|
        invariant Then(Place(a[..], k, vs[x..]), d[e + 1..]) == goal
      {
        assert vs[x..][1..] == vs[x + 1..];
        var i := Index(a, k);
        if i.None? {
          return Some(k);
        }
        a[i.value] := vs[x];
        x := x + 1;
      }
      e := e + 1;
    }
    return None;
  }

  // ---------------------------------------------------------------------------
  // The outcome, described position by position

  /** The tokens with the occurrences of k, from the left, taking the values vs in
      turn; occurrences beyond the values are left alone. */
  function Fill(ts: seq<string>, k: string, vs: seq<string>): (r: seq<string>)
    ensures |r| == |ts|
  {
    if ts == [] then []
    else if ts[0] == k && vs != [] then [vs[0]] + Fill(ts[1..], k, vs[1..])
    else [ts[0]] + Fill(ts[1..], k, vs)
  }

  /** Position j of Fill: a token equal to k that is preceded by n occurrences of k
      becomes the n-th value if there is one; every other token is unchanged. */
  lemma {:induction false} FillAt(ts: seq<string>, k: string, vs: seq<string>, j: nat)
    requires j < |ts|
    ensures Fill(ts, k, vs)[j] ==
      if ts[j] == k && Count(ts[..j], k) < |vs| then vs[Count(ts[..j], k)] else ts[j]
  {
    if j > 0 {
      assert ts[..j] == [ts[0]] + ts[1..][..j - 1];
      if ts[0] == k && vs != [] {
        FillAt(ts[1..], k, vs[1..], j - 1);
      } else {
        FillAt(ts[1..], k, vs, j - 1);
      }
    }
  }

  lemma {:induction false} FillNone(ts: seq<string>, k: string)
    ensures Fill(ts, k, []) == ts
  {
    if ts != [] {
      FillNone(ts[1..], k);
    }
  }

  /** Writing the first value at the first occurrence of k and filling the rest
      is filling all of them. */
  lemma {:induction false} FillFirst(ts: seq<string>, k: string, i: nat, v: string, vs: seq<string>)
    requires i < |ts| && ts[i] == k && k !in ts[..i] && v != k
    ensures Fill(ts[i := v], k, vs) == Fill(ts, k, [v] + vs)
  {
    if i == 0 {
      assert ts[i := v] == [v] + ts[1..];
      assert ([v] + vs)[1..] == vs;
    } else {
      assert ts[..i] == [ts[0]] + ts[1..][..i - 1];
      assert ts[i := v][1..] == ts[1..][i - 1 := v];
      FillFirst(ts[1..], k, i - 1, v, vs);
    }
  }

  /** Overwriting an occurrence of k with a value that is not k removes one
      occurrence. */
  lemma {:induction false} CountUpdate(ts: seq<string>, k: string, i: nat, v: string)
    requires i < |ts| && ts[i] == k && v != k
    ensures Count(ts[i := v], k) + 1 == Count(ts, k)
  {
    if i > 0 {
      assert ts[i := v][1..] == ts[1..][i - 1 := v];
      CountUpdate(ts[1..], k, i - 1, v);
    }
  }

  lemma {:induction false} CountAbsent(ts: seq<string>, k: string)
    ensures Count(ts, k) == 0 <==> k !in ts
  {
    if ts != [] {
      CountAbsent(ts[1..], k);
    }
  }

  /** One marker: the value-by-value loop succeeds exactly when the marker occurs
      at least as often as it has values, and then it fills the occurrences in
      order. Values are never markers, which is what makes this hold. */
  lemma {:induction false} PlaceFill(ts: seq<string>, k: string, vs: seq<string>)
    requires k !in vs
    ensures Place(ts, k, vs) ==
      if |vs| <= Count(ts, k) then Success(Fill(ts, k, vs)) else Failure(k)
    decreases |vs|
  {
    if vs == [] {
      FillNone(ts, k);
    } else {
      CountAbsent(ts, k);
      match IndexOf(ts, k)
      case None =>
      case Some(i) =>
        assert vs[0] in vs;
        CountUpdate(ts, k, i, vs[0]);
        assert vs == [vs[0]] + vs[1..];
        PlaceFill(ts[i := vs[0]], k, vs[1..]);
        FillFirst(ts, k, i, vs[0], vs[1..]);
    }
  }

  /** The markers are distinct and no value is a marker. */
  predicate Separate(d: Entries)
  {
    && (forall e, f :: 0 <= e < f < |d| ==> d[e].0 != d[f].0)
    && (forall e, f :: 0 <= e < |d| && 0 <= f < |d| ==> d[e].0 !in d[f].1)
  }

  /** Every marker occurs at least as often as it has values. */
  predicate Enough(ts: seq<string>, d: Entries)
  {
    forall e :: 0 <= e < |d| ==> |d[e].1| <= Count(ts, d[e].0)
  }

  /** The first marker that has more values than occurrences. */
  function Short(ts: seq<string>, d: Entries): (k: Option<string>)
    ensures k.None? <==> Enough(ts, d)
  {
    if d == [] then None
    else if Count(ts, d[0].0) < |d[0].1| then Some(d[0].0)
    else
      var k := Short(ts, d[1..]);
      assert Enough(ts, d) <== Enough(ts, d[1..]) by {
        if Enough(ts, d[1..]) {
          forall e | 0 <= e < |d|
            ensures |d[e].1| <= Count(ts, d[e].0)
          {
            if e > 0 {
              assert d[e] == d[1..][e - 1];
            }
          }
        }
      }
      k
  }

  /** Fill for every marker in turn. */
  function FillAll(ts: seq<string>, d: Entries): (r: seq<string>)
    ensures |r| == |ts|
    decreases |d|
  {
    if d == [] then ts else FillAll(Fill(ts, d[0].0, d[0].1), d[1..])
  }

  lemma SeparateTail(d: Entries)
    requires Separate(d) && d != []
    ensures Separate(d[1..])
    ensures forall e :: 0 <= e < |d[1..]| ==> d[0].0 != d[1..][e].0 && d[0].0 !in d[1..][e].1
    ensures forall e :: 0 <= e < |d[1..]| ==> d[1..][e].0 !in d[0].1
  {
    forall e | 0 <= e < |d[1..]|
      ensures d[0].0 != d[1..][e].0 && d[0].0 !in d[1..][e].1 && d[1..][e].0 !in d[0].1
    {
      assert d[1..][e] == d[e + 1];
    }
  }

  /** Filling marker k leaves the occurrences of every other marker m alone when
      no value of k is m. */
  lemma {:induction false} CountFill(ts: seq<string>, k: string, vs: seq<string>, m: string)
    requires k != m && m !in vs
    ensures Count(Fill(ts, k, vs), m) == Count(ts, m)
  {
    if ts != [] {
      if ts[0] == k && vs != [] {
        assert vs[0] in vs;
        CountFill(ts[1..], k, vs[1..], m);
      } else {
        CountFill(ts[1..], k, vs, m);
      }
    }
  }

  /** Every marker: restoration succeeds exactly when each marker occurs at least as
      often as it has values, fails on the first marker that does not, and on
      success equals filling the markers one after another. */
  lemma {:induction false} RestoreFill(ts: seq<string>, d: Entries)
    requires Separate(d)
    ensures Restore(ts, d) ==
      match Short(ts, d)
      case None => Success(FillAll(ts, d))
      case Some(k) => Failure(k)
    decreases |d|
  {
    if d != [] {
      SeparateTail(d);
      PlaceFill(ts, d[0].0, d[0].1);
      if |d[0].1| <= Count(ts, d[0].0) {
        var ts' := Fill(ts, d[0].0, d[0].1);
        RestoreFill(ts', d[1..]);
        ShortFill(ts, d[0].0, d[0].1, d[1..]);
      }
    }
  }

  /** Filling one marker does not change which of the other markers run short. */
  lemma {:induction false} ShortFill(ts: seq<string>, k: string, vs: seq<string>, d: Entries)
    requires forall e :: 0 <= e < |d| ==> k != d[e].0 && d[e].0 !in vs
    ensures Short(Fill(ts, k, vs), d) == Short(ts, d)
  {
    if d != [] {
      CountFill(ts, k, vs, d[0].0);
      ShortFill(ts, k, vs, d[1..]);
    }
  }

  /** A token that is none of the markers is never overwritten. */
  lemma {:induction false} FillAllKeeps(ts: seq<string>, d: Entries, j: nat)
    requires j < |ts| && forall e :: 0 <= e < |d| ==> ts[j] != d[e].0
    ensures FillAll(ts, d)[j] == ts[j]
    decreases |d|
  {
    if d != [] {
      FillAt(ts, d[0].0, d[0].1, j);
      FillAllKeeps(Fill(ts, d[0].0, d[0].1), d[1..], j);
    }
  }

  /** Filling commutes with taking a prefix. */
  lemma {:induction false} FillPrefix(ts: seq<string>, k: string, vs: seq<string>, j: nat)
    requires j <= |ts|
    ensures Fill(ts, k, vs)[..j] == Fill(ts[..j], k, vs)
  {
    if j > 0 {
      assert ts[..j][1..] == ts[1..][..j - 1];
      if ts[0] == k && vs != [] {
        FillPrefix(ts[1..], k, vs[1..], j - 1);
      } else {
        FillPrefix(ts[1..], k, vs, j - 1);
      }
    }
  }

  /** Every marker: the token at j, an occurrence of the marker of entry e with n
      occurrences of that marker before it, ends up holding the n-th value of that
      entry, or stays the marker when the entry has no n-th value. */
  lemma {:induction false} FillAllAt(ts: seq<string>, d: Entries, e: nat, j: nat)
    requires Separate(d) && e < |d| && j < |ts| && ts[j] == d[e].0
    ensures FillAll(ts, d)[j] ==
      if Count(ts[..j], d[e].0) < |d[e].1| then d[e].1[Count(ts[..j], d[e].0)] else ts[j]
    decreases |d|
  {
    SeparateTail(d);
    var ts' := Fill(ts, d[0].0, d[0].1);
    FillAt(ts, d[0].0, d[0].1, j);
    if e == 0 {
      forall f | 0 <= f < |d[1..]|
        ensures ts'[j] != d[1..][f].0
      {
        if Count(ts[..j], d[0].0) < |d[0].1| {
          assert ts'[j] in d[0].1;
        }
      }
      FillAllKeeps(ts', d[1..], j);
    } else {
      assert d[e] == d[1..][e - 1];
      FillPrefix(ts, d[0].0, d[0].1, j);
      CountFill(ts[..j], d[0].0, d[0].1, d[e].0);
      FillAllAt(ts', d[1..], e - 1, j);
    }
  }

  /** Which marker runs short depends only on how often each marker occurs. */
  lemma {:induction false} ShortCounts(a: seq<string>, b: seq<string>, d: Entries)
    requires forall e :: 0 <= e < |d| ==> Count(a, d[e].0) == Count(b, d[e].0)
    ensures Short(a, d) == Short(b, d)
  {
    if d != [] {
      forall e | 0 <= e < |d[1..]|
        ensures Count(a, d[1..][e].0) == Count(b, d[1..][e].0)
      {
        assert d[1..][e] == d[e + 1];
      }
      ShortCounts(a, b, d[1..]);
    }
  }
}
