/** The table arithmetic of the repair (movrepair.py): differences of
    neighbouring entries, a guess at the period of those differences, the
    rescaling of counts, and the extension of an offset or size table by
    repeating the guessed pattern of differences. */
module TableRepair {

  // ---------------------------------------------------------------------
  // Differences

  /** `calc_item_delta`: the difference of every entry to the one before. */
  function Deltas(s: seq<int>): (r: seq<int>)
    ensures |r| == if s == [] then 0 else |s| - 1
  {
    if |s| <= 1 then [] else [s[1] - s[0]] + Deltas(s[1..])
  }

  /** Entry `i` of the differences is `s[i + 1] - s[i]`. */
  lemma {:induction false} DeltasAt(s: seq<int>, i: nat)
    requires i + 1 < |s|
    ensures Deltas(s)[i] == s[i + 1] - s[i]
    decreases i
  {
    if i > 0 {
      DeltasAt(s[1..], i - 1);
    }
  }

  /** Running sums from a start value: the entries whose differences are `ds`. */
  function Accumulate(start: int, ds: seq<int>): (r: seq<int>)
    ensures |r| == |ds| + 1 && r[0] == start
    decreases |ds|
  {
    if ds == [] then [start] else [start] + Accumulate(start + ds[0], ds[1..])
  }

  /** A table is its first entry followed by its differences. */
  lemma {:induction false} AccumulateDeltas(s: seq<int>)
    requires s != []
    ensures Accumulate(s[0], Deltas(s)) == s
    decreases |s|
  {
    if |s| > 1 {
      AccumulateDeltas(s[1..]);
      assert Deltas(s)[1..] == Deltas(s[1..]);
      assert s == [s[0]] + s[1..];
    }
  }

  /** The differences of running sums are the summands. */
  lemma {:induction false} DeltasAccumulate(start: int, ds: seq<int>)
    ensures Deltas(Accumulate(start, ds)) == ds
    decreases |ds|
  {
    if ds != [] {
      var a := Accumulate(start, ds);
      var a' := Accumulate(start + ds[0], ds[1..]);
      DeltasAccumulate(start + ds[0], ds[1..]);
      assert a[1..] == a';
      assert a[1] - a[0] == ds[0];
      assert Deltas(a) == [ds[0]] + Deltas(a');
      assert ds == [ds[0]] + ds[1..];
    }
  }

  // ---------------------------------------------------------------------
  // The period guess

  /** The first `x` items repeat right after themselves (`seq[0:x] == seq[x:2*x]`). */
  predicate RepeatsAt(s: seq<int>, x: nat)
  {
    2 * x <= |s| && s[..x] == s[x..2 * x]
  }

  /** `guess_sequence_repitition_length`: the smallest `x` with
      `2 <= x < len(seq) // 2` whose first `x` items repeat, or 1 when there
      is none. The search stops short of `len(seq) // 2`. */
  function GuessPeriod(s: seq<int>): nat
  {
    GuessFrom(s, 2)
  }

  function GuessFrom(s: seq<int>, x: nat): nat
    decreases |s| / 2 - x
  {
    if x >= |s| / 2 then 1
    else if s[0..x] == s[x..2 * x] then x
    else GuessFrom(s, x + 1)
  }

  lemma {:induction false} GuessFromSpec(s: seq<int>, x: nat)
    requires x >= 2
    ensures var r := GuessFrom(s, x);
            && (r == 1 || (x <= r && 2 * r < |s| && RepeatsAt(s, r)))
            && (r == 1 <==> forall y :: x <= y < |s| / 2 ==> !RepeatsAt(s, y))
            && (forall y :: x <= y < |s| / 2 && y < r ==> !RepeatsAt(s, y))
    decreases |s| / 2 - x
  {
    if x < |s| / 2 && s[0..x] != s[x..2 * x] {
      GuessFromSpec(s, x + 1);
    }
  }

  /** The guess is 1 exactly when no length in the searched range repeats;
      otherwise it is the smallest one that does, and it leaves room for two
      full repetitions with at least one item to spare. */
  lemma GuessPeriodSpec(s: seq<int>)
    ensures var r := GuessPeriod(s);
            && (r == 1 || (2 <= r && 2 * r < |s| && RepeatsAt(s, r)))
            && (r == 1 <==> forall y :: 2 <= y < |s| / 2 ==> !RepeatsAt(s, y))
            && (forall y :: 2 <= y < r ==> !RepeatsAt(s, y))
  {
    GuessFromSpec(s, 2);
  }

  /** `[1, 2, 1, 2, 1, 2]` repeats with length 2; in `[1, 2, 1, 2]` the
      search range is empty, so the guess is 1. */
  lemma GuessPeriodExamples()
    ensures GuessPeriod([1, 2, 1, 2, 1, 2]) == 2
    ensures GuessPeriod([1, 2, 1, 2]) == 1
  {
    assert [1, 2, 1, 2, 1, 2][0..2] == [1, 2, 1, 2, 1, 2][2..4];
  }

  /** The index the extension reads, `offset + (i % repn)` with
      `offset = len(deltas) % repn`, stays inside the differences: either
      the guess is 1 and the index is 0, or twice the guess fits in them. */
  lemma ExtensionIndexInRange(ds: seq<int>, i: nat)
    requires ds != []
    ensures var p := GuessPeriod(ds);
            p >= 1 && |ds| % p + p <= |ds| && |ds| % p + i % p < |ds|
  {
    GuessPeriodSpec(ds);
  }

  // ---------------------------------------------------------------------
  // Rescaling

  /** The factor `new mdat size / reference mdat size`, kept exact. */
  datatype Scale = Scale(num: nat, den: nat)

  /** `int(scale_factor * x)`: rounds down. */
  function ScaleFloor(sc: Scale, x: nat): (r: nat)
    requires sc.den > 0
    ensures r * sc.den <= sc.num * x < (r + 1) * sc.den
  {
    sc.num * x / sc.den
  }

  // ---------------------------------------------------------------------
  // Table extension

  /** The loop of the extension from iteration `i` to `n`: each step
      appends the last entry plus `ds[off + (i % p)]`. */
  function Grow(t: seq<int>, ds: seq<int>, p: nat, off: nat, i: nat, n: nat): (r: seq<int>)
    requires t != [] && p >= 1 && off + p <= |ds|
    decreases n - i
  {
    if i >= n then t
    else Grow(t + [t[|t| - 1] + ds[off + i % p]], ds, p, off, i + 1, n)
  }

  /** The differences iterations `i` to `n` of the loop pick. */
  function Picks(ds: seq<int>, p: nat, off: nat, i: nat, n: nat): (r: seq<int>)
    requires p >= 1 && off + p <= |ds|
    ensures |r| == if i < n then n - i else 0
  {
    seq(if i < n then n - i else 0, k => ds[off + (i + k) % p])
  }

  lemma PicksCons(ds: seq<int>, p: nat, off: nat, i: nat, n: nat)
    requires p >= 1 && off + p <= |ds| && i < n
    ensures Picks(ds, p, off, i, n) == [ds[off + i % p]] + Picks(ds, p, off, i + 1, n)
  {
    var a := Picks(ds, p, off, i, n);
    var b := [ds[off + i % p]] + Picks(ds, p, off, i + 1, n);
    forall k | 0 <= k < |a|
      ensures a[k] == b[k]
    {
      if k > 0 {
        assert b[k] == Picks(ds, p, off, i + 1, n)[k - 1];
        assert i + 1 + (k - 1) == i + k;
      }
    }
  }

  /** Appending one entry appends its difference to the last. */
  lemma {:induction false} DeltasSnoc(t: seq<int>, x: int)
    requires t != []
    ensures Deltas(t + [x]) == Deltas(t) + [x - t[|t| - 1]]
    decreases |t|
  {
    var u := t + [x];
    if |t| == 1 {
      assert u[1..] == [x];
    } else {
      assert u[1..] == t[1..] + [x];
      DeltasSnoc(t[1..], x);
    }
  }

  /** Growing keeps the entries there are and adds one per remaining
      iteration, whose differences are the picked ones. */
  lemma {:induction false} GrowSpec(t: seq<int>, ds: seq<int>, p: nat, off: nat, i: nat, n: nat)
    requires t != [] && p >= 1 && off + p <= |ds|
    ensures var r := Grow(t, ds, p, off, i, n);
            && |r| == |t| + (if i < n then n - i else 0)
            && r[..|t|] == t
            && Deltas(r) == Deltas(t) + Picks(ds, p, off, i, n)
    decreases n - i
  {
    if i < n {
      var t' := t + [t[|t| - 1] + ds[off + i % p]];
      GrowSpec(t', ds, p, off, i + 1, n);
      var r := Grow(t', ds, p, off, i + 1, n);
      assert r[..|t'|][..|t|] == r[..|t|];
      DeltasSnoc(t, t[|t| - 1] + ds[off + i % p]);
      PicksCons(ds, p, off, i, n);
    }
  }

  /** The extension of a table with more than one entry to `count` entries
      (movrepair.py:143-149 for `stco`, 157-165 for `stsz`): from the
      differences of the table, their guessed period `repn` and
      `offset = len(deltas) % repn`, every added entry is the last one plus
      `deltas[offset + (i % repn)]`. The result has `max(n, count)` entries
      and starts with the old table. */
  function Extend(table: seq<int>, count: int): (r: seq<int>)
    requires |table| > 1
    ensures |r| == (if count > |table| then count else |table|)
    ensures r[..|table|] == table
    ensures var ds := Deltas(table);
            var p := GuessPeriod(ds);
            p >= 1 && |ds| % p + p <= |ds| &&
            Deltas(r) == ds + Picks(ds, p, |ds| % p, 0, |r| - |table|)
  {
    var ds := Deltas(table);
    var p := GuessPeriod(ds);
    var n := if count > |table| then count - |table| else 0;
    ExtensionIndexInRange(ds, 0);
    GrowSpec(table, ds, p, |ds| % p, 0, n);
    Grow(table, ds, p, |ds| % p, 0, n)
  }

  /** Every added entry is the one before plus the picked difference. */
  lemma ExtendStep(table: seq<int>, count: int, j: nat)
    requires |table| > 1 && |table| <= j < |Extend(table, count)|
    ensures var r := Extend(table, count);
            var ds := Deltas(table);
            var p := GuessPeriod(ds);
            p >= 1 && |ds| % p + p <= |ds| &&
            r[j] == r[j - 1] + ds[|ds| % p + (j - |table|) % p]
  {
    var r := Extend(table, count);
    DeltasAt(r, j - 1);
  }

  /** Differences that repeat with period `p` from the start. */
  predicate Periodic(ds: seq<int>, p: nat)
  {
    p >= 1 && forall k :: 0 <= k < |ds| ==> ds[k] == ds[k % p]
  }

  /** When the differences really repeat with the guessed period, the
      extension continues the repetition: the differences of the extended
      table repeat with the same period. Picking `deltas[offset + (i % repn)]`
      rather than `deltas[(offset + i) % repn]` makes no difference then. */
  lemma ExtendKeepsPeriod(table: seq<int>, count: int)
    requires |table| > 1 && Periodic(Deltas(table), GuessPeriod(Deltas(table)))
    ensures Periodic(Deltas(Extend(table, count)), GuessPeriod(Deltas(table)))
  {
    var r := Extend(table, count);
    var ds := Deltas(table);
    PicksKeepPeriod(ds, GuessPeriod(ds), |r| - |table|);
  }

  /** Periodic differences followed by the picks stay periodic. */
  lemma PicksKeepPeriod(ds: seq<int>, p: nat, n: nat)
    requires Periodic(ds, p) && |ds| % p + p <= |ds|
    ensures Periodic(ds + Picks(ds, p, |ds| % p, 0, n), p)
  {
    var off := |ds| % p;
    var picks := Picks(ds, p, off, 0, n);
    var dr := ds + picks;
    forall k | 0 <= k < |dr|
      ensures dr[k] == dr[k % p]
    {
      assert k % p < |ds|;
      assert dr[k % p] == ds[k % p];
      if k >= |ds| {
        var m := k - |ds|;
        PicksAt(ds, p, off, 0, n, m);
        assert dr[k] == ds[off + m % p];
        ModSum(off, m, p, |ds|);
        assert off + m % p < |ds|;
        assert ds[off + m % p] == ds[(off + m % p) % p];
      }
    }
  }

  lemma PicksAt(ds: seq<int>, p: nat, off: nat, i: nat, n: nat, m: nat)
    requires p >= 1 && off + p <= |ds| && m < |Picks(ds, p, off, i, n)|
    ensures Picks(ds, p, off, i, n)[m] == ds[off + (i + m) % p]
  {
  }

  /** The remainder is unique: `a = k * p + r` with `0 <= r < p` has `a % p == r`. */
  lemma ModUnique(a: int, p: int, k: int, r: int)
    requires p >= 1 && 0 <= r < p && a == k * p + r
    ensures a % p == r
  {
    var d := k - a / p;
    assert d * p == a % p - r;
  }

  /** `(n % p + m % p) % p == (n + m) % p`. */
  lemma ModSum(off: nat, m: nat, p: nat, n: nat)
    requires p >= 1 && off == n % p
    ensures (off + m % p) % p == (n + m) % p
  {
    var c := (off + m % p) / p;
    var r0 := (off + m % p) % p;
    assert off + m % p == c * p + r0;
    assert n == (n / p) * p + off;
    assert m == (m / p) * p + m % p;
    assert n + m == (n / p + m / p + c) * p + r0;
    ModUnique(n + m, p, n / p + m / p + c, r0);
  }
}
