/**
 * A trading algorithm owns triggers. On every event it checks the triggers
 * of the matching kind, collects the kinds of the triggers it checked and the
 * callbacks of the triggers that fired (each once, in first-seen order), and
 * keeps running statistics of how long the checks and the callbacks took.
 * The smallest interval it works with is the gcd of its candle intervals and
 * its interval triggers' intervals.
 */
module TradeAlgos {

  import opened Wrappers

  /** `trade_algo_trigger_t`. */
  datatype TriggerKind = NewCandlestick | NewTick | NewInterval

  /** An algorithm's callback (one of its member functions),
    * identified by a number. */
  type Callback = int

  /** What the algorithm sees of a trigger: its kind, its interval (consulted
    * only for interval triggers) and the callbacks it was initialised with. */
  datatype AlgoTrigger = AlgoTrigger(kind: TriggerKind, interval: int, callbacks: seq<Callback>)

  // ---------------------------------------------------------------------
  // std::__gcd and getMinInterval
  // ---------------------------------------------------------------------

  /** `std::__gcd(m, n)`: Euclid's algorithm on the truncating remainder. */
  function Gcd(m: int, n: int): int
    decreases Abs(n)
  {
    if n == 0 then m else Gcd(n, CMod(m, n))
  }

  /** A multiple of `g` leaves no remainder. */
  lemma MultipleMod(g: int, k: int)
    requires g > 0
    ensures (k * g) % g == 0
  {
    DivUnique(k * g, g, k, 0);
  }

  /** A divisor of `n` and `r` divides `q * n + r`. */
  lemma CombinationMod(g: int, m: int, q: int, n: int, r: int)
    requires g > 0 && n % g == 0 && r % g == 0 && m == q * n + r
    ensures m % g == 0
  {
    var a, b := n / g, r / g;
    assert n == a * g && r == b * g;
    assert q * n == (q * a) * g;
    assert m == (q * a + b) * g;
    MultipleMod(g, q * a + b);
  }

  /** A divisor of a divisor of `x` divides `x`. */
  lemma DividesTransitive(x: int, a: int, g: int)
    requires a > 0 && g > 0 && x % a == 0 && a % g == 0
    ensures x % g == 0
  {
    assert x == (x / a) * a + 0;
    CombinationMod(g, x, x / a, a, 0);
  }

  /** On non-negative arguments the gcd is non-negative, zero only for two
    * zeros, and otherwise divides both arguments. */
  lemma {:induction false} GcdDivides(m: int, n: int)
    requires m >= 0 && n >= 0
    ensures Gcd(m, n) >= 0
    ensures Gcd(m, n) == 0 <==> m == 0 && n == 0
    ensures Gcd(m, n) > 0 ==> m % Gcd(m, n) == 0 && n % Gcd(m, n) == 0
    decreases n
  {
    if n > 0 {
      var r := CMod(m, n);
      CDivNatural(m, n);
      GcdDivides(n, r);
      var g := Gcd(n, r);
      if g > 0 {
        CombinationMod(g, m, m / n, n, r);
      }
    } else if m > 0 {
      DivUnique(m, m, 1, 0);
      DivUnique(0, m, 0, 0);
    }
  }

  /** Every common divisor of two non-negative numbers divides their gcd. */
  lemma {:induction false} GcdGreatest(m: int, n: int, d: int)
    requires m >= 0 && n >= 0 && d > 0 && m % d == 0 && n % d == 0
    ensures Gcd(m, n) % d == 0
    decreases n
  {
    if n > 0 {
      var r := CMod(m, n);
      CDivNatural(m, n);
      CombinationMod(d, r, -(m / n), n, m);
      GcdGreatest(n, r, d);
    }
  }

  /** One step of `getMinInterval`: the first interval replaces the zero
    * `Duration()`, later ones are folded in with the gcd. */
  function Combine(acc: int, x: int): int
  {
    if acc == 0 then x else Gcd(acc, x)
  }

  /** The special case for a zero accumulator is the gcd itself. */
  lemma ZeroIsGcdNeutral(acc: int, x: int)
    ensures Combine(acc, x) == Gcd(acc, x)
  {
    if acc == 0 && x != 0 {
      assert CMod(0, x) == 0;
      assert Gcd(0, x) == Gcd(x, 0);
    }
  }

  /** The intervals folded in order, starting from `acc`. */
  function FoldIntervals(acc: int, xs: seq<int>): int
    decreases |xs|
  {
    if xs == [] then acc else Combine(FoldIntervals(acc, xs[..|xs| - 1]), xs[|xs| - 1])
  }

  /** The intervals of the interval triggers, in order. */
  function TriggerIntervals(triggers: seq<AlgoTrigger>): seq<int>
    decreases |triggers|
  {
    if triggers == [] then []
    else
      var n := |triggers| - 1;
      TriggerIntervals(triggers[..n]) + (if triggers[n].kind == NewInterval then [triggers[n].interval] else [])
  }

  /** The value `getMinInterval` returns. */
  function MinInterval(intervals: seq<int>, triggers: seq<AlgoTrigger>): int
  {
    FoldIntervals(FoldIntervals(0, intervals), TriggerIntervals(triggers))
  }

  /** Folding one more interval combines it with the fold so far. */
  lemma FoldSnoc(acc: int, xs: seq<int>, x: int)
    ensures FoldIntervals(acc, xs + [x]) == Combine(FoldIntervals(acc, xs), x)
  {
    assert (xs + [x])[..|xs|] == xs;
  }

  /** Folding two batches is folding their concatenation. */
  lemma {:induction false} FoldAppend(acc: int, xs: seq<int>, ys: seq<int>)
    ensures FoldIntervals(FoldIntervals(acc, xs), ys) == FoldIntervals(acc, xs + ys)
    decreases |ys|
  {
    if ys == [] {
      assert xs + ys == xs;
    } else {
      var n := |ys| - 1;
      assert (xs + ys)[..|xs + ys| - 1] == xs + ys[..n];
      assert (xs + ys)[|xs + ys| - 1] == ys[n];
      FoldAppend(acc, xs, ys[..n]);
    }
  }

  /** Folding positive intervals gives zero for none and otherwise their
    * greatest common divisor: a positive value dividing each of them, which
    * every common divisor divides. */
  lemma {:induction false} FoldIsGcd(xs: seq<int>)
    requires forall i :: 0 <= i < |xs| ==> xs[i] > 0
    ensures xs == [] ==> FoldIntervals(0, xs) == 0
    ensures xs != [] ==> FoldIntervals(0, xs) > 0
    ensures forall i :: 0 <= i < |xs| ==> xs[i] % FoldIntervals(0, xs) == 0
    decreases |xs|
  {
    if xs != [] {
      var n := |xs| - 1;
      var prev := xs[..n];
      FoldIsGcd(prev);
      var a := FoldIntervals(0, prev);
      ZeroIsGcdNeutral(a, xs[n]);
      GcdDivides(a, xs[n]);
      var g := Gcd(a, xs[n]);
      forall i | 0 <= i < |xs|
        ensures xs[i] % g == 0
      {
        if i < n {
          assert prev[i] == xs[i];
          DividesTransitive(xs[i], a, g);
        }
      }
    }
  }

  /** Every common divisor of the intervals divides their fold. */
  lemma {:induction false} FoldIsGreatest(xs: seq<int>, d: int)
    requires forall i :: 0 <= i < |xs| ==> xs[i] > 0
    requires d > 0 && forall i :: 0 <= i < |xs| ==> xs[i] % d == 0
    ensures FoldIntervals(0, xs) % d == 0
    decreases |xs|
  {
    if xs != [] {
      var n := |xs| - 1;
      var prev := xs[..n];
      FoldIsGreatest(prev, d);
      FoldIsGcd(prev);
      var a := FoldIntervals(0, prev);
      ZeroIsGcdNeutral(a, xs[n]);
      GcdGreatest(a, xs[n], d);
    }
  }

  /** `getMinInterval` over positive intervals: zero when there is no
    * interval at all, otherwise a positive interval that divides every
    * candle interval and every interval trigger's interval, and that every
    * common divisor of them divides. */
  lemma MinIntervalIsGcd(intervals: seq<int>, triggers: seq<AlgoTrigger>, d: int)
    requires forall i :: 0 <= i < |intervals| ==> intervals[i] > 0
    requires forall i :: 0 <= i < |triggers| && triggers[i].kind == NewInterval ==> triggers[i].interval > 0
    ensures var all := intervals + TriggerIntervals(triggers);
            (all == [] <==> MinInterval(intervals, triggers) == 0)
            && MinInterval(intervals, triggers) >= 0
            && (forall i :: 0 <= i < |all| ==> all[i] % MinInterval(intervals, triggers) == 0)
            && (d > 0 && (forall i :: 0 <= i < |all| ==> all[i] % d == 0) ==> MinInterval(intervals, triggers) % d == 0)
  {
    var ts := TriggerIntervals(triggers);
    TriggerIntervalsPositive(triggers);
    var all := intervals + ts;
    FoldAppend(0, intervals, ts);
    assert forall i :: 0 <= i < |all| ==> all[i] > 0 by {
      forall i | 0 <= i < |all| ensures all[i] > 0 {
        if i >= |intervals| {
          assert all[i] == ts[i - |intervals|];
        }
      }
    }
    FoldIsGcd(all);
    if d > 0 && (forall i :: 0 <= i < |all| ==> all[i] % d == 0) {
      FoldIsGreatest(all, d);
    }
  }

  /** The intervals of interval triggers are positive when those triggers'
    * intervals are. */
  lemma {:induction false} TriggerIntervalsPositive(triggers: seq<AlgoTrigger>)
    requires forall i :: 0 <= i < |triggers| && triggers[i].kind == NewInterval ==> triggers[i].interval > 0
    ensures forall i :: 0 <= i < |TriggerIntervals(triggers)| ==> TriggerIntervals(triggers)[i] > 0
    decreases |triggers|
  {
    if triggers != [] {
      TriggerIntervalsPositive(triggers[..|triggers| - 1]);
    }
  }

  // ---------------------------------------------------------------------
  // First-seen deduplication
  // ---------------------------------------------------------------------

  /** The elements of `xs`, each kept at its first occurrence: the effect of
    * appending each element to a list unless the list already holds it. */
  function Dedup<T(==)>(xs: seq<T>): seq<T>
    decreases |xs|
  {
    if xs == [] then []
    else
      var d := Dedup(xs[..|xs| - 1]);
      if xs[|xs| - 1] in d then d else d + [xs[|xs| - 1]]
  }

  /** One element more is appended unless it was seen before. */
  lemma DedupSnoc<T>(xs: seq<T>, x: T)
    ensures Dedup(xs + [x]) == if x in Dedup(xs) then Dedup(xs) else Dedup(xs) + [x]
  {
    assert (xs + [x])[..|xs|] == xs;
  }

  /** A sequence of one repeated value deduplicates to that value alone. */
  lemma {:induction false} DedupConstant<T>(xs: seq<T>, v: T)
    requires forall i :: 0 <= i < |xs| ==> xs[i] == v
    ensures Dedup(xs) == if xs == [] then [] else [v]
    decreases |xs|
  {
    if xs != [] {
      var n := |xs| - 1;
      DedupConstant(xs[..n], v);
      DedupSnoc(xs[..n], v);
      assert xs == xs[..n] + [v];
    }
  }

  /** Deduplication keeps exactly the elements of the input. */
  lemma {:induction false} DedupElements<T>(xs: seq<T>)
    ensures forall x :: x in Dedup(xs) <==> x in xs
    decreases |xs|
  {
    if xs != [] {
      var n := |xs| - 1;
      DedupElements(xs[..n]);
      assert xs == xs[..n] + [xs[n]];
    }
  }

  /** Deduplication leaves no element twice. */
  lemma {:induction false} DedupDistinct<T>(xs: seq<T>)
    ensures forall i, j :: 0 <= i < j < |Dedup(xs)| ==> Dedup(xs)[i] != Dedup(xs)[j]
    decreases |xs|
  {
    if xs != [] {
      DedupDistinct(xs[..|xs| - 1]);
    }
  }

  /** The index of the first occurrence of callback `x` in `xs`. */
  function FirstIndex(xs: seq<Callback>, x: Callback): (k: nat)
    requires x in xs
    ensures k < |xs| && xs[k] == x && x !in xs[..k]
    decreases |xs|
  {
    if xs[0] == x then 0
    else
      var k := FirstIndex(xs[1..], x);
      assert xs[..k + 1] == [xs[0]] + xs[1..][..k];
      k + 1
  }

  /** Appending elements does not move a first occurrence. */
  lemma {:induction false} FirstIndexAppend(xs: seq<Callback>, ys: seq<Callback>, x: Callback)
    requires x in xs
    ensures FirstIndex(xs + ys, x) == FirstIndex(xs, x)
    decreases |xs|
  {
    if xs[0] != x {
      assert (xs + ys)[1..] == xs[1..] + ys;
      FirstIndexAppend(xs[1..], ys, x);
    }
  }

  /** `d` lists callbacks of `xs` in the order of their first occurrence
    * there. */
  predicate FirstSeenOrder(xs: seq<Callback>, d: seq<Callback>)
  {
    forall i, j :: 0 <= i < j < |d| ==> d[i] in xs && d[j] in xs && FirstIndex(xs, d[i]) < FirstIndex(xs, d[j])
  }

  /** Deduplicated callbacks are listed in the order of their first
    * occurrence. */
  lemma {:induction false} DedupFirstSeen(xs: seq<Callback>)
    ensures FirstSeenOrder(xs, Dedup(xs))
    decreases |xs|
  {
    if xs != [] {
      var n := |xs| - 1;
      var prev := xs[..n];
      var d := Dedup(prev);
      DedupFirstSeen(prev);
      DedupElements(prev);
      assert xs == prev + [xs[n]];
      forall i, j | 0 <= i < j < |Dedup(xs)|
        ensures Dedup(xs)[i] in xs && Dedup(xs)[j] in xs && FirstIndex(xs, Dedup(xs)[i]) < FirstIndex(xs, Dedup(xs)[j])
      {
        if j < |d| {
          assert d[i] in prev && d[j] in prev && FirstIndex(prev, d[i]) < FirstIndex(prev, d[j]);
        }
        FirstSeenStep(xs, prev, xs[n], i, j);
      }
    }
  }

  /** One element more keeps a pair of deduplicated elements in first-seen
    * order. */
  lemma FirstSeenStep(xs: seq<Callback>, prev: seq<Callback>, x: Callback, i: int, j: int)
    requires xs == prev + [x] && 0 <= i < j < |Dedup(xs)|
    requires j < |Dedup(prev)| ==>
               Dedup(prev)[i] in prev && Dedup(prev)[j] in prev
               && FirstIndex(prev, Dedup(prev)[i]) < FirstIndex(prev, Dedup(prev)[j])
    ensures Dedup(xs)[i] in xs && Dedup(xs)[j] in xs
    ensures FirstIndex(xs, Dedup(xs)[i]) < FirstIndex(xs, Dedup(xs)[j])
  {
    DedupSnoc(prev, x);
    DedupElements(prev);
    var d := Dedup(prev);
    assert Dedup(xs)[i] == d[i] && d[i] in d;
    FirstIndexAppend(prev, [x], d[i]);
    if j < |d| {
      assert Dedup(xs)[j] == d[j] && d[j] in d;
      FirstIndexAppend(prev, [x], d[j]);
    } else {
      assert Dedup(xs)[j] == x && x !in prev;
      assert forall t :: 0 <= t < |prev| ==> xs[t] == prev[t] && prev[t] != x;
    }
  }

  // ---------------------------------------------------------------------
  // checkForEvent
  // ---------------------------------------------------------------------

  /** An interval event checks only interval triggers; any other event only
    * the other triggers. */
  predicate Checked(intervalEvent: bool, kind: TriggerKind)
  {
    (kind == NewInterval) == intervalEvent
  }

  /** The kinds of the checked triggers, in order. */
  function CheckedKinds(triggers: seq<AlgoTrigger>, intervalEvent: bool): seq<TriggerKind>
    decreases |triggers|
  {
    if triggers == [] then []
    else
      var n := |triggers| - 1;
      CheckedKinds(triggers[..n], intervalEvent)
        + (if Checked(intervalEvent, triggers[n].kind) then [triggers[n].kind] else [])
  }

  /** The callbacks of the triggers that fired, trigger after trigger. */
  function FiredCallbacks(triggers: seq<AlgoTrigger>, status: seq<bool>): seq<Callback>
    requires |status| == |triggers|
    decreases |triggers|
  {
    if triggers == [] then []
    else
      var n := |triggers| - 1;
      FiredCallbacks(triggers[..n], status[..n]) + (if status[n] then triggers[n].callbacks else [])
  }

  /** A kind is among the checked kinds iff some trigger of that kind is
    * checked by the event. */
  lemma {:induction false} CheckedKindsMembers(triggers: seq<AlgoTrigger>, intervalEvent: bool, k: TriggerKind)
    ensures k in CheckedKinds(triggers, intervalEvent)
            <==> Checked(intervalEvent, k) && exists i :: 0 <= i < |triggers| && triggers[i].kind == k
    decreases |triggers|
  {
    if triggers != [] {
      var n := |triggers| - 1;
      CheckedKindsMembers(triggers[..n], intervalEvent, k);
      if exists i :: 0 <= i < |triggers| && triggers[i].kind == k {
        var i :| 0 <= i < |triggers| && triggers[i].kind == k;
        if i < n {
          assert triggers[..n][i].kind == k;
        }
      }
      if exists i :: 0 <= i < n && triggers[..n][i].kind == k {
        var i :| 0 <= i < n && triggers[..n][i].kind == k;
        assert triggers[i].kind == k;
      }
    }
  }

  /** The matured kinds of an interval event are exactly `NEW_INTERVAL` when
    * the algorithm has an interval trigger, and none otherwise; those of
    * another event never include `NEW_INTERVAL`. */
  lemma MaturedByEvent(triggers: seq<AlgoTrigger>)
    ensures Dedup(CheckedKinds(triggers, true))
            == (if exists i :: 0 <= i < |triggers| && triggers[i].kind == NewInterval then [NewInterval] else [])
    ensures NewInterval !in Dedup(CheckedKinds(triggers, false))
  {
    var ks := CheckedKinds(triggers, true);
    forall i | 0 <= i < |ks| ensures ks[i] == NewInterval {
      CheckedKindsMembers(triggers, true, ks[i]);
    }
    DedupConstant(ks, NewInterval);
    CheckedKindsMembers(triggers, true, NewInterval);
    if ks != [] {
      assert ks[0] in ks;
    }
    DedupElements(CheckedKinds(triggers, false));
    CheckedKindsMembers(triggers, false, NewInterval);
  }

  /** Whether each trigger fired: checked and answering true. */
  function Status(triggers: seq<AlgoTrigger>, intervalEvent: bool, results: seq<bool>): (status: seq<bool>)
    requires |results| == |triggers|
    ensures |status| == |triggers|
    ensures forall i :: 0 <= i < |triggers| ==> status[i] == (Checked(intervalEvent, triggers[i].kind) && results[i])
  {
    seq(|triggers|, i requires 0 <= i < |triggers| => Checked(intervalEvent, triggers[i].kind) && results[i])
  }

  /** A callback is called iff it belongs to a trigger that fired. */
  lemma {:induction false} FiredCallbacksMembers(triggers: seq<AlgoTrigger>, status: seq<bool>, f: Callback)
    requires |status| == |triggers|
    ensures f in FiredCallbacks(triggers, status)
            <==> exists i :: 0 <= i < |triggers| && status[i] && f in triggers[i].callbacks
    decreases |triggers|
  {
    if triggers != [] {
      var n := |triggers| - 1;
      FiredCallbacksMembers(triggers[..n], status[..n], f);
      if exists i :: 0 <= i < |triggers| && status[i] && f in triggers[i].callbacks {
        var i :| 0 <= i < |triggers| && status[i] && f in triggers[i].callbacks;
        if i < n {
          assert status[..n][i] && f in triggers[..n][i].callbacks;
        }
      }
      if exists i :: 0 <= i < n && status[..n][i] && f in triggers[..n][i].callbacks {
        var i :| 0 <= i < n && status[..n][i] && f in triggers[..n][i].callbacks;
        assert status[i] && f in triggers[i].callbacks;
      }
    }
  }

  /** The matured kinds of an event: each once, and exactly the kinds of the
    * triggers the event checks. */
  lemma MaturedKinds(triggers: seq<AlgoTrigger>, intervalEvent: bool, k: TriggerKind)
    ensures var m := Dedup(CheckedKinds(triggers, intervalEvent));
            (forall i, j :: 0 <= i < j < |m| ==> m[i] != m[j])
            && (k in m <==> Checked(intervalEvent, k) && exists i :: 0 <= i < |triggers| && triggers[i].kind == k)
  {
    DedupDistinct(CheckedKinds(triggers, intervalEvent));
    DedupElements(CheckedKinds(triggers, intervalEvent));
    CheckedKindsMembers(triggers, intervalEvent, k);
  }

  /** The callbacks of an event: each once, exactly those of the triggers that
    * fired, in the order they are first met trigger after trigger. */
  lemma CallbackList(triggers: seq<AlgoTrigger>, status: seq<bool>, f: Callback)
    requires |status| == |triggers|
    ensures var c := Dedup(FiredCallbacks(triggers, status));
            (forall i, j :: 0 <= i < j < |c| ==> c[i] != c[j])
            && (f in c <==> exists i :: 0 <= i < |triggers| && status[i] && f in triggers[i].callbacks)
            && FirstSeenOrder(FiredCallbacks(triggers, status), c)
  {
    DedupDistinct(FiredCallbacks(triggers, status));
    DedupElements(FiredCallbacks(triggers, status));
    DedupFirstSeen(FiredCallbacks(triggers, status));
    FiredCallbacksMembers(triggers, status, f);
  }

  /** The first loop of `checkForEvent`: every trigger the event checks is
    * asked (its answer is `results[i]`), every other trigger counts as not
    * fired, and the kind of each checked trigger is recorded once. */
  method CheckTriggers(triggers: seq<AlgoTrigger>, intervalEvent: bool, results: seq<bool>)
    returns (status: seq<bool>, matured: seq<TriggerKind>)
    requires |results| == |triggers|
    ensures |status| == |triggers|
    ensures forall i :: 0 <= i < |triggers| ==> status[i] == (Checked(intervalEvent, triggers[i].kind) && results[i])
    ensures matured == Dedup(CheckedKinds(triggers, intervalEvent))
  {
    status, matured := [], [];
    ghost var kinds: seq<TriggerKind> := [];
    var i := 0;
    while i < |triggers|
      invariant 0 <= i <= |triggers| && |status| == i
      invariant forall k :: 0 <= k < i ==> status[k] == (Checked(intervalEvent, triggers[k].kind) && results[k])
      invariant kinds == CheckedKinds(triggers[..i], intervalEvent) && matured == Dedup(kinds)
    {
      CheckedKindsStep(triggers, intervalEvent, i);
      var kind := triggers[i].kind;
      if !Checked(intervalEvent, kind) {
        status := status + [false];
      } else {
        status := status + [results[i]];
        DedupSnoc(kinds, kind);
        if kind !in matured {
          matured := matured + [kind];
        }
        kinds := kinds + [kind];
      }
      i := i + 1;
    }
    assert triggers[..i] == triggers;
  }

  /** The checked kinds of one trigger more. */
  lemma CheckedKindsStep(triggers: seq<AlgoTrigger>, intervalEvent: bool, i: int)
    requires 0 <= i < |triggers|
    ensures CheckedKinds(triggers[..i + 1], intervalEvent)
            == CheckedKinds(triggers[..i], intervalEvent)
               + (if Checked(intervalEvent, triggers[i].kind) then [triggers[i].kind] else [])
  {
    assert triggers[..i + 1][..i] == triggers[..i];
  }

  /** The inner search of `checkForEvent`: whether the callback was added
    * already. */
  method AlreadyAdded(callbacks: seq<Callback>, f: Callback) returns (found: bool)
    ensures found <==> f in callbacks
  {
    found := false;
    var i := 0;
    while i < |callbacks|
      invariant 0 <= i <= |callbacks|
      invariant !found && f !in callbacks[..i]
    {
      if callbacks[i] == f {
        found := true;
        break;
      }
      assert callbacks[..i + 1] == callbacks[..i] + [callbacks[i]];
      i := i + 1;
    }
    assert !found ==> callbacks[..i] == callbacks;
  }

  /** The second loop of `checkForEvent`: the callbacks of the fired
    * triggers, each once, in first-seen order. */
  method CollectCallbacks(triggers: seq<AlgoTrigger>, status: seq<bool>) returns (callbacks: seq<Callback>)
    requires |status| == |triggers|
    ensures callbacks == Dedup(FiredCallbacks(triggers, status))
  {
    callbacks := [];
    var i := 0;
    while i < |triggers|
      invariant 0 <= i <= |triggers|
      invariant callbacks == Dedup(FiredCallbacks(triggers[..i], status[..i]))
    {
      assert triggers[..i + 1][..i] == triggers[..i] && status[..i + 1][..i] == status[..i];
      var before := FiredCallbacks(triggers[..i], status[..i]);
      if status[i] {
        assert FiredCallbacks(triggers[..i + 1], status[..i + 1]) == before + triggers[i].callbacks;
        callbacks := AddCallbacks(callbacks, before, triggers[i].callbacks);
      } else {
        assert FiredCallbacks(triggers[..i + 1], status[..i + 1]) == before;
      }
      i := i + 1;
    }
    assert triggers[..i] == triggers && status[..i] == status;
  }

  /** The callbacks of one fired trigger, each added unless already there. */
  method AddCallbacks(callbacks: seq<Callback>, ghost before: seq<Callback>, fs: seq<Callback>)
    returns (result: seq<Callback>)
    requires callbacks == Dedup(before)
    ensures result == Dedup(before + fs)
  {
    result := callbacks;
    ghost var seen := before;
    var j := 0;
    while j < |fs|
      invariant 0 <= j <= |fs|
      invariant seen == before + fs[..j] && result == Dedup(seen)
    {
      DedupSnoc(seen, fs[j]);
      var added := AlreadyAdded(result, fs[j]);
      if !added {
        result := result + [fs[j]];
      }
      assert before + fs[..j + 1] == seen + [fs[j]];
      seen := seen + [fs[j]];
      j := j + 1;
    }
    assert fs[..j] == fs;
  }

  // ---------------------------------------------------------------------
  // Run-time statistics
  // ---------------------------------------------------------------------

  /** The running mean after one more sample, with the truncating division
    * of `Duration / unsigned int`. */
  function RunningMean(avg: int, n: nat, sample: int): int
  {
    CDiv(avg * n + sample, n + 1)
  }

  /** The running mean never leaves an interval holding the previous mean and
    * the new sample, truncation included. */
  lemma RunningMeanBounded(avg: int, n: nat, sample: int, lo: int, hi: int)
    requires lo <= avg <= hi && lo <= sample <= hi
    ensures lo <= RunningMean(avg, n, sample) <= hi
  {
    if n > 0 {
      MulMonotone(avg, lo, n);
      MulMonotone(hi, avg, n);
    }
    SumBounds(avg * n, sample, n, lo, hi);
    QuotientBounds(avg * n + sample, n + 1, lo, hi);
  }

  /** Adding a sample to a total of `n` samples within bounds. */
  lemma SumBounds(total: int, sample: int, n: nat, lo: int, hi: int)
    requires lo * n <= total <= hi * n && lo <= sample <= hi
    ensures lo * (n + 1) <= total + sample <= hi * (n + 1)
  {
    assert lo * (n + 1) == lo * n + lo;
    assert hi * (n + 1) == hi * n + hi;
  }

  /** A truncated quotient stays within the bounds of the exact one. */
  lemma QuotientBounds(s: int, m: int, lo: int, hi: int)
    requires m > 0 && lo * m <= s <= hi * m
    ensures lo <= CDiv(s, m) <= hi
  {
    QuotientAtLeast(s, m, lo);
    QuotientAtMost(s, m, hi);
  }

  /** The lower half of `QuotientBounds`. */
  lemma QuotientAtLeast(s: int, m: int, lo: int)
    requires m > 0 && lo * m <= s
    ensures lo <= CDiv(s, m)
  {
    var q, r := CDiv(s, m), CMod(s, m);
    assert s == q * m + r && r < m;
    if q < lo {
      MulMonotone(lo - 1, q, m);
    }
  }

  /** The upper half of `QuotientBounds`. */
  lemma QuotientAtMost(s: int, m: int, hi: int)
    requires m > 0 && s <= hi * m
    ensures CDiv(s, m) <= hi
  {
    var q, r := CDiv(s, m), CMod(s, m);
    assert s == q * m + r && -m < r;
    if q > hi {
      MulMonotone(q, hi + 1, m);
    }
  }

  /** The mean of one sample is that sample. */
  lemma FirstMeanIsSample(avg: int, sample: int)
    ensures RunningMean(avg, 0, sample) == sample
  {
    DivUnique(sample - 0, 1, sample, 0);
    assert CMod(sample, 1) == 0;
  }

  /** The largest of the samples, or zero when no sample exceeds zero: the
    * maximum kept by comparing each sample with the current one. */
  function MaxSeen(samples: seq<int>): int
    decreases |samples|
  {
    if samples == [] then 0
    else
      var m := MaxSeen(samples[..|samples| - 1]);
      if m < samples[|samples| - 1] then samples[|samples| - 1] else m
  }

  /** The smallest sample. */
  function Least(samples: seq<int>): int
    requires samples != []
    decreases |samples|
  {
    if |samples| == 1 then samples[0]
    else
      var m := Least(samples[..|samples| - 1]);
      if samples[|samples| - 1] < m then samples[|samples| - 1] else m
  }

  /** The kept maximum is at least every sample, and it is a sample or zero. */
  lemma {:induction false} MaxSeenBounds(samples: seq<int>)
    ensures forall i :: 0 <= i < |samples| ==> samples[i] <= MaxSeen(samples)
    ensures MaxSeen(samples) == 0 || MaxSeen(samples) in samples
    decreases |samples|
  {
    if samples != [] {
      var n := |samples| - 1;
      MaxSeenBounds(samples[..n]);
      assert samples == samples[..n] + [samples[n]];
    }
  }

  /** The summary statistics of a sequence of timed samples: their count,
    * a mean between the smallest sample and the kept maximum, and the kept
    * maximum. */
  predicate Summarises(samples: seq<int>, count: int, avg: int, max: int)
  {
    count == |samples| && max == MaxSeen(samples)
    && (samples == [] ==> avg == 0)
    && (samples != [] ==> Least(samples) <= avg <= max)
  }

  /** Recording one more sample keeps the summary. */
  lemma {:induction false} SummaryStep(samples: seq<int>, count: int, avg: int, max: int, sample: int)
    requires Summarises(samples, count, avg, max)
    ensures Summarises(samples + [sample], count + 1, RunningMean(avg, count, sample),
                       if max < sample then sample else max)
  {
    var s := samples + [sample];
    assert s[..|s| - 1] == samples;
    var newMax := if max < sample then sample else max;
    if samples == [] {
      FirstMeanIsSample(avg, sample);
      assert Least(s) == sample;
      assert MaxSeen(s) == newMax;
    } else {
      var lo := if sample < Least(samples) then sample else Least(samples);
      RunningMeanBounded(avg, count, sample, lo, newMax);
    }
  }

  /** A trading algorithm: its candle intervals, its triggers and its run-time
    * statistics. The measured times of all event checks and callback runs
    * are kept as ghost samples. */
  class TradeAlgo {
    var intervals: seq<int>
    var triggers: seq<AlgoTrigger>
    var numEventChecks: int
    var numEvents: int
    var avgEventCheckTime: int
    var avgEventTime: int
    var maxEventCheckTime: int
    var maxEventTime: int
    ghost var checkTimes: seq<int>
    ghost var eventTimes: seq<int>

    /** The statistics summarise the samples. */
    ghost predicate Valid()
      reads this
    {
      Summarises(checkTimes, numEventChecks, avgEventCheckTime, maxEventCheckTime)
      && Summarises(eventTimes, numEvents, avgEventTime, maxEventTime)
    }

    /** `TradeAlgo(...)`: no triggers and zero statistics; the candle
      * intervals are those the concrete algorithm works with. */
    constructor(intervals: seq<int>)
      ensures this.intervals == intervals && triggers == []
      ensures numEventChecks == 0 && numEvents == 0
      ensures avgEventCheckTime == 0 && avgEventTime == 0 && maxEventCheckTime == 0 && maxEventTime == 0
      ensures Valid()
    {
      this.intervals := intervals;
      triggers := [];
      numEventChecks, numEvents := 0, 0;
      avgEventCheckTime, avgEventTime := 0, 0;
      maxEventCheckTime, maxEventTime := 0, 0;
      checkTimes, eventTimes := [], [];
    }

    /** `initTrigger(foos, trigger, ..)`: the trigger is appended, initialised
      * with the callbacks. */
    method InitTrigger(kind: TriggerKind, interval: int, callbacks: seq<Callback>)
      modifies this
      ensures triggers == old(triggers) + [AlgoTrigger(kind, interval, callbacks)]
      ensures intervals == old(intervals)
      ensures numEventChecks == old(numEventChecks) && numEvents == old(numEvents)
      ensures avgEventCheckTime == old(avgEventCheckTime) && avgEventTime == old(avgEventTime)
      ensures maxEventCheckTime == old(maxEventCheckTime) && maxEventTime == old(maxEventTime)
      ensures checkTimes == old(checkTimes) && eventTimes == old(eventTimes)
    {
      triggers := triggers + [AlgoTrigger(kind, interval, callbacks)];
    }

    /** `getMinInterval()`: the candle intervals folded first, then the
      * intervals of the interval triggers. */
    method GetMinInterval() returns (g: int)
      ensures g == MinInterval(intervals, triggers)
    {
      g := 0;
      var i := 0;
      while i < |intervals|
        invariant 0 <= i <= |intervals|
        invariant g == FoldIntervals(0, intervals[..i])
      {
        assert intervals[..i + 1] == intervals[..i] + [intervals[i]];
        FoldSnoc(0, intervals[..i], intervals[i]);
        if g == 0 {
          g := intervals[i];
        } else {
          g := Gcd(g, intervals[i]);
        }
        i := i + 1;
      }
      assert intervals[..i] == intervals;
      var j := 0;
      while j < |triggers|
        invariant 0 <= j <= |triggers|
        invariant g == FoldIntervals(FoldIntervals(0, intervals), TriggerIntervals(triggers[..j]))
      {
        assert triggers[..j + 1][..j] == triggers[..j];
        var ts := TriggerIntervals(triggers[..j]);
        if triggers[j].kind == NewInterval {
          assert TriggerIntervals(triggers[..j + 1]) == ts + [triggers[j].interval];
          FoldSnoc(FoldIntervals(0, intervals), ts, triggers[j].interval);
          if g == 0 {
            g := triggers[j].interval;
          } else {
            g := Gcd(g, triggers[j].interval);
          }
        } else {
          assert TriggerIntervals(triggers[..j + 1]) == ts;
        }
        j := j + 1;
      }
      assert triggers[..j] == triggers;
    }

    /** `checkForEvent(time, intervalEvent)`. The checked triggers answer
      * `results[i]`; the clock readings are the measured `checkTime` and
      * `callbackTime`. Returns the matured trigger kinds and the callbacks
      * it calls with them, in calling order; the check statistics take one
      * more sample, the callback statistics only when a callback runs. */
    method CheckForEvent(intervalEvent: bool, results: seq<bool>, checkTime: int, callbackTime: int)
      returns (matured: seq<TriggerKind>, callbacks: seq<Callback>)
      requires |results| == |triggers|
      requires Valid()
      modifies this
      ensures triggers == old(triggers) && intervals == old(intervals)
      ensures matured == Dedup(CheckedKinds(triggers, intervalEvent))
      ensures callbacks == Dedup(FiredCallbacks(triggers, Status(triggers, intervalEvent, results)))
      ensures numEventChecks == old(numEventChecks) + 1
      ensures avgEventCheckTime == RunningMean(old(avgEventCheckTime), old(numEventChecks), checkTime)
      ensures maxEventCheckTime == if old(maxEventCheckTime) < checkTime then checkTime else old(maxEventCheckTime)
      ensures checkTimes == old(checkTimes) + [checkTime]
      ensures callbacks == [] ==> numEvents == old(numEvents) && avgEventTime == old(avgEventTime)
                                  && maxEventTime == old(maxEventTime) && eventTimes == old(eventTimes)
      ensures callbacks != [] ==> numEvents == old(numEvents) + 1
                                  && avgEventTime == RunningMean(old(avgEventTime), old(numEvents), callbackTime)
                                  && maxEventTime == (if old(maxEventTime) < callbackTime then callbackTime else old(maxEventTime))
                                  && eventTimes == old(eventTimes) + [callbackTime]
      ensures Valid()
    {
      var status;
      status, matured := CheckTriggers(triggers, intervalEvent, results);
      assert status == Status(triggers, intervalEvent, results);
      callbacks := CollectCallbacks(triggers, status);
      RecordCheck(checkTime);
      if callbacks == [] {
        return;
      }
      RecordEvent(callbackTime);
    }

    /** The check statistics take one more sample. */
    method RecordCheck(checkTime: int)
      requires Valid()
      modifies this
      ensures numEventChecks == old(numEventChecks) + 1
      ensures avgEventCheckTime == RunningMean(old(avgEventCheckTime), old(numEventChecks), checkTime)
      ensures maxEventCheckTime == if old(maxEventCheckTime) < checkTime then checkTime else old(maxEventCheckTime)
      ensures checkTimes == old(checkTimes) + [checkTime]
      ensures triggers == old(triggers) && intervals == old(intervals)
      ensures numEvents == old(numEvents) && avgEventTime == old(avgEventTime)
      ensures maxEventTime == old(maxEventTime) && eventTimes == old(eventTimes)
      ensures Valid()
    {
      SummaryStep(checkTimes, numEventChecks, avgEventCheckTime, maxEventCheckTime, checkTime);
      if maxEventCheckTime < checkTime {
        maxEventCheckTime := checkTime;
      }
      avgEventCheckTime := RunningMean(avgEventCheckTime, numEventChecks, checkTime);
      numEventChecks := numEventChecks + 1;
      checkTimes := checkTimes + [checkTime];
    }

    /** The callback statistics take one more sample. */
    method RecordEvent(callbackTime: int)
      requires Valid()
      modifies this
      ensures numEvents == old(numEvents) + 1
      ensures avgEventTime == RunningMean(old(avgEventTime), old(numEvents), callbackTime)
      ensures maxEventTime == if old(maxEventTime) < callbackTime then callbackTime else old(maxEventTime)
      ensures eventTimes == old(eventTimes) + [callbackTime]
      ensures triggers == old(triggers) && intervals == old(intervals)
      ensures numEventChecks == old(numEventChecks) && avgEventCheckTime == old(avgEventCheckTime)
      ensures maxEventCheckTime == old(maxEventCheckTime) && checkTimes == old(checkTimes)
      ensures Valid()
    {
      SummaryStep(eventTimes, numEvents, avgEventTime, maxEventTime, callbackTime);
      if maxEventTime < callbackTime {
        maxEventTime := callbackTime;
      }
      avgEventTime := RunningMean(avgEventTime, numEvents, callbackTime);
      numEvents := numEvents + 1;
      eventTimes := eventTimes + [callbackTime];
    }
  }
}
