/** The side controller of AdaptiveClimb.c: a circular window of outcomes and the parameters K and jump. */
module ClimbTuner {
  const HIT_MISS_WINDOW: nat := 1000
  const ADJUSTMENT_INTERVAL: nat := 1000
  const MIN_K: int := 5
  const MAX_K: int := 5000

  // ---------- the controller as a function of all outcomes so far ----------

  function Bit(hit: bool): int
  {
    if hit then 1 else 0
  }

  function Ones(s: seq<int>): int
  {
    if s == [] then 0 else s[0] + Ones(s[1..])
  }

  /** The last `HIT_MISS_WINDOW` outcomes, oldest first; before the first outcome everything is a miss. */
  function Window(history: seq<bool>): (w: seq<int>)
    ensures |w| == HIT_MISS_WINDOW
    ensures forall j | 0 <= j < HIT_MISS_WINDOW ::
              var i := |history| - HIT_MISS_WINDOW + j; w[j] == if 0 <= i then Bit(history[i]) else 0
  {
    seq(HIT_MISS_WINDOW, j requires 0 <= j < HIT_MISS_WINDOW =>
          var i := |history| - HIT_MISS_WINDOW + j; if 0 <= i then Bit(history[i]) else 0)
  }

  datatype Knobs = Knobs(k: int, jump: int, lastMissRate: real)

  function MissRate(hits: int): real
  {
    1.0 - hits as real / HIT_MISS_WINDOW as real
  }

  /** adjust_k_parameter when its turn has come */
  function Adjust(knobs: Knobs, hits: int): Knobs
  {
    if MissRate(hits) > knobs.lastMissRate then
      Knobs(if knobs.k > MIN_K then knobs.k - 2 else MIN_K,
            if knobs.jump < MAX_K then knobs.jump + 2 else MAX_K, MissRate(hits))
    else
      Knobs(if knobs.k < MAX_K then knobs.k + 2 else MAX_K,
            if knobs.jump > MIN_K then knobs.jump - 2 else MIN_K, MissRate(hits))
  }

  /** The parameters are a function of the outcomes; they move only after every thousandth. */
  function KnobsAfter(history: seq<bool>): Knobs
  {
    if history == [] then Knobs(10, 1, 0.0) else
      var before := KnobsAfter(history[..|history| - 1]);
      if |history| % ADJUSTMENT_INTERVAL != 0 then before else Adjust(before, Ones(Window(history)))
  }

  lemma {:induction false} OnesConcat(a: seq<int>, b: seq<int>)
    ensures Ones(a + b) == Ones(a) + Ones(b)
  {
    if a == [] {
      assert a + b == b;
    } else {
      assert (a + b)[1..] == a[1..] + b;
      OnesConcat(a[1..], b);
    }
  }

  lemma {:induction false} OnesRange(s: seq<int>)
    requires forall i | 0 <= i < |s| :: 0 <= s[i] <= 1
    ensures 0 <= Ones(s) <= |s|
  {
    if s != [] {
      OnesRange(s[1..]);
    }
  }

  lemma WindowSlides(history: seq<bool>, hit: bool)
    ensures Window(history + [hit]) == Window(history)[1..] + [Bit(hit)]
    ensures Ones(Window(history + [hit])) == Ones(Window(history)) - Window(history)[0] + Bit(hit)
  {
    var w := Window(history);
    assert Window(history + [hit]) == w[1..] + [Bit(hit)];
    OnesConcat(w[1..], [Bit(hit)]);
    assert Ones([Bit(hit)]) == Bit(hit) + Ones([]);
  }

  /** After any outcomes, K and jump are in range and the miss rate is a rate. */
  lemma {:induction false} KnobsRange(history: seq<bool>)
    ensures var knobs := KnobsAfter(history);
            4 <= knobs.k <= 5001 && 1 <= knobs.jump <= 5001 && 0.0 <= knobs.lastMissRate <= 1.0
  {
    if history != [] {
      KnobsRange(history[..|history| - 1]);
      OnesRange(Window(history));
    }
  }

  /** One outcome moves K by at most two, and jump too unless it is lifted to its lower bound; between
      adjustments nothing moves. */
  lemma KnobsStep(history: seq<bool>, hit: bool)
    ensures var a, b := KnobsAfter(history), KnobsAfter(history + [hit]);
            && -2 <= b.k - a.k <= 2 && (-2 <= b.jump - a.jump <= 2 || b.jump == MIN_K)
            && ((|history| + 1) % ADJUSTMENT_INTERVAL != 0 ==> a == b)
  {
    KnobsRange(history);
    assert (history + [hit])[..|history|] == history;
  }

  // ---------- which way the parameters move ----------

  /** How many of these outcomes are hits. */
  function HitsIn(outcomes: seq<bool>): (n: nat)
    ensures n <= |outcomes|
  {
    if outcomes == [] then 0 else HitsIn(outcomes[..|outcomes| - 1]) + if outcomes[|outcomes| - 1] then 1 else 0
  }

  lemma {:induction false} HitsAreOnes(outcomes: seq<bool>, bits: seq<int>)
    requires |bits| == |outcomes| && forall i | 0 <= i < |bits| :: bits[i] == if outcomes[i] then 1 else 0
    ensures HitsIn(outcomes) == Ones(bits)
  {
    if bits != [] {
      var n := |bits| - 1;
      HitsAreOnes(outcomes[..n], bits[..n]);
      OnesConcat(bits[..n], [bits[n]]);
      assert bits == bits[..n] + [bits[n]];
      assert Ones([bits[n]]) == bits[n] + Ones([]);
    }
  }

  lemma WindowHits(history: seq<bool>)
    requires |history| >= 1000
    ensures Ones(Window(history)) == HitsIn(history[|history| - 1000..])
  {
    HitsAreOnes(history[|history| - 1000..], Window(history));
  }

  /** Within a thousand outcomes nothing moves. */
  lemma {:induction false} KnobsRest(history: seq<bool>, n: nat)
    requires n <= |history| && n % 1000 == 0 && |history| < n + 1000
    ensures KnobsAfter(history) == KnobsAfter(history[..n])
    decreases |history|
  {
    if n < |history| {
      var m := |history| - 1;
      KnobsRest(history[..m], n);
      assert history[..m][..n] == history[..n];
      NotYet(n, |history|);
    } else {
      assert history[..n] == history;
    }
  }

  lemma NotYet(n: nat, m: nat)
    requires n % 1000 == 0 && n < m < n + 1000
    ensures m % 1000 != 0
  {
  }

  /** After every thousandth outcome the miss rate kept is that of the last thousand. */
  lemma RateKept(history: seq<bool>)
    requires history != [] && |history| % 1000 == 0
    ensures KnobsAfter(history).lastMissRate == 1.0 - HitsIn(history[|history| - 1000..]) as real / 1000.0
  {
    hide KnobsAfter, Window, Ones, HitsIn;
    WindowHits(history);
    AtThousandth(history, history[..|history| - 1]);
  }

  lemma FewerHits(a: nat, b: nat)
    ensures 1.0 - a as real / 1000.0 > 1.0 - b as real / 1000.0 <==> a < b
  {
  }

  /** Fewer hits among the last thousand outcomes than among the thousand before: K falls and jump rises. */
  ghost predicate Cautious(before: Knobs, after: Knobs)
  {
    && after.k == (if 5 < before.k then before.k - 2 else 5)
    && after.jump == (if before.jump < 5000 then before.jump + 2 else 5000)
  }

  /** As many hits or more: K rises and jump falls. */
  ghost predicate Eager(before: Knobs, after: Knobs)
  {
    && after.k == (if before.k < 5000 then before.k + 2 else 5000)
    && after.jump == (if 5 < before.jump then before.jump - 2 else 5)
  }

  /** At every thousandth outcome the hits of the last thousand are compared with those of the thousand before, for the
      first thousand with a thousand hits; `before` are the parameters a thousand outcomes earlier. */
  lemma KnobsDirection(history: seq<bool>)
    requires history != [] && |history| % 1000 == 0
    ensures |history| >= 1000
    ensures var n := |history| - 1000;
            var before, after := KnobsAfter(history[..n]), KnobsAfter(history);
            var earlier := if n == 0 then 1000 else HitsIn(history[n - 1000..n]);
            if HitsIn(history[n..]) < earlier then Cautious(before, after) else Eager(before, after)
  {
    hide KnobsAfter, Adjust, Window, Ones, HitsIn;
    Thousand(|history|);
    var n := |history| - 1000;
    var earlier := if n == 0 then 1000 else HitsIn(history[n - 1000..n]);
    Adjusted(history, n);
    if n > 0 {
      RateKept(history[..n]);
      assert history[..n][n - 1000..] == history[n - 1000..n];
    } else {
      assert history[..n] == [];
      AtFirst();
    }
    Turns(KnobsAfter(history[..n]), HitsIn(history[n..]), earlier);
  }

  lemma AtFirst()
    ensures KnobsAfter([]) == Knobs(10, 1, 0.0)
  {
  }

  /** One adjustment against the hits of the thousand outcomes before. */
  lemma Turns(before: Knobs, hits: nat, earlier: nat)
    requires before.lastMissRate == 1.0 - earlier as real / 1000.0
    ensures if hits < earlier then Cautious(before, Adjust(before, hits)) else Eager(before, Adjust(before, hits))
  {
    FewerHits(hits, earlier);
  }

  lemma Adjusted(history: seq<bool>, n: nat)
    requires |history| == n + 1000 && n % 1000 == 0
    ensures KnobsAfter(history) == Adjust(KnobsAfter(history[..n]), HitsIn(history[n..]))
  {
    hide KnobsAfter, Window, Ones, HitsIn, Adjust;
    var before := history[..|history| - 1];
    WindowHits(history);
    AtThousandth(history, before);
    KnobsRest(before, n);
    assert before[..n] == history[..n];
  }

  lemma AtThousandth(history: seq<bool>, before: seq<bool>)
    requires history != [] && |history| % 1000 == 0 && before == history[..|history| - 1]
    ensures KnobsAfter(history) == Adjust(KnobsAfter(before), Ones(Window(history)))
  {
    hide Window, Ones, Adjust;
  }

  lemma Thousand(n: nat)
    requires n > 0 && n % 1000 == 0
    ensures n >= 1000 && (n - 1000) % 1000 == 0
    ensures n > 1000 ==> n >= 2000
  {
  }

  /** A thousand misses take K from 10 to 8 and jump from 1 to 3. */
  lemma ThousandMisses()
    ensures var knobs := KnobsAfter(seq(1000, _ => false)); knobs.k == 8 && knobs.jump == 3
  {
    var history := seq(1000, _ => false);
    KnobsDirection(history);
    assert history[0..] == history && history[..0] == [];
    NoHits(history);
  }

  lemma {:induction false} NoHits(outcomes: seq<bool>)
    requires forall i | 0 <= i < |outcomes| :: !outcomes[i]
    ensures HitsIn(outcomes) == 0
  {
    if outcomes != [] {
      NoHits(outcomes[..|outcomes| - 1]);
    }
  }

  /** The static variables and the two parameters. */
  class Tuner {
    var recentHits: array<int>
    var hitMissPtr: nat
    var totalRequests: nat
    var recentHitCount: int
    var lastMissRate: real
    var k: int
    var jump: int
    ghost var history: seq<bool>

    /** The circular window and its counter show the last outcomes. */
    ghost predicate Windowed()
      reads this, recentHits
    {
      && recentHits.Length == HIT_MISS_WINDOW && totalRequests == |history|
      && hitMissPtr == |history| % HIT_MISS_WINDOW
      && recentHits[hitMissPtr..] + recentHits[..hitMissPtr] == Window(history)
      && recentHitCount == Ones(Window(history))
    }

    ghost predicate Valid()
      reads this, recentHits
    {
      Windowed() && Knobs(k, jump, lastMissRate) == KnobsAfter(history)
    }

    constructor ()
      ensures Valid() && history == [] && fresh(recentHits)
    {
      recentHits := new int[HIT_MISS_WINDOW](_ => 0);
      hitMissPtr, totalRequests, recentHitCount, lastMissRate := 0, 0, 0, 0.0;
      k, jump, history := 10, 1, [];
      new;
      assert recentHits[0..] + recentHits[..0] == Window([]);
      Zeros(Window([]));
    }

    static lemma {:induction false} Zeros(s: seq<int>)
      requires forall i | 0 <= i < |s| :: s[i] == 0
      ensures Ones(s) == 0
    {
      if s != [] {
        Zeros(s[1..]);
      }
    }

    /** `recent_hit_count` is the number of ones in the window, whatever its rotation. */
    lemma CountsWindow()
      requires Valid()
      ensures recentHitCount == Ones(recentHits[..])
    {
      assert recentHits[..] == recentHits[..hitMissPtr] + recentHits[hitMissPtr..];
      OnesConcat(recentHits[..hitMissPtr], recentHits[hitMissPtr..]);
      OnesConcat(recentHits[hitMissPtr..], recentHits[..hitMissPtr]);
    }

    /** update_hit_miss_window */
    method UpdateHitMissWindow(hit: bool)
      requires recentHits.Length == HIT_MISS_WINDOW && hitMissPtr < HIT_MISS_WINDOW
      modifies recentHits, `hitMissPtr, `recentHitCount
      ensures hitMissPtr == (old(hitMissPtr) + 1) % HIT_MISS_WINDOW
      ensures recentHits[hitMissPtr..] + recentHits[..hitMissPtr] ==
              (old(recentHits[hitMissPtr..]) + old(recentHits[..hitMissPtr]))[1..] + [Bit(hit)]
      ensures recentHitCount == old(recentHitCount) - (if old(recentHits[hitMissPtr]) != 0 then 1 else 0) + Bit(hit)
    {
      if recentHits[hitMissPtr] != 0 {
        recentHitCount := recentHitCount - 1;
      }
      recentHits[hitMissPtr] := Bit(hit);
      if hit {
        recentHitCount := recentHitCount + 1;
      }
      hitMissPtr := (hitMissPtr + 1) % HIT_MISS_WINDOW;
    }

    /** adjust_k_parameter */
    method AdjustKParameter()
      modifies `k, `jump, `lastMissRate
      ensures Knobs(k, jump, lastMissRate) ==
              if totalRequests % ADJUSTMENT_INTERVAL != 0 then old(Knobs(k, jump, lastMissRate))
              else Adjust(old(Knobs(k, jump, lastMissRate)), recentHitCount)
    {
      if totalRequests % ADJUSTMENT_INTERVAL != 0 {
        return;
      }
      var missRate := 1.0 - recentHitCount as real / HIT_MISS_WINDOW as real;
      if missRate > lastMissRate {
        k := if k > MIN_K then k - 2 else MIN_K;
        jump := if jump < MAX_K then jump + 2 else MAX_K;
      } else {
        k := if k < MAX_K then k + 2 else MAX_K;
        jump := if jump > MIN_K then jump - 2 else MIN_K;
      }
      lastMissRate := missRate;
    }

    /** What one more outcome does to the window. */
    lemma Slides(hit: bool)
      requires Windowed()
      ensures var w, w' := Window(history), Window(history + [hit]);
              && w' == (recentHits[hitMissPtr..] + recentHits[..hitMissPtr])[1..] + [Bit(hit)]
              && Ones(w') == recentHitCount - (if recentHits[hitMissPtr] != 0 then 1 else 0) + Bit(hit)
    {
      ghost var w := Window(history);
      assert w[0] == (recentHits[hitMissPtr..] + recentHits[..hitMissPtr])[0] == recentHits[hitMissPtr];
      WindowSlides(history, hit);
    }

    method Count(hit: bool)
      requires Windowed()
      modifies `totalRequests, `history, recentHits, `hitMissPtr, `recentHitCount
      ensures Windowed() && history == old(history) + [hit]
    {
      Slides(hit);
      hide Window, Ones;
      totalRequests := totalRequests + 1;
      history := history + [hit];
      UpdateHitMissWindow(hit);
    }

    /** What `get` and `insert` do first. */
    method Record(hit: bool)
      requires Valid()
      modifies this, recentHits
      ensures Valid() && history == old(history) + [hit] && recentHits == old(recentHits)
    {
      assert (history + [hit])[..|history|] == history;
      hide Window, Ones, Adjust, MissRate;
      Count(hit);
      AdjustKParameter();
    }
  }
}
