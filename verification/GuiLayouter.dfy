/** Distributing a given extent over a row or column of elements that have a minimum, best and maximum size. */
module GuiLayouter {

  /** A maximum size; `Unbounded` is the largest integer in the program. */
  datatype Size = Unbounded | Bounded(n: int)

  datatype Measures = Measures(min: int, best: int, max: Size, incr: int) {
    predicate Ordered() {
      min <= best && (max.Bounded? ==> best <= max.n)
    }

    predicate IsFlex() { max.Unbounded? }

    /** How much a non-flexible element can grow. */
    function Slack(): nat
      requires Ordered()
    {
      if max.Bounded? then max.n - best else 0
    }
  }

  predicate AllOrdered(ms: seq<Measures>) {
    forall i | 0 <= i < |ms| :: ms[i].Ordered()
  }

  // ----- rounding

  function RoundedDiv(a: nat, b: nat): nat
    requires b > 0
  {
    (a + b / 2) / b
  }

  function RoundedUpDiv(a: nat, b: nat): nat
    requires b > 0
  {
    (a + b - 1) / b
  }

  /** The quotient is off by at most one half. */
  lemma {:induction false} RoundedDivError(a: nat, b: nat)
    requires b > 0
    ensures 2 * a - b <= 2 * (RoundedDiv(a, b) * b) <= 2 * a + b
  {
    var r := RoundedDiv(a, b);
    assert r * b <= a + b / 2 < r * b + b;
  }

  lemma {:induction false} CancelFactor(a: int, b: int, c: nat)
    requires a * c < b * c
    ensures a < b
  {
  }

  lemma {:induction false} QuotientIsAtMost(n: nat, b: nat, q: nat)
    requires 0 < b && n < q * b + b
    ensures n / b <= q
  {
    var r := n / b;
    assert r * b <= n && (q + 1) * b == q * b + b;
    CancelFactor(r, q + 1, b);
  }

  lemma {:induction false} QuotientIs(n: nat, b: nat, q: nat)
    requires q * b <= n < q * b + b
    ensures n / b == q
  {
    QuotientIsAtMost(n, b, q);
    var r := n / b;
    assert n < r * b + b && (r + 1) * b == r * b + b;
    CancelFactor(q, r + 1, b);
  }

  lemma {:induction false} KeepFactor(a: int, b: int, c: nat)
    requires a <= b
    ensures a * c <= b * c
  {
  }

  /** A share of `x` in the ratio `part` to `whole` is never more than `x`. */
  lemma {:induction false} ShareIsAtMost(x: nat, part: nat, whole: nat)
    requires part <= whole && 0 < whole
    ensures RoundedDiv(x * part, whole) <= x
  {
    assert x * part <= x * whole by {
      KeepFactor(part, whole, x);
    }
    QuotientIsAtMost(x * part + whole / 2, whole, x);
  }

  lemma {:induction false} RoundedUpDivIsCeiling(a: nat, b: nat)
    requires b > 0
    ensures a <= RoundedUpDiv(a, b) * b < a + b
  {
  }

  // ----- totals over the first `i` elements

  function MinSum(ms: seq<Measures>, i: nat): int
    requires i <= |ms|
  {
    if i == 0 then 0 else MinSum(ms, i - 1) + ms[i - 1].min
  }

  function BestSum(ms: seq<Measures>, i: nat): int
    requires i <= |ms|
  {
    if i == 0 then 0 else BestSum(ms, i - 1) + ms[i - 1].best
  }

  function FlexCount(ms: seq<Measures>, i: nat): nat
    requires i <= |ms|
  {
    if i == 0 then 0 else FlexCount(ms, i - 1) + if ms[i - 1].IsFlex() then 1 else 0
  }

  function SlackSum(ms: seq<Measures>, i: nat): nat
    requires i <= |ms| && AllOrdered(ms)
  {
    if i == 0 then 0 else SlackSum(ms, i - 1) + ms[i - 1].Slack()
  }

  function RangeSum(ms: seq<Measures>, i: nat): nat
    requires i <= |ms| && AllOrdered(ms)
  {
    if i == 0 then 0 else RangeSum(ms, i - 1) + (ms[i - 1].best - ms[i - 1].min)
  }

  lemma {:induction false} RangeIsDifference(ms: seq<Measures>, i: nat)
    requires i <= |ms| && AllOrdered(ms)
    ensures RangeSum(ms, i) == BestSum(ms, i) - MinSum(ms, i)
  {
    if i > 0 { RangeIsDifference(ms, i - 1); }
  }

  // ----- shrinking below the best sizes

  function ShrunkSize(m: Measures, part: nat, whole: nat): int
    requires m.Ordered()
  {
    if whole == 0 then m.min else m.min + RoundedDiv((m.best - m.min) * part, whole)
  }

  lemma {:induction false} ShrunkSizeInRange(m: Measures, part: nat, whole: nat)
    requires m.Ordered() && part <= whole
    ensures m.min <= ShrunkSize(m, part, whole) <= m.best
  {
    if whole > 0 { ShareIsAtMost(m.best - m.min, part, whole); }
  }

  /** Above its minimum each element gets its proportional part of `part`, up to half a unit. */
  lemma {:induction false} ShrunkShareIsFair(m: Measures, part: nat, whole: nat)
    requires m.Ordered() && 0 < whole
    ensures IsClose(ShrunkSize(m, part, whole) - m.min, m.best - m.min, part, whole, 1)
  {
    RoundedDivError((m.best - m.min) * part, whole);
  }

  function ShrunkSum(ms: seq<Measures>, part: nat, whole: nat, i: nat): int
    requires i <= |ms| && AllOrdered(ms)
  {
    if i == 0 then 0 else ShrunkSum(ms, part, whole, i - 1) + ShrunkSize(ms[i - 1], part, whole)
  }

  /** `sum` is `x * part / whole` up to `k` times one half. */
  predicate IsClose(sum: int, x: int, part: int, whole: nat, k: nat) {
    -(k * whole) <= 2 * (sum * whole) - 2 * (x * part) <= k * whole
  }

  /** One more rounded share adds at most one half to the error. */
  lemma {:induction false} AddShare(sum: int, share: nat, all: int, x: nat, part: nat, whole: nat, k: nat)
    requires 0 < whole && share == RoundedDiv(x * part, whole)
    requires IsClose(sum, all, part, whole, k)
    ensures IsClose(sum + share, all + x, part, whole, k + 1)
  {
    RoundedDivError(x * part, whole);
    assert (sum + share) * whole == sum * whole + share * whole;
    assert (all + x) * part == all * part + x * part;
    assert (k + 1) * whole == k * whole + whole;
  }

  /** The rounding errors add up to at most half a unit per element. */
  lemma {:induction false} ShrunkSumError(ms: seq<Measures>, part: nat, whole: nat, i: nat)
    requires i <= |ms| && AllOrdered(ms) && 0 < whole
    ensures IsClose(ShrunkSum(ms, part, whole, i) - MinSum(ms, i), RangeSum(ms, i), part, whole, i)
  {
    if i > 0 {
      var m, sum := ms[i - 1], ShrunkSum(ms, part, whole, i - 1) - MinSum(ms, i - 1);
      var x, share := m.best - m.min, ShrunkSize(m, part, whole) - m.min;
      assert share == RoundedDiv(x * part, whole);
      assert ShrunkSum(ms, part, whole, i) - MinSum(ms, i) == sum + share;
      assert RangeSum(ms, i) == RangeSum(ms, i - 1) + x;
      hide *;
      ShrunkSumError(ms, part, whole, i - 1);
      AddShare(sum, share, RangeSum(ms, i - 1), x, part, whole, i - 1);
    }
  }

  lemma {:induction false} DivideBounds(y: int, n: int, d: nat)
    requires 0 < d && -(n * d) <= y * d <= n * d
    ensures -n <= y <= n
  {
    assert (n + 1) * d == n * d + d;
    CancelFactor(y, n + 1, d);
    assert (-n - 1) * d == -(n * d) - d;
    CancelFactor(-n - 1, y, d);
  }

  lemma {:induction false} CloseWhenScaled(sum: int, part: int, whole: nat, n: int)
    requires 0 < whole && 0 <= n && IsClose(sum, whole, part, whole, n)
    ensures -n <= 2 * (sum - part) <= n
  {
    assert (2 * sum - 2 * part) * whole == 2 * (sum * whole) - 2 * (whole * part);
    DivideBounds(2 * sum - 2 * part, n, whole);
  }

  lemma {:induction false} ShrunkSumIsClose(ms: seq<Measures>, part: nat)
    requires AllOrdered(ms) && part <= RangeSum(ms, |ms|)
    ensures var sum, want := ShrunkSum(ms, part, RangeSum(ms, |ms|), |ms|), MinSum(ms, |ms|) + part;
      -|ms| <= 2 * (sum - want) <= |ms|
  {
    var whole, n := RangeSum(ms, |ms|), |ms|;
    if whole > 0 {
      ShrunkSumError(ms, part, whole, n);
      CloseWhenScaled(ShrunkSum(ms, part, whole, n) - MinSum(ms, n), part, whole, n);
    } else {
      ShrunkWithoutRange(ms, part, n);
    }
  }

  lemma {:induction false} ShrunkWithoutRange(ms: seq<Measures>, part: nat, i: nat)
    requires i <= |ms| && AllOrdered(ms)
    ensures ShrunkSum(ms, part, 0, i) == MinSum(ms, i)
  {
    if i > 0 { ShrunkWithoutRange(ms, part, i - 1); }
  }

  // ----- growing beyond the best sizes

  /** What is left of the space for non-flexible elements while they are served one after the other. */
  datatype Pot = Pot(total: int, remaining: int)

  datatype Served = Served(size: int, pot: Pot)

  /** An element's share of the pot before it is fitted to the element's raster. */
  function Share(m: Measures, whole: nat, pot: Pot): nat
    requires m.Ordered() && 0 < whole && 0 <= pot.total
  {
    RoundedDiv(m.Slack() * pot.total, whole)
  }

  function Serve(m: Measures, whole: nat, flexShare: int, pot: Pot): Served
    requires m.Ordered() && 0 <= pot.total
  {
    if m.IsFlex() then Served(m.best + flexShare, pot)
    else if whole == 0 || Share(m, whole, pot) > pot.remaining then Served(m.best, pot)
    else
      var add, left := Share(m, whole, pot), pot.remaining - Share(m, whole, pot);
      var rastered := if m.incr > 1 then RoundedUpDiv(add, m.incr) * m.incr else add;
      if rastered - add <= left
      then Served(m.best + rastered, Pot(pot.total - (rastered - add), left - (rastered - add)))
      else Served(m.best + add, Pot(pot.total, left))
  }

  /** Rounding up to a step does not pass a bound that is a whole number of steps. */
  lemma {:induction false} RoundedUpStaysBelow(add: nat, bound: nat, step: nat)
    requires 0 < step && add <= bound && bound % step == 0
    ensures RoundedUpDiv(add, step) * step <= bound
  {
    var q, r := bound / step, RoundedUpDiv(add, step);
    assert bound == q * step;
    RoundedUpDivIsCeiling(add, step);
    hide RoundedUpDiv;
    if q < r {
      assert (q + 1) * step == q * step + step;
      CancelFactor(r, q + 1, step);
    } else {
      KeepFactor(r, q, step);
    }
  }

  /** By how much a size is more than the best one and the rounded share of `total`; a size not beyond is no rise. */
  function RasterRise(m: Measures, whole: nat, total: int, size: int): int
    requires m.Ordered()
  {
    if m.IsFlex() || whole == 0 || total < 0 || size == m.best then 0
    else size - m.best - RoundedDiv((m.max.n - m.best) * total, whole)
  }

  /** What one element does to the pot, whatever it gets. */
  lemma {:induction false} ServeStep(m: Measures, whole: nat, flexShare: int, pot: Pot)
    requires m.Ordered() && 0 <= pot.remaining <= pot.total <= whole
    ensures var s := Serve(m, whole, flexShare, pot);
      && 0 <= s.pot.remaining <= s.pot.total <= pot.total
      && (m.IsFlex() ==> s.pot == pot && s.size == m.best + flexShare)
      && (!m.IsFlex() ==> s.size - m.best == pot.remaining - s.pot.remaining && m.best <= s.size)
      && (!m.IsFlex() && m.incr <= 1 ==> s.size <= m.max.n && s.pot.total == pot.total)
      && (!m.IsFlex() && m.incr <= 1 && 0 < whole && Share(m, whole, pot) <= pot.remaining ==>
            s.pot.remaining == pot.remaining - Share(m, whole, pot))
      && (!m.IsFlex() && m.incr > 1 ==> s.size < m.max.n + m.incr)
      && (!m.IsFlex() && m.incr > 1 && m.Slack() % m.incr == 0 ==> s.size <= m.max.n)
      && s.pot.total == pot.total - RasterRise(m, whole, pot.total, s.size)
  {
    if !m.IsFlex() && whole > 0 {
      ShareIsAtMost(m.Slack(), pot.total, whole);
      if m.incr > 1 {
        RoundedUpDivIsCeiling(Share(m, whole, pot), m.incr);
        if m.Slack() % m.incr == 0 {
          RoundedUpStaysBelow(Share(m, whole, pot), m.Slack(), m.incr);
        }
      }
    }
  }

  /** With a pot of one step more than it can grow, an element whose slack is no whole number of steps grows too far. */
  lemma {:induction false} RasterCanExceed(m: Measures)
    requires m.Ordered() && !m.IsFlex() && m.incr > 1 && m.Slack() % m.incr != 0
    ensures var w := m.Slack() + m.incr; Serve(m, w, 0, Pot(w, w)).size > m.max.n
  {
    var slack, w := m.Slack(), m.Slack() + m.incr;
    assert slack * w + w / 2 < (slack + 1) * w;
    ExactShare(slack, w);
    RoundedUpDivIsCeiling(slack, m.incr);
    MultipleHasNoRest(RoundedUpDiv(slack, m.incr), m.incr);
  }

  lemma {:induction false} ExactShare(x: nat, whole: nat)
    requires 0 < whole
    ensures RoundedDiv(x * whole, whole) == x
  {
    QuotientIs(x * whole + whole / 2, whole, x);
  }

  lemma {:induction false} MultipleHasNoRest(q: nat, d: nat)
    requires 0 < d
    ensures (q * d) % d == 0
  {
    QuotientIs(q * d, d, q);
  }

  /** A rastered element can be made larger than its maximum exactly if its slack is no whole number of steps. */
  lemma {:induction false} RasterExceedsIff(m: Measures)
    requires m.Ordered() && !m.IsFlex() && m.incr > 1
    ensures (exists whole: nat, pot: Pot | IsPot(pot, whole) :: Serve(m, whole, 0, pot).size > m.max.n)
            <==> m.Slack() % m.incr != 0
  {
    hide Serve;
    if m.Slack() % m.incr != 0 {
      var w := m.Slack() + m.incr;
      RasterCanExceed(m);
      assert IsPot(Pot(w, w), w);
    } else {
      forall whole: nat, pot: Pot | IsPot(pot, whole) ensures Serve(m, whole, 0, pot).size <= m.max.n {
        ServeStep(m, whole, 0, pot);
      }
    }
  }

  predicate IsPot(pot: Pot, whole: nat) {
    0 <= pot.remaining <= pot.total <= whole
  }

  /** What the first `i` elements leave of a pot. */
  function PotBehind(ms: seq<Measures>, whole: nat, flexShare: int, pot: Pot, i: nat): (left: Pot)
    requires i <= |ms| && AllOrdered(ms) && IsPot(pot, whole)
    ensures IsPot(left, whole) && left.total <= pot.total
  {
    if i == 0 then pot
    else
      ServeStep(ms[i - 1], whole, flexShare, PotBehind(ms, whole, flexShare, pot, i - 1));
      Serve(ms[i - 1], whole, flexShare, PotBehind(ms, whole, flexShare, pot, i - 1)).pot
  }

  /** The same for the pot of `start` units that all elements begin with. */
  function PotAfter(ms: seq<Measures>, whole: nat, flexShare: int, start: nat, i: nat): (pot: Pot)
    requires i <= |ms| && AllOrdered(ms) && start <= whole
    ensures 0 <= pot.remaining <= pot.total <= start
  {
    PotBehind(ms, whole, flexShare, Pot(start, start), i)
  }

  function GrownSize(ms: seq<Measures>, whole: nat, flexShare: int, start: nat, i: nat): int
    requires i < |ms| && AllOrdered(ms) && start <= whole
  {
    Serve(ms[i], whole, flexShare, PotAfter(ms, whole, flexShare, start, i)).size
  }

  function GrownSum(ms: seq<Measures>, whole: nat, flexShare: int, start: nat, i: nat): int
    requires i <= |ms| && AllOrdered(ms) && start <= whole
  {
    if i == 0 then 0
    else GrownSum(ms, whole, flexShare, start, i - 1) + GrownSize(ms, whole, flexShare, start, i - 1)
  }

  /** Nothing is handed out twice: all growth comes out of the pot or out of the flexible shares. */
  lemma {:induction false} GrowthIsAccountedFor(ms: seq<Measures>, whole: nat, flexShare: int, start: nat, i: nat)
    requires i <= |ms| && AllOrdered(ms) && start <= whole
    ensures GrownSum(ms, whole, flexShare, start, i)
         == BestSum(ms, i) + FlexCount(ms, i) * flexShare + start - PotAfter(ms, whole, flexShare, start, i).remaining
  {
    hide Serve, Share, RasterRise, RoundedDiv;
    if i > 0 {
      var m := ms[i - 1];
      GrowthIsAccountedFor(ms, whole, flexShare, start, i - 1);
      ServeStep(m, whole, flexShare, PotAfter(ms, whole, flexShare, start, i - 1));
      var n := FlexCount(ms, i - 1);
      assert (n + 1) * flexShare == n * flexShare + flexShare;
    }
  }

  /**
   * The size an element has to get if the pot holds `remaining` units, of which it has a share of `total`: more by its
   * share if that is not too much, and by the next whole number of steps if that is not too much either.
   */
  predicate IsRightSize(m: Measures, whole: nat, flexShare: int, total: int, remaining: int, size: int)
    requires m.Ordered() && 0 <= total
  {
    if m.max.Unbounded? then size == m.best + flexShare
    else if whole == 0 then size == m.best
    else
      var share := RoundedDiv((m.max.n - m.best) * total, whole);
      if share > remaining then size == m.best
      else if m.incr <= 1 then size == m.best + share
      else forall r | share <= r < share + m.incr && r % m.incr == 0 ::
             size == m.best + if r <= remaining then r else share
  }

  lemma {:induction false} RightSizeServed(m: Measures, whole: nat, flexShare: int, pot: Pot)
    requires m.Ordered() && IsPot(pot, whole)
    ensures IsRightSize(m, whole, flexShare, pot.total, pot.remaining, Serve(m, whole, flexShare, pot).size)
  {
    if !m.IsFlex() && 0 < whole && m.incr > 1 {
      var share := Share(m, whole, pot);
      hide RoundedUpDiv, RoundedDiv;
      forall r | share <= r < share + m.incr && r % m.incr == 0 ensures r == RoundedUpDiv(share, m.incr) * m.incr {
        NextMultiple(share, m.incr, r);
      }
      RoundedUpDivIsCeiling(share, m.incr);
    }
  }

  lemma {:induction false} NextMultiple(from: nat, step: nat, r: int)
    requires 0 < step && from <= r < from + step && r % step == 0
    ensures r == RoundedUpDiv(from, step) * step
  {
    RoundedUpDivIsCeiling(from, step);
    assert r == r / step * step;
    hide RoundedUpDiv;
    OneMultiple(r / step, RoundedUpDiv(from, step), from, step);
  }

  lemma {:induction false} OneMultiple(p: int, q: int, from: int, step: nat)
    requires 0 < step && from <= p * step < from + step && from <= q * step < from + step
    ensures p == q
  {
    assert (q + 1) * step == q * step + step && (p + 1) * step == p * step + step;
    CancelFactor(p, q + 1, step);
    CancelFactor(q, p + 1, step);
  }

  /** All that the raster added to the sizes of the first `i` elements, each seen from the total it found. */
  function RiseSum(ms: seq<Measures>, sizes: seq<int>, whole: nat, start: int, i: nat): int
    requires i <= |ms| == |sizes| && AllOrdered(ms)
  {
    if i == 0 then 0
    else
      var rises := RiseSum(ms, sizes, whole, start, i - 1);
      rises + RasterRise(ms[i - 1], whole, start - rises, sizes[i - 1])
  }

  /** By how much the first `i` elements exceed their best sizes, those that are flexible aside. */
  function GrowthSum(ms: seq<Measures>, sizes: seq<int>, i: nat): int
    requires i <= |ms| == |sizes|
  {
    if i == 0 then 0
    else GrowthSum(ms, sizes, i - 1) + if ms[i - 1].IsFlex() then 0 else sizes[i - 1] - ms[i - 1].best
  }

  predicate AreGrown(ms: seq<Measures>, sizes: seq<int>, whole: nat, flexShare: int, start: nat)
    requires |ms| == |sizes| && AllOrdered(ms) && start <= whole
  {
    forall j | 0 <= j < |ms| :: sizes[j] == GrownSize(ms, whole, flexShare, start, j)
  }

  /** The pot an element finds holds what those before it left, and counts as smaller by what their rasters added. */
  lemma {:induction false} PotOfSizes(ms: seq<Measures>, sizes: seq<int>, whole: nat, flexShare: int, start: nat,
                                      i: nat)
    requires i <= |ms| == |sizes| && AllOrdered(ms) && start <= whole && AreGrown(ms, sizes, whole, flexShare, start)
    ensures PotAfter(ms, whole, flexShare, start, i)
         == Pot(start - RiseSum(ms, sizes, whole, start, i), start - GrowthSum(ms, sizes, i))
  {
    hide Serve, RasterRise;
    if i > 0 {
      PotOfSizes(ms, sizes, whole, flexShare, start, i - 1);
      ServeStep(ms[i - 1], whole, flexShare, PotAfter(ms, whole, flexShare, start, i - 1));
    }
  }

  /** Every size is right for the pot that the sizes before it leave. */
  predicate AllRight(ms: seq<Measures>, sizes: seq<int>, whole: nat, flexShare: int, start: nat)
    requires |ms| == |sizes| && AllOrdered(ms)
  {
    forall i | 0 <= i < |ms| ::
      && 0 <= start - RiseSum(ms, sizes, whole, start, i)
      && IsRightSize(ms[i], whole, flexShare, start - RiseSum(ms, sizes, whole, start, i),
                     start - GrowthSum(ms, sizes, i), sizes[i])
  }

  lemma {:induction false} GrownSizesAreRight(ms: seq<Measures>, sizes: seq<int>, whole: nat, flexShare: int,
                                              start: nat)
    requires |ms| == |sizes| && AllOrdered(ms) && start <= whole && AreGrown(ms, sizes, whole, flexShare, start)
    ensures AllRight(ms, sizes, whole, flexShare, start)
  {
    hide Serve, IsRightSize, RiseSum, GrowthSum;
    forall i | 0 <= i < |ms|
      ensures 0 <= start - RiseSum(ms, sizes, whole, start, i)
      ensures IsRightSize(ms[i], whole, flexShare, start - RiseSum(ms, sizes, whole, start, i),
                          start - GrowthSum(ms, sizes, i), sizes[i])
    {
      PotOfSizes(ms, sizes, whole, flexShare, start, i);
      RightSizeServed(ms[i], whole, flexShare, PotAfter(ms, whole, flexShare, start, i));
    }
  }

  /** No element is turned away because its share is more than what remains. */
  predicate NoneTurnedAway(ms: seq<Measures>, whole: nat, flexShare: int, pot: Pot, i: nat)
    requires i <= |ms| && AllOrdered(ms) && IsPot(pot, whole)
  {
    forall j | 0 <= j < i && !ms[j].IsFlex() && 0 < whole ::
      Share(ms[j], whole, PotBehind(ms, whole, flexShare, pot, j))
      <= PotBehind(ms, whole, flexShare, pot, j).remaining
  }

  /** What the first `i` elements ask for, all in terms of the same total. */
  function ShareSum(ms: seq<Measures>, whole: nat, total: nat, i: nat): nat
    requires i <= |ms| && AllOrdered(ms)
  {
    if i == 0 || whole == 0 then 0
    else ShareSum(ms, whole, total, i - 1) + RoundedDiv(ms[i - 1].Slack() * total, whole)
  }

  predicate Unrastered(ms: seq<Measures>) {
    forall j | 0 <= j < |ms| :: ms[j].incr <= 1
  }

  lemma {:induction false} ShareOf(m: Measures, whole: nat, pot: Pot)
    requires m.Ordered() && 0 < whole && 0 <= pot.total
    ensures Share(m, whole, pot) == RoundedDiv(m.Slack() * pot.total, whole)
    ensures m.IsFlex() ==> Share(m, whole, pot) == 0
  {
    if m.IsFlex() { RoundedDivError(0, whole); CancelFactor(RoundedDiv(0, whole), 1, whole); }
  }

  /**
   * Unrastered elements are all served exactly if their shares, which depend on nothing but their sizes and the pot
   * they find, do not add up to more than what remains. Then exactly these shares leave the pot.
   */
  lemma {:induction false} NoneTurnedAwayIff(ms: seq<Measures>, whole: nat, flexShare: int, pot: Pot, i: nat)
    requires i <= |ms| && AllOrdered(ms) && IsPot(pot, whole) && Unrastered(ms)
    ensures NoneTurnedAway(ms, whole, flexShare, pot, i) <==> ShareSum(ms, whole, pot.total, i) <= pot.remaining
    ensures PotBehind(ms, whole, flexShare, pot, i).total == pot.total
    ensures NoneTurnedAway(ms, whole, flexShare, pot, i) ==>
      PotBehind(ms, whole, flexShare, pot, i).remaining == pot.remaining - ShareSum(ms, whole, pot.total, i)
  {
    if i > 0 {
      hide Serve, Share, RoundedDiv;
      var m, before := ms[i - 1], PotBehind(ms, whole, flexShare, pot, i - 1);
      NoneTurnedAwayIff(ms, whole, flexShare, pot, i - 1);
      ServeStep(m, whole, flexShare, before);
      OneMoreServed(ms, whole, flexShare, pot, i);
      if whole > 0 {
        ShareOf(m, whole, before);
      }
    }
  }

  lemma {:induction false} OneMoreServed(ms: seq<Measures>, whole: nat, flexShare: int, pot: Pot, i: nat)
    requires 0 < i <= |ms| && AllOrdered(ms) && IsPot(pot, whole)
    ensures var before := PotBehind(ms, whole, flexShare, pot, i - 1);
      NoneTurnedAway(ms, whole, flexShare, pot, i)
      <==> NoneTurnedAway(ms, whole, flexShare, pot, i - 1)
           && (!ms[i - 1].IsFlex() && 0 < whole ==> Share(ms[i - 1], whole, before) <= before.remaining)
  {
  }

  /** Serving a list is serving its head and then, with what that leaves, its tail. */
  lemma {:induction false} HeadThenTail(head: seq<Measures>, tail: seq<Measures>, whole: nat, flexShare: int,
                                        pot: Pot, i: nat)
    requires i <= |tail| && AllOrdered(head + tail) && IsPot(pot, whole)
    ensures AllOrdered(head) && AllOrdered(tail)
    ensures PotBehind(head + tail, whole, flexShare, pot, |head| + i)
         == PotBehind(tail, whole, flexShare, PotBehind(head, whole, flexShare, pot, |head|), i)
  {
    var ms := head + tail;
    assert forall j | 0 <= j < |head| :: head[j] == ms[j];
    assert forall j | 0 <= j < |tail| :: tail[j] == ms[|head| + j];
    hide Serve;
    if i > 0 {
      HeadThenTail(head, tail, whole, flexShare, pot, i - 1);
    } else {
      HeadServed(head, tail, whole, flexShare, pot, |head|);
    }
  }

  lemma {:induction false} HeadServed(head: seq<Measures>, tail: seq<Measures>, whole: nat, flexShare: int,
                                      pot: Pot, i: nat)
    requires i <= |head| && AllOrdered(head + tail) && AllOrdered(head) && IsPot(pot, whole)
    ensures PotBehind(head + tail, whole, flexShare, pot, i) == PotBehind(head, whole, flexShare, pot, i)
  {
    hide Serve;
    if i > 0 {
      assert (head + tail)[i - 1] == head[i - 1];
      HeadServed(head, tail, whole, flexShare, pot, i - 1);
    }
  }

  /** The shares add up to the pot up to half a unit per element, whether all of them are served or not. */
  lemma {:induction false} ShareSumIsClose(ms: seq<Measures>, whole: nat, total: nat, i: nat)
    requires i <= |ms| && AllOrdered(ms) && 0 < whole
    ensures IsClose(ShareSum(ms, whole, total, i), SlackSum(ms, i), total, whole, i)
  {
    if i > 0 {
      hide IsClose, RoundedDiv;
      ShareSumIsClose(ms, whole, total, i - 1);
      AddShare(ShareSum(ms, whole, total, i - 1), RoundedDiv(ms[i - 1].Slack() * total, whole), SlackSum(ms, i - 1),
               ms[i - 1].Slack(), total, whole, i - 1);
    } else {
      assert 0 * whole == 0;
    }
  }

  /**
   * Without rasters the pot is used up to half a unit per element if the shares, rounded, do not exceed it, which they
   * do by at most half a unit per element; and exactly then no element is turned away.
   */
  lemma {:induction false} PotIsUsedUp(ms: seq<Measures>, flexShare: int, start: nat)
    requires AllOrdered(ms) && Unrastered(ms) && start <= SlackSum(ms, |ms|)
    ensures var n, whole := |ms|, SlackSum(ms, |ms|);
      var asked, remaining := ShareSum(ms, whole, start, n), PotAfter(ms, whole, flexShare, start, n).remaining;
      && -n <= 2 * (asked - start) <= n
      && (NoneTurnedAway(ms, whole, flexShare, Pot(start, start), n) <==> asked <= start)
      && (asked <= start ==> remaining == start - asked && 2 * remaining <= n)
  {
    var n, whole := |ms|, SlackSum(ms, |ms|);
    NoneTurnedAwayIff(ms, whole, flexShare, Pot(start, start), n);
    if whole > 0 {
      ShareSumIsClose(ms, whole, start, n);
      CloseWhenScaled(ShareSum(ms, whole, start, n), start, whole, n);
    }
  }

  /** What remains never grows while the elements are served. */
  lemma {:induction false} RemainingFalls(ms: seq<Measures>, whole: nat, flexShare: int, pot: Pot, j: nat, i: nat)
    requires j <= i <= |ms| && AllOrdered(ms) && IsPot(pot, whole)
    ensures PotBehind(ms, whole, flexShare, pot, i).remaining <= PotBehind(ms, whole, flexShare, pot, j).remaining
  {
    hide Serve;
    if j < i {
      RemainingFalls(ms, whole, flexShare, pot, j, i - 1);
      ServeStep(ms[i - 1], whole, flexShare, PotBehind(ms, whole, flexShare, pot, i - 1));
    }
  }

  /** What stays unused in the end is less than the share of every element that is turned away, rastered or not. */
  lemma {:induction false} UnusedIsLessThanShare(ms: seq<Measures>, whole: nat, flexShare: int, pot: Pot, j: nat)
    requires j < |ms| && AllOrdered(ms) && IsPot(pot, whole) && 0 < whole
    requires PotBehind(ms, whole, flexShare, pot, j).remaining
             < Share(ms[j], whole, PotBehind(ms, whole, flexShare, pot, j))
    ensures PotBehind(ms, whole, flexShare, pot, |ms|).remaining
            < Share(ms[j], whole, PotBehind(ms, whole, flexShare, pot, j)) <= ms[j].Slack()
  {
    RemainingFalls(ms, whole, flexShare, pot, j, |ms|);
    ShareIsAtMost(ms[j].Slack(), PotBehind(ms, whole, flexShare, pot, j).total, whole);
  }

  /**
   * So without rasters the unused part of the pot is at most half a unit per element, or less than the largest share
   * of the pot that an element asks for.
   */
  lemma {:induction false} UnusedIsSmallOrLessThanAShare(ms: seq<Measures>, flexShare: int, start: nat)
    requires AllOrdered(ms) && Unrastered(ms) && start <= SlackSum(ms, |ms|)
    ensures var n, whole := |ms|, SlackSum(ms, |ms|);
      var remaining := PotAfter(ms, whole, flexShare, start, n).remaining;
      || 2 * remaining <= n
      || (0 < whole && exists j | 0 <= j < n && !ms[j].IsFlex() ::
            remaining < RoundedDiv(ms[j].Slack() * start, whole) <= ms[j].Slack())
  {
    hide Serve, RoundedDiv, Share;
    var n, whole, pot := |ms|, SlackSum(ms, |ms|), Pot(start, start);
    PotIsUsedUp(ms, flexShare, start);
    if !NoneTurnedAway(ms, whole, flexShare, pot, n) {
      var j :| 0 <= j < n && !ms[j].IsFlex() && 0 < whole
        && Share(ms[j], whole, PotBehind(ms, whole, flexShare, pot, j))
           > PotBehind(ms, whole, flexShare, pot, j).remaining;
      NoneTurnedAwayIff(ms, whole, flexShare, pot, j);
      ShareOf(ms[j], whole, PotBehind(ms, whole, flexShare, pot, j));
      UnusedIsLessThanShare(ms, whole, flexShare, pot, j);
    }
  }

  /** The same for the unrastered elements behind any others: what counts is the pot that those leave. */
  lemma {:induction false} TailIsServedIff(head: seq<Measures>, tail: seq<Measures>, flexShare: int, start: nat)
    requires AllOrdered(head + tail) && AllOrdered(head) && AllOrdered(tail) && Unrastered(tail)
    requires start <= SlackSum(head + tail, |head + tail|)
    ensures var ms, whole := head + tail, SlackSum(head + tail, |head + tail|);
      var pot, left := PotAfter(head, whole, flexShare, start, |head|), PotAfter(ms, whole, flexShare, start, |ms|);
      && (NoneTurnedAway(tail, whole, flexShare, pot, |tail|)
          <==> ShareSum(tail, whole, pot.total, |tail|) <= pot.remaining)
      && (ShareSum(tail, whole, pot.total, |tail|) <= pot.remaining ==>
            left.remaining == pot.remaining - ShareSum(tail, whole, pot.total, |tail|))
  {
    var whole := SlackSum(head + tail, |head + tail|);
    HeadThenTail(head, tail, whole, flexShare, Pot(start, start), |tail|);
    NoneTurnedAwayIff(tail, whole, flexShare, PotAfter(head, whole, flexShare, start, |head|), |tail|);
  }

  /**
   * Otherwise it can remain unused for the most part: of two elements with slack 1 and 2k - 1 that
   * share k units, the first gets one unit and the second, whose share is k, gets nothing at all.
   */
  lemma {:induction false} SkippingStarves(k: nat)
    requires 2 <= k
    ensures var ms := [Measures(0, 0, Bounded(1), 1), Measures(0, 0, Bounded(2 * k - 1), 1)];
      && AllOrdered(ms) && SlackSum(ms, 2) == 2 * k
      && GrownSize(ms, 2 * k, 0, k, 0) == 1 && GrownSize(ms, 2 * k, 0, k, 1) == 0
      && PotAfter(ms, 2 * k, 0, k, 2).remaining == k - 1
  {
    var ms := [Measures(0, 0, Bounded(1), 1), Measures(0, 0, Bounded(2 * k - 1), 1)];
    assert SlackSum(ms, 1) == 1 && SlackSum(ms, 2) == 2 * k;
    assert RoundedDiv(1 * k, 2 * k) == 1;
    assert (2 * k - 1) * k == 2 * k * (k - 1) + k;
    HalfRoundsUp(k - 1, k);
    hide RoundedDiv;
    assert PotBehind(ms, 2 * k, 0, Pot(k, k), 0) == Pot(k, k);
    assert PotBehind(ms, 2 * k, 0, Pot(k, k), 1) == Pot(k, k - 1);
  }

  /**
   * A raster has the same effect: of two elements with slack 100, one of them with a step of 30, that share 100 units,
   * the first gets 60, the second's share of 45 is more than the 40 that remain, and these stay unused.
   */
  lemma {:induction false} RasteringStarves()
    ensures var ms := [Measures(0, 0, Bounded(100), 30), Measures(0, 0, Bounded(100), 1)];
      && AllOrdered(ms) && SlackSum(ms, 2) == 200
      && GrownSize(ms, 200, 0, 100, 0) == 60 && GrownSize(ms, 200, 0, 100, 1) == 0
      && PotAfter(ms, 200, 0, 100, 2).remaining == 40
  {
    var ms := [Measures(0, 0, Bounded(100), 30), Measures(0, 0, Bounded(100), 1)];
    assert SlackSum(ms, 1) == 100 && SlackSum(ms, 2) == 200;
    assert RoundedDiv(100 * 100, 200) == 50 && RoundedUpDiv(50, 30) == 2 && RoundedDiv(100 * 90, 200) == 45;
    assert PotAfter(ms, 200, 0, 100, 1) == Pot(90, 40);
  }

  /**
   * Rounding up to a step can exceed an element's maximum at the cost of another: with a step of 30, an element that
   * may grow by 10 gets 30, and one that may grow by 100 gets nothing.
   */
  lemma {:induction false} RasteringExceedsMaximum()
    ensures var ms := [Measures(0, 0, Bounded(10), 30), Measures(0, 0, Bounded(100), 1)];
      && AllOrdered(ms) && SlackSum(ms, 2) == 110
      && GrownSize(ms, 110, 0, 110, 0) == 30 && GrownSize(ms, 110, 0, 110, 1) == 0
  {
    var ms := [Measures(0, 0, Bounded(10), 30), Measures(0, 0, Bounded(100), 1)];
    assert SlackSum(ms, 1) == 10 && SlackSum(ms, 2) == 110;
    assert RoundedDiv(10 * 110, 110) == 10 && RoundedUpDiv(10, 30) == 1 && RoundedDiv(100 * 90, 110) == 82;
    assert PotAfter(ms, 110, 0, 110, 1) == Pot(90, 80);
  }

  /** What a raster adds leaves less for all that follow: of 100, 50 and 100, the first in steps of 30, at 125 units. */
  lemma {:induction false} RasterLowersTheTotal()
    ensures var ms := [Measures(0, 0, Bounded(100), 30), Measures(0, 0, Bounded(50), 1),
                       Measures(0, 0, Bounded(100), 1)];
      && AllOrdered(ms) && BestSum(ms, 3) <= 125
      && AdjustedSize(ms, 125, 0) == 60 && AdjustedSize(ms, 125, 1) == 23 && AdjustedSize(ms, 125, 2) == 0
  {
    var ms := [Measures(0, 0, Bounded(100), 30), Measures(0, 0, Bounded(50), 1), Measures(0, 0, Bounded(100), 1)];
    assert BestSum(ms, 1) == 0 && BestSum(ms, 2) == 0 && BestSum(ms, 3) == 0;
    assert FlexCount(ms, 1) == 0 && FlexCount(ms, 2) == 0 && FlexCount(ms, 3) == 0;
    assert SlackSum(ms, 1) == 100 && SlackSum(ms, 2) == 150 && SlackSum(ms, 3) == 250;
    assert FlexShare(ms, 125) == 0 && NonFlexBudget(ms, 125) == 125;
    assert RoundedDiv(100 * 125, 250) == 50 && RoundedUpDiv(50, 30) == 2;
    assert RoundedDiv(50 * 115, 250) == 23 && RoundedDiv(100 * 115, 250) == 46;
    assert PotAfter(ms, 250, 0, 125, 0) == Pot(125, 125);
    assert PotAfter(ms, 250, 0, 125, 1) == Pot(115, 65);
    assert PotAfter(ms, 250, 0, 125, 2) == Pot(115, 42);
  }

  lemma {:induction false} HalfRoundsUp(q: nat, k: nat)
    requires 0 < k
    ensures RoundedDiv(2 * k * q + k, 2 * k) == q + 1
  {
    assert 2 * k * q + k + k == (q + 1) * (2 * k);
    QuotientIs((q + 1) * (2 * k), 2 * k, q + 1);
  }

  // ----- adjusting all elements in place

  function Add(a: Size, b: Size): Size {
    if a.Bounded? && b.Bounded? then Bounded(a.n + b.n) else Unbounded
  }

  function Max(a: int, b: int): int { if a < b then b else a }

  function Min(a: int, b: int): int { if a < b then a else b }

  /** The extent to aim for when there is room for all best sizes. */
  function GrowTarget(ms: seq<Measures>, actualValue: int): int
    requires AllOrdered(ms)
  {
    var best := BestSum(ms, |ms|);
    if FlexCount(ms, |ms|) > 0 then Max(best, actualValue)
    else Min(Max(best, actualValue), best + SlackSum(ms, |ms|))
  }

  /** The part of the growth that goes to non-flexible elements. */
  function NonFlexBudget(ms: seq<Measures>, actualValue: int): (budget: nat)
    requires AllOrdered(ms)
    ensures budget <= SlackSum(ms, |ms|)
    ensures budget <= GrowTarget(ms, actualValue) - BestSum(ms, |ms|)
    ensures FlexCount(ms, |ms|) == 0 ==> budget == GrowTarget(ms, actualValue) - BestSum(ms, |ms|)
  {
    Min(GrowTarget(ms, actualValue) - BestSum(ms, |ms|), SlackSum(ms, |ms|))
  }

  function FlexShare(ms: seq<Measures>, actualValue: int): nat
    requires AllOrdered(ms)
  {
    if FlexCount(ms, |ms|) == 0 then 0
    else RoundedDiv(GrowTarget(ms, actualValue) - BestSum(ms, |ms|) - NonFlexBudget(ms, actualValue),
                    FlexCount(ms, |ms|))
  }

  /** The size the element at `i` is given. */
  function AdjustedSize(ms: seq<Measures>, actualValue: int, i: nat): int
    requires AllOrdered(ms) && i < |ms|
  {
    var n := |ms|;
    RangeIsDifference(ms, n);
    if BestSum(ms, n) <= actualValue
    then GrownSize(ms, SlackSum(ms, n), FlexShare(ms, actualValue), NonFlexBudget(ms, actualValue), i)
    else ShrunkSize(ms[i], Max(MinSum(ms, n), actualValue) - MinSum(ms, n), RangeSum(ms, n))
  }

  function AdjustedSum(ms: seq<Measures>, actualValue: int, i: nat): int
    requires AllOrdered(ms) && i <= |ms|
  {
    if i == 0 then 0 else AdjustedSum(ms, actualValue, i - 1) + AdjustedSize(ms, actualValue, i - 1)
  }

  lemma {:induction false} AdjustedSumIs(ms: seq<Measures>, actualValue: int, i: nat)
    requires AllOrdered(ms) && i <= |ms|
    ensures BestSum(ms, |ms|) <= actualValue ==>
              AdjustedSum(ms, actualValue, i)
              == GrownSum(ms, SlackSum(ms, |ms|), FlexShare(ms, actualValue), NonFlexBudget(ms, actualValue), i)
    ensures actualValue < BestSum(ms, |ms|) ==>
              && MinSum(ms, |ms|) <= BestSum(ms, |ms|)
              && AdjustedSum(ms, actualValue, i) == ShrunkSum(ms, Max(MinSum(ms, |ms|), actualValue) - MinSum(ms, |ms|),
                                                              RangeSum(ms, |ms|), i)
  {
    RangeIsDifference(ms, |ms|);
    if i > 0 { AdjustedSumIs(ms, actualValue, i - 1); }
  }

  /**
   * At or above the best sizes: the elements never take more than the target by more than half a
   * unit per flexible element, and all growth of the others stays within their budget.
   */
  lemma {:induction false} GrowingKeepsTheTarget(ms: seq<Measures>, actualValue: int)
    requires AllOrdered(ms) && BestSum(ms, |ms|) <= actualValue
    ensures var n, budget := |ms|, NonFlexBudget(ms, actualValue);
      var unused := PotAfter(ms, SlackSum(ms, n), FlexShare(ms, actualValue), budget, n).remaining;
      && 0 <= unused <= budget
      && BestSum(ms, n) <= AdjustedSum(ms, actualValue, n)
      && -(FlexCount(ms, n) as int)
           <= 2 * (AdjustedSum(ms, actualValue, n) + unused - GrowTarget(ms, actualValue)) <= FlexCount(ms, n)
  {
    hide *;
    var n, budget := |ms|, NonFlexBudget(ms, actualValue);
    AdjustedSumIs(ms, actualValue, n);
    GrowthIsAccountedFor(ms, SlackSum(ms, n), FlexShare(ms, actualValue), budget, n);
    FlexShareError(ms, actualValue);
  }

  lemma {:induction false} FlexShareError(ms: seq<Measures>, actualValue: int)
    requires AllOrdered(ms)
    ensures var n, flex := |ms|, FlexCount(ms, |ms|) as int;
      -flex <= 2 * (flex * FlexShare(ms, actualValue) + NonFlexBudget(ms, actualValue)
                    + BestSum(ms, n) - GrowTarget(ms, actualValue)) <= flex
  {
    var flex := FlexCount(ms, |ms|);
    var rest: nat := GrowTarget(ms, actualValue) - BestSum(ms, |ms|) - NonFlexBudget(ms, actualValue);
    if flex > 0 {
      assert FlexShare(ms, actualValue) == RoundedDiv(rest, flex);
      hide *;
      RoundedDivError(rest, flex);
      assert RoundedDiv(rest, flex) * flex == flex * RoundedDiv(rest, flex);
    }
  }

  lemma {:induction false} GrownSizesInRange(ms: seq<Measures>, actualValue: int, i: nat)
    requires AllOrdered(ms) && BestSum(ms, |ms|) <= actualValue && i < |ms|
    ensures var size := AdjustedSize(ms, actualValue, i);
      && ms[i].best <= size
      && (!ms[i].IsFlex() && ms[i].incr <= 1 ==> size <= ms[i].max.n)
      && (!ms[i].IsFlex() && ms[i].incr > 1 ==> size < ms[i].max.n + ms[i].incr)
      && (!ms[i].IsFlex() && ms[i].incr > 1 && ms[i].Slack() % ms[i].incr == 0 ==> size <= ms[i].max.n)
  {
    var whole, share, budget := SlackSum(ms, |ms|), FlexShare(ms, actualValue), NonFlexBudget(ms, actualValue);
    ServeStep(ms[i], whole, share, PotAfter(ms, whole, share, budget, i));
  }

  lemma {:induction false} AdjustedSizesAreRight(ms: seq<Measures>, actualValue: int, sizes: seq<int>)
    requires AllOrdered(ms) && BestSum(ms, |ms|) <= actualValue && |sizes| == |ms|
    requires forall j | 0 <= j < |ms| :: sizes[j] == AdjustedSize(ms, actualValue, j)
    ensures AllRight(ms, sizes, SlackSum(ms, |ms|), FlexShare(ms, actualValue), NonFlexBudget(ms, actualValue))
  {
    GrownSizesAreRight(ms, sizes, SlackSum(ms, |ms|), FlexShare(ms, actualValue), NonFlexBudget(ms, actualValue));
  }

  /** What there is beyond the best sizes goes to the elements with a maximum first, and to flexible ones afterwards. */
  lemma {:induction false} FlexibleComeLast(ms: seq<Measures>, actualValue: int)
    requires AllOrdered(ms) && BestSum(ms, |ms|) <= actualValue
    ensures var slack, rest := SlackSum(ms, |ms|), actualValue - BestSum(ms, |ms|);
      && NonFlexBudget(ms, actualValue) == Min(rest, slack)
      && (rest <= slack ==> FlexShare(ms, actualValue) == 0)
      && (slack <= rest && FlexCount(ms, |ms|) > 0 ==>
            FlexShare(ms, actualValue) == RoundedDiv(rest - slack, FlexCount(ms, |ms|)))
  {
    if FlexCount(ms, |ms|) > 0 {
      QuotientIs(FlexCount(ms, |ms|) / 2, FlexCount(ms, |ms|), 0);
    }
  }

  lemma {:induction false} FullShares(ms: seq<Measures>, whole: nat, i: nat)
    requires i <= |ms| && AllOrdered(ms) && 0 < whole
    ensures ShareSum(ms, whole, whole, i) == SlackSum(ms, i)
  {
    if i > 0 {
      FullShares(ms, whole, i - 1);
      ExactShare(ms[i - 1].Slack(), whole);
    }
  }

  lemma {:induction false} SlackUpTo(ms: seq<Measures>, i: nat)
    requires i < |ms| && AllOrdered(ms)
    ensures SlackSum(ms, i) + ms[i].Slack() <= SlackSum(ms, |ms|)
    decreases |ms| - i
  {
    assert SlackSum(ms, i + 1) == SlackSum(ms, i) + ms[i].Slack();
    if i + 1 < |ms| { SlackUpTo(ms, i + 1); }
  }

  /** If there is room for all maxima and no raster, each element with a maximum gets it; the others share the rest. */
  lemma {:induction false} RoomForAllMaxima(ms: seq<Measures>, actualValue: int, i: nat)
    requires AllOrdered(ms) && Unrastered(ms) && i < |ms| && BestSum(ms, |ms|) + SlackSum(ms, |ms|) <= actualValue
    ensures AdjustedSize(ms, actualValue, i)
         == if ms[i].IsFlex() then ms[i].best + FlexShare(ms, actualValue) else ms[i].max.n
  {
    var whole, share := SlackSum(ms, |ms|), FlexShare(ms, actualValue);
    FlexibleComeLast(ms, actualValue);
    SlackUpTo(ms, i);
    if whole > 0 {
      hide FlexShare, NonFlexBudget, RoundedDiv;
      FullShares(ms, whole, i);
      NoneTurnedAwayIff(ms, whole, share, Pot(whole, whole), i);
      ExactShare(ms[i].Slack(), whole);
    }
  }

  /** Some row that contains `m` makes it larger than its maximum. */
  ghost predicate SomeRowExceeds(m: Measures) {
    exists ms: seq<Measures>, actualValue: int, i: nat ::
      && AllOrdered(ms) && BestSum(ms, |ms|) <= actualValue && i < |ms| && ms[i] == m
      && m.max.Bounded? && AdjustedSize(ms, actualValue, i) > m.max.n
  }

  /** One more element that can grow by one step is enough. */
  lemma {:induction false} RowThatExceeds(m: Measures)
    requires m.Ordered() && !m.IsFlex() && m.incr > 1 && m.Slack() % m.incr != 0
    ensures var ms, actualValue := [m, Measures(0, 0, Bounded(m.incr), 1)], m.best + m.Slack() + m.incr;
      && AllOrdered(ms) && BestSum(ms, |ms|) <= actualValue && AdjustedSize(ms, actualValue, 0) > m.max.n
  {
    hide Serve;
    var other := Measures(0, 0, Bounded(m.incr), 1);
    var ms, w := [m, other], m.Slack() + m.incr;
    RasterCanExceed(m);
    assert other.Slack() == m.incr && BestSum(ms, 0) == SlackSum(ms, 0) == FlexCount(ms, 0) == 0;
    assert BestSum(ms, 1) == m.best && SlackSum(ms, 1) == m.Slack() && FlexCount(ms, 1) == 0;
    assert BestSum(ms, 2) == m.best && SlackSum(ms, 2) == w && FlexCount(ms, 2) == 0;
    assert FlexShare(ms, m.best + w) == 0 && NonFlexBudget(ms, m.best + w) == w;
  }

  /** That is so for exactly the rastered elements whose slack is no whole number of steps. */
  lemma {:induction false} SomeRowExceedsIff(m: Measures)
    requires m.Ordered() && !m.IsFlex()
    ensures SomeRowExceeds(m) <==> m.incr > 1 && m.Slack() % m.incr != 0
  {
    hide AdjustedSize, BestSum;
    if m.incr > 1 && m.Slack() % m.incr != 0 {
      RowThatExceeds(m);
    } else if SomeRowExceeds(m) {
      var ms: seq<Measures>, actualValue: int, i: nat :|
        && AllOrdered(ms) && BestSum(ms, |ms|) <= actualValue && i < |ms| && ms[i] == m
        && m.max.Bounded? && AdjustedSize(ms, actualValue, i) > m.max.n;
      GrownSizesInRange(ms, actualValue, i);
      assert false;
    }
  }

  /** Below the best sizes: every size is between minimum and best, and the total is nearly what is asked for. */
  lemma {:induction false} ShrinkingKeepsTheTarget(ms: seq<Measures>, actualValue: int)
    requires AllOrdered(ms) && actualValue < BestSum(ms, |ms|)
    ensures -|ms| <= 2 * (AdjustedSum(ms, actualValue, |ms|) - Max(MinSum(ms, |ms|), actualValue)) <= |ms|
    ensures forall i | 0 <= i < |ms| :: ms[i].min <= AdjustedSize(ms, actualValue, i) <= ms[i].best
  {
    var n := |ms|;
    RangeIsDifference(ms, n);
    AdjustedSumIs(ms, actualValue, n);
    var part := Max(MinSum(ms, n), actualValue) - MinSum(ms, n);
    ShrunkSumIsClose(ms, part);
    forall i | 0 <= i < n ensures ms[i].min <= AdjustedSize(ms, actualValue, i) <= ms[i].best {
      ShrunkSizeInRange(ms[i], part, RangeSum(ms, n));
    }
  }

  method Totals(measures: array<Measures>)
    returns (minValue: int, bestValue: int, maxValue: Size, maxValueWithoutFlex: int, numberFlex: nat)
    requires AllOrdered(measures[..])
    ensures var ms, n := measures[..], measures.Length;
      && minValue == MinSum(ms, n) && bestValue == BestSum(ms, n) && numberFlex == FlexCount(ms, n)
      && maxValueWithoutFlex == BestSum(ms, n) + SlackSum(ms, n)
      && maxValue == if FlexCount(ms, n) > 0 then Unbounded else Bounded(BestSum(ms, n) + SlackSum(ms, n))
  {
    minValue, bestValue, maxValue, maxValueWithoutFlex, numberFlex := 0, 0, Bounded(0), 0, 0;
    ghost var ms := measures[..];
    for i := 0 to measures.Length
      invariant minValue == MinSum(ms, i) && bestValue == BestSum(ms, i) && numberFlex == FlexCount(ms, i)
      invariant maxValueWithoutFlex == BestSum(ms, i) + SlackSum(ms, i)
      invariant maxValue == if FlexCount(ms, i) > 0 then Unbounded else Bounded(BestSum(ms, i) + SlackSum(ms, i))
    {
      var a := measures[i];
      assert a == ms[i] && ms[i].Ordered();
      minValue := minValue + a.min;
      bestValue := bestValue + a.best;
      maxValue := Add(maxValue, a.max);
      if a.max.Unbounded? {
        numberFlex := numberFlex + 1;
        maxValueWithoutFlex := maxValueWithoutFlex + a.best;
      } else {
        maxValueWithoutFlex := maxValueWithoutFlex + a.max.n;
      }
    }
  }

  method ServeElement(a: Measures, whole: nat, flexShare: nat, totalRest: int, remainingRest: int)
    returns (v: int, total: int, remaining: int)
    requires a.Ordered() && 0 <= remainingRest <= totalRest <= whole
    ensures Served(v, Pot(total, remaining)) == Serve(a, whole, flexShare, Pot(totalRest, remainingRest))
  {
    hide RoundedDiv, RoundedUpDiv;
    v, total, remaining := a.best, totalRest, remainingRest;
    if a.max.Unbounded? {
      v := v + flexShare;
    } else if whole > 0 {
      var add := RoundedDiv((a.max.n - a.best) * total, whole);
      if add <= remaining {
        v := v + add;
        remaining := remaining - add;
        if a.incr > 1 {
          var rasteredV := a.best + RoundedUpDiv(v - a.best, a.incr) * a.incr;
          RoundedUpDivIsCeiling(add, a.incr);
          assert rasteredV >= v;
          var diff := rasteredV - v;
          if diff <= remaining {
            v := rasteredV;
            total := total - diff;
            remaining := remaining - diff;
          }
        }
      }
    }
  }

  method Grow(measures: array<Measures>, whole: nat, flexShare: nat, totalNonFlexRestValue: nat)
    requires AllOrdered(measures[..]) && totalNonFlexRestValue <= whole
    modifies measures
    ensures var ms := old(measures[..]);
      forall i | 0 <= i < measures.Length ::
        measures[i] == ms[i].(best := GrownSize(ms, whole, flexShare, totalNonFlexRestValue, i))
  {
    hide Serve;
    ghost var ms, start := measures[..], totalNonFlexRestValue;
    var total, remaining := totalNonFlexRestValue, totalNonFlexRestValue;
    for i := 0 to measures.Length
      invariant Pot(total, remaining) == PotAfter(ms, whole, flexShare, start, i)
      invariant forall j | 0 <= j < i :: measures[j] == ms[j].(best := GrownSize(ms, whole, flexShare, start, j))
      invariant forall j | i <= j < measures.Length :: measures[j] == ms[j]
    {
      var a := measures[i];
      assert a == ms[i] && ms[i].Ordered();
      var v;
      v, total, remaining := ServeElement(a, whole, flexShare, total, remaining);
      measures[i] := a.(best := v);
    }
  }

  method Shrink(measures: array<Measures>, totalRestValue: nat, bestRestValue: nat)
    requires AllOrdered(measures[..])
    modifies measures
    ensures var ms := old(measures[..]);
      forall i | 0 <= i < measures.Length ::
        measures[i] == ms[i].(best := ShrunkSize(ms[i], totalRestValue, bestRestValue))
  {
    ghost var ms := measures[..];
    for i := 0 to measures.Length
      invariant forall j | 0 <= j < i :: measures[j] == ms[j].(best := ShrunkSize(ms[j], totalRestValue, bestRestValue))
      invariant forall j | i <= j < measures.Length :: measures[j] == ms[j]
    {
      var a := measures[i];
      assert a == ms[i] && ms[i].Ordered();
      var v := a.min;
      if bestRestValue > 0 {
        v := v + RoundedDiv((a.best - a.min) * totalRestValue, bestRestValue);
      }
      measures[i] := a.(best := v);
    }
  }

  method Adjust(measures: array<Measures>, actualValue: int)
    requires AllOrdered(measures[..])
    modifies measures
    ensures var ms := old(measures[..]);
      && (forall i | 0 <= i < measures.Length :: measures[i] == ms[i].(best := AdjustedSize(ms, actualValue, i)))
      && BestSum(measures[..], measures.Length) == AdjustedSum(ms, actualValue, measures.Length)
    ensures var ms, n, sum := old(measures[..]), measures.Length, BestSum(measures[..], measures.Length);
      && (BestSum(ms, n) <= actualValue ==> 2 * (sum - GrowTarget(ms, actualValue)) <= FlexCount(ms, n))
      && (actualValue < BestSum(ms, n) ==> -n <= 2 * (sum - Max(MinSum(ms, n), actualValue)) <= n)
  {
    hide GrownSize, ShrunkSize, AdjustedSum;
    ghost var ms, n := measures[..], measures.Length;
    var minValue, bestValue, maxValue, maxValueWithoutFlex, numberFlex := Totals(measures);
    RangeIsDifference(ms, n);
    var isBest := bestValue <= actualValue;
    var targetMinValue := if isBest then bestValue else minValue;
    var targetValue := if targetMinValue < actualValue then actualValue else targetMinValue;
    if maxValue.Bounded? && targetValue > maxValue.n {
      targetValue := maxValue.n;
    }
    assert targetMinValue <= targetValue;
    var totalRestValue := targetValue - targetMinValue;
    if isBest {
      assert targetValue == GrowTarget(ms, actualValue);
      var totalFlexRestValue, totalNonFlexRestValue := 0, totalRestValue;
      if maxValueWithoutFlex < targetValue {
        totalFlexRestValue := targetValue - maxValueWithoutFlex;
        totalNonFlexRestValue := maxValueWithoutFlex - targetMinValue;
      }
      assert totalFlexRestValue + totalNonFlexRestValue == totalRestValue;
      var singleFlexRestValue := if numberFlex > 0 then RoundedDiv(totalFlexRestValue, numberFlex) else 0;
      Grow(measures, maxValueWithoutFlex - bestValue, singleFlexRestValue, totalNonFlexRestValue);
    } else {
      Shrink(measures, totalRestValue, bestValue - minValue);
    }
    SumOfAdjusted(ms, actualValue, measures[..], n);
    if isBest {
      GrowingKeepsTheTarget(ms, actualValue);
    } else {
      ShrinkingKeepsTheTarget(ms, actualValue);
    }
  }

  method AdjustThree() returns (sizes: seq<int>)
    ensures sizes == [60, 23, 0]
  {
    var measures := new Measures[3];
    measures[0], measures[1] := Measures(0, 0, Bounded(100), 30), Measures(0, 0, Bounded(50), 1);
    measures[2] := Measures(0, 0, Bounded(100), 1);
    assert measures[..] == [Measures(0, 0, Bounded(100), 30), Measures(0, 0, Bounded(50), 1),
                            Measures(0, 0, Bounded(100), 1)];
    RasterLowersTheTotal();
    hide AdjustedSize, AdjustedSum, BestSum, GrowTarget, MinSum;
    Adjust(measures, 125);
    sizes := [measures[0].best, measures[1].best, measures[2].best];
  }

  lemma {:induction false} SumOfAdjusted(ms: seq<Measures>, actualValue: int, adjusted: seq<Measures>, i: nat)
    requires AllOrdered(ms) && |adjusted| == |ms| && i <= |ms|
    requires forall j | 0 <= j < |ms| :: adjusted[j] == ms[j].(best := AdjustedSize(ms, actualValue, j))
    ensures BestSum(adjusted, i) == AdjustedSum(ms, actualValue, i)
  {
    hide AdjustedSize;
    if i > 0 { SumOfAdjusted(ms, actualValue, adjusted, i - 1); }
  }

  // ----- the wishes of a row or column as a whole

  /** A child's wishes in the direction of the layout and across it. */
  datatype Child = Child(visible: bool, wish: Measures, coWish: Measures)

  function VisibleBest(cs: seq<Child>, i: nat): int
    requires i <= |cs|
  {
    if i == 0 then 0 else VisibleBest(cs, i - 1) + if cs[i - 1].visible then cs[i - 1].wish.best else 0
  }

  function VisibleMax(cs: seq<Child>, i: nat): Size
    requires i <= |cs|
  {
    if i == 0 then Bounded(0)
    else if cs[i - 1].visible then Add(VisibleMax(cs, i - 1), cs[i - 1].wish.max) else VisibleMax(cs, i - 1)
  }

  /** Hidden elements count, too. */
  function AllMin(cs: seq<Child>, i: nat): int
    requires i <= |cs|
  {
    if i == 0 then 0 else AllMin(cs, i - 1) + cs[i - 1].wish.min
  }

  predicate IsRastered(c: Child) { c.visible && c.wish.incr > 1 }

  function RasterCount(cs: seq<Child>, i: nat): nat
    requires i <= |cs|
  {
    if i == 0 then 0 else RasterCount(cs, i - 1) + if IsRastered(cs[i - 1]) then 1 else 0
  }

  function FirstRaster(cs: seq<Child>, i: nat): (incr: nat)
    requires i <= |cs|
    ensures 1 <= incr && (RasterCount(cs, i) == 0 ==> incr == 1)
  {
    if i == 0 then 1
    else if IsRastered(cs[i - 1]) && RasterCount(cs, i - 1) == 0 then cs[i - 1].wish.incr
    else FirstRaster(cs, i - 1)
  }

  /** The wishes of the first `i` elements, or of the visible ones among them. */
  function Wishes(cs: seq<Child>, i: nat, hidden: bool): seq<Measures>
    requires i <= |cs|
  {
    if i == 0 then []
    else Wishes(cs, i - 1, hidden) + if hidden || cs[i - 1].visible then [cs[i - 1].wish] else []
  }

  lemma {:induction false} OneMoreWish(ms: seq<Measures>, m: Measures, i: nat)
    requires i <= |ms|
    ensures BestSum(ms + [m], i) == BestSum(ms, i) && MinSum(ms + [m], i) == MinSum(ms, i)
    ensures FlexCount(ms + [m], i) == FlexCount(ms, i)
    ensures AllOrdered(ms + [m]) ==> AllOrdered(ms) && SlackSum(ms + [m], i) == SlackSum(ms, i)
  {
    assert AllOrdered(ms + [m]) ==> forall j | 0 <= j < |ms| :: (ms + [m])[j] == ms[j] && ms[j].Ordered();
    if i > 0 {
      OneMoreWish(ms, m, i - 1);
    }
  }

  /** Hidden elements count for the minimum only; one visible element without a maximum is enough for all. */
  lemma {:induction false} WishesAddUp(cs: seq<Child>, i: nat)
    requires i <= |cs| && AllOrdered(Wishes(cs, i, false))
    ensures var seen, all := Wishes(cs, i, false), Wishes(cs, i, true);
      && VisibleBest(cs, i) == BestSum(seen, |seen|) && AllMin(cs, i) == MinSum(all, |all|)
      && VisibleMax(cs, i)
         == if FlexCount(seen, |seen|) > 0 then Unbounded else Bounded(BestSum(seen, |seen|) + SlackSum(seen, |seen|))
  {
    if i > 0 {
      var seen, all, m := Wishes(cs, i - 1, false), Wishes(cs, i - 1, true), cs[i - 1].wish;
      OneMoreWish(all, m, |all|);
      assert Wishes(cs, i, true) == all + [m] && (all + [m])[|all|] == m;
      if cs[i - 1].visible {
        OneMoreWish(seen, m, |seen|);
        assert Wishes(cs, i, false) == seen + [m] && (seen + [m])[|seen|] == m;
      } else {
        assert Wishes(cs, i, false) == seen;
      }
      WishesAddUp(cs, i - 1);
    }
  }

  /** The step of the one visible element that has a raster counts, wherever it stands, and none if there are more. */
  lemma {:induction false} OnlyRasterCounts(cs: seq<Child>, i: nat, k: nat)
    requires k < i <= |cs| && cs[k].visible && 1 < cs[k].wish.incr
    ensures (forall j | 0 <= j < i && j != k :: !(cs[j].visible && 1 < cs[j].wish.incr)) ==>
              RasterCount(cs, i) == 1 && FirstRaster(cs, i) == cs[k].wish.incr
    ensures RasterCount(cs, i) == 1 ==> forall j | 0 <= j < i && j != k :: !(cs[j].visible && 1 < cs[j].wish.incr)
    ensures 1 <= RasterCount(cs, i)
  {
    if k < i - 1 {
      OnlyRasterCounts(cs, i - 1, k);
    } else {
      NoRaster(cs, k);
    }
  }

  lemma {:induction false} NoRaster(cs: seq<Child>, i: nat)
    requires i <= |cs|
    ensures RasterCount(cs, i) == 0 <==> forall j | 0 <= j < i :: !(cs[j].visible && 1 < cs[j].wish.incr)
  {
    if i > 0 {
      NoRaster(cs, i - 1);
    }
  }

  function CoBest(cs: seq<Child>, i: nat): int
    requires i <= |cs|
  {
    if i == 0 then 0
    else if cs[i - 1].visible then Max(CoBest(cs, i - 1), cs[i - 1].coWish.best) else CoBest(cs, i - 1)
  }

  function CoMin(cs: seq<Child>, i: nat): int
    requires i <= |cs|
  {
    if i == 0 then 0 else Max(CoMin(cs, i - 1), cs[i - 1].coWish.min)
  }

  function Smaller(a: Size, b: Size): Size {
    if a.Unbounded? then b else if b.Unbounded? then a else Bounded(Min(a.n, b.n))
  }

  function CoMax(cs: seq<Child>, i: nat): Size
    requires i <= |cs|
  {
    if i == 0 then Unbounded
    else if cs[i - 1].visible then Smaller(CoMax(cs, i - 1), cs[i - 1].coWish.max) else CoMax(cs, i - 1)
  }

  function CoIncr(cs: seq<Child>, i: nat): (incr: nat)
    requires i <= |cs|
    ensures 1 <= incr
  {
    if i == 0 then 1
    else if cs[i - 1].visible then Max(CoIncr(cs, i - 1), cs[i - 1].coWish.incr) else CoIncr(cs, i - 1)
  }

  /** Across the layout the elements stand side by side: the most demanding counts, hidden ones for the minimum only. */
  lemma {:induction false} MostDemandingCounts(cs: seq<Child>, i: nat)
    requires i <= |cs|
    ensures 0 <= CoBest(cs, i) && forall j | 0 <= j < i && cs[j].visible :: cs[j].coWish.best <= CoBest(cs, i)
    ensures CoBest(cs, i) == 0 || exists j | 0 <= j < i && cs[j].visible :: cs[j].coWish.best == CoBest(cs, i)
    ensures 0 <= CoMin(cs, i) && forall j | 0 <= j < i :: cs[j].coWish.min <= CoMin(cs, i)
    ensures CoMin(cs, i) == 0 || exists j | 0 <= j < i :: cs[j].coWish.min == CoMin(cs, i)
  {
    if i > 0 {
      MostDemandingCounts(cs, i - 1);
    }
  }

  lemma {:induction false} LargestStepCounts(cs: seq<Child>, i: nat)
    requires i <= |cs|
    ensures forall j | 0 <= j < i && cs[j].visible :: cs[j].coWish.incr <= CoIncr(cs, i)
    ensures CoIncr(cs, i) == 1 || exists j | 0 <= j < i && cs[j].visible :: cs[j].coWish.incr == CoIncr(cs, i)
  {
    if i > 0 {
      LargestStepCounts(cs, i - 1);
    }
  }

  lemma {:induction false} SmallestMaximumCounts(cs: seq<Child>, i: nat)
    requires i <= |cs|
    ensures forall j | 0 <= j < i && cs[j].visible && cs[j].coWish.max.Bounded? ::
              CoMax(cs, i).Bounded? && CoMax(cs, i).n <= cs[j].coWish.max.n
    ensures CoMax(cs, i).Bounded? ==> exists j | 0 <= j < i && cs[j].visible :: cs[j].coWish.max == CoMax(cs, i)
  {
    if i > 0 {
      SmallestMaximumCounts(cs, i - 1);
    }
  }

  method SumUpAcross(cs: seq<Child>) returns (bestCoValue: int, minCoValue: int, maxCoValue: Size, incrCoValue: nat)
    ensures bestCoValue == CoBest(cs, |cs|) && minCoValue == CoMin(cs, |cs|)
    ensures maxCoValue == CoMax(cs, |cs|) && incrCoValue == CoIncr(cs, |cs|)
  {
    bestCoValue, minCoValue, maxCoValue, incrCoValue := 0, 0, Unbounded, 1;
    for i := 0 to |cs|
      invariant bestCoValue == CoBest(cs, i) && minCoValue == CoMin(cs, i)
      invariant maxCoValue == CoMax(cs, i) && incrCoValue == CoIncr(cs, i)
    {
      var m := cs[i].coWish;
      if cs[i].visible {
        maxCoValue := Smaller(maxCoValue, m.max);
        bestCoValue := Max(bestCoValue, m.best);
        incrCoValue := Max(incrCoValue, m.incr);
      }
      minCoValue := Max(minCoValue, m.min);
    }
  }

  method SumUp(cs: seq<Child>)
    returns (bestValue: int, minValue: int, maxValue: Size, incrValue: nat, numberOfRasteredValues: nat)
    ensures bestValue == VisibleBest(cs, |cs|) && minValue == AllMin(cs, |cs|) && maxValue == VisibleMax(cs, |cs|)
    ensures numberOfRasteredValues == RasterCount(cs, |cs|) && incrValue == FirstRaster(cs, |cs|)
  {
    bestValue, minValue, maxValue, incrValue, numberOfRasteredValues := 0, 0, Bounded(0), 1, 0;
    for i := 0 to |cs|
      invariant bestValue == VisibleBest(cs, i) && minValue == AllMin(cs, i) && maxValue == VisibleMax(cs, i)
      invariant numberOfRasteredValues == RasterCount(cs, i) && incrValue == FirstRaster(cs, i)
    {
      var m := cs[i].wish;
      if cs[i].visible {
        maxValue := Add(maxValue, m.max);
        bestValue := bestValue + m.best;
        if m.incr > 1 {
          numberOfRasteredValues := numberOfRasteredValues + 1;
          if numberOfRasteredValues == 1 {
            incrValue := m.incr;
          }
        }
      }
      minValue := minValue + m.min;
    }
  }

  /** A maximum that is raised to `best` where it is less. */
  function AtLeast(max: Size, best: int): Size {
    if max.Bounded? then Bounded(Max(max.n, best)) else Unbounded
  }

  /**
   * A wish put together from sums or extremes: the largest extent gives way to the best one, the best to the smallest,
   * and the smallest is rounded up so that the range is a whole number of steps.
   */
  method Combine(minValue: int, bestValue: int, maxValue: Size, incrValue: nat) returns (rslt: Measures)
    requires 1 <= incrValue
    ensures rslt.Ordered()
    ensures rslt.best == Max(bestValue, minValue) && rslt.incr == incrValue
    ensures rslt.max == AtLeast(maxValue, rslt.best)
    ensures (rslt.best - rslt.min) % rslt.incr == 0
    ensures minValue <= rslt.min < minValue + rslt.incr
  {
    var best, max := bestValue, maxValue;
    if best < minValue {
      best := minValue;
    }
    if max.Bounded? && max.n < best {
      max := Bounded(best);
    }
    StepsBack(best - minValue, incrValue);
    rslt := Measures(best - (best - minValue) / incrValue * incrValue, best, max, incrValue);
  }

  /** The combined wish can be handed to the next layouter: it is ordered, and its range is a whole number of steps. */
  method GetDesiredMeasures(cs: seq<Child>) returns (rslt: Measures, coRslt: Measures)
    ensures rslt.Ordered() && coRslt.Ordered()
    ensures rslt.best == Max(VisibleBest(cs, |cs|), AllMin(cs, |cs|))
    ensures coRslt.best == Max(CoBest(cs, |cs|), CoMin(cs, |cs|))
    ensures rslt.max == AtLeast(VisibleMax(cs, |cs|), rslt.best)
    ensures coRslt.max == AtLeast(CoMax(cs, |cs|), coRslt.best)
    ensures rslt.incr == if RasterCount(cs, |cs|) == 1 then FirstRaster(cs, |cs|) else 1
    ensures forall k | 0 <= k < |cs| && cs[k].visible && 1 < cs[k].wish.incr ::
              if forall j | 0 <= j < |cs| && j != k :: !(cs[j].visible && 1 < cs[j].wish.incr)
              then rslt.incr == cs[k].wish.incr else rslt.incr == 1
    ensures coRslt.incr == CoIncr(cs, |cs|)
    ensures (rslt.best - rslt.min) % rslt.incr == 0 && (coRslt.best - coRslt.min) % coRslt.incr == 0
    ensures AllMin(cs, |cs|) <= rslt.min < AllMin(cs, |cs|) + rslt.incr
    ensures CoMin(cs, |cs|) <= coRslt.min < CoMin(cs, |cs|) + coRslt.incr
  {
    var bestValue, minValue, maxValue, incrValue, numberOfRasteredValues := SumUp(cs);
    var bestCoValue, minCoValue, maxCoValue, incrCoValue := SumUpAcross(cs);
    if numberOfRasteredValues > 1 {
      incrValue := 1;
    }
    forall k | 0 <= k < |cs| && cs[k].visible && 1 < cs[k].wish.incr
      ensures if forall j | 0 <= j < |cs| && j != k :: !(cs[j].visible && 1 < cs[j].wish.incr)
              then incrValue == cs[k].wish.incr else incrValue == 1
    {
      OnlyRasterCounts(cs, |cs|, k);
    }
    rslt := Combine(minValue, bestValue, maxValue, incrValue);
    coRslt := Combine(minCoValue, bestCoValue, maxCoValue, incrCoValue);
  }

  lemma {:induction false} StepsBack(range: nat, incr: nat)
    requires 1 <= incr
    ensures var steps := range / incr;
      0 <= range - steps * incr < incr && steps * incr <= range && (steps * incr) % incr == 0
  {
    QuotientIs(range / incr * incr, incr, range / incr);
  }
}
