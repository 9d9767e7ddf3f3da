// The budget counter (internal/budget/counter.go): fixed windows opened on demand, one per actor,
// capability and limit type. Amounts are reals, times are nanoseconds.
module Budget {
  import opened Basics

  datatype LimitType =
    | SpendPerHour | SpendPerDay | EmailSendsPerHour | SlackMessagesPerHour
    | DnsMutationsPerDay | AwsActionCount | StripeRefundAmount | DownloadBytes

  /** The order in which relevantKeys looks at the limits. */
  const LIMIT_TYPES: seq<LimitType> := [
    SpendPerHour, SpendPerDay, EmailSendsPerHour, SlackMessagesPerHour,
    DnsMutationsPerDay, AwsActionCount, StripeRefundAmount, DownloadBytes]

  const HOUR: int := 3_600_000_000_000
  const DAY: int := 24 * HOUR

  datatype Policy = Policy(
    spendPerHour: real, spendPerDay: real, emailSendsPerHour: int, slackMessagesPerHour: int,
    dnsMutationsPerDay: int, awsActionCount: int, stripeRefundAmount: real, downloadBytesLimit: int)

  function Limit(p: Policy, t: LimitType): (limit: real)
  {
    match t
    case SpendPerHour => p.spendPerHour
    case SpendPerDay => p.spendPerDay
    case EmailSendsPerHour => p.emailSendsPerHour as real
    case SlackMessagesPerHour => p.slackMessagesPerHour as real
    case DnsMutationsPerDay => p.dnsMutationsPerDay as real
    case AwsActionCount => p.awsActionCount as real
    case StripeRefundAmount => p.stripeRefundAmount
    case DownloadBytes => p.downloadBytesLimit as real
  }

  function WindowOf(t: LimitType): (window: int)
    ensures window > 0
  {
    match t
    case SpendPerHour => HOUR
    case EmailSendsPerHour => HOUR
    case SlackMessagesPerHour => HOUR
    case _ => DAY
  }

  /** The policy sets this limit for windows of this length. */
  ghost predicate Configured(p: Policy, limit: real, window: int) {
    && limit > 0.0
    && (|| (limit == p.spendPerHour && window == HOUR)
        || (limit == p.spendPerDay && window == 24 * HOUR)
        || (limit == p.emailSendsPerHour as real && window == HOUR)
        || (limit == p.slackMessagesPerHour as real && window == HOUR)
        || (limit == p.dnsMutationsPerDay as real && window == 24 * HOUR)
        || (limit == p.awsActionCount as real && window == 24 * HOUR)
        || (limit == p.stripeRefundAmount && window == 24 * HOUR)
        || (limit == p.downloadBytesLimit as real && window == 24 * HOUR))
  }

  lemma ConfiguredLimit(p: Policy, t: LimitType)
    requires Limit(p, t) > 0.0
    ensures Configured(p, Limit(p, t), WindowOf(t))
  {
  }

  lemma LimitConfigured(p: Policy, limit: real, window: int) returns (t: LimitType)
    requires Configured(p, limit, window)
    ensures Limit(p, t) == limit && WindowOf(t) == window
  {
    t :| Limit(p, t) == limit && WindowOf(t) == window;
  }

  datatype Who = Who(actor: string, capability: string)

  datatype BudgetKey = BudgetKey(who: Who, limitType: LimitType)

  datatype RelevantKey = RelevantKey(key: BudgetKey, limit: real, window: int)

  /** windowBucket. */
  datatype Bucket = Bucket(total: real, windowEnd: int, duration: int, limit: real)
  {
    /** isExpired. */
    predicate IsExpired(now: int) {
      now > windowEnd
    }
  }

  predicate Fresh(b: Option<Bucket>, now: int) {
    b.None? || b.value.IsExpired(now)
  }

  /** The check of one limit; a fresh window is not compared with it. */
  predicate Fits(b: Option<Bucket>, limit: real, now: int, amount: real) {
    Fresh(b, now) || b.value.total + amount <= limit
  }

  /** The record of one amount. */
  function Bump(b: Option<Bucket>, limit: real, window: int, now: int, amount: real): (after: Bucket)
  {
    if Fresh(b, now) then Bucket(amount, now + window, window, limit) else b.value.(total := b.value.total + amount)
  }

  /** An amount recorded for some actor and capability. */
  datatype Entry = Entry(at: int, amount: real)

  /** The bucket that a history of records leaves behind, were buckets never evicted. */
  function Track(h: seq<Entry>, limit: real, window: int): (b: Option<Bucket>)
  {
    if h == [] then None
    else Some(Bump(Track(h[..|h| - 1], limit, window), limit, window, h[|h| - 1].at, h[|h| - 1].amount))
  }

  /** Every record passed the check when it was made. */
  ghost predicate Lawful(h: seq<Entry>, limit: real, window: int) {
    h == [] ||
    var n := |h| - 1;
    Lawful(h[..n], limit, window) && Fits(Track(h[..n], limit, window), limit, h[n].at, h[n].amount)
  }

  ghost predicate InOrder(h: seq<Entry>) {
    forall i, j :: 0 <= i < j < |h| ==> h[i].at <= h[j].at
  }

  ghost predicate AmountsWithin(h: seq<Entry>, limit: real) {
    forall i :: 0 <= i < |h| ==> 0.0 <= h[i].amount <= limit
  }

  /** The total recorded from lo to hi, both included. */
  function SumIn(h: seq<Entry>, lo: int, hi: int): (sum: real)
  {
    if h == [] then 0.0
    else
      var last := h[|h| - 1];
      SumIn(h[..|h| - 1], lo, hi) + if lo <= last.at <= hi then last.amount else 0.0
  }

  lemma {:induction false} SumSplit(h: seq<Entry>, limit: real, lo: int, hi: int, from: int, cut: int)
    requires AmountsWithin(h, limit) && from <= lo
    ensures 0.0 <= SumIn(h, lo, hi) <= SumIn(h, from, cut - 1) + SumIn(h, cut, hi)
  {
    if h != [] {
      SumSplit(h[..|h| - 1], limit, lo, hi, from, cut);
    }
  }

  lemma {:induction false} SumNone(h: seq<Entry>, lo: int, hi: int)
    requires forall i :: 0 <= i < |h| ==> h[i].at < lo
    ensures SumIn(h, lo, hi) == 0.0
  {
    if h != [] {
      SumNone(h[..|h| - 1], lo, hi);
    }
  }

  /** When the current window was opened. */
  function OpenedAt(h: seq<Entry>, limit: real, window: int): (start: int)
    requires h != []
  {
    Track(h, limit, window).value.windowEnd - window
  }

  /** The last record is in the current window. */
  lemma {:induction false} LastInWindow(h: seq<Entry>, limit: real, window: int)
    requires h != [] && window > 0 && InOrder(h)
    ensures OpenedAt(h, limit, window) <= h[|h| - 1].at <= Track(h, limit, window).value.windowEnd
  {
    var n := |h| - 1;
    var prev := Track(h[..n], limit, window);
    assert Track(h, limit, window) == Some(Bump(prev, limit, window, h[n].at, h[n].amount));
    if n > 0 {
      LastInWindow(h[..n], limit, window);
      assert h[n - 1].at <= h[n].at;
    }
  }

  /** A bucket's total is what was recorded since its window opened. */
  lemma {:induction false} TotalIsSum(h: seq<Entry>, limit: real, window: int, hi: int)
    requires h != [] && window > 0 && InOrder(h) && hi >= h[|h| - 1].at
    ensures Track(h, limit, window).value.total == SumIn(h, OpenedAt(h, limit, window), hi)
  {
    var n := |h| - 1;
    LastInWindow(h, limit, window);
    if Fresh(Track(h[..n], limit, window), h[n].at) {
      if n > 0 {
        LastInWindow(h[..n], limit, window);
      }
      forall i | 0 <= i < n ensures h[i].at < h[n].at {
        assert h[i].at <= h[n - 1].at;
      }
      SumNone(h[..n], h[n].at, hi);
    } else {
      assert h[n - 1].at <= h[n].at;
      TotalIsSum(h[..n], limit, window, hi);
    }
  }

  /** The amount that opened the current window. */
  function Opening(h: seq<Entry>, limit: real, window: int): (amount: real)
    requires h != []
  {
    var n := |h| - 1;
    if n == 0 || Fresh(Track(h[..n], limit, window), h[n].at) then h[n].amount else Opening(h[..n], limit, window)
  }

  /** A window's total never passes the limit, or the amount that opened it if that is more. */
  lemma {:induction false} WindowTotal(h: seq<Entry>, limit: real, window: int)
    requires h != [] && Lawful(h, limit, window)
    ensures var opening := Opening(h, limit, window);
            Track(h, limit, window).value.total <= if opening > limit then opening else limit
  {
  }

  /** With no negative amounts, a window is over its limit exactly when the amount that opened it was. */
  lemma {:induction false} OverLimitIff(h: seq<Entry>, limit: real, window: int)
    requires h != [] && Lawful(h, limit, window) && forall i :: 0 <= i < |h| ==> h[i].amount >= 0.0
    ensures Track(h, limit, window).value.total >= Opening(h, limit, window)
    ensures Track(h, limit, window).value.total > limit <==> Opening(h, limit, window) > limit
  {
    var n := |h| - 1;
    WindowTotal(h, limit, window);
    if n > 0 && !Fresh(Track(h[..n], limit, window), h[n].at) {
      OverLimitIff(h[..n], limit, window);
    }
  }

  /** An amount over the limit passes the check when it opens a window, so a window can be over its limit. */
  lemma WindowOverLimit(limit: real, window: int)
    ensures var h := [Entry(0, limit + 1.0)];
            Lawful(h, limit, window) && Track(h, limit, window).value.total > limit
  {
    var h := [Entry(0, limit + 1.0)];
    assert h[..0] == [];
    assert Track([], limit, window).None? && Lawful([], limit, window);
  }

  /** The total recorded in the closed interval of one window length from t. */
  function Sliding(h: seq<Entry>, t: int, window: int): (sum: real)
  {
    SumIn(h, t, t + window)
  }

  /** At most the limit was recorded within a window length before the current window. */
  ghost predicate QuietBefore(h: seq<Entry>, limit: real, window: int)
    requires h != []
  {
    var o := OpenedAt(h, limit, window);
    SumIn(h, o - window, o - 1) <= limit
  }

  lemma TotalWithinLimit(h: seq<Entry>, limit: real, window: int)
    requires h != [] && Lawful(h, limit, window) && AmountsWithin(h, limit)
    ensures Track(h, limit, window).value.total <= limit
  {
  }

  lemma {:induction false} QuietBeforeWindow(h: seq<Entry>, limit: real, window: int)
    requires h != [] && window > 0 && InOrder(h) && AmountsWithin(h, limit) && Lawful(h, limit, window)
    ensures QuietBefore(h, limit, window)
  {
    var n := |h| - 1;
    var prev := h[..n];
    LastInWindow(h, limit, window);
    if n == 0 {
      SumNone(prev, h[n].at - window, h[n].at - 1);
    } else if Fresh(Track(prev, limit, window), h[n].at) {
      var o := OpenedAt(prev, limit, window);
      TotalWithinLimit(prev, limit, window);
      TotalIsSum(prev, limit, window, h[n].at);
      SumMonotone(prev, limit, h[n].at - window, h[n].at - 1, o, h[n].at);
    } else {
      QuietBeforeWindow(prev, limit, window);
    }
  }

  lemma {:induction false} SumMonotone(h: seq<Entry>, limit: real, lo: int, hi: int, from: int, upTo: int)
    requires AmountsWithin(h, limit) && from <= lo && hi <= upTo
    ensures 0.0 <= SumIn(h, lo, hi) <= SumIn(h, from, upTo)
  {
    if h != [] {
      SumMonotone(h[..|h| - 1], limit, lo, hi, from, upTo);
    }
  }

  /**
   * Checked records made in clock order, each within the limit, come to at most twice the limit in any closed
   * interval of one window length.
   */
  lemma {:induction false} TwiceTheLimit(h: seq<Entry>, limit: real, window: int, t: int)
    requires limit >= 0.0 && window > 0 && InOrder(h) && AmountsWithin(h, limit) && Lawful(h, limit, window)
    ensures Sliding(h, t, window) <= 2.0 * limit
  {
    if h != [] {
      var n := |h| - 1;
      var last := h[n].at;
      var o := OpenedAt(h, limit, window);
      if t + window < last {
        TwiceTheLimit(h[..n], limit, window, t);
      } else {
        LastInWindow(h, limit, window);
        TotalIsSum(h, limit, window, t + window);
        TotalWithinLimit(h, limit, window);
        QuietBeforeWindow(h, limit, window);
        SumSplit(h, limit, t, t + window, o - window, o);
      }
    }
  }

  /** The bound is attained. */
  lemma TwiceTheLimitAttained(limit: real, window: int)
    requires limit > 0.0 && window > 0
    ensures exists h, t ::
              InOrder(h) && AmountsWithin(h, limit) && Lawful(h, limit, window) && Sliding(h, t, window) == 2.0 * limit
  {
    var h0 := [Entry(0, 0.0)];
    var h1 := h0 + [Entry(window, limit)];
    var h2 := h1 + [Entry(window + 1, limit)];
    assert h0[..0] == [] && h1[..1] == h0 && h2[..2] == h1;
    assert Track(h0, limit, window) == Some(Bucket(0.0, window, window, limit));
    assert Track(h1, limit, window) == Some(Bucket(limit, window, window, limit));
    assert Lawful([], limit, window) && Track([], limit, window).None?;
    assert Lawful(h0[..0], limit, window);
    assert Lawful(h0, limit, window);
    assert Lawful(h1, limit, window);
    assert Lawful(h2, limit, window);
    assert SumIn(h0, window, window + window) == 0.0;
    assert SumIn(h1, window, window + window) == limit;
    assert Sliding(h2, window, window) == 2.0 * limit;
  }
}
