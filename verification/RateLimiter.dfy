/**
 The asynchronous token-bucket limiter.

 Time is nanoseconds chosen by the environment: `wait` is how long the limiter was
 idle before a call, and a requested sleep of `s` takes `s + overshoot`.

 The documentation describes a token bucket: tokens accumulate at `rate` up to a
 burst, and a call waits until enough have accumulated. That means at most
 `burst + rate * t` bytes in time `t`. The code does not keep this, because the
 replenish that follows a sleep credits the time that was slept to pay for the
 bytes already granted, and because the sleep is rounded down. A list of requests
 keeps the bound under every timing exactly when it fits one burst, or goes beyond
 it only once, at its end, by an amount that is paid to the nanosecond
 (`BytesKeptIff`). If the tokens in hand count with the bytes granted, as what could
 be taken at once, it must fit one burst (`RunKeptIff`). What every run keeps is
 `LedgerBound`; `SustainedDoubleRate` and `UnlimitedAboveNanos` show that its extra
 terms are needed.
 */
module RateLimiter {
  import opened Prelude

  const NANOS := 1_000_000_000

  /** The fields that matter besides the clock reading: `burst` equals `rate` in every reachable state. */
  datatype Bucket = Bucket(rate: nat, burst: nat, tokens: nat)

  ghost predicate Sound(b: Bucket) {
    0 < b.rate <= U64_MAX && b.burst == b.rate && b.tokens <= b.burst
  }

  function New(rate: nat): Bucket {
    Bucket(rate, rate, rate)
  }

  function Earned(rate: nat, elapsed: nat): nat {
    elapsed * rate / NANOS
  }

  function SaturatingAdd(a: nat, b: nat): nat {
    Min(a + b, U64_MAX)
  }

  function Replenish(b: Bucket, elapsed: nat): Bucket {
    b.(tokens := Min(SaturatingAdd(b.tokens, Min(Earned(b.rate, elapsed), U64_MAX)), b.burst))
  }

  /** The sleep for a shortfall, before and after the cast to 64 bits. */
  function SleepNanos(deficit: nat, rate: nat): nat
    requires 0 < rate
  {
    deficit * NANOS / rate
  }

  function Truncated(n: nat): nat {
    n % (U64_MAX + 1)
  }

  /** What the cast cuts off. */
  function CutOff(n: nat): nat {
    n - Truncated(n)
  }

  predicate Sleeps(b: Bucket, bytes: nat, wait: nat) {
    Replenish(b, wait).tokens < bytes
  }

  function Requested(b: Bucket, bytes: nat, wait: nat): nat
    requires 0 < b.rate && Sleeps(b, bytes, wait)
  {
    SleepNanos(bytes - Replenish(b, wait).tokens, b.rate)
  }

  function Consume(b: Bucket, bytes: nat, wait: nat, overshoot: nat): Bucket
    requires 0 < b.rate
  {
    var now := Replenish(b, wait);
    if bytes == 0 then now
    else if now.tokens >= bytes then now.(tokens := now.tokens - bytes)
    else Replenish(now.(tokens := 0), Truncated(Requested(b, bytes, wait)) + overshoot)
  }

  function Reset(b: Bucket): Bucket {
    b.(tokens := b.burst)
  }

  function SetRate(b: Bucket, rate: nat, wait: nat): Bucket {
    Bucket(rate, rate, Min(Replenish(b, wait).tokens, rate))
  }

  // ------------------------------------------------------------ the object

  /** Tokens after `time` nanoseconds without a call: what was held and what was earned, up to the burst. */
  function AfterIdle(tokens: nat, burst: nat, rate: nat, time: nat): nat {
    var held := tokens + time * rate / 1_000_000_000;
    if held <= burst then held else burst
  }

  lemma ReplenishIsIdle(b: Bucket, time: nat)
    requires Sound(b)
    ensures Replenish(b, time) == b.(tokens := AfterIdle(b.tokens, b.burst, b.rate, time))
  {
    ReplenishExact(b, time);
  }

  class AsyncRateLimiter {
    var rate: nat
    var burst: nat
    var tokens: nat
    var lastReplenish: nat

    ghost function View(): Bucket
      reads this
    {
      Bucket(rate, burst, tokens)
    }

    ghost predicate Valid()
      reads this
    {
      Sound(View())
    }

    constructor (bytesPerSecond: nat, now: nat)
      requires 0 < bytesPerSecond <= U64_MAX
      ensures Valid() && View() == New(bytesPerSecond) && lastReplenish == now
      ensures tokens == burst == rate == bytesPerSecond
    {
      rate, burst, tokens, lastReplenish := bytesPerSecond, bytesPerSecond, bytesPerSecond, now;
    }

    method ReplenishNow(now: nat)
      requires Valid() && lastReplenish <= now
      modifies this
      ensures Valid() && lastReplenish == now
      ensures View() == Replenish(old(View()), now - old(lastReplenish))
      ensures rate == old(rate) && burst == old(burst)
      ensures tokens == AfterIdle(old(tokens), burst, rate, now - old(lastReplenish))
    {
      ReplenishIsIdle(View(), now - lastReplenish);
      var elapsed := now - lastReplenish;
      lastReplenish := now;
      var earned := elapsed * rate / NANOS;
      earned := if earned <= U64_MAX then earned else U64_MAX;
      tokens := if tokens + earned <= U64_MAX then tokens + earned else U64_MAX;
      tokens := if tokens <= burst then tokens else burst;
    }

    /** `slept` is how long the sleep took in the end; the runtime never wakes early. */
    method ConsumeBytes(bytes: nat, now: nat, overshoot: nat) returns (slept: nat)
      requires Valid() && lastReplenish <= now && bytes <= U64_MAX
      modifies this
      ensures Valid() && rate == old(rate)
      ensures View() == Consume(old(View()), bytes, now - old(lastReplenish), overshoot)
      ensures lastReplenish == now + slept
      ensures slept == if old(Sleeps(View(), bytes, now - lastReplenish))
                       then Truncated(old(Requested(View(), bytes, now - lastReplenish))) + overshoot else 0
      ensures burst == old(burst)
      ensures
        var ready := AfterIdle(old(tokens), burst, rate, now - old(lastReplenish));
        && (bytes <= ready ==> slept == 0 && tokens + bytes == ready)
        && (bytes > ready ==>
          && slept == (bytes - ready) * 1_000_000_000 / rate % 0x1_0000_0000_0000_0000 + overshoot
          && tokens == AfterIdle(0, burst, rate, slept))
    {
      ReplenishNow(now);
      if bytes == 0 { return 0; }
      if tokens >= bytes {
        tokens := tokens - bytes;
        return 0;
      }
      var deficit := bytes - tokens;
      tokens := 0;
      var sleepNanos := deficit * NANOS / rate;
      slept := sleepNanos % (U64_MAX + 1) + overshoot;
      ReplenishNow(now + slept);
    }

    method ResetNow(now: nat)
      requires Valid() && lastReplenish <= now
      modifies this
      ensures Valid() && View() == Reset(old(View())) && lastReplenish == now
      ensures tokens == burst == old(burst) && rate == old(rate)
    {
      tokens := burst;
      lastReplenish := now;
    }

    method ChangeRate(bytesPerSecond: nat, now: nat)
      requires Valid() && lastReplenish <= now && 0 < bytesPerSecond <= U64_MAX
      modifies this
      ensures Valid() && lastReplenish == now
      ensures View() == SetRate(old(View()), bytesPerSecond, now - old(lastReplenish))
      ensures rate == burst == bytesPerSecond
      ensures
        var ready := AfterIdle(old(tokens), old(burst), old(rate), now - old(lastReplenish));
        tokens == if ready <= bytesPerSecond then ready else bytesPerSecond
    {
      ReplenishNow(now);
      rate := bytesPerSecond;
      burst := rate;
      tokens := if tokens <= burst then tokens else burst;
    }
  }

  // ------------------------------------------------------------ one step

  /** The saturating arithmetic never shows: a replenish adds what was earned and caps at the burst. */
  lemma ReplenishExact(b: Bucket, elapsed: nat)
    requires Sound(b)
    ensures Sound(Replenish(b, elapsed))
    ensures Replenish(b, elapsed).tokens == Min(b.burst, b.tokens + Earned(b.rate, elapsed))
  {
  }

  lemma EarnedBound(rate: nat, elapsed: nat)
    ensures NANOS * Earned(rate, elapsed) <= rate * elapsed < NANOS * Earned(rate, elapsed) + NANOS
  {
    assert elapsed * rate == rate * elapsed;
  }

  lemma SleepBound(deficit: nat, rate: nat)
    requires 0 < rate
    ensures rate * SleepNanos(deficit, rate) <= deficit * NANOS <= rate * SleepNanos(deficit, rate) + rate - 1
  {
    DivisionBounds(deficit * NANOS, rate);
  }

  lemma DivisionBounds(x: nat, d: nat)
    requires 0 < d
    ensures d * (x / d) <= x <= d * (x / d) + d - 1
  {
    assert x == d * (x / d) + x % d;
  }

  // ------------------------------------------------------------ whole runs

  datatype Call =
    | DoConsume(bytes: nat, wait: nat, overshoot: nat)
    | DoSetRate(rate: nat, wait: nat)
    | DoReset(wait: nat)

  /**
   What a run has cost. `credit` charges every nanosecond at the rate then in
   force; `sleepCredit` charges the sleeps a second time, and `cutCredit` what the
   cast to 64 bits cut off them; `rounding` allows `rate - 1` for each sleep;
   `gifts` is what the resets poured in. All are in bytes times `NANOS`.
   */
  datatype Ledger = Ledger(bucket: Bucket, granted: nat, elapsed: nat, credit: nat, sleepTime: nat, sleepCredit: nat,
                           cutTime: nat, cutCredit: nat, sleeps: nat, rounding: nat, gifts: nat)

  function Start(b: Bucket): Ledger {
    Ledger(b, 0, 0, 0, 0, 0, 0, 0, 0, 0, 0)
  }

  function Opening(rate: nat): Ledger {
    Start(New(rate))
  }

  predicate Legal(c: Call) {
    match c
    case DoConsume(bytes, _, _) => bytes <= U64_MAX
    case DoSetRate(rate, _) => 0 < rate <= U64_MAX
    case DoReset(_) => true
  }

  /** The sleep the call asks for fits the 64-bit duration, so that the cast cuts nothing. */
  predicate SleepFits(b: Bucket, c: Call)
    requires 0 < b.rate
  {
    c.DoConsume? && Sleeps(b, c.bytes, c.wait) ==> Requested(b, c.bytes, c.wait) <= U64_MAX
  }

  /** What `time` nanoseconds at `rate` are worth, in billionths of a byte. */
  function Worth(rate: nat, time: nat): nat {
    rate * time
  }

  function Step(l: Ledger, c: Call): Ledger
    requires 0 < l.bucket.rate
  {
    var b := l.bucket;
    match c
    case DoConsume(bytes, wait, overshoot) =>
      if Sleeps(b, bytes, wait) then
        var s, cut := Truncated(Requested(b, bytes, wait)), CutOff(Requested(b, bytes, wait));
        Ledger(Consume(b, bytes, wait, overshoot), l.granted + bytes,
               l.elapsed + wait + s + overshoot, l.credit + Worth(b.rate, wait + s + overshoot),
               l.sleepTime + s, l.sleepCredit + Worth(b.rate, s), l.cutTime + cut, l.cutCredit + Worth(b.rate, cut),
               l.sleeps + 1, l.rounding + b.rate - 1, l.gifts)
      else
        l.(bucket := Consume(b, bytes, wait, overshoot), granted := l.granted + bytes,
           elapsed := l.elapsed + wait, credit := l.credit + Worth(b.rate, wait))
    case DoSetRate(rate, wait) =>
      l.(bucket := SetRate(b, rate, wait), elapsed := l.elapsed + wait, credit := l.credit + Worth(b.rate, wait))
    case DoReset(wait) =>
      l.(bucket := Reset(b), elapsed := l.elapsed + wait, credit := l.credit + Worth(b.rate, wait),
         gifts := l.gifts + NANOS * (if b.burst >= b.tokens then b.burst - b.tokens else 0))
  }

  lemma StepSound(l: Ledger, c: Call)
    requires Sound(l.bucket) && Legal(c)
    ensures Sound(Step(l, c).bucket)
  {
  }

  /** Every state reachable through new, consume, reset and set_rate has `tokens <= burst == rate`. */
  function Run(rate: nat, calls: seq<Call>): (l: Ledger)
    requires 0 < rate <= U64_MAX && forall c :: c in calls ==> Legal(c)
    ensures Sound(l.bucket)
  {
    if calls == [] then Opening(rate)
    else
      var front, last := calls[..|calls| - 1], calls[|calls| - 1];
      assert last in calls;
      var before := Run(rate, front);
      StepSound(before, last);
      Step(before, last)
  }

  ghost predicate SleepsFit(rate: nat, calls: seq<Call>)
    requires 0 < rate <= U64_MAX && forall c :: c in calls ==> Legal(c)
  {
    calls == [] ||
    (var front, last := calls[..|calls| - 1], calls[|calls| - 1];
     SleepsFit(rate, front) && SleepFits(Run(rate, front).bucket, last))
  }

  ghost predicate Bounded(l: Ledger, opening: nat) {
    NANOS * (l.granted + l.bucket.tokens)
      <= NANOS * opening + l.credit + l.sleepCredit + l.cutCredit + l.rounding + l.gifts
  }

  lemma ConsumeBounded(l: Ledger, bytes: nat, wait: nat, overshoot: nat, opening: nat)
    requires Sound(l.bucket) && Bounded(l, opening)
    ensures Bounded(Step(l, DoConsume(bytes, wait, overshoot)), opening)
  {
    var b := l.bucket;
    var now := Replenish(b, wait);
    ReplenishExact(b, wait);
    EarnedBound(b.rate, wait);
    assert NANOS * now.tokens <= NANOS * b.tokens + b.rate * wait;
    if Sleeps(b, bytes, wait) {
      var deficit := bytes - now.tokens;
      var asked := Requested(b, bytes, wait);
      var s := Truncated(asked);
      SleepBound(deficit, b.rate);
      Distribute(b.rate, s, CutOff(asked));
      ReplenishExact(now.(tokens := 0), s + overshoot);
      EarnedBound(b.rate, s + overshoot);
      assert b.rate * (wait + s + overshoot) == b.rate * wait + b.rate * (s + overshoot);
    }
  }

  lemma StepBounded(l: Ledger, c: Call, opening: nat)
    requires Sound(l.bucket) && Bounded(l, opening)
    ensures Bounded(Step(l, c), opening)
  {
    match c
    case DoConsume(bytes, wait, overshoot) =>
      ConsumeBounded(l, bytes, wait, overshoot, opening);
    case DoSetRate(_, wait) =>
      ReplenishExact(l.bucket, wait);
      EarnedBound(l.bucket.rate, wait);
    case DoReset(wait) =>
      assert l.bucket.rate * wait >= 0;
  }

  /** The bound the code keeps, over every run of every operation. */
  lemma {:induction false} LedgerBound(rate: nat, calls: seq<Call>)
    requires 0 < rate <= U64_MAX && forall c :: c in calls ==> Legal(c)
    ensures Bounded(Run(rate, calls), rate)
  {
    if calls != [] {
      var front, last := calls[..|calls| - 1], calls[|calls| - 1];
      assert last in calls;
      LedgerBound(rate, front);
      StepBounded(Run(rate, front), last, rate);
    }
  }

  /** While every sleep asked for fits 64-bit nanoseconds, nothing is cut. */
  lemma {:induction false} NothingCut(rate: nat, calls: seq<Call>)
    requires 0 < rate <= U64_MAX && forall c :: c in calls ==> Legal(c)
    requires SleepsFit(rate, calls)
    ensures Run(rate, calls).cutTime == 0 && Run(rate, calls).cutCredit == 0
  {
    if calls != [] {
      assert calls[|calls| - 1] in calls;
      NothingCut(rate, calls[..|calls| - 1]);
    }
  }

  ghost predicate AtFixedRate(l: Ledger, rate: nat) {
    && l.bucket.rate == rate && l.gifts == 0
    && l.credit == rate * l.elapsed
    && l.sleepCredit == rate * l.sleepTime
    && l.cutCredit == rate * l.cutTime
    && (l.sleeps == 0 ==> l.sleepTime == 0 && l.cutTime == 0)
    && l.rounding == (rate - 1) * l.sleeps
  }

  lemma FixedRateStep(l: Ledger, bytes: nat, wait: nat, overshoot: nat, rate: nat)
    requires 0 < rate && AtFixedRate(l, rate)
    ensures AtFixedRate(Step(l, DoConsume(bytes, wait, overshoot)), rate)
  {
    if Sleeps(l.bucket, bytes, wait) {
      var s := Truncated(Requested(l.bucket, bytes, wait));
      Distribute(rate, l.elapsed, wait + s + overshoot);
      Distribute(rate, l.sleepTime, s);
      Distribute(rate, l.cutTime, CutOff(Requested(l.bucket, bytes, wait)));
      Distribute(rate - 1, l.sleeps, 1);
    } else {
      Distribute(rate, l.elapsed, wait);
    }
  }

  lemma {:induction false} FixedRateLedger(rate: nat, calls: seq<Call>)
    requires 0 < rate <= U64_MAX && forall c :: c in calls ==> Legal(c) && c.DoConsume?
    ensures AtFixedRate(Run(rate, calls), rate)
  {
    if calls != [] {
      var front, last := calls[..|calls| - 1], calls[|calls| - 1];
      assert last in calls;
      FixedRateLedger(rate, front);
      FixedRateStep(Run(rate, front), last.bytes, last.wait, last.overshoot, rate);
    }
  }

  lemma Distribute(k: int, x: int, y: int)
    ensures k * (x + y) == k * x + k * y
  {
  }

  /** The same bound at a fixed rate: sleeping time counts twice, and what the cast cut off counts once. */
  lemma FixedRateBound(rate: nat, calls: seq<Call>)
    requires 0 < rate <= U64_MAX && forall c :: c in calls ==> Legal(c) && c.DoConsume?
    ensures
      var l := Run(rate, calls);
      NANOS * (l.granted + l.bucket.tokens)
        <= NANOS * rate + rate * (l.elapsed + l.sleepTime + l.cutTime) + (rate - 1) * l.sleeps
    ensures SleepsFit(rate, calls) ==> Run(rate, calls).cutTime == 0
  {
    var l := Run(rate, calls);
    LedgerBound(rate, calls);
    FixedRateLedger(rate, calls);
    Distribute(rate, l.elapsed + l.sleepTime, l.cutTime);
    Distribute(rate, l.elapsed, l.sleepTime);
    if SleepsFit(rate, calls) { NothingCut(rate, calls); }
  }

  /** At one byte per second a request for 2^64 - 1 bytes sleeps less than it should by centuries. */
  lemma CutMatters()
    ensures
      var l := Step(Opening(1), DoConsume(U64_MAX, 0, 0));
      NANOS * (l.granted + l.bucket.tokens) > NANOS + (l.elapsed + l.sleepTime)
  {
    var b := New(1);
    assert Earned(1, 0) == 0;
    assert Replenish(b, 0) == b;
    assert Sleeps(b, U64_MAX, 0);
    assert Truncated(Requested(b, U64_MAX, 0)) <= U64_MAX;
  }

  // ------------------------------------------------------------ the bound on bytes and tokens

  /**
   One call stays within its allowance, the tokens at hand plus the rate over the
   time it took, when what it granted counts with the tokens it leaves.
   */
  ghost predicate KeepsPromise(b: Bucket, bytes: nat, wait: nat, overshoot: nat)
    requires 0 < b.rate
  {
    var l := Step(Start(b), DoConsume(bytes, wait, overshoot));
    NANOS * (l.granted + l.bucket.tokens) <= NANOS * b.tokens + l.credit
  }

  lemma PromiseKeptWithinTokens(b: Bucket, bytes: nat, wait: nat, overshoot: nat)
    requires Sound(b) && bytes <= b.tokens
    ensures KeepsPromise(b, bytes, wait, overshoot)
  {
    ReplenishExact(b, wait);
    EarnedBound(b.rate, wait);
  }

  lemma PromiseBrokenBySleep(b: Bucket, bytes: nat)
    requires Sound(b) && b.tokens < bytes
    ensures !KeepsPromise(b, bytes, 0, 0)
  {
    var deficit := bytes - b.tokens;
    ReplenishExact(b, 0);
    assert Earned(b.rate, 0) == 0;
    assert Replenish(b, 0) == b;
    var r := Requested(b, bytes, 0);
    var s := Truncated(r);
    SleepBound(deficit, b.rate);
    assert b.rate * s <= b.rate * r by { Monotone(b.rate, s, r); }
    ReplenishExact(b.(tokens := 0), s);
    EarnedBound(b.rate, s);
  }

  lemma Monotone(k: nat, x: nat, y: nat)
    requires x <= y
    ensures k * x <= k * y
  {
  }

  /** Bytes and tokens left keep the allowance in every environment exactly when the tokens at hand cover the call. */
  lemma PromiseKeptIff(b: Bucket, bytes: nat)
    requires Sound(b)
    ensures (forall wait: nat, overshoot: nat :: KeepsPromise(b, bytes, wait, overshoot)) <==> bytes <= b.tokens
  {
    if bytes <= b.tokens {
      forall wait: nat, overshoot: nat ensures KeepsPromise(b, bytes, wait, overshoot) {
        PromiseKeptWithinTokens(b, bytes, wait, overshoot);
      }
    } else {
      PromiseBrokenBySleep(b, bytes);
    }
  }

  /** The token-bucket bound on a whole run at a fixed rate: on the bytes granted and the tokens in hand together. */
  ghost predicate WithinBucket(l: Ledger, rate: nat) {
    NANOS * (l.granted + l.bucket.tokens) <= NANOS * rate + rate * l.elapsed
  }

  function Sum(sizes: seq<nat>): nat {
    if sizes == [] then 0 else Sum(sizes[..|sizes| - 1]) + sizes[|sizes| - 1]
  }

  /** A run that asks for these sizes, with whatever timing. */
  ghost predicate Asks(calls: seq<Call>, sizes: seq<nat>) {
    && |calls| == |sizes|
    && (forall c :: c in calls ==> Legal(c) && c.DoConsume?)
    && forall i :: 0 <= i < |sizes| ==> calls[i].DoConsume? && calls[i].bytes == sizes[i]
  }

  lemma AsksFront(calls: seq<Call>, sizes: seq<nat>)
    requires Asks(calls, sizes) && calls != []
    ensures Asks(calls[..|calls| - 1], sizes[..|sizes| - 1])
    ensures calls[|calls| - 1].DoConsume? && calls[|calls| - 1].bytes == sizes[|sizes| - 1]
  {
  }

  /** A run without a sleep keeps the bound. */
  lemma QuietRunKept(rate: nat, calls: seq<Call>)
    requires 0 < rate <= U64_MAX && forall c :: c in calls ==> Legal(c) && c.DoConsume?
    requires Run(rate, calls).sleeps == 0
    ensures WithinBucket(Run(rate, calls), rate)
  {
    FixedRateBound(rate, calls);
    FixedRateLedger(rate, calls);
  }

  ghost predicate Quiet(l: Ledger, rate: nat, total: nat) {
    l.bucket.rate == rate && l.sleeps == 0 && l.granted == total && rate <= l.bucket.tokens + total
  }

  lemma QuietStep(l: Ledger, rate: nat, total: nat, bytes: nat, wait: nat, overshoot: nat)
    requires Sound(l.bucket) && Quiet(l, rate, total) && total + bytes <= rate
    ensures Quiet(Step(l, DoConsume(bytes, wait, overshoot)), rate, total + bytes)
  {
    ReplenishExact(l.bucket, wait);
  }

  /** Requests that fit one burst together never sleep, whatever the timing. */
  lemma {:induction false} OneBurstIsQuiet(rate: nat, calls: seq<Call>, sizes: seq<nat>)
    requires 0 < rate <= U64_MAX && Asks(calls, sizes) && Sum(sizes) <= rate
    ensures Quiet(Run(rate, calls), rate, Sum(sizes))
  {
    if calls != [] {
      var front, last := calls[..|calls| - 1], calls[|calls| - 1];
      AsksFront(calls, sizes);
      OneBurstIsQuiet(rate, front, sizes[..|sizes| - 1]);
      QuietStep(Run(rate, front), rate, Sum(sizes[..|sizes| - 1]), last.bytes, last.wait, last.overshoot);
    }
  }

  /** The requests one right after the other, with a punctual clock. */
  function Instant(sizes: seq<nat>): seq<Call> {
    if sizes == [] then [] else Instant(sizes[..|sizes| - 1]) + [DoConsume(sizes[|sizes| - 1], 0, 0)]
  }

  lemma {:induction false} InstantAsks(sizes: seq<nat>)
    requires forall b :: b in sizes ==> b <= U64_MAX
    ensures Asks(Instant(sizes), sizes)
  {
    if sizes != [] {
      var front := sizes[..|sizes| - 1];
      assert sizes == front + [sizes[|sizes| - 1]];
      assert forall b :: b in front ==> b in sizes;
      assert sizes[|sizes| - 1] in sizes;
      InstantAsks(front);
    }
  }

  /** Before the first sleep the bound is met with equality; from the first sleep on it stays broken. */
  ghost predicate Overdrawn(l: Ledger, rate: nat, total: nat) {
    && l.bucket.rate == rate && l.granted == total
    && (l.sleeps == 0 ==> l.bucket.tokens + total == rate)
    && (l.sleeps != 0 ==> !WithinBucket(l, rate))
  }

  lemma OverdrawnStep(l: Ledger, rate: nat, total: nat, bytes: nat)
    requires Sound(l.bucket) && Overdrawn(l, rate, total) && (l.sleeps == 0 ==> l.elapsed == 0)
    ensures
      var l' := Step(l, DoConsume(bytes, 0, 0));
      Overdrawn(l', rate, total + bytes) && (l'.sleeps == 0 ==> l'.elapsed == 0)
  {
    var b := l.bucket;
    ReplenishExact(b, 0);
    assert Earned(b.rate, 0) == 0;
    assert Replenish(b, 0) == b;
    if Sleeps(b, bytes, 0) {
      PromiseBrokenBySleep(b, bytes);
      Distribute(rate, l.elapsed, Truncated(Requested(b, bytes, 0)));
    }
  }

  lemma {:induction false} InstantRun(rate: nat, sizes: seq<nat>)
    requires 0 < rate <= U64_MAX && Asks(Instant(sizes), sizes)
    ensures Overdrawn(Run(rate, Instant(sizes)), rate, Sum(sizes))
    ensures Run(rate, Instant(sizes)).sleeps == 0 ==> Run(rate, Instant(sizes)).elapsed == 0
  {
    if sizes != [] {
      var calls, front := Instant(sizes), sizes[..|sizes| - 1];
      AsksFront(calls, sizes);
      assert calls[..|calls| - 1] == Instant(front);
      InstantRun(rate, front);
      OverdrawnStep(Run(rate, Instant(front)), rate, Sum(front), sizes[|sizes| - 1]);
    }
  }

  /**
   Whole runs: bytes granted and tokens in hand together keep the bound under every
   timing exactly when the requests fit one burst.
   */
  lemma RunKeptIff(rate: nat, sizes: seq<nat>)
    requires 0 < rate <= U64_MAX && forall b :: b in sizes ==> b <= U64_MAX
    ensures (forall calls :: Asks(calls, sizes) ==> WithinBucket(Run(rate, calls), rate)) <==> Sum(sizes) <= rate
  {
    if Sum(sizes) <= rate {
      forall calls | Asks(calls, sizes) ensures WithinBucket(Run(rate, calls), rate) {
        OneBurstIsQuiet(rate, calls, sizes);
        QuietRunKept(rate, calls);
      }
    } else {
      InstantAsks(sizes);
      InstantRun(rate, sizes);
      assert Asks(Instant(sizes), sizes) && !WithinBucket(Run(rate, Instant(sizes)), rate);
    }
  }

  // ------------------------------------------------------------ the bytes alone

  /** The bytes granted, without the tokens in hand, stay within the token bucket. */
  ghost predicate BytesWithin(l: Ledger, rate: nat) {
    NANOS * l.granted <= NANOS * rate + rate * l.elapsed
  }

  /** A shortfall is paid to the nanosecond: its sleep is a whole number that fits 64 bits. */
  predicate PaidExactly(rate: nat, deficit: nat)
    requires 0 < rate
  {
    deficit * NANOS % rate == 0 && SleepNanos(deficit, rate) <= U64_MAX
  }

  /** The sleep for `deficit` covers it exactly when it is paid to the nanosecond. */
  lemma SleepCoversIff(rate: nat, deficit: nat)
    requires 0 < rate
    ensures
      var s := Truncated(SleepNanos(deficit, rate));
      rate * s <= NANOS * deficit && (rate * s == NANOS * deficit <==> PaidExactly(rate, deficit))
  {
    var x, q := deficit * NANOS, SleepNanos(deficit, rate);
    assert x == rate * q + x % rate;
    Distribute(rate, Truncated(q), CutOff(q));
    if CutOff(q) > 0 { AtLeastOne(rate, CutOff(q)); }
  }

  /**
   If `deficit` is paid to the nanosecond, it is also covered by earning `part` of
   it in `time` and sleeping for the rest: no rounding is lost.
   */
  lemma PaidInParts(rate: nat, deficit: nat, part: nat, time: nat)
    requires 0 < rate && PaidExactly(rate, deficit) && part <= deficit && NANOS * part <= rate * time
    ensures
      var s := SleepNanos(deficit - part, rate);
      s <= U64_MAX && NANOS * deficit <= rate * (time + s)
  {
    var k, s := SleepNanos(deficit, rate), SleepNanos(deficit - part, rate);
    DivisionBounds((deficit - part) * NANOS, rate);
    SleepCoversIff(rate, deficit);
    assert Truncated(k) == k;
    Distribute(rate, time, s);
    Distribute(rate, time + s, 1);
    Below(rate, k, time + s + 1);
    Monotone(rate, k, time + s);
    Below(rate, s, k + 1);
    Distribute(rate, k, 1);
  }

  lemma Below(d: nat, x: int, y: int)
    requires d * x < d * y
    ensures x < y
  {
    assert d * y - d * x == d * (y - x);
    if y <= x { NotPositive(d, y - x); }
  }

  lemma NotPositive(d: nat, k: int)
    requires k <= 0
    ensures d * k <= 0
  {
  }

  /** One call on a bucket with `tokens`: the bytes it grants against the tokens at hand and the rate over its time. */
  ghost predicate BytesKeepPromise(b: Bucket, bytes: nat, wait: nat, overshoot: nat)
    requires 0 < b.rate
  {
    var l := Step(Start(b), DoConsume(bytes, wait, overshoot));
    NANOS * l.granted <= NANOS * b.tokens + l.credit
  }

  /**
   A call for `bytes` when `spare` of what it lacked at first has been earned in
   `time`: if the whole shortfall is paid to the nanosecond, so is this.
   */
  lemma SleepPays(b: Bucket, bytes: nat, wait: nat, shortfall: nat, time: nat)
    requires Sound(b) && PaidExactly(b.rate, shortfall) && Sleeps(b, bytes, wait)
    requires bytes <= Replenish(b, wait).tokens + shortfall
    requires NANOS * (Replenish(b, wait).tokens + shortfall - bytes) <= b.rate * time
    ensures
      var asked := Requested(b, bytes, wait);
      Truncated(asked) == asked && NANOS * shortfall <= b.rate * (time + asked)
  {
    PaidInParts(b.rate, shortfall, Replenish(b, wait).tokens + shortfall - bytes, time);
  }

  lemma CallBytesKept(b: Bucket, bytes: nat, wait: nat, overshoot: nat)
    requires Sound(b) && b.tokens < bytes && PaidExactly(b.rate, bytes - b.tokens)
    ensures BytesKeepPromise(b, bytes, wait, overshoot)
  {
    ReplenishExact(b, wait);
    EarnedBound(b.rate, wait);
    if Sleeps(b, bytes, wait) {
      SleepPays(b, bytes, wait, bytes - b.tokens, wait);
      var asked := Requested(b, bytes, wait);
      Distribute(b.rate, wait + asked, overshoot);
      Monotone(b.rate, 0, overshoot);
    }
  }

  lemma CallBytesBroken(b: Bucket, bytes: nat)
    requires Sound(b) && b.tokens < bytes && !PaidExactly(b.rate, bytes - b.tokens)
    ensures !BytesKeepPromise(b, bytes, 0, 0)
  {
    ReplenishExact(b, 0);
    assert Earned(b.rate, 0) == 0;
    assert Replenish(b, 0) == b;
    SleepCoversIff(b.rate, bytes - b.tokens);
  }

  /** The bytes of a call keep the bound in every environment exactly when it is covered or pays to the nanosecond. */
  lemma CallBytesKeptIff(b: Bucket, bytes: nat)
    requires Sound(b)
    ensures (forall wait: nat, overshoot: nat :: BytesKeepPromise(b, bytes, wait, overshoot)) <==>
      bytes <= b.tokens || PaidExactly(b.rate, bytes - b.tokens)
  {
    if bytes <= b.tokens {
      forall wait: nat, overshoot: nat ensures BytesKeepPromise(b, bytes, wait, overshoot) {
        PromiseKeptWithinTokens(b, bytes, wait, overshoot);
      }
    } else if PaidExactly(b.rate, bytes - b.tokens) {
      forall wait: nat, overshoot: nat ensures BytesKeepPromise(b, bytes, wait, overshoot) {
        CallBytesKept(b, bytes, wait, overshoot);
      }
    } else {
      CallBytesBroken(b, bytes);
    }
  }

  /**
   The requests fit one burst; or the last that is not empty is the only one to go
   beyond it, and by an amount that is paid to the nanosecond.
   */
  ghost predicate PaysItsWay(rate: nat, sizes: seq<nat>)
    requires 0 < rate
  {
    Sum(sizes) <= rate ||
    (var front, last := sizes[..|sizes| - 1], sizes[|sizes| - 1];
     if Sum(front) <= rate then PaidExactly(rate, Sum(sizes) - rate)
     else last == 0 && PaysItsWay(rate, front))
  }

  lemma PaidStep(l: Ledger, rate: nat, bytes: nat, wait: nat, overshoot: nat)
    requires Sound(l.bucket) && l.bucket.rate == rate && WithinBucket(l, rate)
    requires rate <= l.bucket.tokens + l.granted && rate < l.granted + bytes
    requires PaidExactly(rate, l.granted + bytes - rate)
    ensures BytesWithin(Step(l, DoConsume(bytes, wait, overshoot)), rate)
  {
    var b := l.bucket;
    ReplenishExact(b, wait);
    EarnedBound(rate, wait);
    Distribute(rate, l.elapsed, wait);
    if Sleeps(b, bytes, wait) {
      SleepPays(b, bytes, wait, l.granted + bytes - rate, l.elapsed + wait);
      var asked := Requested(b, bytes, wait);
      Distribute(rate, l.elapsed + wait + asked, overshoot);
      Monotone(rate, 0, overshoot);
    }
  }

  lemma EmptyStep(l: Ledger, rate: nat, wait: nat, overshoot: nat)
    requires 0 < l.bucket.rate && BytesWithin(l, rate)
    ensures BytesWithin(Step(l, DoConsume(0, wait, overshoot)), rate)
  {
    Distribute(rate, l.elapsed, wait);
    Monotone(rate, 0, wait);
  }

  lemma {:induction false} PayingRunKept(rate: nat, calls: seq<Call>, sizes: seq<nat>)
    requires 0 < rate <= U64_MAX && Asks(calls, sizes) && PaysItsWay(rate, sizes)
    ensures BytesWithin(Run(rate, calls), rate)
  {
    if Sum(sizes) <= rate {
      OneBurstIsQuiet(rate, calls, sizes);
      QuietRunKept(rate, calls);
    } else {
      var front, last := calls[..|calls| - 1], calls[|calls| - 1];
      var before := sizes[..|sizes| - 1];
      AsksFront(calls, sizes);
      if Sum(before) <= rate {
        OneBurstIsQuiet(rate, front, before);
        QuietRunKept(rate, front);
        PaidStep(Run(rate, front), rate, last.bytes, last.wait, last.overshoot);
      } else {
        PayingRunKept(rate, front, before);
        EmptyStep(Run(rate, front), rate, last.wait, last.overshoot);
      }
    }
  }

  /** Bytes granted beyond the bound. */
  function Excess(l: Ledger, rate: nat): int {
    NANOS * l.granted - NANOS * rate - rate * l.elapsed
  }

  /** What the punctual back-to-back run of `sizes` has led to. */
  ghost predicate Spent(l: Ledger, rate: nat, sizes: seq<nat>)
    requires 0 < rate
  {
    && l.bucket.rate == rate && l.granted == Sum(sizes)
    && (Sum(sizes) <= rate ==> l.bucket.tokens == rate - Sum(sizes) && l.elapsed == 0)
    && (Sum(sizes) > rate && PaysItsWay(rate, sizes) ==> Excess(l, rate) == 0 && 1 <= l.bucket.tokens)
    && (!PaysItsWay(rate, sizes) ==> 0 < Excess(l, rate))
  }

  /** The call that first goes beyond the burst. */
  lemma FirstSleep(l: Ledger, rate: nat, bytes: nat)
    requires Sound(l.bucket) && l.bucket.rate == rate && l.elapsed == 0
    requires l.bucket.tokens == rate - l.granted && rate < l.granted + bytes
    ensures
      var l', d := Step(l, DoConsume(bytes, 0, 0)), l.granted + bytes - rate;
      && l'.bucket.rate == rate && l'.granted == l.granted + bytes && 0 <= Excess(l', rate)
      && (Excess(l', rate) == 0 <==> PaidExactly(rate, d))
      && (PaidExactly(rate, d) ==> 1 <= l'.bucket.tokens)
  {
    var b, d := l.bucket, l.granted + bytes - rate;
    var s := Truncated(SleepNanos(d, rate));
    assert Earned(rate, 0) == 0;
    assert Replenish(b, 0) == b;
    SleepCoversIff(rate, d);
    ReplenishExact(b.(tokens := 0), s);
    if PaidExactly(rate, d) { EarnedAll(rate, s, d); }
  }

  lemma EarnedAll(rate: nat, s: nat, d: nat)
    requires rate * s == NANOS * d
    ensures Earned(rate, s) == d
  {
    EarnedBound(rate, s);
  }

  /** Beyond the burst nothing is won back: only an empty request leaves the excess as it is, if tokens are left. */
  lemma LaterStep(l: Ledger, rate: nat, bytes: nat)
    requires Sound(l.bucket) && l.bucket.rate == rate
    ensures
      var l' := Step(l, DoConsume(bytes, 0, 0));
      && l'.bucket.rate == rate && l'.granted == l.granted + bytes && Excess(l, rate) <= Excess(l', rate)
      && (bytes == 0 ==> l'.bucket == l.bucket && Excess(l', rate) == Excess(l, rate))
      && (0 < bytes && 1 <= l.bucket.tokens ==> Excess(l, rate) < Excess(l', rate))
  {
    var b := l.bucket;
    assert Earned(rate, 0) == 0;
    assert Replenish(b, 0) == b;
    if Sleeps(b, bytes, 0) {
      SleepCoversIff(rate, bytes - b.tokens);
      Distribute(rate, l.elapsed, Truncated(Requested(b, bytes, 0)));
    }
  }

  lemma SpentStep(l: Ledger, rate: nat, front: seq<nat>, bytes: nat)
    requires Sound(l.bucket) && l.bucket.rate == rate && Spent(l, rate, front)
    ensures Spent(Step(l, DoConsume(bytes, 0, 0)), rate, front + [bytes])
  {
    var sizes := front + [bytes];
    assert sizes[..|sizes| - 1] == front;
    if Sum(sizes) <= rate {
      assert Earned(rate, 0) == 0;
      assert Replenish(l.bucket, 0) == l.bucket;
    } else if Sum(front) <= rate {
      FirstSleep(l, rate, bytes);
    } else {
      LaterStep(l, rate, bytes);
    }
  }

  lemma {:induction false} InstantSpends(rate: nat, sizes: seq<nat>)
    requires 0 < rate <= U64_MAX && Asks(Instant(sizes), sizes)
    ensures Spent(Run(rate, Instant(sizes)), rate, sizes)
  {
    if sizes != [] {
      var calls, front := Instant(sizes), sizes[..|sizes| - 1];
      AsksFront(calls, sizes);
      assert calls[..|calls| - 1] == Instant(front);
      InstantSpends(rate, front);
      SpentStep(Run(rate, Instant(front)), rate, front, sizes[|sizes| - 1]);
      assert front + [sizes[|sizes| - 1]] == sizes;
    }
  }

  /** Whole runs: the bytes keep `burst + rate * t` under every timing exactly when the requests pay their way. */
  lemma BytesKeptIff(rate: nat, sizes: seq<nat>)
    requires 0 < rate <= U64_MAX && forall b :: b in sizes ==> b <= U64_MAX
    ensures (forall calls :: Asks(calls, sizes) ==> BytesWithin(Run(rate, calls), rate)) <==> PaysItsWay(rate, sizes)
  {
    if PaysItsWay(rate, sizes) {
      forall calls | Asks(calls, sizes) ensures BytesWithin(Run(rate, calls), rate) {
        PayingRunKept(rate, calls, sizes);
      }
    } else {
      InstantAsks(sizes);
      InstantSpends(rate, sizes);
      assert Asks(Instant(sizes), sizes) && !BytesWithin(Run(rate, Instant(sizes)), rate);
    }
  }

  /** Two bytes at one byte per second are paid for; four at three are not, by a third of a nanosecond. */
  lemma RoundingDecides()
    ensures PaysItsWay(1, [2]) && !PaysItsWay(3, [4])
  {
    assert [2][..0] == [] && [4][..0] == [];
    assert Sum([2]) == 2 && Sum([4]) == 4;
  }

  // ------------------------------------------------------------ how far it goes

  /** Drain the bucket, then ask for `n` single bytes. */
  function Flood(rate: nat, n: nat): (calls: seq<Call>)
    ensures forall c :: c in calls ==> c == DoConsume(rate, 0, 0) || c == DoConsume(1, 0, 0)
  {
    if n == 0 then [DoConsume(rate, 0, 0)] else Flood(rate, n - 1) + [DoConsume(1, 0, 0)]
  }

  ghost predicate FloodedAfter(l: Ledger, rate: nat, n: nat) {
    l.bucket == Bucket(rate, rate, 0) && l.granted == rate + n && l.elapsed == 0
  }

  lemma FloodStep(l: Ledger, rate: nat, n: nat)
    requires NANOS < rate <= U64_MAX && FloodedAfter(l, rate, n)
    ensures FloodedAfter(Step(l, DoConsume(1, 0, 0)), rate, n + 1)
  {
    assert Earned(rate, 0) == 0;
    assert SleepNanos(1, rate) == 0;
  }

  lemma FloodStart(rate: nat)
    requires 0 < rate <= U64_MAX
    ensures FloodedAfter(Step(Opening(rate), DoConsume(rate, 0, 0)), rate, 0)
  {
    assert Earned(rate, 0) == 0;
  }

  /** Above one byte per nanosecond the sleep for a byte rounds to nothing: any number of bytes in no time at all. */
  lemma {:induction false} UnlimitedAboveNanos(rate: nat, n: nat)
    requires NANOS < rate <= U64_MAX
    ensures FloodedAfter(Run(rate, Flood(rate, n)), rate, n)
  {
    if n == 0 {
      FloodStart(rate);
      RunAppend(rate, [], DoConsume(rate, 0, 0));
      assert [] + [DoConsume(rate, 0, 0)] == Flood(rate, 0);
    } else {
      UnlimitedAboveNanos(rate, n - 1);
      FloodStep(Run(rate, Flood(rate, n - 1)), rate, n - 1);
      RunAppend(rate, Flood(rate, n - 1), DoConsume(1, 0, 0));
    }
  }

  /** Drain the bucket, then ask for one second's worth twice in a row, `n` times over. */
  function Alternate(rate: nat, n: nat): (calls: seq<Call>)
    ensures forall c :: c in calls ==> c == DoConsume(rate, 0, 0)
  {
    if n == 0 then [DoConsume(rate, 0, 0)]
    else Alternate(rate, n - 1) + [DoConsume(rate, 0, 0), DoConsume(rate, 0, 0)]
  }

  /** An empty bucket, `(2n + 1) * rate` bytes granted, `n` seconds gone. */
  ghost predicate DoubleRateAfter(l: Ledger, rate: nat, n: nat) {
    l.bucket == Bucket(rate, rate, 0) && l.granted == rate * (2 * n + 1) && l.elapsed == n * NANOS
  }

  lemma FirstDrain(rate: nat)
    requires 0 < rate <= U64_MAX
    ensures DoubleRateAfter(Step(Opening(rate), DoConsume(rate, 0, 0)), rate, 0)
  {
    assert Earned(rate, 0) == 0;
  }

  lemma DrainedTwice(l: Ledger, rate: nat, n: nat)
    requires DoubleRateAfter(l, rate, n) && 0 < rate <= U64_MAX
    ensures DoubleRateAfter(Step(Step(l, DoConsume(rate, 0, 0)), DoConsume(rate, 0, 0)), rate, n + 1)
  {
    var c := DoConsume(rate, 0, 0);
    assert Earned(rate, 0) == 0;
    assert SleepNanos(rate, rate) == NANOS by {
      DivisionBounds(rate * NANOS, rate);
      Cancel(rate, SleepNanos(rate, rate), NANOS);
    }
    assert Earned(rate, NANOS) == rate;
    assert Step(l, c).bucket == Bucket(rate, rate, rate);
    Distribute(rate, 2 * n + 1, 2);
  }

  lemma Cancel(d: nat, q: int, x: int)
    requires 0 < d && d * q <= d * x <= d * q + d - 1
    ensures q == x
  {
    assert d * x - d * q == d * (x - q);
    AtLeastOne(d, x - q);
  }

  lemma AtLeastOne(d: nat, k: int)
    ensures k >= 1 ==> d * k >= d
    ensures k <= -1 ==> d * k + d <= 0
  {
    assert d * k == d + d * (k - 1);
    assert d * k + d == d * (k + 1);
  }

  lemma RunAppend(rate: nat, calls: seq<Call>, c: Call)
    requires 0 < rate <= U64_MAX && Legal(c) && forall x :: x in calls ==> Legal(x)
    ensures forall x :: x in calls + [c] ==> Legal(x)
    ensures Run(rate, calls + [c]) == Step(Run(rate, calls), c)
  {
    assert (calls + [c])[..|calls|] == calls;
  }

  lemma AlternateRun(rate: nat, n: nat)
    requires 0 < rate <= U64_MAX
    ensures Run(rate, Alternate(rate, 0)) == Step(Opening(rate), DoConsume(rate, 0, 0))
    ensures Run(rate, Alternate(rate, n + 1))
         == Step(Step(Run(rate, Alternate(rate, n)), DoConsume(rate, 0, 0)), DoConsume(rate, 0, 0))
  {
    var c := DoConsume(rate, 0, 0);
    var before := Alternate(rate, n);
    RunAppend(rate, [], c);
    assert [] + [c] == Alternate(rate, 0);
    RunAppend(rate, before, c);
    RunAppend(rate, before + [c], c);
    assert before + [c] + [c] == Alternate(rate, n + 1);
  }

  lemma DoubleRateStart(rate: nat)
    requires 0 < rate <= U64_MAX
    ensures DoubleRateAfter(Run(rate, Alternate(rate, 0)), rate, 0)
  {
    AlternateRun(rate, 0);
    FirstDrain(rate);
  }

  lemma DoubleRateStep(rate: nat, n: nat)
    requires 0 < rate <= U64_MAX && DoubleRateAfter(Run(rate, Alternate(rate, n)), rate, n)
    ensures DoubleRateAfter(Run(rate, Alternate(rate, n + 1)), rate, n + 1)
  {
    AlternateRun(rate, n);
    DrainedTwice(Run(rate, Alternate(rate, n)), rate, n);
  }

  /** For every rate and every `n`, the limiter grants `(2n + 1) * rate` bytes in `n` seconds. */
  lemma {:induction false} SustainedDoubleRate(rate: nat, n: nat)
    requires 0 < rate <= U64_MAX
    ensures DoubleRateAfter(Run(rate, Alternate(rate, n)), rate, n)
  {
    if n == 0 {
      DoubleRateStart(rate);
    } else {
      SustainedDoubleRate(rate, n - 1);
      DoubleRateStep(rate, n - 1);
    }
  }

  /** The doubled rate breaks the token-bucket bound from the first second on, in bytes alone. */
  lemma DoubleRateBreaks(rate: nat, n: nat)
    requires 0 < rate <= U64_MAX && 1 <= n
    ensures !BytesWithin(Run(rate, Alternate(rate, n)), rate) && !WithinBucket(Run(rate, Alternate(rate, n)), rate)
  {
    SustainedDoubleRate(rate, n);
    DoubleIsMore(rate, n);
  }

  lemma DoubleIsMore(rate: nat, n: nat)
    requires 0 < rate && 1 <= n
    ensures NANOS * (rate * (2 * n + 1)) > NANOS * rate + rate * (n * NANOS)
  {
    var x := rate * n;
    assert rate * (2 * n + 1) == 2 * x + rate;
    assert rate * (n * NANOS) == x * NANOS;
    AtLeastOne(rate, n);
  }

  // ------------------------------------------------------------ many replenishes

  function ReplenishMany(b: Bucket, gaps: seq<nat>): Bucket {
    if gaps == [] then b else Replenish(ReplenishMany(b, gaps[..|gaps| - 1]), gaps[|gaps| - 1])
  }

  function Total(gaps: seq<nat>): nat {
    if gaps == [] then 0 else Total(gaps[..|gaps| - 1]) + gaps[|gaps| - 1]
  }

  function EarnedEach(rate: nat, gaps: seq<nat>): nat {
    if gaps == [] then 0 else EarnedEach(rate, gaps[..|gaps| - 1]) + Earned(rate, gaps[|gaps| - 1])
  }

  /** Capping commutes with adding: only the final cap matters. */
  lemma {:induction false} ReplenishManyExact(b: Bucket, gaps: seq<nat>)
    requires Sound(b)
    ensures Sound(ReplenishMany(b, gaps)) && ReplenishMany(b, gaps).rate == b.rate
    ensures ReplenishMany(b, gaps).tokens == Min(b.burst, b.tokens + EarnedEach(b.rate, gaps))
  {
    if gaps != [] {
      ReplenishManyExact(b, gaps[..|gaps| - 1]);
      ReplenishExact(ReplenishMany(b, gaps[..|gaps| - 1]), gaps[|gaps| - 1]);
    }
  }

  /** Splitting an interval into `n` loses at most `n - 1` tokens to rounding, and never gains one. */
  lemma {:induction false} SplittingLoses(rate: nat, gaps: seq<nat>)
    ensures EarnedEach(rate, gaps) <= Earned(rate, Total(gaps))
    ensures gaps != [] ==> Earned(rate, Total(gaps)) <= EarnedEach(rate, gaps) + |gaps| - 1
  {
    if gaps != [] {
      var front, last := gaps[..|gaps| - 1], gaps[|gaps| - 1];
      SplittingLoses(rate, front);
      EarnedBound(rate, Total(front));
      EarnedBound(rate, last);
      EarnedBound(rate, Total(gaps));
      Distribute(rate, Total(front), last);
      if front == [] { assert Earned(rate, 0) == 0; }
    }
  }

  /** Frequent replenishing never beats one replenish over the whole span, and trails it by at most `n - 1`. */
  lemma FrequentReplenish(b: Bucket, gaps: seq<nat>)
    requires Sound(b) && gaps != []
    ensures
      var many, once := ReplenishMany(b, gaps).tokens, Replenish(b, Total(gaps)).tokens;
      many <= once <= many + |gaps| - 1
  {
    ReplenishManyExact(b, gaps);
    ReplenishExact(b, Total(gaps));
    SplittingLoses(b.rate, gaps);
  }
}
