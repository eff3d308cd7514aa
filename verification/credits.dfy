/** `ensure_daily_free_topup`: the once-per-UTC-day top-up of a free user's
    credit balance, as a decision on the user's stored summary. The
    database read and write, the clock and the ISO date parser are
    parameters. */
module Credits {
  import opened Wrappers
  import opened Text

  /** A calendar date in UTC. */
  datatype Date = Date(year: int, month: int, day: int)

  /** The two settings, read from the environment. */
  datatype Policy = Policy(dailyFreeCredits: int, freeRolloverCap: int)

  /** `DAILY_FREE_CREDITS` and `FREE_ROLLOVER_CAP` when the environment
      leaves them unset. */
  const DefaultPolicy := Policy(3, 20)

  /** The user summary as stored; a missing summary is the empty one. */
  datatype Snapshot = Snapshot(
    plan: Option<string>,
    unlimited: bool,
    freeUsesRemaining: int,
    lastFreeRefillAt: Option<string>)

  const EmptySnapshot := Snapshot(None, false, 0, None)

  /** What the top-up does: leave the balance alone, or store the new
      balance and stamp today's date as the last refill. */
  datatype Decision = Keep(balance: int) | Refill(balance: int)

  /** The plan name, lower-cased; a missing or empty plan is "free". */
  function PlanName(snap: Snapshot): (r: string)
    ensures |r| > 0 && NoUpper(r)
    ensures snap.plan.None? || snap.plan == Some("") ==> r == "free"
    ensures snap.plan.Some? && |snap.plan.value| > 0 ==> |r| == |snap.plan.value|
  {
    assert Lower("free") == "free";
    Lower(if snap.plan.Some? && |snap.plan.value| > 0 then snap.plan.value else "free")
  }

  /** The date of the last refill. `parse` is `datetime.fromisoformat` after
      every "Z" is replaced by "+00:00", followed by `.date()`; None when it
      raises. An absent, empty or unparseable value means no refill is
      known. */
  function LastRefill(snap: Snapshot, parse: string -> Option<Date>): (r: Option<Date>)
    ensures r.Some? ==> snap.lastFreeRefillAt.Some? && |snap.lastFreeRefillAt.value| > 0
                        && r == parse(snap.lastFreeRefillAt.value)
    ensures snap.lastFreeRefillAt.None? || snap.lastFreeRefillAt == Some("") ==> r.None?
  {
    if snap.lastFreeRefillAt.Some? && |snap.lastFreeRefillAt.value| > 0 then parse(snap.lastFreeRefillAt.value)
    else None
  }

  /** `min(remaining + DAILY_FREE_CREDITS, FREE_ROLLOVER_CAP)`. */
  function ToppedUp(remaining: int, policy: Policy): (r: int)
    ensures r <= policy.freeRolloverCap
    ensures r <= remaining + policy.dailyFreeCredits
    ensures r == policy.freeRolloverCap || r == remaining + policy.dailyFreeCredits
  {
    var sum := remaining + policy.dailyFreeCredits;
    if sum < policy.freeRolloverCap then sum else policy.freeRolloverCap
  }

  /** The decision of `ensure_daily_free_topup` on `snap` when the UTC date
      is `today`. */
  function TopUp(snap: Snapshot, today: Date, parse: string -> Option<Date>, policy: Policy): (d: Decision)
    ensures snap.unlimited || PlanName(snap) != "free" ==> d == Keep(snap.freeUsesRemaining)
    ensures snap.freeUsesRemaining >= policy.freeRolloverCap ==> d == Keep(snap.freeUsesRemaining)
    ensures LastRefill(snap, parse) == Some(today) ==> d == Keep(snap.freeUsesRemaining)
    ensures d.Refill? <==>
      && !snap.unlimited && PlanName(snap) == "free"
      && snap.freeUsesRemaining < policy.freeRolloverCap
      && LastRefill(snap, parse) != Some(today)
      && ToppedUp(snap.freeUsesRemaining, policy) != snap.freeUsesRemaining
    ensures d.Refill? ==> d.balance == ToppedUp(snap.freeUsesRemaining, policy) != snap.freeUsesRemaining
    ensures d.Keep? ==> d.balance == snap.freeUsesRemaining
  {
    var remaining := snap.freeUsesRemaining;
    if snap.unlimited || PlanName(snap) != "free" then Keep(remaining)
    else if remaining >= policy.freeRolloverCap then Keep(remaining)
    else if LastRefill(snap, parse) == Some(today) then Keep(remaining)
    else
      var next := ToppedUp(remaining, policy);
      if next == remaining then Keep(remaining) else Refill(next)
  }

  /** The summary after the decision is carried out; `stamp` is today's
      date as the database writes it. */
  function Apply(snap: Snapshot, d: Decision, stamp: string): (r: Snapshot)
    ensures d.Keep? ==> r == snap
    ensures d.Refill? ==> r.freeUsesRemaining == d.balance && r.lastFreeRefillAt == Some(stamp)
    ensures r.plan == snap.plan && r.unlimited == snap.unlimited
  {
    match d
    case Keep(_) => snap
    case Refill(b) => snap.(freeUsesRemaining := b, lastFreeRefillAt := Some(stamp))
  }

  /** With a non-negative daily grant the balance never goes down, and it
      never goes above the cap unless it already was. */
  lemma NeverDecreases(snap: Snapshot, today: Date, parse: string -> Option<Date>, policy: Policy)
    requires policy.dailyFreeCredits >= 0
    ensures var d := TopUp(snap, today, parse, policy);
      && snap.freeUsesRemaining <= d.balance
      && (d.balance > policy.freeRolloverCap ==> d.balance == snap.freeUsesRemaining)
  {
  }

  /** An unparseable refill stamp counts as no refill at all. */
  lemma UnparseableIsNever(snap: Snapshot, today: Date, parse: string -> Option<Date>, policy: Policy)
    requires snap.lastFreeRefillAt.Some? && parse(snap.lastFreeRefillAt.value) == None
    ensures TopUp(snap, today, parse, policy) == TopUp(snap.(lastFreeRefillAt := None), today, parse, policy)
  {
  }

  /** At most one top-up per day: once a refill is written with a stamp
      that parses back to today, a second call the same day keeps the
      balance. */
  lemma OncePerDay(snap: Snapshot, today: Date, parse: string -> Option<Date>, policy: Policy, stamp: string)
    requires |stamp| > 0 && parse(stamp) == Some(today)
    ensures var after := Apply(snap, TopUp(snap, today, parse, policy), stamp);
      TopUp(after, today, parse, policy) == Keep(after.freeUsesRemaining)
  {
    var d := TopUp(snap, today, parse, policy);
    var after := Apply(snap, d, stamp);
    if d.Refill? {
      assert LastRefill(after, parse) == Some(today);
    }
  }

  /** With the default settings a free user below 20 credits who was not
      topped up today gains min(3, 20 - balance) credits. */
  lemma DefaultGrant(snap: Snapshot, today: Date, parse: string -> Option<Date>)
    requires !snap.unlimited && PlanName(snap) == "free"
    requires snap.freeUsesRemaining < 20 && LastRefill(snap, parse) != Some(today)
    ensures TopUp(snap, today, parse, DefaultPolicy)
      == Refill(if snap.freeUsesRemaining + 3 < 20 then snap.freeUsesRemaining + 3 else 20)
  {
  }
}
