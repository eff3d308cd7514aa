/** `ReferralCardView`'s numbers: the progress percentage towards the
    invitation goal and the number of invitations still needed, shown under
    the progress bar and, while Premium is locked, on the Premium tile.
    The card's counts are whole numbers: unlike the other JavaScript
    numbers of the model, which are reals, they are integers here. */
module ReferralCard {
  import opened Wrappers
  import opened JsMath

  /** The Premium status the card is given; the expiry date is only
      displayed. */
  datatype Premium = Premium(active: bool, expiresAt: Option<string>)

  /** What the card shows: the width of the progress bar in percent, the
      count in "N more = 1-month Premium", and the count in "Locked — invite
      N more", which only a locked card shows. */
  datatype CardView = CardView(pct: int, remaining: int, lockedRemaining: Option<int>)

  /** The exact share of the goal reached, in percent; a goal below one
      counts as one. */
  function Share(referredCount: int, goal: int): real {
    referredCount as real / Max(1, goal) as real * 100.0
  }

  /** `Math.min(100, Math.round((referredCount / Math.max(1, goal)) * 100))`:
      the share rounded to the nearest whole percent, capped at 100. */
  function Progress(referredCount: int, goal: int): (p: int)
    ensures p <= 100
    ensures referredCount >= 0 ==> p >= 0
    ensures p < 100 ==> p as real - 0.5 <= Share(referredCount, goal) < p as real + 0.5
    ensures p == 100 <==> Share(referredCount, goal) >= 99.5
  {
    Min(100, Round(Share(referredCount, goal)))
  }

  /** `Math.max(0, goal - referredCount)`. */
  function Remaining(referredCount: int, goal: int): (r: int)
    ensures r >= 0
    ensures r == 0 <==> referredCount >= goal
    ensures r > 0 ==> referredCount + r == goal
  {
    Max(0, goal - referredCount)
  }

  /** The card's numbers: the bar shows the progress and both counts show
      the referrals still needed; the locked label only while Premium is
      not active. */
  function View(referredCount: int, goal: int, premium: Premium): (v: CardView)
    ensures v.pct == Progress(referredCount, goal) && v.remaining == Remaining(referredCount, goal)
    ensures v.pct <= 100 && v.remaining >= 0
    ensures v.lockedRemaining.None? <==> premium.active
    ensures v.lockedRemaining.Some? ==> v.lockedRemaining.value == v.remaining
  {
    var left := Remaining(referredCount, goal);
    CardView(Progress(referredCount, goal), left, if premium.active then None else Some(left))
  }

  /** A goal of one or less is treated as a goal of one. */
  lemma GoalAtLeastOne(referredCount: int, goal: int)
    requires goal <= 1
    ensures Progress(referredCount, goal) == Progress(referredCount, 1)
  {
  }

  /** Reaching the goal fills the bar and leaves nothing to invite. */
  lemma GoalReached(referredCount: int, goal: int)
    requires referredCount >= goal >= 1
    ensures Progress(referredCount, goal) == 100
    ensures Remaining(referredCount, goal) == 0
  {
    assert referredCount as real / goal as real >= 1.0;
  }

  /** At the goal the card shows a full bar, nothing left to invite, and a
      locked label (when shown) asking for no more. */
  lemma ViewAtGoal(referredCount: int, goal: int, premium: Premium)
    requires referredCount >= goal >= 1
    ensures var v := View(referredCount, goal, premium);
      v.pct == 100 && v.remaining == 0 && (premium.active || v.lockedRemaining == Some(0))
  {
    GoalReached(referredCount, goal);
  }

  /** More referrals never shorten the bar. */
  lemma ProgressMonotone(a: int, b: int, goal: int)
    requires a <= b
    ensures Progress(a, goal) <= Progress(b, goal)
  {
    var d := Max(1, goal) as real;
    assert a as real / d <= b as real / d;
    RoundMonotone(Share(a, goal), Share(b, goal));
  }

  /** There is no lower clamp: a negative count gives a negative width. */
  lemma NoLowerClamp()
    ensures Progress(-1, 1) == -100
  {
    RoundWhole(-100);
  }
}
