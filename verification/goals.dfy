/** Identity goals: progress in steps of ten with a one-time reward at
    100 (App.tsx, `addGoalProgress`), and the two "overdue" tests, the
    goal list's (`isOverdue`) and the cat companion's (`isCatRunaway`). */
module Goals {
  import opened Common
  import opened CalendarDate
  import opened IsoDate
  import opened Collections

  /** A goal; `deadline` is an optional `YYYY-MM-DD` string. */
  datatype Goal = Goal(id: string, title: string, progress: int, deadline: Option<string>)

  datatype Section = Section(id: string, title: string, goals: seq<Goal>)

  // ---------------------------------------------------------------------
  // Progress and reward.

  /** `Math.min(g.progress + 10, 100)`. */
  function Bump(p: int): (q: int)
    ensures q <= 100 && q <= p + 10
    ensures q == 100 || q == p + 10
  {
    if p + 10 < 100 then p + 10 else 100
  }

  /** `newProgress === 100 && g.progress < 100`: the reward condition. */
  predicate Fires(p: int) {
    Bump(p) == 100 && p < 100
  }

  /** The reward fires exactly from progress 90..99. */
  lemma FiresIff(p: int)
    ensures Fires(p) <==> 90 <= p < 100
  {
  }

  /** Progress within 0..100 stays there and never decreases. */
  lemma BumpInRange(p: int)
    requires 0 <= p <= 100
    ensures p <= Bump(p) <= 100
  {
  }

  /** Once the reward has fired, later bumps never fire it again. */
  lemma RewardOnce(p: int)
    requires Fires(p)
    ensures Bump(p) == 100 && !Fires(Bump(p)) && Bump(Bump(p)) == 100
  {
  }

  /** The goal list of one section after the bump, and how many goals fired. */
  datatype GoalsOutcome = GoalsOutcome(goals: seq<Goal>, fired: nat)

  function GoalIs(goalId: string): Goal -> bool {
    (g: Goal) => g.id == goalId
  }

  function SectionIs(sectionId: string): Section -> bool {
    (sec: Section) => sec.id == sectionId
  }

  /** How many goals carrying `goalId` meet the reward condition. */
  function Fired(goals: seq<Goal>, goalId: string): (n: nat)
    ensures n > 0 <==>
      exists i :: 0 <= i < |goals| && goals[i].id == goalId && Fires(goals[i].progress)
  {
    if |goals| == 0 then 0
    else
      (if goals[0].id == goalId && Fires(goals[0].progress) then 1 else 0)
      + Fired(goals[1..], goalId)
  }

  /** `sec.goals.map(g => g.id !== goalId ? g : {...g, progress: newProgress})`,
      counting the goals whose bump meets the reward condition. */
  function BumpGoals(goals: seq<Goal>, goalId: string): (r: GoalsOutcome)
    ensures |r.goals| == |goals|
    ensures forall i :: 0 <= i < |goals| && goals[i].id != goalId ==> r.goals[i] == goals[i]
    ensures forall i :: 0 <= i < |goals| && goals[i].id == goalId ==>
      r.goals[i] == goals[i].(progress := Bump(goals[i].progress))
    ensures r.fired > 0 <==>
      exists i :: 0 <= i < |goals| && goals[i].id == goalId && Fires(goals[i].progress)
  {
    GoalsOutcome(MapWhere(goals, GoalIs(goalId), (g: Goal) => g.(progress := Bump(g.progress))),
                 Fired(goals, goalId))
  }

  /** The section is the clicked one and its clicked goal meets the reward condition. */
  predicate Rewarding(sec: Section, sectionId: string, goalId: string) {
    sec.id == sectionId && Fired(sec.goals, goalId) > 0
  }

  /** How many times the reward callback runs. */
  function Rewards(sections: seq<Section>, sectionId: string, goalId: string, listening: bool): (n: nat)
    ensures n > 0 <==>
      listening && exists i :: 0 <= i < |sections| && Rewarding(sections[i], sectionId, goalId)
  {
    if |sections| == 0 || !listening then 0
    else
      (if sections[0].id == sectionId then Fired(sections[0].goals, goalId) else 0)
      + Rewards(sections[1..], sectionId, goalId, listening)
  }

  /** The sections after `addGoalProgress`, and how many times the reward
      callback ran. */
  datatype Outcome = Outcome(sections: seq<Section>, rewards: nat)

  /** `addGoalProgress(sectionId, goalId)`. `listening` says whether the
      companion has registered its reward callback. */
  function AddGoalProgress(sections: seq<Section>, sectionId: string, goalId: string, listening: bool): (o: Outcome)
    ensures |o.sections| == |sections|
    ensures forall i :: 0 <= i < |sections| && sections[i].id != sectionId ==> o.sections[i] == sections[i]
    ensures forall i :: 0 <= i < |sections| && sections[i].id == sectionId ==>
      o.sections[i] == sections[i].(goals := BumpGoals(sections[i].goals, goalId).goals)
    ensures o.rewards > 0 <==>
      listening && exists i :: 0 <= i < |sections| && Rewarding(sections[i], sectionId, goalId)
  {
    Outcome(MapWhere(sections, SectionIs(sectionId),
                     (sec: Section) => sec.(goals := BumpGoals(sec.goals, goalId).goals)),
            Rewards(sections, sectionId, goalId, listening))
  }

  predicate UniqueGoalIds(goals: seq<Goal>) {
    forall i, j :: 0 <= i < j < |goals| ==> goals[i].id != goals[j].id
  }

  predicate UniqueSections(sections: seq<Section>) {
    (forall i, j :: 0 <= i < j < |sections| ==> sections[i].id != sections[j].id)
    && (forall i :: 0 <= i < |sections| ==> UniqueGoalIds(sections[i].goals))
  }

  /** With distinct goal ids, at most one goal of a section fires. */
  lemma {:induction false} FiresAtMostOnce(goals: seq<Goal>, goalId: string)
    requires UniqueGoalIds(goals)
    ensures Fired(goals, goalId) <= 1
    decreases |goals|
  {
    if |goals| > 0 {
      var rest := goals[1..];
      assert UniqueGoalIds(rest) by {
        forall i, j | 0 <= i < j < |rest|
          ensures rest[i].id != rest[j].id
        {
          assert rest[i] == goals[i + 1] && rest[j] == goals[j + 1];
        }
      }
      FiresAtMostOnce(rest, goalId);
      if goals[0].id == goalId {
        assert forall i :: 0 <= i < |rest| ==> rest[i].id != goalId by {
          forall i | 0 <= i < |rest|
            ensures rest[i].id != goalId
          {
            assert rest[i] == goals[i + 1];
          }
        }
      }
    }
  }

  /** With distinct section ids and distinct goal ids, one click rewards at most once. */
  lemma RewardAtMostOnce(sections: seq<Section>, sectionId: string, goalId: string, listening: bool)
    requires UniqueSections(sections)
    ensures AddGoalProgress(sections, sectionId, goalId, listening).rewards <= 1
  {
    RewardsAtMostOnce(sections, sectionId, goalId, listening);
  }

  lemma {:induction false} RewardsAtMostOnce(sections: seq<Section>, sectionId: string, goalId: string, listening: bool)
    requires UniqueSections(sections)
    ensures Rewards(sections, sectionId, goalId, listening) <= 1
    decreases |sections|
  {
    if |sections| > 0 {
      var rest := sections[1..];
      assert UniqueSections(rest) by {
        forall i, j | 0 <= i < j < |rest|
          ensures rest[i].id != rest[j].id
        {
          assert rest[i] == sections[i + 1] && rest[j] == sections[j + 1];
        }
        forall i | 0 <= i < |rest|
          ensures UniqueGoalIds(rest[i].goals)
        {
          assert rest[i] == sections[i + 1];
        }
      }
      RewardsAtMostOnce(rest, sectionId, goalId, listening);
      if sections[0].id == sectionId {
        FiresAtMostOnce(sections[0].goals, goalId);
        assert forall i :: 0 <= i < |rest| ==> rest[i].id != sectionId by {
          forall i | 0 <= i < |rest|
            ensures rest[i].id != sectionId
          {
            assert rest[i] == sections[i + 1];
          }
        }
      }
    }
  }

  // ---------------------------------------------------------------------
  // Overdue goals.

  /** `goal.deadline &&`: both a missing and an empty deadline are unset. */
  predicate DeadlineSet(g: Goal) {
    g.deadline.Some? && g.deadline.value != ""
  }

  /** The goal list's test: `new Date(deadline) < today's midnight`
      compares time values, that is day numbers, and holds exactly when the
      deadline, read as a date, lies before today and the goal is
      unfinished. A deadline that does not read as a date compares false. */
  function IsOverdue(g: Goal, today: Date): (b: bool)
    requires Valid(today)
    ensures b <==>
      DeadlineSet(g) && g.progress < 100
      && Parse(g.deadline.value).Some? && Before(Parse(g.deadline.value).value, today)
  {
    DeadlineSet(g)
    && (match Parse(g.deadline.value)
        case None => false
        case Some(d) => DayNumberMonotone(d, today); DayNumber(d) < DayNumber(today))
    && g.progress < 100
  }

  /** The companion's test on one goal: the deadline string sorts before
      today's date string. */
  predicate IsLate(g: Goal, todayStr: string) {
    DeadlineSet(g) && LexLess(g.deadline.value, todayStr) && g.progress < 100
  }

  /** `sec.goals.some(g => …)`: some goal of the list is late. */
  function SomeLate(goals: seq<Goal>, todayStr: string): (b: bool)
    ensures b <==> exists j :: 0 <= j < |goals| && IsLate(goals[j], todayStr)
  {
    if |goals| == 0 then false
    else
      assert forall j :: 0 <= j < |goals| - 1 ==> goals[1..][j] == goals[j + 1];
      IsLate(goals[0], todayStr) || SomeLate(goals[1..], todayStr)
  }

  /** `isCatRunaway`: `identitySections.some(sec => sec.goals.some(…))`
      with the date string of `today`. The memo recomputes only when the
      sections change, so in the source `today` is the day of that change. */
  function IsCatRunaway(sections: seq<Section>, today: Date): (b: bool)
    ensures b <==>
      exists i, j :: 0 <= i < |sections| && 0 <= j < |sections[i].goals|
        && IsLate(sections[i].goals[j], Format(today))
  {
    if |sections| == 0 then false
    else
      assert forall i :: 0 <= i < |sections| - 1 ==> sections[1..][i] == sections[i + 1];
      SomeLate(sections[0].goals, Format(today)) || IsCatRunaway(sections[1..], today)
  }

  /** A set deadline is the date string of a day with a four-digit year. */
  predicate FourDigitDeadline(g: Goal) {
    DeadlineSet(g) ==>
      match Parse(g.deadline.value)
      case None => false
      case Some(d) => 0 <= d.year <= 9999 && Format(d) == g.deadline.value
  }

  /** For deadlines with four-digit years the two tests agree. */
  lemma LateIffOverdue(g: Goal, today: Date)
    requires FourDigitDeadline(g)
    requires Valid(today) && 0 <= today.year <= 9999
    ensures IsLate(g, Format(today)) <==> IsOverdue(g, today)
  {
    if DeadlineSet(g) {
      var d := Parse(g.deadline.value).value;
      FormatThenParse(d);
      LexLessFormat(d, today);
    }
  }

  /** So, while every deadline has a four-digit year and both tests read
      the same day, the cat runs away exactly when some goal shows as
      overdue. */
  lemma RunawayIffSomeOverdue(sections: seq<Section>, today: Date)
    requires forall i, j :: 0 <= i < |sections| && 0 <= j < |sections[i].goals| ==>
      FourDigitDeadline(sections[i].goals[j])
    requires Valid(today) && 0 <= today.year <= 9999
    ensures IsCatRunaway(sections, today) <==>
      exists i, j :: 0 <= i < |sections| && 0 <= j < |sections[i].goals|
        && IsOverdue(sections[i].goals[j], today)
  {
    forall i, j | 0 <= i < |sections| && 0 <= j < |sections[i].goals|
      ensures IsLate(sections[i].goals[j], Format(today)) <==> IsOverdue(sections[i].goals[j], today)
    {
      LateIffOverdue(sections[i].goals[j], today);
    }
  }

  /** What `<input type="date">` yields for a day: the year in at least
      four digits without a sign, then `-MM-DD`. */
  function DateInputValue(d: Date): string
    requires d.year >= 0
  {
    Padded(d.year, 4) + MonthDayField(d)
  }

  /** The ISO date form has no unsigned five-digit year, so `Parse` does
      not read such a date-input value as a date. */
  lemma FiveDigitYearUnread(d: Date)
    requires Valid(d) && 10000 <= d.year <= 99999
    ensures Parse(DateInputValue(d)).None?
  {
    assert Pow10(4) == 10000;
    LeadingDigit(d.year, 4, d.year / 10000);
    var ys, f, s := Padded(d.year, 4), MonthDayField(d), DateInputValue(d);
    MonthDayFieldShape(d);
    assert |s| == 11 && s[..5] == ys && s[8] == f[3] && s[5] == f[0];
  }

  /** A deadline entered for a year past 9999 has five year digits. It
      sorts before the date string of any day of the years 2000..9999, so
      an unfinished goal due then is late for the companion, while the
      ISO form does not read it as a date and the goal list does not show
      it overdue. */
  lemma FarDeadlineDisagrees(g: Goal, d: Date, today: Date)
    requires Valid(d) && 10000 <= d.year <= 19999
    requires Valid(today) && 2000 <= today.year <= 9999
    requires g.deadline == Some(DateInputValue(d)) && g.progress < 100
    ensures IsLate(g, Format(today)) && !IsOverdue(g, today)
  {
    assert Pow10(4) == 10000 && Pow10(3) == 1000;
    LeadingDigit(d.year, 4, 1);
    var c := today.year / 1000;
    LeadingDigit(today.year, 3, c);
    var s, t := DateInputValue(d), Format(today);
    assert s[0] == Padded(d.year, 4)[0] == '1';
    assert t[0] == Padded(today.year, 4)[0] == DigitChar(c);
    FiveDigitYearUnread(d);
  }

}
