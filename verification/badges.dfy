/** Points and badges: the badge a guest earns on submission (challenge page) and the badge
    card of the task history page with its next threshold and progress. Progress is an
    exact rational (`real`), not a floating-point number. */
module Badges {
  import opened Wrappers

  /** The badges from lowest to highest. */
  const Ladder: seq<string> := ["Beginner", "Intermediate", "Advanced", "Expert"]

  /** The badge recomputed after a guest's first completion: thresholds 200, 100 and 50.
      It is the highest badge of the ladder whose floor the points reach. */
  function BadgeFor(points: int): (r: string)
    ensures r in Ladder
    ensures Floor(r) <= points || r == "Beginner"
    ensures forall i :: 0 <= i < |Ladder| && Floor(Ladder[i]) <= points ==> Rank(Ladder[i]) <= Rank(r)
  {
    if points >= 200 then "Expert"
    else if points >= 100 then "Advanced"
    else if points >= 50 then "Intermediate"
    else "Beginner"
  }

  /** Position of a badge in the ladder Beginner < Intermediate < Advanced < Expert. */
  function Rank(badge: string): nat {
    if badge == "Expert" then 3
    else if badge == "Advanced" then 2
    else if badge == "Intermediate" then 1
    else 0
  }

  /** The points a badge starts at. */
  function Floor(badge: string): int {
    if badge == "Expert" then 200
    else if badge == "Advanced" then 100
    else if badge == "Intermediate" then 50
    else 0
  }

  /** More points never give a lower badge. */
  lemma BadgeMonotone(p: int, q: int)
    requires p <= q
    ensures Rank(BadgeFor(p)) <= Rank(BadgeFor(q))
  {
  }

  /** The badge card of the task history page. */
  datatype BadgeCard = BadgeCard(name: string, nextLevel: Option<int>, progress: real)

  /** `getBadge(points)`. */
  function GetBadge(points: int): (b: BadgeCard)
    ensures b.name == BadgeFor(points)
    ensures b.name == "Expert" <==> b.nextLevel.None?
  {
    if points >= 200 then BadgeCard("Expert", None, 100.0)
    else if points >= 100 then BadgeCard("Advanced", Some(200), ((points - 100) as real / 100.0) * 100.0)
    else if points >= 50 then BadgeCard("Intermediate", Some(100), ((points - 50) as real / 50.0) * 100.0)
    else BadgeCard("Beginner", Some(50), (points as real / 50.0) * 100.0)
  }

  /** Every badge below Expert points at the floor of the next badge up, above the current points; its
      progress is the percentage of the way from the badge's floor to that threshold; for a
      non-negative total that percentage lies in [0, 100). */
  lemma BadgeProgress(points: int)
    ensures var b := GetBadge(points);
      b.nextLevel.Some? ==>
        && b.nextLevel.value > points
        && Rank(BadgeFor(b.nextLevel.value)) == Rank(b.name) + 1
        && b.nextLevel.value == Floor(BadgeFor(b.nextLevel.value))
        && b.progress * (b.nextLevel.value - Floor(b.name)) as real == 100.0 * (points - Floor(b.name)) as real
        && (points >= 0 ==> 0.0 <= b.progress < 100.0)
  {
  }

  /** Expert is the top: no next level and a full bar. */
  lemma ExpertIsFull(points: int)
    requires points >= 200
    ensures GetBadge(points) == BadgeCard("Expert", None, 100.0)
  {
  }

  /** The progress block is rendered when `badge.nextLevel` is truthy (present and non-zero). */
  predicate ShowsProgress(b: BadgeCard) {
    b.nextLevel.Some? && b.nextLevel.value != 0
  }

  lemma ProgressShownIffBelowExpert(points: int)
    ensures ShowsProgress(GetBadge(points)) <==> points < 200
  {
  }

  /** A completed task of the history list. */
  datatype Task = Task(id: int, title: string, difficulty: string, points: int, category: string)

  /** `completedTasks.reduce((sum, task) => sum + task.points, 0)`, folding from the left. */
  function TotalPoints(tasks: seq<Task>): int {
    Reduce(tasks, 0)
  }

  function Reduce(tasks: seq<Task>, sum: int): int {
    if |tasks| == 0 then sum else Reduce(tasks[1..], sum + tasks[0].points)
  }

  /** Reference sum of the points of a list of tasks. */
  function SumPoints(tasks: seq<Task>): int {
    if |tasks| == 0 then 0 else SumPoints(tasks[..|tasks| - 1]) + tasks[|tasks| - 1].points
  }

  /** The left fold adds every task's points exactly once. */
  lemma {:induction false} ReduceIsSum(tasks: seq<Task>, sum: int)
    ensures Reduce(tasks, sum) == sum + SumPoints(tasks)
    decreases |tasks|
  {
    if |tasks| > 0 {
      ReduceIsSum(tasks[1..], sum + tasks[0].points);
      SumPointsCons(tasks);
    }
  }

  lemma {:induction false} SumPointsCons(tasks: seq<Task>)
    requires |tasks| > 0
    ensures SumPoints(tasks) == tasks[0].points + SumPoints(tasks[1..])
    decreases |tasks|
  {
    if |tasks| > 1 {
      SumPointsCons(tasks[..|tasks| - 1]);
      assert tasks[..|tasks| - 1][1..] == tasks[1..][..|tasks| - 2];
    }
  }

  /** `totalPoints` is the sum of the tasks' points. */
  lemma TotalPointsIsSum(tasks: seq<Task>)
    ensures TotalPoints(tasks) == SumPoints(tasks)
  {
    ReduceIsSum(tasks, 0);
  }
}
