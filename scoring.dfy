/** Points per sweep, the level formula and the automatic-drop interval. */
module Scoring {

  /** Points for clearing n rows in one sweep: the table for one to four
      rows, 200 per row for any other count. */
  function Points(n: nat): nat {
    if n == 1 then 100
    else if n == 2 then 300
    else if n == 3 then 500
    else if n == 4 then 800
    else 200 * n
  }

  /** floor(lines / 10) + 1: one level per ten cleared rows. */
  function LevelFor(lines: nat): (level: int)
    ensures level >= 1
    ensures (level - 1) * 10 <= lines < level * 10
  {
    lines / 10 + 1
  }

  /** max(100, 700 - (level - 1) * 70): 700 ms at level 1, 70 ms faster for
      each level, never below 100 ms. */
  function IntervalFor(level: int): (ms: int)
    requires level >= 1
    ensures 100 <= ms <= 700
    ensures ms == 700 <==> level == 1
    ensures level >= 10 ==> ms == 100
    ensures level < 10 ==> ms == 700 - (level - 1) * 70
  {
    var slowed := 700 - (level - 1) * 70;
    if slowed > 100 then slowed else 100
  }

  /** The interval only shortens as the level rises. */
  lemma IntervalMonotone(l1: int, l2: int)
    requires 1 <= l1 <= l2
    ensures IntervalFor(l2) <= IntervalFor(l1)
  {
  }
}
