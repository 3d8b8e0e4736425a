/**
 * The dashboard's task-completion heat map: one cell per day of the period,
 * counting the completed tasks last updated that day, laid out in week columns
 * that start on a Sunday. Days are day numbers (consecutive integers) and day 0
 * is a Sunday, so a day's weekday is its number modulo 7.
 */
module HeatMap {
  import opened Wrappers

  /** `getDay()`: 0 for Sunday through 6 for Saturday. */
  function Weekday(day: int): (w: int)
    ensures 0 <= w < 7
  {
    day % 7
  }

  const Sunday: int := 0
  const Saturday: int := 6

  // ---------------------------------------------------------------- colours

  /** The five cell colours, lightest first. */
  const Palette: seq<string> := ["bg-gray-100", "bg-green-200", "bg-green-300", "bg-green-400", "bg-green-500"]

  /** `getColor`: gray for no completions, then darker greens for 1-2, 3-5, 6-8 and 9 or more. */
  function GetColor(count: int): string {
    if count == 0 then "bg-gray-100"
    else if count <= 2 then "bg-green-200"
    else if count <= 5 then "bg-green-300"
    else if count <= 8 then "bg-green-400"
    else "bg-green-500"
  }

  /** The position of a colour in the palette (how dark it is). */
  function Shade(color: string): (k: nat)
    ensures color in Palette ==> k < |Palette| && Palette[k] == color
  {
    if color == Palette[0] then 0
    else if color == Palette[1] then 1
    else if color == Palette[2] then 2
    else if color == Palette[3] then 3
    else 4
  }

  /**
   * Every count gets a palette colour, the buckets are 0, 1-2, 3-5, 6-8 and 9+,
   * and more completions never give a lighter cell.
   */
  lemma GetColorBuckets(a: nat, b: nat)
    requires a <= b
    ensures GetColor(a) in Palette
    ensures Shade(GetColor(a)) <= Shade(GetColor(b))
    ensures Shade(GetColor(a)) == 0 <==> a == 0
    ensures Shade(GetColor(a)) == 4 <==> a >= 9
    ensures 1 <= a <= 2 <==> Shade(GetColor(a)) == 1
    ensures 3 <= a <= 5 <==> Shade(GetColor(a)) == 2
    ensures 6 <= a <= 8 <==> Shade(GetColor(a)) == 3
  {
  }

  // ---------------------------------------------------------------- counts

  /** A fetched task as the heat map sees it: whether it is completed and the day of `updatedAt`. */
  datatype TaskDay = TaskDay(completed: bool, updatedDay: int)

  /** One heat-map entry. */
  datatype Cell = Cell(day: int, count: nat)

  /** `eachDayOfInterval({ start, end })`: every day from `start` to `end`, in order. */
  function DaysBetween(start: int, end: int): (ds: seq<int>)
    ensures |ds| == if start <= end then end - start + 1 else 0
    ensures forall i :: 0 <= i < |ds| ==> ds[i] == start + i
    decreases end - start
  {
    if start > end then [] else [start] + DaysBetween(start + 1, end)
  }

  /** `dateCountMap.get(key) || 0`. */
  function Get(counts: map<int, nat>, day: int): nat {
    if day in counts then counts[day] else 0
  }

  /** The first `forEach`: every day of the period set to 0. */
  function ZeroCounts(days: seq<int>): (counts: map<int, nat>)
    ensures forall d :: Get(counts, d) == 0
    ensures forall d :: d in days ==> d in counts
  {
    map d | d in days :: 0
  }

  /** The second `forEach`, task by task: each completed task adds 1 to its day. */
  function Tally(counts: map<int, nat>, tasks: seq<TaskDay>): map<int, nat>
    decreases |tasks|
  {
    if |tasks| == 0 then counts
    else
      var t := tasks[|tasks| - 1];
      var before := Tally(counts, tasks[..|tasks| - 1]);
      if t.completed then before[t.updatedDay := Get(before, t.updatedDay) + 1] else before
  }

  /** Reference count: the completed tasks whose `updatedAt` falls on `day`. */
  function CountOn(tasks: seq<TaskDay>, day: int): nat {
    if |tasks| == 0 then 0
    else
      var t := tasks[|tasks| - 1];
      CountOn(tasks[..|tasks| - 1], day) + (if t.completed && t.updatedDay == day then 1 else 0)
  }

  /** The tally holds, for every day, the starting value plus that day's completed tasks. */
  lemma {:induction false} TallyCounts(counts: map<int, nat>, tasks: seq<TaskDay>, day: int)
    ensures Get(Tally(counts, tasks), day) == Get(counts, day) + CountOn(tasks, day)
    decreases |tasks|
  {
    if |tasks| > 0 {
      TallyCounts(counts, tasks[..|tasks| - 1], day);
    }
  }

  /**
   * `heatmapData`: nothing before the tasks have loaded; otherwise one cell per day
   * of the period, in day order, holding that day's tally.
   */
  function HeatmapData(fetched: Option<seq<TaskDay>>, start: int, end: int): seq<Cell> {
    match fetched
    case None => []
    case Some(tasks) =>
      var days := DaysBetween(start, end);
      var counts := Tally(ZeroCounts(days), tasks);
      seq(|days|, i requires 0 <= i < |days| => Cell(days[i], Get(counts, days[i])))
  }

  /**
   * Once loaded, the heat map has exactly one cell per day of the period, in day
   * order, and each cell counts exactly the completed tasks of that day (zero for
   * a day without any).
   */
  lemma HeatmapDataCounts(tasks: seq<TaskDay>, start: int, end: int)
    ensures var data := HeatmapData(Some(tasks), start, end);
            && |data| == |DaysBetween(start, end)|
            && forall i :: 0 <= i < |data| ==> data[i] == Cell(start + i, CountOn(tasks, start + i))
  {
    var days := DaysBetween(start, end);
    var data := HeatmapData(Some(tasks), start, end);
    forall i | 0 <= i < |data|
      ensures data[i] == Cell(start + i, CountOn(tasks, start + i))
    {
      TallyCounts(ZeroCounts(days), tasks, days[i]);
    }
  }

  function SumCounts(cells: seq<Cell>): nat {
    if |cells| == 0 then 0 else SumCounts(cells[..|cells| - 1]) + cells[|cells| - 1].count
  }

  /** The completed tasks whose day lies in `start..end`. */
  function CompletedIn(tasks: seq<TaskDay>, start: int, end: int): nat {
    if |tasks| == 0 then 0
    else
      var t := tasks[|tasks| - 1];
      CompletedIn(tasks[..|tasks| - 1], start, end) + (if t.completed && start <= t.updatedDay <= end then 1 else 0)
  }

  /** `CountOn` summed over the days `start..end`. */
  function SumDays(tasks: seq<TaskDay>, start: int, end: int): nat
    decreases end - start
  {
    if start > end then 0 else SumDays(tasks, start, end - 1) + CountOn(tasks, end)
  }

  lemma {:induction false} SumDaysSnoc(tasks: seq<TaskDay>, t: TaskDay, start: int, end: int)
    ensures SumDays(tasks + [t], start, end)
            == SumDays(tasks, start, end) + (if t.completed && start <= t.updatedDay <= end then 1 else 0)
    decreases end - start
  {
    assert (tasks + [t])[..|tasks + [t]| - 1] == tasks;
    if start <= end {
      SumDaysSnoc(tasks, t, start, end - 1);
    }
  }

  lemma {:induction false} SumDaysIsCompletedIn(tasks: seq<TaskDay>, start: int, end: int)
    ensures SumDays(tasks, start, end) == CompletedIn(tasks, start, end)
    decreases |tasks|
  {
    if |tasks| == 0 {
      SumDaysEmpty(start, end);
    } else {
      var init := tasks[..|tasks| - 1];
      assert tasks == init + [tasks[|tasks| - 1]];
      SumDaysIsCompletedIn(init, start, end);
      SumDaysSnoc(init, tasks[|tasks| - 1], start, end);
    }
  }

  lemma {:induction false} SumDaysEmpty(start: int, end: int)
    ensures SumDays([], start, end) == 0
    decreases end - start
  {
    if start <= end {
      SumDaysEmpty(start, end - 1);
    }
  }

  lemma {:induction false} SumCountsIsSumDays(tasks: seq<TaskDay>, start: int, cells: seq<Cell>)
    requires forall i :: 0 <= i < |cells| ==> cells[i] == Cell(start + i, CountOn(tasks, start + i))
    ensures SumCounts(cells) == SumDays(tasks, start, start + |cells| - 1)
    decreases |cells|
  {
    if |cells| > 0 {
      SumCountsIsSumDays(tasks, start, cells[..|cells| - 1]);
    }
  }

  /**
   * The cells of the loaded heat map add up to the number of completed tasks
   * dated inside the period: every such task is counted once, and no other task.
   */
  lemma HeatmapTotal(tasks: seq<TaskDay>, start: int, end: int)
    ensures SumCounts(HeatmapData(Some(tasks), start, end)) == CompletedIn(tasks, start, end)
  {
    HeatmapDataCounts(tasks, start, end);
    CellsTotal(tasks, start, end, HeatmapData(Some(tasks), start, end));
  }

  /** Cells holding `CountOn` for each day of `start..end`, in order, add up to the completed tasks in that period. */
  lemma CellsTotal(tasks: seq<TaskDay>, start: int, end: int, cells: seq<Cell>)
    requires |cells| == |DaysBetween(start, end)|
    requires forall i :: 0 <= i < |cells| ==> cells[i] == Cell(start + i, CountOn(tasks, start + i))
    ensures SumCounts(cells) == CompletedIn(tasks, start, end)
  {
    SumCountsIsSumDays(tasks, start, cells);
    SumDaysIsCompletedIn(tasks, start, end);
    assert start + |cells| - 1 == end || (start > end && |cells| == 0);
  }

  // ---------------------------------------------------------------- week grid

  /** The `while (firstDay.getDay() !== 0)` loop: step back one day at a time to a Sunday. */
  method GridStart(start: int) returns (first: int)
    ensures Weekday(first) == Sunday
    ensures first <= start < first + 7
  {
    first := start;
    while Weekday(first) != Sunday
      invariant first <= start
      invariant start - first == Weekday(start) - Weekday(first)
      decreases Weekday(first)
    {
      first := first - 1;
    }
  }

  /** `heatmapData.find(d => sameDay(d.date, day)) || { date: day, count: 0 }`. */
  function Lookup(data: seq<Cell>, day: int): (c: Cell)
    ensures c.day == day
  {
    if |data| == 0 then Cell(day, 0)
    else if data[0].day == day then data[0]
    else Lookup(data[1..], day)
  }

  /**
   * In the loaded heat map, a day of the period shows its completed-task count and a
   * padded day outside the period shows 0.
   */
  lemma {:induction false} LookupLoaded(tasks: seq<TaskDay>, start: int, end: int, day: int)
    ensures Lookup(HeatmapData(Some(tasks), start, end), day).count
            == if start <= day <= end then CountOn(tasks, day) else 0
  {
    HeatmapDataCounts(tasks, start, end);
    LookupConsecutive(HeatmapData(Some(tasks), start, end), tasks, start, day);
  }

  lemma {:induction false} LookupConsecutive(data: seq<Cell>, tasks: seq<TaskDay>, start: int, day: int)
    requires forall i :: 0 <= i < |data| ==> data[i] == Cell(start + i, CountOn(tasks, start + i))
    ensures Lookup(data, day).count == if start <= day < start + |data| then CountOn(tasks, day) else 0
    decreases |data|
  {
    if |data| > 0 && data[0].day != day {
      LookupConsecutive(data[1..], tasks, start + 1, day);
    }
  }

  /** The grid's cells: every day from the Sunday `first` to `end`, each with its looked-up count. */
  function GridCells(data: seq<Cell>, first: int, end: int): (cells: seq<Cell>)
    ensures forall i :: 0 <= i < |cells| ==> cells[i].day == first + i
  {
    var days := DaysBetween(first, end);
    seq(|days|, i requires 0 <= i < |days| => Lookup(data, days[i]))
  }

  /** Cells `0..|cells|` are consecutive days starting at a Sunday. */
  predicate FromSunday(cells: seq<Cell>) {
    forall i :: 0 <= i < |cells| ==> Weekday(cells[i].day) == i % 7
  }

  function Flatten(weeks: seq<seq<Cell>>): seq<Cell> {
    if |weeks| == 0 then [] else Flatten(weeks[..|weeks| - 1]) + weeks[|weeks| - 1]
  }

  /** The week's only Saturday, if any, is its last cell. */
  predicate SaturdayOnlyLast(w: seq<Cell>) {
    forall k :: 0 <= k < |w| - 1 ==> Weekday(w[k].day) != Saturday
  }

  /** Position `i + 1` in a week starting on Sunday: after a Saturday a new week begins. */
  lemma NextWeekday(i: nat)
    ensures i % 7 == Saturday ==> (i + 1) % 7 == 0
    ensures i % 7 != Saturday ==> (i + 1) % 7 == i % 7 + 1
  {
  }

  /**
   * The `forEach` that closes a week after each Saturday, then the final partial
   * week. Concatenating the weeks gives back the cells; every week is non-empty
   * and every week but the last ends on a Saturday. For a grid that starts on a
   * Sunday, every week but the last has seven days.
   */
  method ChunkWeeks(cells: seq<Cell>) returns (weeks: seq<seq<Cell>>)
    ensures Flatten(weeks) == cells
    ensures forall j :: 0 <= j < |weeks| ==> |weeks[j]| > 0 && SaturdayOnlyLast(weeks[j])
    ensures forall j :: 0 <= j < |weeks| - 1 ==> Weekday(weeks[j][|weeks[j]| - 1].day) == Saturday
    ensures FromSunday(cells) ==> forall j :: 0 <= j < |weeks| - 1 ==> |weeks[j]| == 7
    ensures FromSunday(cells) ==> forall j :: 0 <= j < |weeks| ==> |weeks[j]| <= 7
  {
    weeks := [];
    var current: seq<Cell> := [];
    var i := 0;
    while i < |cells|
      invariant 0 <= i <= |cells|
      invariant Flatten(weeks) + current == cells[..i]
      invariant forall j :: 0 <= j < |weeks| ==> |weeks[j]| > 0 && SaturdayOnlyLast(weeks[j])
      invariant forall j :: 0 <= j < |weeks| ==> Weekday(weeks[j][|weeks[j]| - 1].day) == Saturday
      invariant forall k :: 0 <= k < |current| ==> Weekday(current[k].day) != Saturday
      invariant FromSunday(cells) ==> |current| == i % 7 && forall j :: 0 <= j < |weeks| ==> |weeks[j]| == 7
    {
      var c := cells[i];
      assert cells[..i + 1] == cells[..i] + [c];
      NextWeekday(i);
      if Weekday(c.day) == Saturday {
        var w := current + [c];
        assert Flatten(weeks + [w]) == Flatten(weeks) + w by {
          assert (weeks + [w])[..|weeks + [w]| - 1] == weeks;
        }
        weeks := weeks + [w];
        current := [];
      } else {
        current := current + [c];
      }
      i := i + 1;
    }
    assert cells[..i] == cells;
    if |current| > 0 {
      assert Flatten(weeks + [current]) == Flatten(weeks) + current by {
        assert (weeks + [current])[..|weeks + [current]| - 1] == weeks;
      }
      weeks := weeks + [current];
    } else {
      assert Flatten(weeks) == cells;
    }
  }

  /**
   * The grid starts on a Sunday at most six days before the period, its padded
   * days count 0, and every day of the period shows its count.
   */
  lemma GridCellsCounts(tasks: seq<TaskDay>, start: int, end: int, first: int)
    requires Weekday(first) == Sunday && first <= start < first + 7
    ensures var cells := GridCells(HeatmapData(Some(tasks), start, end), first, end);
            && FromSunday(cells)
            && forall i :: 0 <= i < |cells| ==>
                 cells[i].count == if first + i < start then 0 else CountOn(tasks, first + i)
  {
    var data := HeatmapData(Some(tasks), start, end);
    var cells := GridCells(data, first, end);
    forall i | 0 <= i < |cells|
      ensures Weekday(cells[i].day) == i % 7
      ensures cells[i].count == if first + i < start then 0 else CountOn(tasks, first + i)
    {
      LookupLoaded(tasks, start, end, first + i);
      assert first % 7 == 0;
      assert (first + i) % 7 == i % 7;
    }
  }
}
