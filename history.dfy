/** The aggregation behind the history screen: the 30-day calendar, its rows of
    seven days, the weekly tally per mood and the predominant mood. Instants and
    days are integers supplied by the caller instead of the system clock. */
module History {

  datatype Option<T> = None | Some(value: T)

  datatype Mood = MuyMal | Mal | Neutral | Bien | Excelente

  /** The keys of the weekly tally in the order they are declared, which is the
      order `Object.entries` walks them. */
  const Moods: seq<Mood> := [MuyMal, Mal, Neutral, Bien, Excelente]

  function Position(m: Mood): (i: nat)
    ensures i < |Moods| && Moods[i] == m
  {
    match m
    case MuyMal => 0
    case Mal => 1
    case Neutral => 2
    case Bien => 3
    case Excelente => 4
  }

  /** A stored check-in: its mood and its `created_at` instant in milliseconds
      since the epoch (UTC). */
  datatype MoodEntry = MoodEntry(mood: Mood, createdAt: int)

  const MsPerDay: int := 86400000

  /** The day key of an instant: the date part of its ISO-8601 (UTC) text, as a
      day count since the epoch. */
  function DayOf(instant: int): int {
    instant / MsPerDay
  }

  // ---------------------------------------------------------------------------
  // generateCalendar
  // ---------------------------------------------------------------------------

  /** One calendar slot: its day key (`fullDate`) and the mood shown, if any. */
  datatype CalendarDay = CalendarDay(day: int, mood: Option<Mood>)

  /** `history.find(entry => date part of entry == day)`: the index of the first
      entry, in list order, recorded on that day. */
  function FirstOn(history: seq<MoodEntry>, day: int): (r: Option<nat>)
    ensures r.Some? ==> r.value < |history| && DayOf(history[r.value].createdAt) == day
    ensures r.Some? ==> forall j | 0 <= j < r.value :: DayOf(history[j].createdAt) != day
    ensures r.None? ==> forall j | 0 <= j < |history| :: DayOf(history[j].createdAt) != day
  {
    if history == [] then None
    else if DayOf(history[0].createdAt) == day then Some(0)
    else match FirstOn(history[1..], day)
      case None => None
      case Some(k) => Some(k + 1)
  }

  /** `moodEntry?.mood || null`. */
  function MoodOn(history: seq<MoodEntry>, day: int): Option<Mood> {
    match FirstOn(history, day)
    case None => None
    case Some(k) => Some(history[k].mood)
  }

  /** The history as loaded: newest first. */
  predicate NewestFirst(history: seq<MoodEntry>) {
    forall i, j | 0 <= i < j < |history| :: history[i].createdAt >= history[j].createdAt
  }

  /** On a newest-first history the mood shown for a day is that of the latest
      entry of the day, and a day without entries shows none. */
  lemma MoodOnIsLatest(history: seq<MoodEntry>, day: int)
    requires NewestFirst(history)
    ensures MoodOn(history, day).None? <==>
      forall j | 0 <= j < |history| :: DayOf(history[j].createdAt) != day
    ensures MoodOn(history, day).Some? ==>
      exists k | 0 <= k < |history| ::
        DayOf(history[k].createdAt) == day && history[k].mood == MoodOn(history, day).value
        && forall j | 0 <= j < |history| && DayOf(history[j].createdAt) == day ::
             history[j].createdAt <= history[k].createdAt
  {
    match FirstOn(history, day)
    case None =>
    case Some(k) =>
      forall j | 0 <= j < |history| && DayOf(history[j].createdAt) == day
        ensures history[j].createdAt <= history[k].createdAt
      {
        assert k <= j;
      }
  }

  /** `generateCalendar`: one slot per day from 29 days before `today` up to
      `today`, oldest first. */
  method GenerateCalendar(history: seq<MoodEntry>, today: int) returns (calendar: seq<CalendarDay>)
    ensures |calendar| == 30
    ensures calendar[29].day == today
    ensures forall k | 0 <= k < 30 ::
      calendar[k] == CalendarDay(today - 29 + k, MoodOn(history, today - 29 + k))
  {
    calendar := [];
    var i := 29;
    while i >= 0
      invariant -1 <= i <= 29
      invariant |calendar| == 29 - i
      invariant forall k | 0 <= k < |calendar| ::
        calendar[k] == CalendarDay(today - 29 + k, MoodOn(history, today - 29 + k))
    {
      var date := today - i;
      calendar := calendar + [CalendarDay(date, MoodOn(history, date))];
      i := i - 1;
    }
  }

  // ---------------------------------------------------------------------------
  // organizeIntoWeeks
  // ---------------------------------------------------------------------------

  /** The rows laid end to end. */
  function Concat<T>(rows: seq<seq<T>>): seq<T> {
    if rows == [] then [] else Concat(rows[..|rows| - 1]) + rows[|rows| - 1]
  }

  function Min(a: int, b: int): int {
    if a <= b then a else b
  }

  /** `organizeIntoWeeks`: `calendar.slice(i, i + 7)` for i = 0, 7, 14, ... while
      i is below the length. */
  method OrganizeIntoWeeks<T>(calendar: seq<T>) returns (weeks: seq<seq<T>>)
    ensures Concat(weeks) == calendar
    ensures |weeks| == (|calendar| + 6) / 7
    ensures forall w | 0 <= w < |weeks| - 1 :: |weeks[w]| == 7
    ensures forall w | 0 <= w < |weeks| :: 1 <= |weeks[w]| <= 7
  {
    var n := |calendar|;
    weeks := [];
    var i := 0;
    while i < n
      invariant i == 7 * |weeks|
      invariant |weeks| > 0 ==> i - 7 < n
      invariant Concat(weeks) == calendar[..Min(i, n)]
      invariant forall w | 0 <= w < |weeks| :: 1 <= |weeks[w]| <= 7
      invariant i <= n ==> forall w | 0 <= w < |weeks| :: |weeks[w]| == 7
      invariant forall w | 0 <= w < |weeks| - 1 :: |weeks[w]| == 7
    {
      var row := calendar[i..Min(i + 7, n)];
      assert Concat(weeks + [row]) == Concat(weeks) + row by {
        assert (weeks + [row])[..|weeks|] == weeks;
      }
      assert calendar[..Min(i + 7, n)] == calendar[..i] + row;
      weeks := weeks + [row];
      i := i + 7;
    }
    assert calendar[..n] == calendar;
    assert 7 * |weeks| <= n + 6 < 7 * |weeks| + 7;
    DivideBySeven(n + 6, |weeks|);
  }

  lemma DivideBySeven(x: int, q: int)
    requires 7 * q <= x < 7 * q + 7
    ensures x / 7 == q
  {
  }

  /** The screen's calendar: 30 slots in five rows, four full weeks and a last
      row of two days. */
  method CalendarWeeks(history: seq<MoodEntry>, today: int) returns (weeks: seq<seq<CalendarDay>>)
    ensures |weeks| == 5 && |weeks[4]| == 2
    ensures forall w | 0 <= w < 4 :: |weeks[w]| == 7
    ensures |Concat(weeks)| == 30
    ensures forall k | 0 <= k < 30 ::
      Concat(weeks)[k] == CalendarDay(today - 29 + k, MoodOn(history, today - 29 + k))
  {
    var calendar := GenerateCalendar(history, today);
    weeks := OrganizeIntoWeeks(calendar);
    assert |Concat(weeks)| == 30;
    ConcatLength(weeks, 4);
  }

  lemma {:induction false} ConcatLength<T>(rows: seq<seq<T>>, full: nat)
    requires full == |rows| - 1
    requires forall w | 0 <= w < full :: |rows[w]| == 7
    ensures |Concat(rows)| == 7 * full + |rows[full]|
  {
    if full > 0 {
      var front := rows[..full];
      assert front[..full - 1] == rows[..full - 1];
      ConcatLength(front, full - 1);
      assert Concat(front) == Concat(rows[..full - 1]) + rows[full - 1];
    }
  }

  // ---------------------------------------------------------------------------
  // getWeeklyStats
  // ---------------------------------------------------------------------------

  /** `moodHistory.filter(entry => new Date(entry.created_at) >= sevenDaysAgo)`. */
  function InWindow(history: seq<MoodEntry>, since: int): (r: seq<MoodEntry>)
    ensures |r| <= |history|
    ensures forall e :: e in r <==> e in history && e.createdAt >= since
  {
    if history == [] then []
    else (if history[0].createdAt >= since then [history[0]] else []) + InWindow(history[1..], since)
  }

  /** The filter keeps every copy of an entry at or after the cutoff and no copy of
      any other. */
  lemma {:induction false} InWindowMultiplicity(history: seq<MoodEntry>, since: int)
    ensures forall e :: multiset(InWindow(history, since))[e]
                     == if e.createdAt >= since then multiset(history)[e] else 0
  {
    if history != [] {
      InWindowMultiplicity(history[1..], since);
      assert history == [history[0]] + history[1..];
    }
  }

  /** How many entries of `entries` carry mood m. */
  function CountMood(entries: seq<MoodEntry>, m: Mood): (n: nat)
    ensures n <= |entries|
  {
    if entries == [] then 0
    else CountMood(entries[..|entries| - 1], m) + (if entries[|entries| - 1].mood == m then 1 else 0)
  }

  /** The weekly tally: one count per mood, every mood present. */
  predicate IsTally(stats: map<Mood, nat>) {
    forall m: Mood :: m in stats
  }

  function Total(stats: map<Mood, nat>): nat
    requires IsTally(stats)
  {
    stats[MuyMal] + stats[Mal] + stats[Neutral] + stats[Bien] + stats[Excelente]
  }

  /** Every entry is counted under exactly one mood. */
  lemma {:induction false} CountsAddUp(entries: seq<MoodEntry>)
    ensures CountMood(entries, MuyMal) + CountMood(entries, Mal) + CountMood(entries, Neutral)
          + CountMood(entries, Bien) + CountMood(entries, Excelente) == |entries|
  {
    if entries != [] {
      CountsAddUp(entries[..|entries| - 1]);
    }
  }

  /** `getWeeklyStats`: start every mood at 0 and add one to the entry's own mood
      for each entry of the last seven days. */
  method GetWeeklyStats(history: seq<MoodEntry>, sevenDaysAgo: int) returns (stats: map<Mood, nat>)
    ensures IsTally(stats)
    ensures forall m: Mood :: stats[m] == CountMood(InWindow(history, sevenDaysAgo), m)
    ensures Total(stats) == |InWindow(history, sevenDaysAgo)|
  {
    var weekMoods := InWindow(history, sevenDaysAgo);
    stats := map[MuyMal := 0, Mal := 0, Neutral := 0, Bien := 0, Excelente := 0];
    forall m: Mood ensures m in stats && stats[m] == 0 {
      match m
      case MuyMal =>
      case Mal =>
      case Neutral =>
      case Bien =>
      case Excelente =>
    }
    var i := 0;
    while i < |weekMoods|
      invariant 0 <= i <= |weekMoods|
      invariant IsTally(stats)
      invariant forall m: Mood :: stats[m] == CountMood(weekMoods[..i], m)
    {
      var entry := weekMoods[i];
      assert weekMoods[..i + 1][..i] == weekMoods[..i];
      stats := stats[entry.mood := stats[entry.mood] + 1];
      i := i + 1;
    }
    assert weekMoods[..i] == weekMoods;
    CountsAddUp(weekMoods);
  }

  // ---------------------------------------------------------------------------
  // predominantMood
  // ---------------------------------------------------------------------------

  /** `Object.entries(stats).reduce((a, b) => stats[a] > stats[b] ? a : b)` over
      the keys `moods`, folding from the left. */
  function Reduce(stats: map<Mood, nat>, moods: seq<Mood>): (r: Mood)
    requires IsTally(stats) && moods != []
    ensures r in moods
    ensures forall k | 0 <= k < |moods| :: stats[moods[k]] <= stats[r]
  {
    if |moods| == 1 then moods[0]
    else
      var a := Reduce(stats, moods[..|moods| - 1]);
      var b := moods[|moods| - 1];
      if stats[a] > stats[b] then a else b
  }

  /** The fold keeps a key only while no later key reaches its count: some
      occurrence of the result is followed by strictly smaller counts only. */
  lemma {:induction false} ReduceIsLastMaximum(stats: map<Mood, nat>, moods: seq<Mood>)
    requires IsTally(stats) && moods != []
    ensures exists i | 0 <= i < |moods| :: moods[i] == Reduce(stats, moods)
              && forall k | i < k < |moods| :: stats[moods[k]] < stats[Reduce(stats, moods)]
  {
    var r := Reduce(stats, moods);
    var last := |moods| - 1;
    if |moods| == 1 {
      assert moods[0] == r;
    } else {
      var front := moods[..last];
      var a := Reduce(stats, front);
      if stats[a] > stats[moods[last]] {
        ReduceIsLastMaximum(stats, front);
        var i :| 0 <= i < |front| && front[i] == a
          && forall k | i < k < |front| :: stats[front[k]] < stats[a];
        assert moods[i] == r;
        forall k | i < k < |moods| ensures stats[moods[k]] < stats[r] {
          if k < last {
            assert moods[k] == front[k];
          }
        }
      } else {
        assert moods[last] == r;
      }
    }
  }

  function PredominantMood(stats: map<Mood, nat>): Mood
    requires IsTally(stats)
  {
    Reduce(stats, Moods)
  }

  /** The predominant mood has the largest count, and among moods sharing that
      count it is the last in the order muy_mal, mal, neutral, bien, excelente. */
  lemma PredominantIsLastMaximum(stats: map<Mood, nat>)
    requires IsTally(stats)
    ensures forall m: Mood :: stats[m] <= stats[PredominantMood(stats)]
    ensures forall m: Mood :: Position(m) > Position(PredominantMood(stats))
              ==> stats[m] < stats[PredominantMood(stats)]
  {
    var r := PredominantMood(stats);
    ReduceIsLastMaximum(stats, Moods);
    forall m: Mood ensures stats[m] <= stats[r] {
      assert Moods[Position(m)] == m;
    }
    var i :| 0 <= i < |Moods| && Moods[i] == r
      && forall k | i < k < |Moods| :: stats[Moods[k]] < stats[r];
    assert i == Position(r);
    forall m: Mood | Position(m) > Position(r) ensures stats[m] < stats[r] {
      assert Moods[Position(m)] == m;
    }
  }

  /** With no entries in the week every count is 0 and the answer is excelente. */
  lemma EmptyWeekIsExcelente(stats: map<Mood, nat>)
    requires IsTally(stats) && Total(stats) == 0
    ensures PredominantMood(stats) == Excelente
  {
    PredominantIsLastMaximum(stats);
  }

  // ---------------------------------------------------------------------------
  // The summary card
  // ---------------------------------------------------------------------------

  /** The three figures of the weekly summary card. */
  datatype Summary = Summary(predominant: Mood, records: nat, positiveDays: nat)

  /** The summary card: the predominant mood of the week, the number of records
      loaded (the whole 30-day history) and the week's bien + excelente count. */
  method WeeklySummary(history: seq<MoodEntry>, sevenDaysAgo: int) returns (s: Summary)
    ensures s.records == |history|
    ensures var week := InWindow(history, sevenDaysAgo);
      s.positiveDays == CountMood(week, Bien) + CountMood(week, Excelente)
    ensures var week := InWindow(history, sevenDaysAgo);
      forall m: Mood :: CountMood(week, m) <= CountMood(week, s.predominant)
        && (Position(m) > Position(s.predominant) ==> CountMood(week, m) < CountMood(week, s.predominant))
  {
    var stats := GetWeeklyStats(history, sevenDaysAgo);
    var predominant := PredominantMood(stats);
    PredominantIsLastMaximum(stats);
    s := Summary(predominant, |history|, stats[Bien] + stats[Excelente]);
  }
}
