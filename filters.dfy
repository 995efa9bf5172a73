/** The habit list: its status, tag and search filters (`filteredHabits`)
    and its ordering by the saved habit order (`orderedFilteredHabits`). */
module Filters {
  import opened Seqs
  import opened Text
  import opened Domain

  // --------------------------------------------------------------- filters

  /** The status filter: every habit, the habits logged today, the others. */
  datatype StatusFilter = All | Completed | Pending

  predicate StatusMatches(status: StatusFilter, logs: seq<HabitLog>, today: int, h: Habit) {
    match status
    case All => true
    case Completed => LoggedOn(logs, h.id, today)
    case Pending => !LoggedOn(logs, h.id, today)
  }

  /** The tag filter: the reserved values "all" and "uncategorized" (a habit
      without tags), otherwise exact membership of the value. */
  predicate CategoryMatches(category: string, h: Habit) {
    if category == "all" then true
    else if category == "uncategorized" then |h.categories| == 0
    else category in h.categories
  }

  /** The search: the lower-cased query (untrimmed) occurs in the lower-cased
      name, description or space-joined tags. */
  predicate QueryMatches(query: string, h: Habit) {
    var q := ToLower(query);
    Contains(ToLower(h.name), q) || Contains(ToLower(h.description), q)
    || Contains(ToLower(Join(h.categories, " ")), q)
  }

  /** A habit the list shows: it passes all three filters, the search only
      when the query is not blank. */
  predicate Shown(logs: seq<HabitLog>, today: int, status: StatusFilter, category: string, query: string, h: Habit) {
    StatusMatches(status, logs, today, h) && CategoryMatches(category, h)
    && (Trim(query) == "" || QueryMatches(query, h))
  }

  function StatusTest(status: StatusFilter, logs: seq<HabitLog>, today: int): Habit -> bool {
    (h: Habit) => StatusMatches(status, logs, today, h)
  }

  function CategoryTest(category: string): Habit -> bool {
    (h: Habit) => CategoryMatches(category, h)
  }

  function QueryTest(query: string): Habit -> bool {
    (h: Habit) => QueryMatches(query, h)
  }

  function ShownTest(logs: seq<HabitLog>, today: int, status: StatusFilter, category: string, query: string): Habit -> bool {
    (h: Habit) => Shown(logs, today, status, category, query, h)
  }

  /** The list the status filter leaves: all habits, or those that pass it. */
  function StatusFiltered(habits: seq<Habit>, logs: seq<HabitLog>, today: int, status: StatusFilter): (r: seq<Habit>)
    ensures r == Filter(habits, StatusTest(status, logs, today))
  {
    if status == All then
      FilterKeepsAll(habits, StatusTest(status, logs, today));
      habits
    else Filter(habits, StatusTest(status, logs, today))
  }

  /** `filteredHabits`: the status filter, then the tag filter, then (for a
      non-blank query) the search. */
  function FilteredHabits(habits: seq<Habit>, logs: seq<HabitLog>, today: int,
                          status: StatusFilter, category: string, query: string): (r: seq<Habit>)
    ensures forall h :: h in r <==> h in habits && Shown(logs, today, status, category, query, h)
  {
    var byCategory := Filter(StatusFiltered(habits, logs, today, status), CategoryTest(category));
    if Trim(query) == "" then byCategory
    else Filter(byCategory, QueryTest(query))
  }

  /** The filters compose as one: the list is the habits that pass all of
      them, in their original order. */
  lemma FilteredHabitsIsOneFilter(habits: seq<Habit>, logs: seq<HabitLog>, today: int,
                                  status: StatusFilter, category: string, query: string)
    ensures FilteredHabits(habits, logs, today, status, category, query)
            == Filter(habits, ShownTest(logs, today, status, category, query))
  {
    var shown := ShownTest(logs, today, status, category, query);
    var byStatus := StatusTest(status, logs, today);
    var both := (h: Habit) => StatusMatches(status, logs, today, h) && CategoryMatches(category, h);
    FilterFilter(habits, byStatus, CategoryTest(category), both);
    if Trim(query) == "" {
      FilterFilter(habits, both, (h: Habit) => true, shown);
      FilterKeepsAll(Filter(habits, both), (h: Habit) => true);
    } else {
      FilterFilter(habits, both, QueryTest(query), shown);
    }
  }

  // -------------------------------------------------------------- ordering

  /** `Number.MAX_SAFE_INTEGER`, the position of a habit missing from the
      saved order. */
  const MaxSafeInteger: int := 9007199254740991

  /** A habit's position in the saved order, `MaxSafeInteger` when absent. */
  function Rank(order: seq<string>, id: string): (r: int)
    ensures id in order ==> 0 <= r < |order| && order[r] == id
    ensures id !in order ==> r == MaxSafeInteger
  {
    var i := IndexOf(order, id);
    if i == -1 then MaxSafeInteger else i
  }

  predicate SortedByRank(order: seq<string>, xs: seq<Habit>) {
    forall i, j :: 0 <= i < j < |xs| ==> Rank(order, xs[i].id) <= Rank(order, xs[j].id)
  }

  /** Inserts `h` before the first habit whose rank is not below its own. */
  function InsertByRank(order: seq<string>, h: Habit, s: seq<Habit>): (r: seq<Habit>)
    ensures multiset(r) == multiset(s) + multiset{h}
  {
    if |s| == 0 || Rank(order, h.id) <= Rank(order, s[0].id) then [h] + s
    else
      assert s == [s[0]] + s[1..];
      [s[0]] + InsertByRank(order, h, s[1..])
  }

  /** A stable sort by rank (insertion sort from the back). */
  function SortByRank(order: seq<string>, xs: seq<Habit>): (r: seq<Habit>)
    ensures multiset(r) == multiset(xs)
  {
    if |xs| == 0 then []
    else
      assert xs == [xs[0]] + xs[1..];
      InsertByRank(order, xs[0], SortByRank(order, xs[1..]))
  }

  /** `orderedFilteredHabits`: a copy of the filtered list, stably sorted by
      rank; the comparator's difference of two ranks is exact, both being
      at most `MaxSafeInteger`. */
  function OrderedFilteredHabits(filtered: seq<Habit>, order: seq<string>): (r: seq<Habit>)
    ensures |r| == |filtered|
  {
    if |filtered| == 0 then []
    else
      assert |SortByRank(order, filtered)| == |multiset(filtered)|;
      SortByRank(order, filtered)
  }

  /** Every habit of `xs` has rank at least `b`. */
  predicate RanksAtLeast(order: seq<string>, xs: seq<Habit>, b: int) {
    forall i :: 0 <= i < |xs| ==> Rank(order, xs[i].id) >= b
  }

  /** Insertion keeps a lower bound on the ranks. */
  lemma {:induction false} InsertByRankAtLeast(order: seq<string>, h: Habit, s: seq<Habit>, b: int)
    requires RanksAtLeast(order, s, b) && Rank(order, h.id) >= b
    ensures RanksAtLeast(order, InsertByRank(order, h, s), b)
  {
    if |s| > 0 && Rank(order, h.id) > Rank(order, s[0].id) {
      var tail := s[1..];
      assert forall i :: 0 <= i < |tail| ==> tail[i] == s[i + 1];
      InsertByRankAtLeast(order, h, tail, b);
      var t := InsertByRank(order, h, tail);
      var r := [s[0]] + t;
      assert forall i :: 0 < i < |r| ==> r[i] == t[i - 1];
    }
  }

  lemma {:induction false} InsertByRankSorted(order: seq<string>, h: Habit, s: seq<Habit>)
    requires SortedByRank(order, s)
    ensures SortedByRank(order, InsertByRank(order, h, s))
  {
    if |s| > 0 && Rank(order, h.id) > Rank(order, s[0].id) {
      var tail := s[1..];
      assert forall i :: 0 <= i < |tail| ==> tail[i] == s[i + 1];
      InsertByRankSorted(order, h, tail);
      InsertByRankAtLeast(order, h, tail, Rank(order, s[0].id));
      var t := InsertByRank(order, h, tail);
      var r := [s[0]] + t;
      forall i, j | 0 <= i < j < |r| ensures Rank(order, r[i].id) <= Rank(order, r[j].id) {
        assert r[j] == t[j - 1];
        if i > 0 {
          assert r[i] == t[i - 1];
        }
      }
    } else {
      var r := [h] + s;
      assert r == InsertByRank(order, h, s);
      forall i, j | 0 <= i < j < |r| ensures Rank(order, r[i].id) <= Rank(order, r[j].id) {
        assert r[j] == s[j - 1];
        if i > 0 {
          assert r[i] == s[i - 1];
        } else if j > 1 {
          assert Rank(order, s[0].id) <= Rank(order, s[j - 1].id);
        }
      }
    }
  }

  lemma {:induction false} SortByRankSorted(order: seq<string>, xs: seq<Habit>)
    ensures SortedByRank(order, SortByRank(order, xs))
  {
    if |xs| > 0 {
      SortByRankSorted(order, xs[1..]);
      InsertByRankSorted(order, xs[0], SortByRank(order, xs[1..]));
    }
  }

  /** The habits of rank `k`. */
  function RankIs(order: seq<string>, k: int): Habit -> bool {
    (h: Habit) => Rank(order, h.id) == k
  }

  /** Insertion places `h` ahead of every habit of its own rank. */
  lemma {:induction false} InsertByRankFilter(order: seq<string>, h: Habit, s: seq<Habit>, k: int)
    ensures Filter(InsertByRank(order, h, s), RankIs(order, k))
            == (if Rank(order, h.id) == k then [h] else []) + Filter(s, RankIs(order, k))
  {
    var p := RankIs(order, k);
    if |s| == 0 || Rank(order, h.id) <= Rank(order, s[0].id) {
      assert ([h] + s)[1..] == s;
    } else {
      InsertByRankFilter(order, h, s[1..], k);
      var t := InsertByRank(order, h, s[1..]);
      assert ([s[0]] + t)[1..] == t;
    }
  }

  /** Stability: among habits of equal rank the sort keeps the list order. */
  lemma {:induction false} SortByRankStable(order: seq<string>, xs: seq<Habit>, k: int)
    ensures Filter(SortByRank(order, xs), RankIs(order, k)) == Filter(xs, RankIs(order, k))
  {
    if |xs| > 0 {
      SortByRankStable(order, xs[1..], k);
      InsertByRankFilter(order, xs[0], SortByRank(order, xs[1..]), k);
    }
  }

  /** The ordered list is a permutation of the filtered one, sorted by rank,
      and for every rank lists the habits of that rank in their filtered
      order. */
  lemma OrderedFilteredHabitsSpec(filtered: seq<Habit>, order: seq<string>)
    ensures var r := OrderedFilteredHabits(filtered, order);
            multiset(r) == multiset(filtered)
            && SortedByRank(order, r)
            && forall k :: Filter(r, RankIs(order, k)) == Filter(filtered, RankIs(order, k))
  {
    SortByRankSorted(order, filtered);
    forall k ensures Filter(OrderedFilteredHabits(filtered, order), RankIs(order, k)) == Filter(filtered, RankIs(order, k)) {
      SortByRankStable(order, filtered, k);
    }
  }

  /** Habits missing from the saved order come after every habit in it, in
      their filtered order. */
  lemma AbsentHabitsLast(filtered: seq<Habit>, order: seq<string>)
    requires |order| <= MaxSafeInteger
    ensures var r := OrderedFilteredHabits(filtered, order);
            (forall i, j :: 0 <= i < j < |r| && r[i].id !in order ==> r[j].id !in order)
            && Filter(r, RankIs(order, MaxSafeInteger)) == Filter(filtered, (h: Habit) => h.id !in order)
  {
    OrderedFilteredHabitsSpec(filtered, order);
    var absent := (h: Habit) => h.id !in order;
    FilterFilter(filtered, RankIs(order, MaxSafeInteger), (h: Habit) => true, absent);
    FilterKeepsAll(Filter(filtered, RankIs(order, MaxSafeInteger)), (h: Habit) => true);
  }
}
