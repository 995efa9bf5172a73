/** The saved habit order: moving a habit one place (`moveHabit`), dragging
    it before or after another (`reorderHabit`) and reconciling the order
    with the current habits. */
module Ordering {
  import opened Seqs
  import opened Domain

  /** `.filter(Boolean)` on ids: drops the empty id. */
  function NonBlankIds(ids: seq<string>): (r: seq<string>)
    ensures forall x :: x in r <==> x in ids && x != ""
  {
    Filter(ids, (x: string) => x != "")
  }

  /** The order the two operations start from: the saved order, or the habit
      list's order when nothing is saved, without empty ids. */
  function BaseOrder(prev: seq<string>, habits: seq<Habit>): (r: seq<string>)
    ensures "" !in r
    ensures |prev| > 0 ==> forall x :: x in r <==> x in prev && x != ""
    ensures |prev| == 0 ==> forall x :: x in r <==> x in HabitIds(habits) && x != ""
  {
    NonBlankIds(if |prev| > 0 then prev else HabitIds(habits))
  }

  // ---------------------------------------------------------------- moving

  datatype Direction = Up | Down

  /** The neighbouring position in `direction`, kept inside the list. */
  function Target(n: int, i: int, direction: Direction): int {
    match direction
    case Up => Max(0, i - 1)
    case Down => Min(n - 1, i + 1)
  }

  /** `moveHabit`: swaps the habit with its neighbour; an unknown id or a move
      past either end leaves the order as it is. */
  function Moved<T(==)>(base: seq<T>, id: T, direction: Direction): (r: seq<T>)
    ensures |r| == |base| && multiset(r) == multiset(base)
    ensures id !in base ==> r == base
    ensures id in base ==>
              var i := IndexOf(base, id);
              var t := Target(|base|, i, direction);
              0 <= t < |base| && r[t] == id && r[i] == base[t]
              && forall k :: 0 <= k < |base| && k != i && k != t ==> r[k] == base[k]
  {
    var i := IndexOf(base, id);
    if i == -1 then base
    else
      var t := Target(|base|, i, direction);
      if t == i then base
      else base[i := base[t]][t := base[i]]
  }

  /** Moving up and then down again restores the order, unless the habit was
      already first. */
  lemma MoveUpThenDown<T>(base: seq<T>, id: T)
    requires id in base && IndexOf(base, id) > 0
    ensures Moved(Moved(base, id, Up), id, Down) == base
  {
    var i := IndexOf(base, id);
    var r := Moved(base, id, Up);
    assert r == base[i := base[i - 1]][i - 1 := id];
    assert r[..i - 1] == base[..i - 1];
    assert id !in base[..i - 1] by {
      IndexOfFirst(base, id);
      assert base[..i - 1] == base[..i][..i - 1];
    }
    IndexOfAt(r, id, i - 1);
    assert Moved(r, id, Down) == r[i - 1 := base[i - 1]][i := id];
  }

  /** With distinct ids, moving down and then up again restores the order,
      unless the habit was already last. */
  lemma MoveDownThenUp<T>(base: seq<T>, id: T)
    requires NoDups(base) && id in base && IndexOf(base, id) < |base| - 1
    ensures Moved(Moved(base, id, Down), id, Up) == base
  {
    var i := IndexOf(base, id);
    var r := Moved(base, id, Down);
    var front := r[..i + 1];
    forall k | 0 <= k < |front| ensures front[k] != id {
      if k < i {
        assert r[k] == base[k] && base[..i][k] == base[k];
      } else {
        assert r[k] == base[i + 1];
      }
    }
    IndexOfAt(r, id, i + 1);
  }

  /** At either end the move does nothing. */
  lemma MoveAtEnds<T>(base: seq<T>, id: T)
    requires id in base
    ensures IndexOf(base, id) == 0 ==> Moved(base, id, Up) == base
    ensures IndexOf(base, id) == |base| - 1 ==> Moved(base, id, Down) == base
  {
  }

  // -------------------------------------------------------------- dragging

  /** The order without the entry at `i`. */
  function RemoveAt<T>(xs: seq<T>, i: int): (r: seq<T>)
    requires 0 <= i < |xs|
    ensures |r| == |xs| - 1
  {
    xs[..i] + xs[i + 1..]
  }

  /** `x` placed at position `at`. */
  function InsertAt<T>(xs: seq<T>, at: int, x: T): (r: seq<T>)
    requires 0 <= at <= |xs|
    ensures |r| == |xs| + 1 && r[at] == x
  {
    xs[..at] + [x] + xs[at..]
  }

  /** `reorderHabit` as written: after taking the source out, it inserts at
      the target's old position (plus one for "after" when the source came
      after the target). */
  function ReorderedAsWritten<T(==)>(base: seq<T>, source: T, target: T, after: bool): (r: seq<T>)
    ensures source in base && target in base ==> |r| == |base|
    ensures source !in base || target !in base ==> r == base
  {
    var si := IndexOf(base, source);
    var ti := IndexOf(base, target);
    if si == -1 || ti == -1 then base
    else
      var next := RemoveAt(base, si);
      InsertAt(next, WrittenIndex(|next|, si, ti, after), source)
  }

  /** Where the written drag puts the source back: the target's old index,
      plus one for "after" when the source came after the target, clamped
      to the end. */
  function WrittenIndex(len: nat, si: int, ti: nat, after: bool): (at: nat)
    ensures at <= len
  {
    Min(len, if after then ti + (if si < ti then 0 else 1) else ti)
  }

  /** The written drag, too, only moves the source: the ids are a
      permutation of the old ones. */
  lemma ReorderedAsWrittenPermutes<T>(base: seq<T>, source: T, target: T, after: bool)
    ensures multiset(ReorderedAsWritten(base, source, target, after)) == multiset(base)
  {
    if source in base && target in base {
      var si, ti := IndexOf(base, source), IndexOf(base, target);
      var at := WrittenIndex(|base| - 1, si, ti, after);
      WrittenIsInsert(base, source, target, after, si, ti);
      RemoveAtMultiset(base, si);
      InsertAtMultiset(RemoveAt(base, si), at, source);
    }
  }

  /** Dragging the first of three habits "before" the last puts it after
      the last: once the source is out, the target has moved down a place. */
  lemma ReorderBeforeLandsAfter()
    ensures ReorderedAsWritten(["a", "b", "c"], "a", "c", false) == ["b", "c", "a"]
  {
    var base := ["a", "b", "c"];
    IndexOfAt(base, "a", 0);
    assert base[..2] == ["a", "b"];
    IndexOfAt(base, "c", 2);
    assert RemoveAt(base, 0) == ["b", "c"];
  }

  /** `reorderHabit` as intended: the source lands right before (or right
      after) the target's position in the list without the source. */
  function Reordered<T(==)>(base: seq<T>, source: T, target: T, after: bool): (r: seq<T>)
    ensures source in base && target in base && source != target ==> |r| == |base|
    ensures source !in base || target !in base || source == target ==> r == base
  {
    var si := IndexOf(base, source);
    var ti := IndexOf(base, target);
    if si == -1 || ti == -1 || si == ti then base
    else
      var next := RemoveAt(base, si);
      var tj := if si < ti then ti - 1 else ti;
      InsertAt(next, if after then tj + 1 else tj, source)
  }

  /** Every id but `x`. */
  function Other<T(==)>(x: T): T -> bool {
    (y: T) => y != x
  }

  /** With distinct ids, taking out the entry at `si` is filtering out its
      id. */
  lemma RemoveAtIsFilter<T(!new)>(base: seq<T>, si: int)
    requires NoDups(base) && 0 <= si < |base|
    ensures RemoveAt(base, si) == Filter(base, Other(base[si]))
    ensures base[si] !in RemoveAt(base, si)
  {
    var x := base[si];
    var a, b := base[..si], base[si + 1..];
    assert base == a + [x] + b;
    OthersBefore(base, si);
    OthersAfter(base, si, b);
    FilterDropsOne(a, x, b, Other(x));
  }

  /** With distinct ids, the entries before `si` all differ from it. */
  lemma OthersBefore<T(!new)>(base: seq<T>, si: int)
    requires NoDups(base) && 0 <= si < |base|
    ensures forall k :: 0 <= k < si ==> base[..si][k] != base[si]
  {
    forall k | 0 <= k < si ensures base[..si][k] != base[si] {
      assert base[..si][k] == base[k];
    }
  }

  /** With distinct ids, the entries after `si` all differ from it. */
  lemma OthersAfter<T(!new)>(base: seq<T>, si: int, b: seq<T>)
    requires NoDups(base) && 0 <= si < |base| && b == base[si + 1..]
    ensures forall k :: 0 <= k < |b| ==> b[k] != base[si]
  {
    forall k | 0 <= k < |b| ensures b[k] != base[si] {
      assert b[k] == base[si + 1 + k];
    }
  }

  /** Taking out an entry takes one copy of it out of the multiset. */
  lemma RemoveAtMultiset<T>(base: seq<T>, si: int)
    requires 0 <= si < |base|
    ensures multiset(base) == multiset(RemoveAt(base, si)) + multiset{base[si]}
  {
    assert base == base[..si] + [base[si]] + base[si + 1..];
  }

  /** Taking out the entry at `si` moves each later entry down one place. */
  lemma RemoveAtShifts<T>(base: seq<T>, si: int, ti: int)
    requires 0 <= si < |base| && 0 <= ti < |base| && si != ti
    ensures RemoveAt(base, si)[if si < ti then ti - 1 else ti] == base[ti]
  {
  }

  /** Putting an id in adds one copy of it to the multiset. */
  lemma InsertAtMultiset<T>(next: seq<T>, at: int, x: T)
    requires 0 <= at <= |next|
    ensures multiset(InsertAt(next, at, x)) == multiset(next) + multiset{x}
  {
    assert next == next[..at] + next[at..];
  }

  /** Putting a new id into a list: it is found where it was put, and the
      entries before and after it are the old ones. */
  lemma InsertAtFacts<T>(next: seq<T>, at: int, x: T)
    requires 0 <= at <= |next| && x !in next
    ensures IndexOf(InsertAt(next, at, x), x) == at
    ensures forall k :: 0 <= k < at ==> InsertAt(next, at, x)[k] == next[k]
    ensures forall k :: at < k <= |next| ==> InsertAt(next, at, x)[k] == next[k - 1]
  {
    var r := InsertAt(next, at, x);
    assert r[..at] == next[..at];
    IndexOfAt(r, x, at);
  }

  /** Putting a new id into a list keeps the others in their order. */
  lemma InsertAtFilter<T(!new)>(next: seq<T>, at: int, x: T)
    requires 0 <= at <= |next| && x !in next
    ensures Filter(InsertAt(next, at, x), Other(x)) == next
  {
    var a, b := next[..at], next[at..];
    assert next == a + b;
    assert InsertAt(next, at, x) == a + [x] + b;
    forall k | 0 <= k < |a| ensures Other(x)(a[k]) {
      assert a[k] == next[k];
    }
    forall k | 0 <= k < |b| ensures Other(x)(b[k]) {
      assert b[k] == next[at + k];
    }
    FilterDropsOne(a, x, b, Other(x));
  }

  /** Inserting before or after the entry at `tj` puts the new id right
      next to that entry, on that side. */
  lemma InsertNextTo<T>(next: seq<T>, tj: int, x: T, after: bool)
    requires 0 <= tj < |next| && x !in next
    ensures var r := InsertAt(next, if after then tj + 1 else tj, x);
            var j := IndexOf(r, x);
            if after then 0 < j && r[j - 1] == next[tj] else j + 1 < |r| && r[j + 1] == next[tj]
  {
    var at := if after then tj + 1 else tj;
    InsertAtFacts(next, at, x);
  }

  /** With distinct ids, the entry taken out is no longer in the list. */
  lemma RemoveAtDrops<T>(base: seq<T>, si: int)
    requires NoDups(base) && 0 <= si < |base|
    ensures base[si] !in RemoveAt(base, si)
  {
    var r := RemoveAt(base, si);
    forall k | 0 <= k < |r| ensures r[k] != base[si] {
      if k < si {
        assert r[k] == base[k];
      } else {
        assert r[k] == base[k + 1];
      }
    }
  }

  /** The intended drag is the source taken out and put back before or
      after the target's position in what is left. */
  lemma ReorderedIsInsert<T>(base: seq<T>, source: T, target: T, after: bool) returns (si: int, ti: int, tj: int)
    requires source in base && target in base && source != target
    ensures si == IndexOf(base, source) && 0 <= si < |base| && base[si] == source
    ensures ti == IndexOf(base, target) && 0 <= ti < |base| && base[ti] == target && si != ti
    ensures tj == (if si < ti then ti - 1 else ti) && 0 <= tj < |base| - 1 && RemoveAt(base, si)[tj] == target
    ensures Reordered(base, source, target, after) == InsertAt(RemoveAt(base, si), if after then tj + 1 else tj, source)
  {
    si := IndexOf(base, source);
    ti := IndexOf(base, target);
    RemoveAtShifts(base, si, ti);
    tj := if si < ti then ti - 1 else ti;
  }

  /** The intended drag only moves the source. */
  lemma ReorderedPermutes<T>(base: seq<T>, source: T, target: T, after: bool)
    requires source in base && target in base && source != target
    ensures multiset(Reordered(base, source, target, after)) == multiset(base)
  {
    var si, _, tj := ReorderedIsInsert(base, source, target, after);
    var next := RemoveAt(base, si);
    var at := if after then tj + 1 else tj;
    RemoveAtMultiset(base, si);
    InsertAtMultiset(next, at, source);
    calc {
      multiset(Reordered(base, source, target, after));
      multiset(InsertAt(next, at, source));
      multiset(next) + multiset{source};
      multiset(base);
    }
  }

  /** The intended drag puts the source right next to the target, on the
      requested side. */
  lemma ReorderedNextToTarget<T>(base: seq<T>, source: T, target: T, after: bool)
    requires NoDups(base) && source in base && target in base && source != target
    ensures var r := Reordered(base, source, target, after);
            var j := IndexOf(r, source);
            if after then 0 < j && r[j - 1] == target else j + 1 < |r| && r[j + 1] == target
  {
    var si, _, tj := ReorderedIsInsert(base, source, target, after);
    var next := RemoveAt(base, si);
    RemoveAtDrops(base, si);
    InsertNextTo(next, tj, source, after);
  }

  /** The intended drag keeps every other habit in its relative order. */
  lemma ReorderedKeepsOthers<T(!new)>(base: seq<T>, source: T, target: T, after: bool)
    requires NoDups(base) && source in base && target in base && source != target
    ensures Filter(Reordered(base, source, target, after), Other(source)) == Filter(base, Other(source))
  {
    var si, _, tj := ReorderedIsInsert(base, source, target, after);
    RemoveAtIsFilter(base, si);
    InsertAtFilter(RemoveAt(base, si), if after then tj + 1 else tj, source);
  }

  /** With distinct ids, the intended drag is a permutation that puts the
      source right next to the target, on the requested side, and keeps
      every other habit in its relative order. */
  lemma ReorderedPlacesSource<T(!new)>(base: seq<T>, source: T, target: T, after: bool)
    requires NoDups(base) && source in base && target in base && source != target
    ensures var r := Reordered(base, source, target, after);
            var j := IndexOf(r, source);
            multiset(r) == multiset(base)
            && (if after then 0 < j && r[j - 1] == target else j + 1 < |r| && r[j + 1] == target)
            && Filter(r, Other(source)) == Filter(base, Other(source))
  {
    ReorderedPermutes(base, source, target, after);
    ReorderedNextToTarget(base, source, target, after);
    ReorderedKeepsOthers(base, source, target, after);
  }

  /** The corrected drag agrees with the written one except for "before" with
      the source above the target. */
  lemma ReorderedAgrees<T>(base: seq<T>, source: T, target: T, after: bool)
    requires source in base && target in base && source != target
    requires after || IndexOf(base, target) < IndexOf(base, source)
    ensures Reordered(base, source, target, after) == ReorderedAsWritten(base, source, target, after)
  {
    var si, ti, tj := ReorderedIsInsert(base, source, target, after);
    var at := if after then tj + 1 else tj;
    WrittenIsInsert(base, source, target, after, si, ti);
    assert WrittenIndex(|base| - 1, si, ti, after) == at;
  }

  /** The written drag, once the two positions are known. */
  lemma WrittenIsInsert<T>(base: seq<T>, source: T, target: T, after: bool, si: int, ti: int)
    requires si == IndexOf(base, source) && 0 <= si < |base|
    requires ti == IndexOf(base, target) && 0 <= ti < |base|
    ensures ReorderedAsWritten(base, source, target, after)
            == InsertAt(RemoveAt(base, si), WrittenIndex(|base| - 1, si, ti, after), source)
  {
  }

  /** The same drag done by the corrected definition: the first of three
      habits dragged before the last lands between the other two. */
  lemma ReorderBeforeCorrected()
    ensures Reordered(["a", "b", "c"], "a", "c", false) == ["b", "a", "c"]
  {
    var base := ["a", "b", "c"];
    IndexOfAt(base, "a", 0);
    assert base[..2] == ["a", "b"];
    IndexOfAt(base, "c", 2);
    assert RemoveAt(base, 0) == ["b", "c"];
  }

  // --------------------------------------------------------- reconciling

  /** The order kept in step with the habits: the saved ids that still name
      a habit, in saved order, then the habits' ids not among them, in list
      order; nothing changes while there are no habits. */
  function SyncedOrder(prev: seq<string>, habits: seq<Habit>): (r: seq<string>)
    ensures |habits| == 0 ==> r == prev
    ensures |habits| > 0 ==> forall x :: x in r <==> x in HabitIds(habits)
  {
    if |habits| == 0 then prev
    else
      var ids := HabitIds(habits);
      var existing := Filter(prev, (x: string) => x in ids);
      existing + Filter(ids, (x: string) => x !in existing)
  }

  /** The saved ids that still name a habit keep their saved order, ahead of
      the new ones. */
  lemma SyncedKeepsSavedOrder(prev: seq<string>, habits: seq<Habit>)
    requires |habits| > 0
    ensures var ids := HabitIds(habits);
            var existing := Filter(prev, (x: string) => x in ids);
            |existing| <= |SyncedOrder(prev, habits)|
            && SyncedOrder(prev, habits)[..|existing|] == existing
            && SyncedOrder(prev, habits)[|existing|..] == Filter(ids, (x: string) => x !in existing)
  {
  }

  /** Without duplicate ids the reconciled order lists every habit exactly
      once: it is a permutation of the habit ids. */
  lemma SyncedIsPermutation(prev: seq<string>, habits: seq<Habit>)
    requires |habits| > 0 && NoDups(prev) && NoDups(HabitIds(habits))
    ensures NoDups(SyncedOrder(prev, habits))
    ensures multiset(SyncedOrder(prev, habits)) == multiset(HabitIds(habits))
  {
    var ids := HabitIds(habits);
    var existing := Filter(prev, (x: string) => x in ids);
    var missing := Filter(ids, (x: string) => x !in existing);
    FilterNoDups(prev, (x: string) => x in ids);
    FilterNoDups(ids, (x: string) => x !in existing);
    var r := existing + missing;
    forall i, j | 0 <= i < j < |r| ensures r[i] != r[j] {
      if j >= |existing| && i < |existing| {
        assert r[j] in missing && r[i] in existing;
      } else if i >= |existing| {
        assert r[i] == missing[i - |existing|] && r[j] == missing[j - |existing|];
      }
    }
    SameSetIsPermutation(r, ids);
  }

  /** Reconciling twice changes nothing more. */
  lemma SyncedIdempotent(prev: seq<string>, habits: seq<Habit>)
    ensures SyncedOrder(SyncedOrder(prev, habits), habits) == SyncedOrder(prev, habits)
  {
    if |habits| > 0 {
      var ids := HabitIds(habits);
      var r := SyncedOrder(prev, habits);
      FilterKeepsAll(r, (x: string) => x in ids);
      FilterNone(ids, (x: string) => x !in r);
    }
  }
}
