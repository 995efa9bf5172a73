/** The tag list the filters and the tag manager offer (`categoryOptions`),
    the manager's search over it, and the per-tag usage counts
    (`tagUsageCount`). */
module Options {
  import opened Seqs
  import opened Text
  import opened Domain
  import opened Tags

  // ------------------------------------------------------------- ordering

  /** Code-point lexicographic order on strings, the order the tag list is
      sorted by. */
  predicate Less(a: string, b: string) {
    if |a| == 0 then |b| > 0
    else if |b| == 0 then false
    else a[0] < b[0] || (a[0] == b[0] && Less(a[1..], b[1..]))
  }

  lemma {:induction false} LessIrreflexive(a: string)
    ensures !Less(a, a)
  {
    if |a| > 0 {
      LessIrreflexive(a[1..]);
    }
  }

  lemma {:induction false} LessTransitive(a: string, b: string, c: string)
    requires Less(a, b) && Less(b, c)
    ensures Less(a, c)
  {
    if |a| > 0 && a[0] == b[0] && b[0] == c[0] {
      LessTransitive(a[1..], b[1..], c[1..]);
    }
  }

  lemma {:induction false} LessTotal(a: string, b: string)
    requires a != b
    ensures Less(a, b) || Less(b, a)
  {
    if |a| > 0 && |b| > 0 && a[0] == b[0] {
      assert a == [a[0]] + a[1..] && b == [b[0]] + b[1..];
      LessTotal(a[1..], b[1..]);
    }
  }

  lemma LessAsymmetric(a: string, b: string)
    requires Less(a, b)
    ensures !Less(b, a)
  {
    if Less(b, a) {
      LessTransitive(a, b, a);
      LessIrreflexive(a);
    }
  }

  /** Each entry strictly before the next. */
  predicate StrictlySorted(xs: seq<string>) {
    forall i, j :: 0 <= i < j < |xs| ==> Less(xs[i], xs[j])
  }

  /** Inserts `x` into a sorted list before the first entry above it. */
  function Insert(x: string, s: seq<string>): (r: seq<string>)
    ensures multiset(r) == multiset(s) + multiset{x}
  {
    if |s| == 0 || Less(x, s[0]) then [x] + s
    else
      assert s == [s[0]] + s[1..];
      [s[0]] + Insert(x, s[1..])
  }

  lemma {:induction false} InsertSorted(x: string, s: seq<string>)
    requires StrictlySorted(s) && x !in s
    ensures StrictlySorted(Insert(x, s))
  {
    if |s| > 0 && !Less(x, s[0]) {
      assert x != s[0];
      LessTotal(x, s[0]);
      assert StrictlySorted(s[1..]) by {
        forall i, j | 0 <= i < j < |s[1..]| ensures Less(s[1..][i], s[1..][j]) {
          assert s[1..][i] == s[i + 1] && s[1..][j] == s[j + 1];
        }
      }
      InsertSorted(x, s[1..]);
      var t := Insert(x, s[1..]);
      var r := [s[0]] + t;
      forall i, j | 0 <= i < j < |r| ensures Less(r[i], r[j]) {
        if i == 0 {
          assert r[j] in multiset(t);
          assert r[j] == x || r[j] in s[1..];
          if r[j] in s[1..] {
            var k :| 0 <= k < |s[1..]| && s[1..][k] == r[j];
            assert s[k + 1] == r[j];
          }
        } else {
          assert r[i] == t[i - 1] && r[j] == t[j - 1];
        }
      }
    } else if |s| > 0 {
      var r := [x] + s;
      forall i, j | 0 <= i < j < |r| ensures Less(r[i], r[j]) {
        if i == 0 && j > 1 {
          LessTransitive(x, s[0], s[j - 1]);
        }
      }
    }
  }

  /** The list in code-point order (an insertion sort). */
  function SortStrings(xs: seq<string>): (r: seq<string>)
    ensures multiset(r) == multiset(xs)
  {
    if |xs| == 0 then []
    else
      assert xs == [xs[0]] + xs[1..];
      Insert(xs[0], SortStrings(xs[1..]))
  }

  lemma {:induction false} SortStringsSorted(xs: seq<string>)
    requires NoDups(xs)
    ensures StrictlySorted(SortStrings(xs))
  {
    if |xs| > 0 {
      assert NoDups(xs[1..]) by {
        forall i, j | 0 <= i < j < |xs[1..]| ensures xs[1..][i] != xs[1..][j] {
          assert xs[1..][i] == xs[i + 1] && xs[1..][j] == xs[j + 1];
        }
      }
      SortStringsSorted(xs[1..]);
      var s := SortStrings(xs[1..]);
      assert xs[0] !in xs[1..];
      assert xs[0] !in multiset(s);
      InsertSorted(xs[0], s);
    }
  }

  /** Two strictly sorted lists with the same elements are equal: the sorted
      tag list depends only on the set of tags, not on the order in which the
      set was filled nor on the sorting algorithm. */
  lemma {:induction false} SortedUnique(xs: seq<string>, ys: seq<string>)
    requires StrictlySorted(xs) && StrictlySorted(ys)
    requires forall x :: x in xs <==> x in ys
    ensures xs == ys
  {
    if |xs| > 0 {
      assert xs[0] in ys;
    }
    if |ys| > 0 {
      assert ys[0] in xs;
    }
    if |xs| > 0 && |ys| > 0 {
      if xs[0] != ys[0] {
        SortedHeadIsMin(xs, ys[0]);
        SortedHeadIsMin(ys, xs[0]);
        LessAsymmetric(xs[0], ys[0]);
      }
      assert StrictlySorted(xs[1..]) by {
        forall i, j | 0 <= i < j < |xs[1..]| ensures Less(xs[1..][i], xs[1..][j]) {
          assert xs[1..][i] == xs[i + 1] && xs[1..][j] == xs[j + 1];
        }
      }
      assert StrictlySorted(ys[1..]) by {
        forall i, j | 0 <= i < j < |ys[1..]| ensures Less(ys[1..][i], ys[1..][j]) {
          assert ys[1..][i] == ys[i + 1] && ys[1..][j] == ys[j + 1];
        }
      }
      forall x ensures x in xs[1..] <==> x in ys[1..] {
        SortedTailMembers(xs, x);
        SortedTailMembers(ys, x);
      }
      SortedUnique(xs[1..], ys[1..]);
      assert xs == [xs[0]] + xs[1..] && ys == [ys[0]] + ys[1..];
    }
  }

  /** The head of a strictly sorted list is below every other entry. */
  lemma SortedHeadIsMin(xs: seq<string>, x: string)
    requires StrictlySorted(xs) && x in xs && x != xs[0]
    ensures Less(xs[0], x)
  {
    var k :| 0 <= k < |xs| && xs[k] == x;
  }

  lemma SortedTailMembers(xs: seq<string>, x: string)
    requires StrictlySorted(xs) && |xs| > 0
    ensures x in xs[1..] <==> x in xs && x != xs[0]
  {
    if x in xs[1..] {
      var k :| 0 <= k < |xs[1..]| && xs[1..][k] == x;
      assert xs[k + 1] == x;
      LessAsymmetric(xs[0], x);
    }
    if x in xs && x != xs[0] {
      var k :| 0 <= k < |xs| && xs[k] == x;
      assert xs[1..][k - 1] == x;
    }
  }

  // ------------------------------------------------------- tag option list

  /** The tag fields of all habits, one after another. */
  function AllCategories(habits: seq<Habit>): (r: seq<string>)
    ensures forall c :: c in r <==> exists i :: 0 <= i < |habits| && c in habits[i].categories
  {
    if |habits| == 0 then []
    else
      var rest := AllCategories(habits[1..]);
      assert forall i :: 1 <= i < |habits| ==> habits[i] == habits[1..][i - 1];
      habits[0].categories + rest
  }

  datatype TagOptions = TagOptions(options: seq<string>, hasUncategorized: bool)

  /** Sorting keeps the in-memory tag form and the set of tags. */
  lemma SortTagList(tags: seq<string>)
    requires IsTagList(tags)
    ensures IsTagList(SortStrings(tags)) && StrictlySorted(SortStrings(tags))
    ensures forall t :: t in SortStrings(tags) <==> t in tags
  {
    var sorted := SortStrings(tags);
    SortStringsSorted(tags);
    PermutationKeepsNoDups(tags, sorted);
    forall t ensures t in sorted <==> t in tags {
      assert t in sorted <==> t in multiset(sorted);
      assert t in tags <==> t in multiset(tags);
    }
    forall i | 0 <= i < |sorted| ensures sorted[i] != "" && IsTrimmed(sorted[i]) {
      assert sorted[i] in tags;
    }
  }

  /** `categoryOptions` and `hasUncategorized`: the distinct trimmed
      non-empty tags of the catalog and of all habits, in code-point order;
      and whether some habit has no tags. */
  function CategoryOptions(catalog: seq<string>, habits: seq<Habit>): (r: TagOptions)
    ensures IsTagList(r.options) && StrictlySorted(r.options)
    ensures r.hasUncategorized <==> exists i :: 0 <= i < |habits| && |habits[i].categories| == 0
  {
    var tags := Clean(catalog + AllCategories(habits));
    SortTagList(tags);
    TagOptions(SortStrings(tags), exists i :: 0 <= i < |habits| && |habits[i].categories| == 0)
  }

  /** Finding a tag by index is finding it by membership. */
  lemma FoundAt(xs: seq<string>, t: string)
    ensures (exists k :: 0 <= k < |xs| && Trim(xs[k]) == t) <==> exists c :: c in xs && Trim(c) == t
  {
    if exists c :: c in xs && Trim(c) == t {
      var c :| c in xs && Trim(c) == t;
      var k :| 0 <= k < |xs| && xs[k] == c;
    }
  }

  /** A tag is found in `catalog + AllCategories(habits)` exactly when it is
      found in the catalog or in some habit. */
  lemma FoundInCatalogOrHabits(catalog: seq<string>, habits: seq<Habit>, t: string)
    ensures (exists c :: c in catalog + AllCategories(habits) && Trim(c) == t)
            <==> ((exists c :: c in catalog && Trim(c) == t)
                  || exists i, c :: 0 <= i < |habits| && c in habits[i].categories && Trim(c) == t)
  {
    var cats := AllCategories(habits);
    if exists c :: c in catalog + cats && Trim(c) == t {
      var c :| c in catalog + cats && Trim(c) == t;
      if c !in catalog {
        assert c in cats;
      }
    }
    if exists i, c :: 0 <= i < |habits| && c in habits[i].categories && Trim(c) == t {
      var i, c :| 0 <= i < |habits| && c in habits[i].categories && Trim(c) == t;
      assert c in cats;
      assert c in catalog + cats;
    }
  }

  /** The options are exactly the trimmed non-empty tags found in the
      catalog or in some habit. */
  lemma CategoryOptionsMembers(catalog: seq<string>, habits: seq<Habit>, t: string)
    ensures t in CategoryOptions(catalog, habits).options
            <==> t != "" && ((exists c :: c in catalog && Trim(c) == t)
                             || exists i, c :: 0 <= i < |habits| && c in habits[i].categories && Trim(c) == t)
  {
    var tags := Clean(catalog + AllCategories(habits));
    SortTagList(tags);
    FoundAt(catalog + AllCategories(habits), t);
    FoundInCatalogOrHabits(catalog, habits, t);
  }

  /** `filteredManagerTags`: all options for a blank search, otherwise the
      options whose lower-cased text contains the lower-cased search. */
  function ManagerTags(options: seq<string>, search: string): (r: seq<string>)
    ensures Trim(search) == "" ==> r == options
    ensures Trim(search) != "" ==> forall t :: t in r <==> t in options && Contains(ToLower(t), ToLower(search))
  {
    if Trim(search) == "" then options
    else Filter(options, (t: string) => Contains(ToLower(t), ToLower(search)))
  }

  // ----------------------------------------------------------- usage count

  /** The count a map holds for `key`, 0 when absent. */
  function Get(counts: map<string, nat>, key: string): nat {
    if key in counts then counts[key] else 0
  }

  /** One step of the counting loop: count the trimmed tag unless blank. */
  function Bump(counts: map<string, nat>, category: string): map<string, nat> {
    var key := Trim(category);
    if key == "" then counts else counts[key := Get(counts, key) + 1]
  }

  /** Counts the tags of one habit. */
  function CountTags(counts: map<string, nat>, categories: seq<string>): map<string, nat>
    decreases |categories|
  {
    if |categories| == 0 then counts else CountTags(Bump(counts, categories[0]), categories[1..])
  }

  /** Counts the tags of the habits in turn. */
  function CountHabits(counts: map<string, nat>, habits: seq<Habit>): map<string, nat>
    decreases |habits|
  {
    if |habits| == 0 then counts else CountHabits(CountTags(counts, habits[0].categories), habits[1..])
  }

  /** `tagUsageCount`. */
  function TagUsageCount(habits: seq<Habit>): map<string, nat> {
    CountHabits(map[], habits)
  }

  /** How often `key` occurs among the trimmed tags in `categories`. */
  function Occurrences(categories: seq<string>, key: string): nat {
    multiset(TrimAll(categories))[key]
  }

  lemma TrimAllAppend(a: seq<string>, b: seq<string>)
    ensures TrimAll(a + b) == TrimAll(a) + TrimAll(b)
  {
  }

  lemma OccurrencesCons(categories: seq<string>, key: string)
    requires |categories| > 0
    ensures Occurrences(categories, key)
            == (if Trim(categories[0]) == key then 1 else 0) + Occurrences(categories[1..], key)
  {
    assert categories == [categories[0]] + categories[1..];
    TrimAllAppend([categories[0]], categories[1..]);
    assert TrimAll([categories[0]]) == [Trim(categories[0])];
  }

  lemma {:induction false} CountTagsAdds(counts: map<string, nat>, categories: seq<string>, key: string)
    requires key != ""
    ensures Get(CountTags(counts, categories), key) == Get(counts, key) + Occurrences(categories, key)
    ensures key in CountTags(counts, categories) <==> key in counts || Occurrences(categories, key) > 0
    decreases |categories|
  {
    if |categories| > 0 {
      CountTagsAdds(Bump(counts, categories[0]), categories[1..], key);
      OccurrencesCons(categories, key);
    } else {
      assert TrimAll(categories) == [];
    }
  }

  lemma {:induction false} CountTagsNoBlank(counts: map<string, nat>, categories: seq<string>)
    requires "" !in counts
    ensures "" !in CountTags(counts, categories)
    decreases |categories|
  {
    if |categories| > 0 {
      CountTagsNoBlank(Bump(counts, categories[0]), categories[1..]);
    }
  }

  lemma {:induction false} CountHabitsAdds(counts: map<string, nat>, habits: seq<Habit>, key: string)
    requires key != ""
    ensures Get(CountHabits(counts, habits), key) == Get(counts, key) + Occurrences(AllCategories(habits), key)
    ensures key in CountHabits(counts, habits) <==> key in counts || Occurrences(AllCategories(habits), key) > 0
    decreases |habits|
  {
    if |habits| > 0 {
      var next := CountTags(counts, habits[0].categories);
      CountTagsAdds(counts, habits[0].categories, key);
      CountHabitsAdds(next, habits[1..], key);
      TrimAllAppend(habits[0].categories, AllCategories(habits[1..]));
    } else {
      assert TrimAll([]) == [];
    }
  }

  lemma {:induction false} CountHabitsNoBlank(counts: map<string, nat>, habits: seq<Habit>)
    requires "" !in counts
    ensures "" !in CountHabits(counts, habits)
    decreases |habits|
  {
    if |habits| > 0 {
      CountTagsNoBlank(counts, habits[0].categories);
      CountHabitsNoBlank(CountTags(counts, habits[0].categories), habits[1..]);
    }
  }

  /** Each tag's usage count is the number of times it occurs, trimmed,
      across all habits; the map holds exactly the tags that occur, and no
      blank key. */
  lemma TagUsageCountIsOccurrences(habits: seq<Habit>, key: string)
    ensures key != "" ==> Get(TagUsageCount(habits), key) == Occurrences(AllCategories(habits), key)
    ensures key in TagUsageCount(habits) <==> key != "" && Occurrences(AllCategories(habits), key) > 0
  {
    if key != "" {
      CountHabitsAdds(map[], habits, key);
    } else {
      CountHabitsNoBlank(map[], habits);
    }
  }
}
