/** The dashboard's state and the operations that change it: the habit and
    log lists, the tag catalog, the tag colour map and the saved habit order,
    with the invariant every operation keeps. */
module Dashboard {
  import opened Seqs
  import opened Text
  import opened Domain
  import opened Tags
  import opened Colors
  import opened Options
  import opened Aggregate
  import opened Ordering
  import opened TagLifecycle
  import opened Toggles

  class DashboardState {
    var habits: seq<Habit>
    var logs: seq<HabitLog>
    var tagCatalog: seq<string>
    var categoryColors: map<string, string>
    var habitOrder: seq<string>
    /** Whether a user is signed in (`user` is set). */
    var signedIn: bool
    /** The next log id; stands in for the ids the database assigns. */
    var nextLogId: nat
    /** Today's day number. */
    const today: int

    /** Distinct habit ids, each habit's tags a tag list, a catalog without
        matching pairs, and a well-formed log list. */
    ghost predicate Valid()
      reads this
    {
      UniqueHabitIds(habits)
      && (forall i :: 0 <= i < |habits| ==> IsTagList(habits[i].categories))
      && DistinctTags(tagCatalog)
      && WellFormed(logs, nextLogId)
    }

    constructor (today: int, signedIn: bool)
      ensures Valid() && this.today == today && this.signedIn == signedIn
      ensures habits == [] && logs == [] && tagCatalog == [] && categoryColors == map[] && habitOrder == []
    {
      this.today := today;
      this.signedIn := signedIn;
      habits := [];
      logs := [];
      tagCatalog := [];
      categoryColors := map[];
      habitOrder := [];
      nextLogId := 0;
    }

    /** `deleteHabit`: the habit and all its logs go. */
    method DeleteHabit(id: string)
      requires Valid()
      modifies this
      ensures Valid()
      ensures habits == HabitsWithout(old(habits), id) && logs == LogsWithoutHabit(old(logs), id)
      ensures tagCatalog == old(tagCatalog) && categoryColors == old(categoryColors)
      ensures habitOrder == old(habitOrder) && nextLogId == old(nextLogId)
    {
      DeleteWellFormed(habits, logs, id, nextLogId);
      habits := HabitsWithout(habits, id);
      logs := LogsWithoutHabit(logs, id);
    }

    /** `toggleHabit`: flips today's log of the habit (signed in only). */
    method ToggleHabit(habitId: string)
      requires Valid()
      modifies this
      ensures Valid()
      ensures !signedIn ==> logs == old(logs)
      ensures signedIn ==> logs == Toggled(old(logs), habitId, today, old(nextLogId))
                           && (LoggedOn(logs, habitId, today) <==> !LoggedOn(old(logs), habitId, today))
      ensures habits == old(habits) && tagCatalog == old(tagCatalog)
      ensures categoryColors == old(categoryColors) && habitOrder == old(habitOrder)
    {
      if !signedIn {
        return;
      }
      ToggleWellFormed(logs, habitId, today, nextLogId);
      ToggleFlips(logs, habitId, today, nextLogId);
      logs := Toggled(logs, habitId, today, nextLogId);
      nextLogId := nextLogId + 1;
    }

    /** `toggleHabitOnDate`: the same for a past day or today; a future day
        is left alone. */
    method ToggleHabitOnDate(habitId: string, day: int)
      requires Valid()
      modifies this
      ensures Valid()
      ensures !signedIn || day > today ==> logs == old(logs)
      ensures signedIn && day <= today ==> logs == Toggled(old(logs), habitId, day, old(nextLogId))
                                           && (LoggedOn(logs, habitId, day) <==> !LoggedOn(old(logs), habitId, day))
      ensures habits == old(habits) && tagCatalog == old(tagCatalog)
      ensures categoryColors == old(categoryColors) && habitOrder == old(habitOrder)
    {
      if !signedIn || day > today {
        return;
      }
      ToggleWellFormed(logs, habitId, day, nextLogId);
      ToggleFlips(logs, habitId, day, nextLogId);
      logs := ToggledOnDate(logs, habitId, day, today, nextLogId);
      nextLogId := nextLogId + 1;
    }

    /** `toggleAllToday`: clears today when every habit is done, otherwise
        completes every habit. */
    method ToggleAllToday()
      requires Valid()
      modifies this
      ensures Valid()
      ensures !signedIn || |habits| == 0 ==> logs == old(logs)
      ensures signedIn ==> logs == ToggledAll(habits, old(logs), today, old(nextLogId))
      ensures signedIn && |habits| > 0 && AllCompletedToday(habits, old(logs), today)
              ==> forall id :: !LoggedOn(logs, id, today)
      ensures signedIn && !AllCompletedToday(habits, old(logs), today) && |habits| > 0
              ==> AllCompletedToday(habits, logs, today)
      ensures habits == old(habits) && tagCatalog == old(tagCatalog)
      ensures categoryColors == old(categoryColors) && habitOrder == old(habitOrder)
    {
      if !signedIn || |habits| == 0 {
        return;
      }
      ToggledAllWellFormed(habits, logs, today, nextLogId);
      ToggledAllEffect(habits, logs, today, nextLogId);
      logs := ToggledAll(habits, logs, today, nextLogId);
      nextLogId := nextLogId + |habits|;
    }

    /** `moveHabit`: one place up or down in the saved order. */
    method MoveHabit(id: string, direction: Direction)
      requires Valid()
      modifies this
      ensures Valid()
      ensures habitOrder == Moved(BaseOrder(old(habitOrder), habits), id, direction)
      ensures multiset(habitOrder) == multiset(BaseOrder(old(habitOrder), habits))
      ensures habits == old(habits) && logs == old(logs) && tagCatalog == old(tagCatalog)
      ensures categoryColors == old(categoryColors) && nextLogId == old(nextLogId)
    {
      habitOrder := Moved(BaseOrder(habitOrder, habits), id, direction);
    }

    /** `reorderHabit`: the source dragged before or after the target; blank
        or equal ids leave the order untouched. */
    method ReorderHabit(source: string, target: string, after: bool)
      requires Valid()
      modifies this
      ensures Valid()
      ensures source == "" || target == "" || source == target ==> habitOrder == old(habitOrder)
      ensures source != "" && target != "" && source != target
              ==> habitOrder == Reordered(BaseOrder(old(habitOrder), habits), source, target, after)
      ensures habits == old(habits) && logs == old(logs) && tagCatalog == old(tagCatalog)
      ensures categoryColors == old(categoryColors) && nextLogId == old(nextLogId)
    {
      if source == "" || target == "" || source == target {
        return;
      }
      habitOrder := Reordered(BaseOrder(habitOrder, habits), source, target, after);
    }

    /** The effect that keeps the saved order in step with the habits. */
    method SyncHabitOrder()
      requires Valid()
      modifies this
      ensures Valid()
      ensures habitOrder == SyncedOrder(old(habitOrder), habits)
      ensures |habits| > 0 ==> forall id :: id in habitOrder <==> id in HabitIds(habits)
      ensures habits == old(habits) && logs == old(logs) && tagCatalog == old(tagCatalog)
      ensures categoryColors == old(categoryColors) && nextLogId == old(nextLogId)
    {
      habitOrder := SyncedOrder(habitOrder, habits);
    }

    /** `createTag`: refuses a blank or existing name with a message,
        otherwise adds the trimmed name to the catalog and gives it a
        colour. */
    method CreateTag(input: string) returns (message: string)
      requires Valid()
      modifies this
      ensures Valid()
      ensures var outcome := CreateTagOutcome(CategoryOptions(old(tagCatalog), habits).options, input);
              message == CreateMessage(outcome)
              && (outcome.Created? ==> tagCatalog == AddToCatalog(old(tagCatalog), outcome.tag)
                                       && categoryColors == UpsertColor(old(categoryColors), outcome.tag))
              && (!outcome.Created? ==> tagCatalog == old(tagCatalog) && categoryColors == old(categoryColors))
      ensures habits == old(habits) && logs == old(logs) && habitOrder == old(habitOrder)
      ensures nextLogId == old(nextLogId)
    {
      var outcome := CreateTagOutcome(CategoryOptions(tagCatalog, habits).options, input);
      message := CreateMessage(outcome);
      if outcome.Created? {
        AddTag(outcome.tag);
      }
    }

    /** The catalog and colour updates of a created tag. */
    method AddTag(tag: string)
      requires Valid()
      modifies this
      ensures Valid()
      ensures tagCatalog == AddToCatalog(old(tagCatalog), tag)
      ensures categoryColors == UpsertColor(old(categoryColors), tag)
      ensures habits == old(habits) && logs == old(logs) && habitOrder == old(habitOrder)
      ensures nextLogId == old(nextLogId)
    {
      AddKeepsDistinct(tagCatalog, tag);
      tagCatalog := AddToCatalog(tagCatalog, tag);
      UpsertTagColor(tag);
    }

    /** `upsertTagColor`: a tag without a colour is given the next palette
        colour. */
    method UpsertTagColor(tag: string)
      modifies this
      ensures categoryColors == UpsertColor(old(categoryColors), tag)
      ensures HasColor(categoryColors, tag)
      ensures habits == old(habits) && logs == old(logs) && habitOrder == old(habitOrder)
      ensures nextLogId == old(nextLogId) && tagCatalog == old(tagCatalog)
    {
      categoryColors := UpsertColor(categoryColors, tag);
    }

    /** `removeTag`: the trimmed tag leaves every habit, the catalog and
        (its first matching key) the colour map; a blank name does nothing. */
    method RemoveTag(tag: string)
      requires Valid()
      modifies this
      ensures Valid()
      ensures Trim(tag) == "" ==> habits == old(habits) && tagCatalog == old(tagCatalog)
                                  && categoryColors == old(categoryColors)
      ensures Trim(tag) != "" ==> habits == StripHabits(old(habits), Trim(tag))
                                  && tagCatalog == StripTag(old(tagCatalog), Trim(tag))
      ensures Trim(tag) != "" && (exists key :: key in old(categoryColors) && TagsMatch(key, Trim(tag)))
              ==> exists key :: key in old(categoryColors) && TagsMatch(key, Trim(tag))
                                && categoryColors == old(categoryColors) - {key}
      ensures (forall key :: key in old(categoryColors) ==> !TagsMatch(key, Trim(tag)))
              ==> categoryColors == old(categoryColors)
      ensures logs == old(logs) && habitOrder == old(habitOrder) && nextLogId == old(nextLogId)
    {
      var trimmed := Trim(tag);
      if trimmed == "" {
        return;
      }
      StripFromHabits(trimmed);
      StripFromCatalog(trimmed);
      DropTagColor(trimmed);
    }

    /** Every habit loses its tags matching `tag`. */
    method StripFromHabits(tag: string)
      requires Valid()
      modifies this
      ensures Valid()
      ensures habits == StripHabits(old(habits), tag)
      ensures tagCatalog == old(tagCatalog) && categoryColors == old(categoryColors)
      ensures logs == old(logs) && habitOrder == old(habitOrder) && nextLogId == old(nextLogId)
    {
      forall i | 0 <= i < |habits| ensures IsTagList(StripHabit(habits[i], tag).categories) {
        StripTagKeepsTagList(habits[i].categories, tag);
      }
      habits := StripHabits(habits, tag);
    }

    /** The catalog loses its entries matching `tag`. */
    method StripFromCatalog(tag: string)
      requires Valid()
      modifies this
      ensures Valid()
      ensures tagCatalog == StripTag(old(tagCatalog), tag)
      ensures habits == old(habits) && categoryColors == old(categoryColors)
      ensures logs == old(logs) && habitOrder == old(habitOrder) && nextLogId == old(nextLogId)
    {
      StripTagKeepsDistinct(tagCatalog, tag);
      tagCatalog := StripTag(tagCatalog, tag);
    }

    /** The colour map loses one key matching `tag`, if it has one. */
    method DropTagColor(tag: string)
      modifies this
      ensures (exists key :: key in old(categoryColors) && TagsMatch(key, tag))
              ==> exists key :: key in old(categoryColors) && TagsMatch(key, tag)
                                && categoryColors == old(categoryColors) - {key}
      ensures (forall key :: key in old(categoryColors) ==> !TagsMatch(key, tag))
              ==> categoryColors == old(categoryColors)
      ensures habits == old(habits) && tagCatalog == old(tagCatalog)
      ensures logs == old(logs) && habitOrder == old(habitOrder) && nextLogId == old(nextLogId)
    {
      if exists key :: key in categoryColors && TagsMatch(key, tag) {
        var key :| key in categoryColors && TagsMatch(key, tag);
        categoryColors := categoryColors - {key};
      }
    }

    /** `renameTag`: a blank name does nothing, a colliding name is refused
        with a message; otherwise the colour moves to the new name and every
        matching tag in the catalog and in the habits becomes the new name
        (kept once per habit). */
    method RenameTag(oldTag: string, newTag: string) returns (message: string)
      requires Valid()
      modifies this
      ensures Valid()
      ensures var outcome := RenameCheck(CategoryOptions(old(tagCatalog), old(habits)).options, oldTag, newTag);
              message == RenameMessage(outcome)
              && (!outcome.Renamed? ==> habits == old(habits) && tagCatalog == old(tagCatalog)
                                        && categoryColors == old(categoryColors))
              && (outcome.Renamed? ==>
                    habits == RenamedHabits(old(habits), outcome.oldTag, outcome.newTag)
                    && tagCatalog == RenamedAsWritten(old(tagCatalog), outcome.oldTag, outcome.newTag)
                    && ((exists key :: key in old(categoryColors) && TagsMatch(key, outcome.oldTag))
                        ==> exists key :: key in old(categoryColors) && TagsMatch(key, outcome.oldTag)
                                          && categoryColors == RenamedColors(old(categoryColors), key, outcome.newTag))
                    && ((forall key :: key in old(categoryColors) ==> !TagsMatch(key, outcome.oldTag))
                        ==> categoryColors == old(categoryColors)))
      ensures logs == old(logs) && habitOrder == old(habitOrder) && nextLogId == old(nextLogId)
    {
      var outcome := RenameCheck(CategoryOptions(tagCatalog, habits).options, oldTag, newTag);
      message := RenameMessage(outcome);
      if !outcome.Renamed? {
        return;
      }
      var o, n := outcome.oldTag, outcome.newTag;
      if Collides(tagCatalog, o, n) {
        CatalogCollisionIsOption(tagCatalog, habits, o, n);
      }
      RenameTagColor(o, n);
      RenameInCatalog(o, n);
      RenameInHabits(o, n);
    }

    /** The colour of the first key matching the old name moves to the new
        name. */
    method RenameTagColor(oldTag: string, newTag: string)
      modifies this
      ensures (exists key :: key in old(categoryColors) && TagsMatch(key, oldTag))
              ==> exists key :: key in old(categoryColors) && TagsMatch(key, oldTag)
                                && categoryColors == RenamedColors(old(categoryColors), key, newTag)
      ensures (forall key :: key in old(categoryColors) ==> !TagsMatch(key, oldTag))
              ==> categoryColors == old(categoryColors)
      ensures habits == old(habits) && tagCatalog == old(tagCatalog)
      ensures logs == old(logs) && habitOrder == old(habitOrder) && nextLogId == old(nextLogId)
    {
      if exists key :: key in categoryColors && TagsMatch(key, oldTag) {
        var key :| key in categoryColors && TagsMatch(key, oldTag);
        categoryColors := RenamedColors(categoryColors, key, newTag);
      }
    }

    /** Catalog entries matching the old name become the new name. */
    method RenameInCatalog(oldTag: string, newTag: string)
      requires Valid() && !Collides(tagCatalog, oldTag, newTag)
      modifies this
      ensures Valid()
      ensures tagCatalog == RenamedAsWritten(old(tagCatalog), oldTag, newTag)
      ensures habits == old(habits) && categoryColors == old(categoryColors)
      ensures logs == old(logs) && habitOrder == old(habitOrder) && nextLogId == old(nextLogId)
    {
      RenameKeepsCatalogDistinct(tagCatalog, oldTag, newTag);
      tagCatalog := RenamedAsWritten(tagCatalog, oldTag, newTag);
    }

    /** Habit tags matching the old name become the new name, kept once. */
    method RenameInHabits(oldTag: string, newTag: string)
      requires Valid() && newTag != "" && IsTrimmed(newTag)
      modifies this
      ensures Valid()
      ensures habits == RenamedHabits(old(habits), oldTag, newTag)
      ensures tagCatalog == old(tagCatalog) && categoryColors == old(categoryColors)
      ensures logs == old(logs) && habitOrder == old(habitOrder) && nextLogId == old(nextLogId)
    {
      forall i | 0 <= i < |habits| ensures IsTagList(RenamedHabit(habits[i], oldTag, newTag).categories) {
        RenamedTagsTagList(habits[i].categories, oldTag, newTag);
      }
      habits := RenamedHabits(habits, oldTag, newTag);
    }

    /** The effect that gives every tag option a colour and drops colours of
        tags no longer in use. */
    method ReconcileColors()
      requires Valid()
      modifies this
      ensures Valid()
      ensures categoryColors == Reconciled(old(categoryColors), CategoryOptions(tagCatalog, habits).options)
      ensures habits == old(habits) && logs == old(logs) && tagCatalog == old(tagCatalog)
      ensures habitOrder == old(habitOrder) && nextLogId == old(nextLogId)
    {
      var next, changed := Reconcile(categoryColors, CategoryOptions(tagCatalog, habits).options);
      categoryColors := next;
    }
  }
}
