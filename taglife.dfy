/** The tag manager's operations on their values: creating a tag
    (`createTag`), removing one everywhere (`removeTag`) and renaming one
    everywhere (`renameTag`). Tags are compared with `TagsMatch`: equal after
    trimming and lower-casing. */
module TagLifecycle {
  import opened Seqs
  import opened Text
  import opened Domain
  import opened Tags
  import opened Colors
  import opened Options

  /** Some entry of `xs` matches `tag`. */
  predicate MatchesAny(xs: seq<string>, tag: string) {
    exists i :: 0 <= i < |xs| && TagsMatch(xs[i], tag)
  }

  /** No two entries match each other: the catalog `createTag` keeps. */
  predicate DistinctTags(xs: seq<string>) {
    forall i, j :: 0 <= i < j < |xs| ==> !TagsMatch(xs[i], xs[j])
  }

  // -------------------------------------------------------------- creating

  /** What `createTag` decides for the typed name. */
  datatype CreateOutcome = BlankName | AlreadyExists | Created(tag: string)

  /** The message the tag manager shows for an outcome ("" for none). */
  function CreateMessage(outcome: CreateOutcome): string {
    match outcome
    case BlankName => "Enter a tag name to create."
    case AlreadyExists => "That tag already exists."
    case Created(_) => ""
  }

  /** A blank name is refused, a name matching an option is refused, any
      other name is created trimmed. */
  function CreateTagOutcome(options: seq<string>, input: string): (r: CreateOutcome)
    ensures r.BlankName? <==> Trim(input) == ""
    ensures r.AlreadyExists? <==> Trim(input) != "" && MatchesAny(options, Trim(input))
    ensures r.Created? ==> r.tag == Trim(input) && r.tag != "" && IsTrimmed(r.tag)
                           && forall t :: t in options ==> !TagsMatch(t, r.tag)
  {
    var trimmed := Trim(input);
    if trimmed == "" then BlankName
    else if MatchesAny(options, trimmed) then AlreadyExists
    else Created(trimmed)
  }

  /** The catalog update of `createTag`: the tag is appended unless a
      matching entry is already there. */
  function AddToCatalog(catalog: seq<string>, tag: string): (r: seq<string>)
    ensures MatchesAny(r, tag)
    ensures catalog <= r && |r| <= |catalog| + 1
  {
    if MatchesAny(catalog, tag) then catalog
    else
      assert TagsMatch((catalog + [tag])[|catalog|], tag);
      catalog + [tag]
  }

  /** Adding keeps the catalog free of matching pairs. */
  lemma AddKeepsDistinct(catalog: seq<string>, tag: string)
    requires DistinctTags(catalog)
    ensures DistinctTags(AddToCatalog(catalog, tag))
  {
    if !MatchesAny(catalog, tag) {
      var r := catalog + [tag];
      forall i, j | 0 <= i < j < |r| ensures !TagsMatch(r[i], r[j]) {
        if j == |catalog| {
          assert r[i] == catalog[i];
        } else {
          assert r[i] == catalog[i] && r[j] == catalog[j];
        }
      }
    }
  }

  // -------------------------------------------------------------- removing

  function Unmatched(tag: string): string -> bool {
    (x: string) => !TagsMatch(x, tag)
  }

  /** The entries that do not match `tag`, in order. */
  function StripTag(xs: seq<string>, tag: string): (r: seq<string>)
    ensures forall x :: x in r <==> x in xs && !TagsMatch(x, tag)
  {
    Filter(xs, Unmatched(tag))
  }

  /** A habit without its tags matching `tag`. */
  function StripHabit(h: Habit, tag: string): (r: Habit)
    ensures r.id == h.id && r.name == h.name && r.description == h.description && r.created == h.created
    ensures forall c :: c in r.categories <==> c in h.categories && !TagsMatch(c, tag)
  {
    if MatchesAny(h.categories, tag) then h.(categories := StripTag(h.categories, tag))
    else
      assert forall c :: c in h.categories ==> !TagsMatch(c, tag);
      h
  }

  /** `removeTag` on the habit list. */
  function StripHabits(habits: seq<Habit>, tag: string): (r: seq<Habit>)
    ensures |r| == |habits| && forall i :: 0 <= i < |habits| ==> r[i] == StripHabit(habits[i], tag)
  {
    seq(|habits|, i requires 0 <= i < |habits| => StripHabit(habits[i], tag))
  }

  /** Removing keeps a tag list a tag list. */
  lemma StripTagKeepsTagList(xs: seq<string>, tag: string)
    requires IsTagList(xs)
    ensures IsTagList(StripTag(xs, tag))
  {
    FilterNoDups(xs, Unmatched(tag));
    var r := StripTag(xs, tag);
    forall i | 0 <= i < |r| ensures r[i] != "" && IsTrimmed(r[i]) {
      assert r[i] in xs;
    }
  }

  /** Removing keeps the catalog free of matching pairs. */
  lemma StripTagKeepsDistinct(xs: seq<string>, tag: string)
    requires DistinctTags(xs)
    ensures DistinctTags(StripTag(xs, tag))
  {
    FilterPairwise(xs, Unmatched(tag), (a: string, b: string) => !TagsMatch(a, b));
  }

  /** Removing a tag right after creating it restores the catalog. */
  lemma RemoveAfterCreate(catalog: seq<string>, tag: string)
    requires !MatchesAny(catalog, tag)
    ensures StripTag(AddToCatalog(catalog, tag), tag) == catalog
  {
    FilterAppend(catalog, [tag], Unmatched(tag));
    FilterKeepsAll(catalog, Unmatched(tag));
    assert [tag][1..] == [];
  }

  /** After a removal no tag option matches the removed tag any more. */
  lemma RemoveTagClearsOptions(catalog: seq<string>, habits: seq<Habit>, tag: string, t: string)
    requires t in CategoryOptions(StripTag(catalog, tag), StripHabits(habits, tag)).options
    ensures !TagsMatch(t, tag)
  {
    var habits' := StripHabits(habits, tag);
    CategoryOptionsMembers(StripTag(catalog, tag), habits', t);
    if exists c :: c in StripTag(catalog, tag) && Trim(c) == t {
      var c :| c in StripTag(catalog, tag) && Trim(c) == t;
      TrimIdempotent(c);
    } else {
      var i, c :| 0 <= i < |habits'| && c in habits'[i].categories && Trim(c) == t;
      TrimIdempotent(c);
    }
  }

  /** A removal keeps every option that does not match the removed tag. */
  lemma RemoveTagKeepsOthers(catalog: seq<string>, habits: seq<Habit>, tag: string, t: string)
    requires t in CategoryOptions(catalog, habits).options && !TagsMatch(t, tag)
    ensures t in CategoryOptions(StripTag(catalog, tag), StripHabits(habits, tag)).options
  {
    var habits' := StripHabits(habits, tag);
    CategoryOptionsMembers(catalog, habits, t);
    CategoryOptionsMembers(StripTag(catalog, tag), habits', t);
    if exists c :: c in catalog && Trim(c) == t {
      var c :| c in catalog && Trim(c) == t;
      TrimIdempotent(c);
      assert c in StripTag(catalog, tag);
    } else {
      var i, c :| 0 <= i < |habits| && c in habits[i].categories && Trim(c) == t;
      TrimIdempotent(c);
      assert c in habits'[i].categories;
    }
  }

  // -------------------------------------------------------------- renaming

  /** What `renameTag` decides: a blank name on either side does nothing; a
      new name matching an option other than the old one is refused. */
  datatype RenameOutcome = Ignored | NameTaken | Renamed(oldTag: string, newTag: string)

  function RenameMessage(outcome: RenameOutcome): string {
    match outcome
    case NameTaken => "That tag name already exists."
    case _ => ""
  }

  /** An option the new name would collide with. */
  predicate Collides(options: seq<string>, oldTag: string, newTag: string) {
    exists i :: 0 <= i < |options| && TagsMatch(options[i], newTag) && !TagsMatch(options[i], oldTag)
  }

  function RenameCheck(options: seq<string>, oldTag: string, newTag: string): (r: RenameOutcome)
    ensures r.Ignored? <==> Trim(oldTag) == "" || Trim(newTag) == ""
    ensures r.NameTaken? <==> Trim(oldTag) != "" && Trim(newTag) != "" && Collides(options, Trim(oldTag), Trim(newTag))
    ensures r.Renamed? ==> r.oldTag == Trim(oldTag) && r.newTag == Trim(newTag) && r.newTag != "" && IsTrimmed(r.newTag)
  {
    var oldTrimmed, newTrimmed := Trim(oldTag), Trim(newTag);
    if oldTrimmed == "" || newTrimmed == "" then Ignored
    else if Collides(options, oldTrimmed, newTrimmed) then NameTaken
    else Renamed(oldTrimmed, newTrimmed)
  }

  /** Every entry matching the old name replaced by the new name: how the
      source renames both the catalog and each habit's tags. */
  function RenamedAsWritten(xs: seq<string>, oldTag: string, newTag: string): (r: seq<string>)
    ensures |r| == |xs|
    ensures forall i :: 0 <= i < |xs| ==> r[i] == if TagsMatch(xs[i], oldTag) then newTag else xs[i]
  {
    seq(|xs|, i requires 0 <= i < |xs| => if TagsMatch(xs[i], oldTag) then newTag else xs[i])
  }

  /** In a catalog free of matching pairs, a rename the collision check let
      through keeps it free of them. */
  lemma RenameKeepsCatalogDistinct(catalog: seq<string>, oldTag: string, newTag: string)
    requires DistinctTags(catalog) && !Collides(catalog, oldTag, newTag)
    ensures DistinctTags(RenamedAsWritten(catalog, oldTag, newTag))
  {
    var r := RenamedAsWritten(catalog, oldTag, newTag);
    forall i, j | 0 <= i < j < |r| ensures !TagsMatch(r[i], r[j]) {
    }
  }

  /** A catalog entry that is not blank is listed, trimmed, among the
      options. */
  lemma CatalogEntryIsOption(catalog: seq<string>, habits: seq<Habit>, c: string)
    requires c in catalog && Trim(c) != ""
    ensures Trim(c) in CategoryOptions(catalog, habits).options
  {
    CategoryOptionsMembers(catalog, habits, Trim(c));
  }

  /** A tag matching a non-blank trimmed name is not blank once trimmed. */
  lemma MatchNotBlank(c: string, name: string)
    requires TagsMatch(c, name) && name != "" && IsTrimmed(name)
    ensures Trim(c) != ""
  {
    TrimTrimmed(name);
    assert |ToLower(Trim(c))| == |ToLower(name)|;
  }

  /** A catalog entry the new name collides with is also an option it
      collides with, so the check on the options protects the catalog. */
  lemma CatalogCollisionIsOption(catalog: seq<string>, habits: seq<Habit>, oldTag: string, newTag: string)
    requires newTag != "" && IsTrimmed(newTag) && Collides(catalog, oldTag, newTag)
    ensures Collides(CategoryOptions(catalog, habits).options, oldTag, newTag)
  {
    var i :| 0 <= i < |catalog| && TagsMatch(catalog[i], newTag) && !TagsMatch(catalog[i], oldTag);
    var c := catalog[i];
    MatchNotBlank(c, newTag);
    CatalogEntryIsOption(catalog, habits, c);
    TrimIdempotent(c);
    var options := CategoryOptions(catalog, habits).options;
    var j :| 0 <= j < |options| && options[j] == Trim(c);
    assert TagsMatch(options[j], newTag) && !TagsMatch(options[j], oldTag);
  }

  lemma TrimmedWord(w: string)
    requires |w| > 0 && !IsWhitespace(w[0]) && !IsWhitespace(w[|w| - 1])
    ensures Trim(w) == w && w != "" && IsTrimmed(w)
  {
    TrimTrimmed(w);
  }

  lemma LowerHealth()
    ensures ToLower("Health") == "health"
  {
    var r := ToLower("Health");
    assert r[0] == 'h' && r[1] == 'e' && r[2] == 'a' && r[3] == 'l' && r[4] == 't' && r[5] == 'h';
  }

  lemma HealthTags()
    ensures TagsMatch("Health", "health")
    ensures IsTagList(["Health", "health"])
  {
    TrimmedWord("Health");
    TrimmedWord("health");
    LowerHealth();
    assert "Health"[0] != "health"[0];
  }

  /** A habit tagged both "Health" and "health" (a valid tag list: the tags
      differ) renamed from "health" to "Wellness" is left with the new name
      twice, no longer a valid tag list. */
  lemma RenameMergesIntoDuplicates()
    ensures IsTagList(["Health", "health"])
    ensures RenamedAsWritten(["Health", "health"], "health", "Wellness") == ["Wellness", "Wellness"]
    ensures !NoDups(["Wellness", "Wellness"])
  {
    HealthTags();
    var cats := ["Health", "health"];
    var r := RenamedAsWritten(cats, "health", "Wellness");
    assert TagsMatch(cats[0], "health") && TagsMatch(cats[1], "health");
    assert r[0] == "Wellness" && r[1] == "Wellness";
  }

  /** The intended rename of a habit's tags: as written, with the repeated
      new name kept once. */
  function RenamedTags(cats: seq<string>, oldTag: string, newTag: string): seq<string> {
    Dedup(RenamedAsWritten(cats, oldTag, newTag))
  }

  /** The intended rename keeps a tag list a tag list. */
  lemma RenamedTagsTagList(cats: seq<string>, oldTag: string, newTag: string)
    requires IsTagList(cats) && newTag != "" && IsTrimmed(newTag)
    ensures IsTagList(RenamedTags(cats, oldTag, newTag))
  {
    var mapped := RenamedAsWritten(cats, oldTag, newTag);
    var r := RenamedTags(cats, oldTag, newTag);
    forall i | 0 <= i < |r| ensures r[i] != "" && IsTrimmed(r[i]) {
      assert r[i] in mapped;
    }
  }

  /** The intended rename holds exactly the new name (when some tag matched)
      and the tags that did not match. */
  lemma RenamedTagsMembers(cats: seq<string>, oldTag: string, newTag: string, t: string)
    ensures t in RenamedTags(cats, oldTag, newTag)
            <==> (t == newTag && MatchesAny(cats, oldTag)) || (t in cats && !TagsMatch(t, oldTag))
  {
    var mapped := RenamedAsWritten(cats, oldTag, newTag);
    if t in mapped {
      var i :| 0 <= i < |mapped| && mapped[i] == t;
    }
    if t in cats && !TagsMatch(t, oldTag) {
      var i :| 0 <= i < |cats| && cats[i] == t;
      assert mapped[i] == t;
    }
    if t == newTag && MatchesAny(cats, oldTag) {
      var i :| 0 <= i < |cats| && TagsMatch(cats[i], oldTag);
      assert mapped[i] == t;
    }
  }

  /** The same rename done the intended way keeps "Wellness" once. */
  lemma RenameMergesOnce()
    ensures RenamedTags(["Health", "health"], "health", "Wellness") == ["Wellness"]
  {
    HealthTags();
    var mapped := ["Wellness", "Wellness"];
    assert mapped[..1] == ["Wellness"];
    assert Dedup(mapped[..1]) == ["Wellness"] by {
      assert mapped[..1][..0] == [];
    }
  }

  /** A habit renamed the intended way; untouched when no tag matched. */
  function RenamedHabit(h: Habit, oldTag: string, newTag: string): (r: Habit)
    ensures r.id == h.id && r.name == h.name && r.description == h.description && r.created == h.created
    ensures !MatchesAny(h.categories, oldTag) ==> r == h
  {
    if MatchesAny(h.categories, oldTag) then h.(categories := RenamedTags(h.categories, oldTag, newTag))
    else h
  }

  function RenamedHabits(habits: seq<Habit>, oldTag: string, newTag: string): (r: seq<Habit>)
    ensures |r| == |habits| && forall i :: 0 <= i < |habits| ==> r[i] == RenamedHabit(habits[i], oldTag, newTag)
  {
    seq(|habits|, i requires 0 <= i < |habits| => RenamedHabit(habits[i], oldTag, newTag))
  }

  /** The colour-map update as written: the colour is copied to the new name,
      then the old key is deleted, even when it is the new name. */
  function RenamedColorsAsWritten(colors: map<string, string>, key: string, newTag: string): map<string, string>
    requires key in colors
  {
    colors[newTag := colors[key]] - {key}
  }

  /** Saving a rename of "work" to "work" (the name the edit field starts
      with) drops the tag's own colour: it falls back to the hash colour. */
  lemma RenameToSameNameDropsColor()
    ensures var colors := map["work" := "#ff00ff"];
            var renamed := RenamedColorsAsWritten(colors, "work", "work");
            renamed == map[]
            && CategoryColor("work", colors) == "#ff00ff"
            && CategoryColor("work", renamed) == HashColor("work")
  {
    TrimWork();
    var colors := map["work" := "#ff00ff"];
    assert RenamedColorsAsWritten(colors, "work", "work").Keys == {};
  }

  /** The intended colour-map update: the old key is deleted, then the
      colour is stored under the new name. */
  function RenamedColors(colors: map<string, string>, key: string, newTag: string): (r: map<string, string>)
    requires key in colors
    ensures newTag in r && r[newTag] == colors[key]
    ensures key != newTag ==> key !in r
    ensures forall k :: k != key && k != newTag ==> (k in r <==> k in colors) && (k in r ==> r[k] == colors[k])
  {
    (colors - {key})[newTag := colors[key]]
  }

  /** The two updates differ only when the old key is the new name. */
  lemma RenamedColorsAgree(colors: map<string, string>, key: string, newTag: string)
    requires key in colors && key != newTag
    ensures RenamedColorsAsWritten(colors, key, newTag) == RenamedColors(colors, key, newTag)
  {
  }

  /** After the intended update the renamed tag is drawn in the colour the
      old key had. */
  lemma RenamedColorsKeepColor(colors: map<string, string>, key: string, newTag: string)
    requires key in colors && colors[key] != "" && newTag != "" && IsTrimmed(newTag)
    ensures CategoryColor(newTag, RenamedColors(colors, key, newTag)) == colors[key]
  {
    TrimTrimmed(newTag);
  }
}
