/** The habit's `category` column codec: the stored field is null, a JSON
    array of strings (current format) or a comma-separated string (legacy);
    in memory it is a list of distinct, trimmed, non-empty tags. */
module Tags {
  import opened Seqs
  import opened Text
  import Json

  /** The in-memory form of a habit's tags: distinct, trimmed, non-empty. */
  predicate IsTagList(xs: seq<string>) {
    NoDups(xs) && forall i :: 0 <= i < |xs| ==> xs[i] != "" && IsTrimmed(xs[i])
  }

  function TrimAll(xs: seq<string>): (r: seq<string>)
    ensures |r| == |xs| && forall i :: 0 <= i < |xs| ==> r[i] == Trim(xs[i])
  {
    seq(|xs|, i requires 0 <= i < |xs| => Trim(xs[i]))
  }

  predicate NonEmpty(s: string) {
    s != ""
  }

  /** `Array.from(new Set(xs.map(trim).filter(Boolean)))`, the cleaning step
      shared by both parse paths and by the serializer. */
  function Clean(xs: seq<string>): (r: seq<string>)
    ensures IsTagList(r)
    ensures forall t :: t in r <==> t != "" && exists i :: 0 <= i < |xs| && Trim(xs[i]) == t
  {
    var trimmed := TrimAll(xs);
    var kept := Filter(trimmed, NonEmpty);
    var r := Dedup(kept);
    forall i | 0 <= i < |r| ensures r[i] != "" && IsTrimmed(r[i]) {
      assert r[i] in kept;
      assert r[i] in trimmed;
    }
    r
  }

  /** Cleaning keeps the first occurrence of each tag, in order: the tags of
      the result appear in the order of their first trimmed positions. */
  lemma CleanOrder(xs: seq<string>)
    ensures forall i, j :: 0 <= i < j < |Clean(xs)| ==>
              IndexOf(TrimAll(xs), Clean(xs)[i]) < IndexOf(TrimAll(xs), Clean(xs)[j])
  {
    var trimmed := TrimAll(xs);
    var kept := Filter(trimmed, NonEmpty);
    var r := Clean(xs);
    DedupOrder(kept);
    forall i, j | 0 <= i < j < |r| ensures IndexOf(trimmed, r[i]) < IndexOf(trimmed, r[j]) {
      assert r[i] in kept && r[j] in kept;
      FilterIndexOf(trimmed, NonEmpty, r[i], r[j]);
    }
  }

  /** Cleaning a list that is already in the in-memory form changes nothing. */
  lemma CleanTagList(xs: seq<string>)
    requires IsTagList(xs)
    ensures Clean(xs) == xs
  {
    TrimAllTagList(xs);
    FilterKeepsAll(xs, NonEmpty);
  }

  lemma CleanIdempotent(xs: seq<string>)
    ensures Clean(Clean(xs)) == Clean(xs)
  {
    CleanTagList(Clean(xs));
  }

  /** `normalizeCategories(raw)`: null or empty gives no tags; a JSON array
      of strings is cleaned; anything else is read as a legacy
      comma-separated list. It never fails. */
  function Normalize(raw: Json.Option<string>): (r: seq<string>)
    ensures IsTagList(r)
  {
    match raw
    case None => []
    case Some(text) =>
      if text == "" then []
      else
        match Json.ParseStringArray(text)
        case Some(items) => Clean(items)
        case None => Clean(Split(text, ','))
  }

  /** `serializeCategories(list)`: the JSON array of the cleaned list, or null
      when nothing is left. */
  function Serialize(xs: seq<string>): (r: Json.Option<string>)
    ensures r.None? <==> Clean(xs) == []
  {
    var unique := Clean(xs);
    if |unique| > 0 then Json.Some(Json.Stringify(unique)) else Json.None
  }

  /** Tag round trip: reading back what was written gives the list trimmed,
      without empty items, without repeats (first occurrence kept, order
      kept); a null field reads as no tags. */
  lemma RoundTrip(xs: seq<string>)
    ensures Normalize(Serialize(xs)) == Clean(xs)
    ensures Normalize(Json.None) == []
  {
    var unique := Clean(xs);
    if |unique| > 0 {
      Json.StringifyRoundTrip(unique);
      assert Json.Stringify(unique) != "";
      CleanTagList(unique);
    }
  }

  /** Writing a list already in the in-memory form and reading it back is the
      identity. */
  lemma RoundTripTagList(xs: seq<string>)
    requires IsTagList(xs)
    ensures Normalize(Serialize(xs)) == xs
  {
    RoundTrip(xs);
    CleanTagList(xs);
  }

  /** A field that is not a JSON array (its first non-blank character is not
      `[`) is read as a legacy comma-separated list. */
  lemma LegacyFallback(text: string)
    requires text != ""
    requires |Json.SkipWhitespace(text)| == 0 || Json.SkipWhitespace(text)[0] != '['
    ensures Normalize(Json.Some(text)) == Clean(Split(text, ','))
  {
  }

  /** A legacy field holding a single tag (no comma, not an array) reads as
      that one tag, trimmed, or as no tags when it is blank. */
  lemma LegacySingleTag(text: string)
    requires text != "" && ',' !in text
    requires |Json.SkipWhitespace(text)| == 0 || Json.SkipWhitespace(text)[0] != '['
    ensures Normalize(Json.Some(text)) == if Trim(text) == "" then [] else [Trim(text)]
  {
    assert FirstIndex(text, ',') == |text|;
    assert Split(text, ',') == [text];
    assert TrimAll([text]) == [Trim(text)];
    if Trim(text) != "" {
      assert Filter([Trim(text)], NonEmpty) == [Trim(text)];
    } else {
      assert Filter([Trim(text)], NonEmpty) == [];
    }
  }

  /** Two comma-free pieces joined by a comma split back into the two. */
  lemma SplitPair(a: string, b: string)
    requires ',' !in a && ',' !in b
    ensures Split(a + [','] + b, ',') == [a, b]
  {
    var text := a + [','] + b;
    assert text[..|a|] == a;
    FirstIndexAt(text, ',', |a|);
    assert text[|a| + 1..] == b;
  }

  lemma SplitExample()
    ensures Split("work, health", ',') == ["work", " health"]
  {
    assert "work, health" == "work" + [','] + " health";
    SplitPair("work", " health");
  }

  lemma TrimExample()
    ensures TrimAll(["work", " health"]) == ["work", "health"]
  {
    var xs := ["work", " health"];
    TrimWork();
    TrimHealth();
    assert TrimAll(xs)[0] == Trim("work") && TrimAll(xs)[1] == Trim(" health");
  }

  lemma TrimWork()
    ensures Trim("work") == "work"
  {
    var w := "work";
    assert !IsWhitespace(w[0]) && !IsWhitespace(w[3]);
    TrimTrimmed(w);
  }

  lemma TrimHealth()
    ensures Trim(" health") == "health"
  {
    var h := "health";
    assert !IsWhitespace(h[0]) && !IsWhitespace(h[5]);
    assert " health" == [' '] + h;
    assert TrimStart(" health") == TrimStart(h);
    TrimTrimmed(h);
  }

  lemma ExampleIsTagList()
    ensures IsTagList(["work", "health"])
  {
    var tags := ["work", "health"];
    assert tags[0] != tags[1] by {
      assert |tags[0]| == 4 && |tags[1]| == 6;
    }
  }

  /** The legacy example `"work, health"` reads as `["work", "health"]`. */
  lemma LegacyExample()
    ensures Normalize(Json.Some("work, health")) == ["work", "health"]
  {
    var text := "work, health";
    assert Json.SkipWhitespace(text) == text;
    LegacyFallback(text);
    SplitExample();
    var ys := ["work", "health"];
    TrimExample();
    ExampleIsTagList();
    CleanTagList(ys);
    TrimAllTagList(ys);
    CleanSeesTrimmed(["work", " health"], ys);
  }

  /** A list in the in-memory form is unchanged by trimming each item. */
  lemma TrimAllTagList(xs: seq<string>)
    requires IsTagList(xs)
    ensures TrimAll(xs) == xs
  {
    forall i | 0 <= i < |xs| ensures Trim(xs[i]) == xs[i] {
      TrimTrimmed(xs[i]);
    }
  }

  /** Cleaning looks only at the trimmed items. */
  lemma CleanSeesTrimmed(xs: seq<string>, ys: seq<string>)
    requires TrimAll(xs) == TrimAll(ys)
    ensures Clean(xs) == Clean(ys)
  {
  }

  /** `toggleCategorySelection(list, category)`: a blank tag leaves the
      selection alone; otherwise the trimmed tag is removed when selected and
      appended when not. */
  function ToggleSelection(list: seq<string>, category: string): (r: seq<string>)
    ensures Trim(category) == "" ==> r == list
    ensures Trim(category) != "" ==>
              (Trim(category) in r <==> Trim(category) !in list)
              && forall x :: x != Trim(category) ==> (x in r <==> x in list)
  {
    var trimmed := Trim(category);
    if trimmed == "" then list
    else if trimmed in list then Filter(list, x => x != trimmed)
    else list + [trimmed]
  }

  /** Toggling keeps a selection in the in-memory form. */
  lemma ToggleSelectionKeepsTagList(list: seq<string>, category: string)
    requires IsTagList(list)
    ensures IsTagList(ToggleSelection(list, category))
  {
    var trimmed := Trim(category);
    if trimmed != "" {
      if trimmed in list {
        var r := Filter(list, x => x != trimmed);
        FilterNoDups(list, x => x != trimmed);
        forall i | 0 <= i < |r| ensures r[i] != "" && IsTrimmed(r[i]) {
          assert r[i] in list;
        }
      } else {
        var r := list + [trimmed];
        forall i, j | 0 <= i < j < |r| ensures r[i] != r[j] {
          if j == |list| {
            assert r[i] in list;
          }
        }
      }
    }
  }

  /** Selecting a tag that was not selected and then toggling it again gives
      the original selection back. */
  lemma ToggleSelectionTwice(list: seq<string>, category: string)
    requires Trim(category) !in list
    ensures ToggleSelection(ToggleSelection(list, category), category) == list
  {
    var trimmed := Trim(category);
    if trimmed != "" {
      var p := (x: string) => x != trimmed;
      assert ToggleSelection(list + [trimmed], category) == Filter(list + [trimmed], p);
      FilterAppend(list, [trimmed], p);
      FilterKeepsAll(list, p);
    }
  }
}
