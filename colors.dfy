/** Tag colours: the fixed palette, the colour a tag is drawn with, the colour
    a newly created tag is given, and the reconciliation that keeps the colour
    map in step with the tags in use. */
module Colors {
  import opened Seqs
  import opened Text

  /** The twenty palette colours, in the order the dashboard lists them. */
  const Palette: seq<string> := [
    "#22c55e", "#0ea5e9", "#06b6d4", "#10b981", "#14b8a6",
    "#38bdf8", "#3b82f6", "#6366f1", "#7c3aed", "#8b5cf6",
    "#a855f7", "#c084fc", "#d946ef", "#eab308", "#f59e0b",
    "#f97316", "#f43f5e", "#ef4444", "#84cc16", "#1e293b"
  ]

  /** The colour of a blank tag. */
  const Neutral: string := "#334155"

  /** The sum of the UTF-16 code units `split("")` produces for one character:
      the character itself below U+10000, its surrogate pair above. */
  function CodeUnitSum(c: char): nat {
    var v := c as int;
    if v < 0x10000 then v
    else (0xD800 + (v - 0x10000) / 0x400) + (0xDC00 + (v - 0x10000) % 0x400)
  }

  /** `s.split("").reduce((acc, ch) => acc + ch.charCodeAt(0), 0)`. */
  function CharCodeSum(s: string): nat {
    if |s| == 0 then 0 else CharCodeSum(s[..|s| - 1]) + CodeUnitSum(s[|s| - 1])
  }

  /** Every palette colour is a seven-character hex code. */
  lemma PaletteCodes()
    ensures forall i :: 0 <= i < |Palette| ==> |Palette[i]| == 7 && Palette[i][0] == '#'
  {
  }

  /** The palette colour a tag without an explicit colour is drawn with. */
  function HashColor(tag: string): (r: string)
    ensures r in Palette && |r| == 7
  {
    PaletteCodes();
    Palette[CharCodeSum(tag) % |Palette|]
  }

  lemma {:induction false} CharCodeSumAppend(a: string, b: string)
    ensures CharCodeSum(a + b) == CharCodeSum(a) + CharCodeSum(b)
    decreases |b|
  {
    if |b| > 0 {
      var b' := b[..|b| - 1];
      assert (a + b)[..|a + b| - 1] == a + b';
      CharCodeSumAppend(a, b');
    } else {
      assert a + b == a;
    }
  }

  /** The hash is a sum, so it ignores the order of the characters. */
  lemma {:induction false} CharCodeSumPermutation(s: string, t: string)
    requires multiset(s) == multiset(t)
    ensures CharCodeSum(s) == CharCodeSum(t)
    decreases |s|
  {
    if |s| > 0 {
      var x := s[|s| - 1];
      var s' := s[..|s| - 1];
      assert s == s' + [x];
      assert x in multiset(t);
      var j :| 0 <= j < |t| && t[j] == x;
      var t' := t[..j] + t[j + 1..];
      assert t == t[..j] + [x] + t[j + 1..];
      assert multiset(t) == multiset(t[..j]) + multiset([x]) + multiset(t[j + 1..]);
      assert multiset(s) == multiset(s') + multiset([x]);
      assert multiset(t') == multiset(t[..j]) + multiset(t[j + 1..]);
      assert multiset(t') == multiset(t) - multiset([x]);
      assert multiset(s') == multiset(s) - multiset([x]);
      CharCodeSumPermutation(s', t');
      CharCodeSumAppend(t[..j], [x]);
      CharCodeSumAppend(t[..j] + [x], t[j + 1..]);
      CharCodeSumAppend(t[..j], t[j + 1..]);
      assert CharCodeSum([x]) == CodeUnitSum(x) by {
        assert [x][..0] == [];
      }
    } else {
      assert |t| == 0;
    }
  }

  /** Two tags that are anagrams of each other get the same hash colour. */
  lemma HashColorAnagram(a: string, b: string)
    requires multiset(a) == multiset(b)
    ensures HashColor(a) == HashColor(b)
  {
    CharCodeSumPermutation(a, b);
  }

  /** A colour entry that counts: present and not the empty string (an empty
      string is falsy in the source and is treated as missing). */
  predicate HasColor(colors: map<string, string>, tag: string) {
    tag in colors && colors[tag] != ""
  }

  /** `getCategoryColor(category)`: the neutral colour for a blank tag, the
      explicit colour of the trimmed tag when it has one, the hash colour
      otherwise. */
  function CategoryColor(category: string, colors: map<string, string>): (r: string)
    ensures Trim(category) == "" ==> r == Neutral
    ensures Trim(category) != "" && HasColor(colors, Trim(category)) ==> r == colors[Trim(category)]
    ensures Trim(category) != "" && !HasColor(colors, Trim(category)) ==> r == HashColor(Trim(category))
    ensures Trim(category) != "" ==> r != ""
  {
    var trimmed := Trim(category);
    if trimmed == "" then Neutral
    else if HasColor(colors, trimmed) then colors[trimmed]
    else HashColor(trimmed)
  }

  /** A tag's colour depends on the colour map only through the tag's own
      entry: entries of other tags never change it. */
  lemma CategoryColorLocal(category: string, c1: map<string, string>, c2: map<string, string>)
    requires HasColor(c1, Trim(category)) == HasColor(c2, Trim(category))
    requires HasColor(c1, Trim(category)) ==> c1[Trim(category)] == c2[Trim(category)]
    ensures CategoryColor(category, c1) == CategoryColor(category, c2)
  {
  }

  /** A tag without an explicit colour is drawn from the palette or, when
      blank, in the neutral colour; so is every tag when the map is empty. */
  lemma CategoryColorDefault(category: string, colors: map<string, string>)
    ensures !HasColor(colors, Trim(category)) ==>
              CategoryColor(category, colors) == CategoryColor(category, map[])
    ensures CategoryColor(category, map[]) in Palette || Trim(category) == ""
  {
  }

  /** The lower-cased colours in use: `new Set(Object.values(colors).map(toLowerCase))`. */
  function UsedColors(colors: map<string, string>): set<string> {
    set k | k in colors :: ToLower(colors[k])
  }

  /** The first index of `palette` at or after `i` whose colour is not in
      `used`, or `|palette|` when every later one is. */
  function FirstUnused(palette: seq<string>, used: set<string>, i: nat): (r: nat)
    requires i <= |palette|
    ensures i <= r <= |palette|
    ensures forall j :: i <= j < r ==> ToLower(palette[j]) in used
    ensures r < |palette| ==> ToLower(palette[r]) !in used
    decreases |palette| - i
  {
    if i == |palette| then i
    else if ToLower(palette[i]) !in used then i
    else FirstUnused(palette, used, i + 1)
  }

  /** The colour `getNextPaletteColor` picks from `palette` given the
      lower-cased colours in use: the first unused one or, when all are
      taken, the one at the number of colours in use, modulo the palette
      size. */
  function PickColor(palette: seq<string>, used: set<string>): (r: string)
    requires |palette| > 0
    ensures r in palette
    ensures (exists j :: 0 <= j < |palette| && ToLower(palette[j]) !in used)
            ==> exists i :: 0 <= i < |palette| && r == palette[i] && ToLower(r) !in used
                            && forall j :: 0 <= j < i ==> ToLower(palette[j]) in used
    ensures (forall j :: 0 <= j < |palette| ==> ToLower(palette[j]) in used)
            ==> r == palette[|used| % |palette|]
  {
    var i := FirstUnused(palette, used, 0);
    if i < |palette| then palette[i] else palette[|used| % |palette|]
  }

  /** `getNextPaletteColor()`: the palette colour picked for the colours the
      map uses (compared without case). */
  function NextPaletteColor(colors: map<string, string>): (r: string)
    ensures r in Palette && |r| == 7
    ensures r == PickColor(Palette, UsedColors(colors))
    ensures (exists j :: 0 <= j < |Palette| && ToLower(Palette[j]) !in UsedColors(colors))
            ==> ToLower(r) !in UsedColors(colors)
  {
    PaletteCodes();
    PickColor(Palette, UsedColors(colors))
  }

  /** `upsertTagColor(tag)`: a tag that already has a colour keeps it; one
      that has none is given `NextPaletteColor`. No other entry changes. */
  function UpsertColor(colors: map<string, string>, tag: string): (r: map<string, string>)
    ensures HasColor(r, tag)
    ensures HasColor(colors, tag) ==> r == colors
    ensures !HasColor(colors, tag) ==> r[tag] == NextPaletteColor(colors)
    ensures forall k :: k != tag ==> (k in r <==> k in colors) && (k in colors ==> r[k] == colors[k])
  {
    if HasColor(colors, tag) then colors else colors[tag := NextPaletteColor(colors)]
  }

  /** The colour the reconciliation effect gives a current tag. */
  function FilledColor(prev: map<string, string>, tag: string): string {
    if HasColor(prev, tag) then prev[tag] else HashColor(tag)
  }

  /** The colour map after the reconciliation effect: one entry per current
      tag, each keeping its colour or filled with its hash colour; entries of
      tags no longer in use are gone. */
  function Reconciled(prev: map<string, string>, options: seq<string>): (r: map<string, string>)
    ensures r.Keys == Elements(options)
  {
    map k | k in options :: FilledColor(prev, k)
  }

  /** Reconciliation never changes how a current tag is drawn: the colours
      it fills in are exactly the hash colours `CategoryColor` fell back on. */
  lemma ReconcileKeepsDisplayedColors(prev: map<string, string>, options: seq<string>, tag: string)
    requires tag in options && tag != "" && IsTrimmed(tag)
    ensures CategoryColor(tag, Reconciled(prev, options)) == CategoryColor(tag, prev)
  {
    TrimTrimmed(tag);
  }

  /** Reconciling twice is reconciling once. */
  lemma ReconcileIdempotent(prev: map<string, string>, options: seq<string>)
    ensures Reconciled(Reconciled(prev, options), options) == Reconciled(prev, options)
  {
    var r := Reconciled(prev, options);
    forall k | k in options ensures FilledColor(r, k) == r[k] {
      assert HashColor(k) != "";
    }
  }

  /** Reconciliation changes the map exactly when some current tag lacks a
      colour or some entry belongs to a tag no longer in use. */
  lemma ReconciledChanges(prev: map<string, string>, options: seq<string>)
    ensures Reconciled(prev, options) != prev <==>
              (exists k :: k in options && !HasColor(prev, k)) || (exists k :: k in prev && k !in options)
  {
    var r := Reconciled(prev, options);
    if exists k :: k in options && !HasColor(prev, k) {
      var k :| k in options && !HasColor(prev, k);
      assert HashColor(k) != "";
      assert k !in prev || r[k] != prev[k];
    }
    if exists k :: k in prev && k !in options {
      var k :| k in prev && k !in options;
      assert k !in r;
    }
  }

  /** What the first pass has done once it has seen the tags in `seen`:
      exactly those tags were added, each with its filled colour, the other
      entries are untouched, and `filled` says whether any tag lacked one. */
  ghost predicate FillInvariant(prev: map<string, string>, next: map<string, string>, seen: set<string>, filled: bool) {
    (forall k :: k in next <==> k in prev || k in seen)
    && (forall k :: k in seen ==> k in next && next[k] == FilledColor(prev, k))
    && (forall k :: k in prev && k !in seen ==> k in next && next[k] == prev[k])
    && (filled <==> exists k :: k in seen && !HasColor(prev, k))
  }

  /** One step of the first pass keeps its invariant. */
  lemma FillStepKeeps(prev: map<string, string>, next: map<string, string>, seen: set<string>, filled: bool, cat: string)
    requires FillInvariant(prev, next, seen, filled)
    ensures !HasColor(next, cat) ==> FillInvariant(prev, next[cat := HashColor(cat)], seen + {cat}, true)
    ensures HasColor(next, cat) ==> FillInvariant(prev, next, seen + {cat}, filled)
  {
    if cat in seen {
      assert HasColor(next, cat);
    } else if !HasColor(next, cat) {
      assert !HasColor(prev, cat);
    }
  }

  /** The first pass of the reconciliation effect: every tag without a
      colour is given its hash colour; `filled` records whether any was. */
  method FillMissing(prev: map<string, string>, options: seq<string>) returns (next: map<string, string>, filled: bool)
    ensures forall k :: k in next <==> k in prev || k in options
    ensures forall k :: k in next ==> next[k] == if k in options then FilledColor(prev, k) else prev[k]
    ensures filled <==> exists k :: k in options && !HasColor(prev, k)
  {
    next := prev;
    filled := false;
    ghost var seen: set<string> := {};
    for i := 0 to |options|
      invariant seen == Elements(options[..i])
      invariant FillInvariant(prev, next, seen, filled)
    {
      var cat := options[i];
      assert options[..i + 1] == options[..i] + [cat];
      FillStepKeeps(prev, next, seen, filled, cat);
      if !HasColor(next, cat) {
        next := next[cat := HashColor(cat)];
        filled := true;
      }
      seen := seen + {cat};
    }
    assert options[..|options|] == options;
  }

  /** The second pass: every key that is not a current tag is deleted;
      `removed` records whether any was. */
  method PruneOrphans(mid: map<string, string>, options: seq<string>) returns (next: map<string, string>, removed: bool)
    ensures forall k :: k in next <==> k in mid && k in options
    ensures forall k :: k in next ==> next[k] == mid[k]
    ensures removed <==> exists k :: k in mid && k !in options
  {
    next := mid;
    removed := false;
    var keys := mid.Keys;
    while keys != {}
      invariant keys <= mid.Keys
      invariant forall k :: k in next <==> k in mid && (k in keys || k in options)
      invariant forall k :: k in next ==> next[k] == mid[k]
      invariant removed <==> exists k :: k in mid && k !in keys && k !in options
      decreases |keys|
    {
      var key :| key in keys;
      if key !in options {
        next := next - {key};
        removed := true;
      }
      keys := keys - {key};
    }
  }

  /** The reconciliation effect as the source runs it: the two passes, with a
      flag recording whether anything changed. */
  method Reconcile(prev: map<string, string>, options: seq<string>) returns (next: map<string, string>, changed: bool)
    ensures next == Reconciled(prev, options)
    ensures changed <==> next != prev
  {
    var mid, filled := FillMissing(prev, options);
    var removed;
    next, removed := PruneOrphans(mid, options);
    changed := filled || removed;
    ghost var r := Reconciled(prev, options);
    assert next.Keys == r.Keys;
    assert forall k :: k in next ==> next[k] == r[k];
    assert next == r;
    assert (exists k :: k in mid && k !in options) <==> (exists k :: k in prev && k !in options);
    ReconciledChanges(prev, options);
  }
}
