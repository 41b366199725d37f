/**
 * The roster operations of the input panel: the name key shared by duplicate
 * flagging and duplicate removal, the per-key counts, the three ways names are
 * appended (free text, the first column of an uploaded file, a list from the
 * name generator), removal by id and clearing.
 */
module Roster {
  import opened Types
  import opened Seqs
  import opened Text

  // ---------------------------------------------------------------- name keys

  /** The one normalisation used both to flag and to remove duplicates: trim, then lower-case. */
  function NameKey(name: string): (k: string)
    ensures |k| <= |name|
    ensures exists i, j :: 0 <= i <= j <= |name| && k == ToLower(name[i..j]) && AllWhitespace(name[..i]) && AllWhitespace(name[j..])
  {
    ToLower(Trim(name))
  }

  /** A key has no upper-case ASCII letter; it is empty only for a blank name. */
  lemma NameKeyShape(name: string)
    ensures NameKey(name) == [] <==> AllWhitespace(name)
    ensures var k := NameKey(name); forall i :: 0 <= i < |k| ==> !('A' <= k[i] <= 'Z')
  {
    var t := Trim(name);
    assert |ToLower(t)| == |t|;
  }

  /** A key has no whitespace on either edge. */
  lemma NameKeyEdges(name: string)
    ensures var k := NameKey(name); k == [] || (!IsWhitespace(k[0]) && !IsWhitespace(k[|k| - 1]))
  {
    var t := Trim(name);
    assert t == [] || (!IsWhitespace(t[0]) && !IsWhitespace(t[|t| - 1]));
    LowerKeepsEdges(t);
    assert NameKey(name) == ToLower(t);
  }

  /** The key of a roster entry. */
  function Key(p: Person): string {
    NameKey(p.name)
  }

  // The counting and deduplication below are stated for any key function `key`;
  // the panel uses them with `Key`, so flagging and removal agree on what a duplicate is.

  /** The keys that occur in `people`. */
  function KeySet(people: seq<Person>, key: Person -> string): set<string> {
    set i | 0 <= i < |people| :: key(people[i])
  }

  lemma KeySetSnoc(people: seq<Person>, key: Person -> string, p: Person)
    ensures KeySet(people + [p], key) == KeySet(people, key) + {key(p)}
  {
    var s := people + [p];
    forall k | k in KeySet(people, key) ensures k in KeySet(s, key) {
      var i :| 0 <= i < |people| && key(people[i]) == k;
      assert s[i] == people[i];
    }
    assert s[|people|] == p;
  }

  /** Keys are pairwise distinct. */
  predicate DistinctKeys(people: seq<Person>, key: Person -> string) {
    forall i, j :: 0 <= i < j < |people| ==> key(people[i]) != key(people[j])
  }

  /** Some key occurs at two places. */
  predicate HasRepeatedKey(people: seq<Person>, key: Person -> string) {
    exists i, j :: 0 <= i < j < |people| && key(people[i]) == key(people[j])
  }

  // ------------------------------------------------------------------- counts

  /** How many entries have key `k`. */
  function CountKey(people: seq<Person>, key: Person -> string, k: string): (n: nat)
    ensures n <= |people|
    ensures n > 0 <==> k in KeySet(people, key)
  {
    if people == [] then 0
    else
      var init, last := people[..|people| - 1], people[|people| - 1];
      assert people == init + [last];
      KeySetSnoc(init, key, last);
      CountKey(init, key, k) + (if key(last) == k then 1 else 0)
  }

  /** `counts` is the key-to-count table of `people`. */
  predicate IsCountTable(counts: map<string, nat>, people: seq<Person>, key: Person -> string) {
    && counts.Keys == KeySet(people, key)
    && forall k :: k in counts ==> counts[k] == CountKey(people, key, k)
  }

  /** Adding one entry to a count table bumps the count of its key. */
  lemma CountTableSnoc(counts: map<string, nat>, people: seq<Person>, key: Person -> string, p: Person)
    requires IsCountTable(counts, people, key)
    ensures IsCountTable(counts[key(p) := (if key(p) in counts then counts[key(p)] else 0) + 1], people + [p], key)
  {
    var s := people + [p];
    assert s[..|people|] == people;
    KeySetSnoc(people, key, p);
    assert key(p) !in counts ==> CountKey(people, key, key(p)) == 0;
  }

  /** One more entry of the roster bumps the count of its key. */
  lemma CountTableStep(counts: map<string, nat>, people: seq<Person>, key: Person -> string, i: nat)
    requires i < |people| && IsCountTable(counts, people[..i], key)
    ensures var k := key(people[i]);
      IsCountTable(counts[k := (if k in counts then counts[k] else 0) + 1], people[..i + 1], key)
  {
    assert people[..i + 1] == people[..i] + [people[i]];
    CountTableSnoc(counts, people[..i], key, people[i]);
  }

  /** `nameCounts`: the key-to-count table built with one pass over the roster. */
  method NameCounts(people: seq<Person>) returns (counts: map<string, nat>)
    ensures IsCountTable(counts, people, Key)
  {
    counts := map[];
    var i := 0;
    while i < |people|
      invariant 0 <= i <= |people|
      invariant IsCountTable(counts, people[..i], Key)
    {
      var k := Key(people[i]);
      CountTableStep(counts, people, Key, i);
      counts := counts[k := (if k in counts then counts[k] else 0) + 1];
      i := i + 1;
    }
    assert people[..i] == people;
  }

  /** `hasDuplicates`: some key is counted more than once. */
  predicate HasDuplicates(counts: map<string, nat>) {
    exists k | k in counts :: counts[k] > 1
  }

  /** `isDuplicate`: a person is flagged when their key is counted more than once. */
  predicate IsFlagged(counts: map<string, nat>, p: Person)
    ensures IsFlagged(counts, p) ==> HasDuplicates(counts)
  {
    Key(p) in counts && counts[Key(p)] > 1
  }

  /** A key is counted twice or more exactly when it occurs at two places. */
  lemma {:induction false} CountAtLeastTwo(people: seq<Person>, key: Person -> string, k: string)
    ensures CountKey(people, key, k) >= 2 <==>
      exists i, j :: 0 <= i < j < |people| && key(people[i]) == k && key(people[j]) == k
  {
    if people != [] {
      var init, last := people[..|people| - 1], people[|people| - 1];
      assert people == init + [last];
      CountAtLeastTwo(init, key, k);
      if CountKey(people, key, k) >= 2 {
        if key(last) == k {
          assert CountKey(init, key, k) > 0;
          var i :| 0 <= i < |init| && key(init[i]) == k;
          assert people[i] == init[i];
          assert key(people[|people| - 1]) == k;
        } else {
          var i, j :| 0 <= i < j < |init| && key(init[i]) == k && key(init[j]) == k;
          assert people[i] == init[i] && people[j] == init[j];
        }
      }
    }
  }

  /** The table reports a duplicate exactly when two entries share a key. */
  lemma HasDuplicatesIff(people: seq<Person>, key: Person -> string, counts: map<string, nat>)
    requires IsCountTable(counts, people, key)
    ensures HasDuplicates(counts) <==> HasRepeatedKey(people, key)
  {
    if HasDuplicates(counts) {
      var k :| k in counts && counts[k] > 1;
      CountAtLeastTwo(people, key, k);
    }
    if HasRepeatedKey(people, key) {
      var i, j :| 0 <= i < j < |people| && key(people[i]) == key(people[j]);
      CountAtLeastTwo(people, key, key(people[i]));
      assert key(people[i]) in counts;
    }
  }

  /** An entry is flagged exactly when another entry has the same name key. */
  lemma FlaggedIff(people: seq<Person>, counts: map<string, nat>, i: nat)
    requires IsCountTable(counts, people, Key)
    requires i < |people|
    ensures IsFlagged(counts, people[i]) <==>
      exists j :: 0 <= j < |people| && j != i && Key(people[j]) == Key(people[i])
  {
    var k := Key(people[i]);
    assert k in counts;
    CountAtLeastTwo(people, Key, k);
    if IsFlagged(counts, people[i]) {
      var a, b :| 0 <= a < b < |people| && Key(people[a]) == k && Key(people[b]) == k;
      if a == i { assert Key(people[b]) == k; } else { assert Key(people[a]) == k; }
    }
    if exists j :: 0 <= j < |people| && j != i && Key(people[j]) == k {
      var j :| 0 <= j < |people| && j != i && Key(people[j]) == k;
      if j < i { assert Key(people[j]) == k && Key(people[i]) == k; }
      else { assert Key(people[i]) == k && Key(people[j]) == k; }
    }
  }

  // ------------------------------------------------------------ deduplication

  /** Entry `i` is the first with its key. */
  predicate IsFirstOccurrence(people: seq<Person>, key: Person -> string, i: nat)
    requires i < |people|
  {
    key(people[i]) !in KeySet(people[..i], key)
  }

  /** The roster with every entry dropped whose key occurred earlier. */
  function KeepFirst(people: seq<Person>, key: Person -> string): (r: seq<Person>)
    ensures IsSubsequence(r, people)
    ensures DistinctKeys(r, key)
    ensures KeySet(r, key) == KeySet(people, key)
    ensures forall i :: 0 <= i < |people| && IsFirstOccurrence(people, key, i) ==> people[i] in r
  {
    if people == [] then []
    else
      var init, last := people[..|people| - 1], people[|people| - 1];
      assert people == init + [last];
      var r := KeepFirst(init, key);
      if key(last) in KeySet(init, key) then
        KeepFirstSkip(r, init, last, key);
        r
      else
        KeepFirstAdd(r, init, last, key);
        r + [last]
  }

  /** An entry whose key occurs among the earlier ones is first exactly when it is first among those. */
  lemma FirstOccurrenceSnoc(init: seq<Person>, last: Person, key: Person -> string, i: nat)
    requires i <= |init|
    ensures var people := init + [last];
      IsFirstOccurrence(people, key, i) <==>
        if i < |init| then IsFirstOccurrence(init, key, i) else key(last) !in KeySet(init, key)
  {
    var people := init + [last];
    assert people[..i] == init[..i];
    if i == |init| {
      assert init[..i] == init;
    }
  }

  /** An entry whose key was already seen is dropped, and what was kept still has every property. */
  lemma KeepFirstSkip(r: seq<Person>, init: seq<Person>, last: Person, key: Person -> string)
    requires IsSubsequence(r, init) && DistinctKeys(r, key) && KeySet(r, key) == KeySet(init, key)
    requires forall i :: 0 <= i < |init| && IsFirstOccurrence(init, key, i) ==> init[i] in r
    requires key(last) in KeySet(init, key)
    ensures var people := init + [last];
      && IsSubsequence(r, people)
      && KeySet(r, key) == KeySet(people, key)
      && forall i :: 0 <= i < |people| && IsFirstOccurrence(people, key, i) ==> people[i] in r
  {
    var people := init + [last];
    SubsequenceExtend(r, init, last);
    KeySetSnoc(init, key, last);
    forall i | 0 <= i < |people| && IsFirstOccurrence(people, key, i) ensures people[i] in r {
      FirstOccurrenceSnoc(init, last, key, i);
      assert people[i] == init[i];
    }
  }

  /** An entry whose key was not seen is kept, and the result has every property. */
  lemma KeepFirstAdd(r: seq<Person>, init: seq<Person>, last: Person, key: Person -> string)
    requires IsSubsequence(r, init) && DistinctKeys(r, key) && KeySet(r, key) == KeySet(init, key)
    requires forall i :: 0 <= i < |init| && IsFirstOccurrence(init, key, i) ==> init[i] in r
    requires key(last) !in KeySet(init, key)
    ensures var people, r' := init + [last], r + [last];
      && IsSubsequence(r', people)
      && DistinctKeys(r', key)
      && KeySet(r', key) == KeySet(people, key)
      && forall i :: 0 <= i < |people| && IsFirstOccurrence(people, key, i) ==> people[i] in r'
  {
    var people, r' := init + [last], r + [last];
    assert people[..|people| - 1] == init && r'[..|r'| - 1] == r;
    KeySetSnoc(init, key, last);
    KeySetSnoc(r, key, last);
    forall i, j | 0 <= i < j < |r'| ensures key(r'[i]) != key(r'[j]) {
      if j == |r| {
        assert key(r[i]) in KeySet(r, key);
      } else {
        assert r'[i] == r[i] && r'[j] == r[j];
      }
    }
    forall i | 0 <= i < |people| && IsFirstOccurrence(people, key, i) ensures people[i] in r' {
      FirstOccurrenceSnoc(init, last, key, i);
      if i < |init| {
        assert people[i] == init[i];
      }
    }
  }

  /** One more entry is kept exactly when its key has not been seen. */
  lemma KeepFirstSnoc(people: seq<Person>, key: Person -> string, p: Person)
    ensures KeepFirst(people + [p], key) ==
      if key(p) in KeySet(people, key) then KeepFirst(people, key) else KeepFirst(people, key) + [p]
  {
    var s := people + [p];
    assert s[..|s| - 1] == people;
  }

  /** One more entry of the roster: kept exactly when its key has not been seen, and its key is seen from then on. */
  lemma KeepFirstStep(people: seq<Person>, key: Person -> string, i: nat)
    requires i < |people|
    ensures KeepFirst(people[..i + 1], key) ==
      if key(people[i]) in KeySet(people[..i], key) then KeepFirst(people[..i], key) else KeepFirst(people[..i], key) + [people[i]]
    ensures KeySet(people[..i + 1], key) == KeySet(people[..i], key) + {key(people[i])}
  {
    assert people[..i + 1] == people[..i] + [people[i]];
    KeepFirstSnoc(people[..i], key, people[i]);
    KeySetSnoc(people[..i], key, people[i]);
  }

  /** The loop of `handleRemoveDuplicates`, for a given key: keep an entry when its key is not yet seen. */
  method RemoveDuplicatesBy(people: seq<Person>, key: Person -> string) returns (unique: seq<Person>)
    ensures unique == KeepFirst(people, key)
  {
    var seen: set<string> := {};
    unique := [];
    for i := 0 to |people|
      invariant unique == KeepFirst(people[..i], key)
      invariant seen == KeySet(people[..i], key)
    {
      var p := people[i];
      var k := key(p);
      KeepFirstStep(people, key, i);
      if k !in seen {
        seen := seen + {k};
        unique := unique + [p];
      }
    }
    assert people[..|people|] == people;
  }

  /** `handleRemoveDuplicates`: the first entry of every name key survives, in roster order. */
  method RemoveDuplicates(people: seq<Person>) returns (unique: seq<Person>)
    ensures unique == KeepFirst(people, Key)
    ensures IsSubsequence(unique, people) && DistinctKeys(unique, Key)
    ensures KeySet(unique, Key) == KeySet(people, Key)
  {
    unique := RemoveDuplicatesBy(people, Key);
  }

  /** A roster whose keys are already distinct is left as it is. */
  lemma {:induction false} KeepFirstOfDistinct(people: seq<Person>, key: Person -> string)
    requires DistinctKeys(people, key)
    ensures KeepFirst(people, key) == people
  {
    if people != [] {
      var init, last := people[..|people| - 1], people[|people| - 1];
      assert people == init + [last];
      assert DistinctKeys(init, key) by {
        forall i, j | 0 <= i < j < |init| ensures key(init[i]) != key(init[j]) {
          assert init[i] == people[i] && init[j] == people[j];
        }
      }
      KeepFirstOfDistinct(init, key);
      assert key(last) !in KeySet(init, key) by {
        forall i | 0 <= i < |init| ensures key(init[i]) != key(last) {
          assert init[i] == people[i];
        }
      }
    }
  }

  /** Removing duplicates twice is removing them once. */
  lemma KeepFirstIdempotent(people: seq<Person>, key: Person -> string)
    ensures KeepFirst(KeepFirst(people, key), key) == KeepFirst(people, key)
  {
    KeepFirstOfDistinct(KeepFirst(people, key), key);
  }

  /** After removing duplicates the count table of the roster reports none. */
  lemma NoDuplicatesAfterRemoval(people: seq<Person>, counts: map<string, nat>)
    requires IsCountTable(counts, KeepFirst(people, Key), Key)
    ensures !HasDuplicates(counts)
  {
    HasDuplicatesIff(KeepFirst(people, Key), Key, counts);
  }

  /** Total of the counts stored for the keys `ks`. */
  function SumAt(counts: map<string, nat>, ks: seq<string>): nat
    requires forall i :: 0 <= i < |ks| ==> ks[i] in counts
  {
    if ks == [] then 0 else counts[ks[0]] + SumAt(counts, ks[1..])
  }

  function SumCount(people: seq<Person>, key: Person -> string, ks: seq<string>): nat {
    if ks == [] then 0 else CountKey(people, key, ks[0]) + SumCount(people, key, ks[1..])
  }

  function Occurrences(ks: seq<string>, k: string): nat {
    if ks == [] then 0 else (if ks[0] == k then 1 else 0) + Occurrences(ks[1..], k)
  }

  lemma {:induction false} SumCountSnoc(people: seq<Person>, key: Person -> string, p: Person, ks: seq<string>)
    ensures SumCount(people + [p], key, ks) == SumCount(people, key, ks) + Occurrences(ks, key(p))
  {
    if ks != [] {
      SumCountSnoc(people, key, p, ks[1..]);
      assert (people + [p])[..|people|] == people;
    }
  }

  lemma {:induction false} OccurrencesOfDistinct(ks: seq<string>, k: string)
    requires forall i, j :: 0 <= i < j < |ks| ==> ks[i] != ks[j]
    requires k in ks
    ensures Occurrences(ks, k) == 1
  {
    if ks[0] == k {
      OccurrencesAbsent(ks[1..], k);
    } else {
      OccurrencesOfDistinct(ks[1..], k);
    }
  }

  lemma {:induction false} OccurrencesAbsent(ks: seq<string>, k: string)
    requires k !in ks
    ensures Occurrences(ks, k) == 0
  {
    if ks != [] {
      OccurrencesAbsent(ks[1..], k);
    }
  }

  lemma {:induction false} SumCountEmpty(key: Person -> string, ks: seq<string>)
    ensures SumCount([], key, ks) == 0
  {
    if ks != [] {
      SumCountEmpty(key, ks[1..]);
    }
  }

  lemma {:induction false} SumCountCovers(people: seq<Person>, key: Person -> string, ks: seq<string>)
    requires forall i, j :: 0 <= i < j < |ks| ==> ks[i] != ks[j]
    requires forall k :: k in KeySet(people, key) ==> k in ks
    ensures SumCount(people, key, ks) == |people|
  {
    if people == [] {
      SumCountEmpty(key, ks);
    } else {
      var init, last := people[..|people| - 1], people[|people| - 1];
      assert people == init + [last];
      KeySetSnoc(init, key, last);
      SumCountCovers(init, key, ks);
      SumCountSnoc(init, key, last, ks);
      OccurrencesOfDistinct(ks, key(last));
    }
  }

  lemma {:induction false} SumAtIsSumCount(people: seq<Person>, key: Person -> string, counts: map<string, nat>, ks: seq<string>)
    requires IsCountTable(counts, people, key)
    requires forall i :: 0 <= i < |ks| ==> ks[i] in counts
    ensures SumAt(counts, ks) == SumCount(people, key, ks)
  {
    if ks != [] {
      SumAtIsSumCount(people, key, counts, ks[1..]);
    }
  }

  /** The keys of a roster, in order. */
  function Keys(people: seq<Person>, key: Person -> string): (ks: seq<string>)
    ensures |ks| == |people|
    ensures forall i :: 0 <= i < |people| ==> ks[i] == key(people[i])
  {
    seq(|people|, i requires 0 <= i < |people| => key(people[i]))
  }

  /**
   * The counts add up to the size of the roster: summed over the keys of the
   * deduplicated roster (each key once), the table gives back `|people|`.
   */
  lemma CountsSumToLength(people: seq<Person>, key: Person -> string, counts: map<string, nat>)
    requires IsCountTable(counts, people, key)
    ensures forall i :: 0 <= i < |people| ==> Keys(people, key)[i] in counts
    ensures var ks := Keys(KeepFirst(people, key), key);
      (forall i :: 0 <= i < |ks| ==> ks[i] in counts) && SumAt(counts, ks) == |people|
  {
    var u := KeepFirst(people, key);
    var ks := Keys(u, key);
    forall i | 0 <= i < |ks| ensures ks[i] in counts {
      assert ks[i] == key(u[i]) && key(u[i]) in KeySet(u, key);
    }
    forall k | k in KeySet(people, key) ensures k in ks {
      var i :| 0 <= i < |u| && key(u[i]) == k;
      assert ks[i] == k;
    }
    SumAtIsSumCount(people, key, counts, ks);
    SumCountCovers(people, key, ks);
  }

  // ---------------------------------------------------------------- ingestion

  /** Each new name becomes a person with the next fresh id, appended after the roster. */
  function AppendNames(people: seq<Person>, names: seq<string>, freshId: nat -> string): (r: seq<Person>)
    ensures |r| == |people| + |names|
    ensures r[..|people|] == people
    ensures forall k :: 0 <= k < |names| ==> r[|people| + k].name == names[k] && r[|people| + k].id == freshId(k)
  {
    people + seq(|names|, k requires 0 <= k < |names| => Person(freshId(k), names[k]))
  }

  /** Fresh ids that are pairwise distinct and unused keep the roster's ids unique. */
  lemma AppendKeepsUniqueIds(people: seq<Person>, names: seq<string>, freshId: nat -> string)
    requires UniqueIds(people)
    requires forall a, b :: 0 <= a < b < |names| ==> freshId(a) != freshId(b)
    requires forall k, i :: 0 <= k < |names| && 0 <= i < |people| ==> freshId(k) != people[i].id
    ensures UniqueIds(AppendNames(people, names, freshId))
  {
    var r := AppendNames(people, names, freshId);
    forall i, j | 0 <= i < j < |r| ensures r[i].id != r[j].id {
      if j < |people| {
        assert r[i] == people[i] && r[j] == people[j];
      } else if i < |people| {
        assert r[i] == people[i] && r[j].id == freshId(j - |people|);
      } else {
        assert r[i].id == freshId(i - |people|) && r[j].id == freshId(j - |people|);
      }
    }
  }

  /** Trims every line. */
  function TrimEach(lines: seq<string>): (r: seq<string>)
    ensures |r| == |lines|
    ensures forall i :: 0 <= i < |r| ==> r[i] == Trim(lines[i])
  {
    seq(|lines|, i requires 0 <= i < |lines| => Trim(lines[i]))
  }

  predicate NonEmpty(s: string) {
    |s| > 0
  }

  /** A name as the text box yields it: not empty, on one line, no whitespace at either edge. */
  predicate IsCleanName(s: string) {
    s != [] && '\n' !in s && !IsWhitespace(s[0]) && !IsWhitespace(s[|s| - 1])
  }

  /** The non-empty trimmed lines are clean names. */
  lemma TrimmedLinesAreClean(lines: seq<string>)
    requires forall i :: 0 <= i < |lines| ==> '\n' !in lines[i]
    ensures forall x :: x in Filter(TrimEach(lines), NonEmpty) ==> IsCleanName(x)
  {
    var t := TrimEach(lines);
    forall x | x in Filter(t, NonEmpty) ensures IsCleanName(x) {
      var j :| 0 <= j < |t| && t[j] == x;
      assert x == Trim(lines[j]);
    }
  }

  /** The names typed in the text box: one per line, trimmed, blank lines dropped. */
  function TextNames(inputText: string): (names: seq<string>)
    ensures forall i :: 0 <= i < |names| ==> IsCleanName(names[i])
  {
    var lines := Split(inputText, '\n');
    TrimmedLinesAreClean(lines);
    var names := Filter(TrimEach(lines), NonEmpty);
    assert forall i :: 0 <= i < |names| ==> names[i] in names;
    names
  }

  /** Dropping the empty strings leaves nothing exactly when every string is empty. */
  lemma FilterNonEmptyNil(t: seq<string>)
    ensures Filter(t, NonEmpty) == [] <==> forall i :: 0 <= i < |t| ==> t[i] == []
  {
    var f := Filter(t, NonEmpty);
    if f == [] {
      forall i | 0 <= i < |t| ensures t[i] == [] {
        assert t[i] in t && t[i] !in f;
      }
    } else {
      assert f[0] in f;
    }
  }

  /** The trimmed lines are all blank exactly when every line is whitespace. */
  lemma TrimmedLinesNilIff(lines: seq<string>)
    ensures Filter(TrimEach(lines), NonEmpty) == [] <==> forall i :: 0 <= i < |lines| ==> AllWhitespace(lines[i])
  {
    var t := TrimEach(lines);
    FilterNonEmptyNil(t);
    assert (forall i :: 0 <= i < |t| ==> t[i] == []) <==> (forall i :: 0 <= i < |lines| ==> AllWhitespace(lines[i]));
  }

  /** The non-empty trimmed lines, in line order: every one of them and nothing else. */
  lemma LineNamesMembers(lines: seq<string>)
    ensures IsSubsequence(Filter(TrimEach(lines), NonEmpty), TrimEach(lines))
    ensures forall x :: x in Filter(TrimEach(lines), NonEmpty) <==>
      x != [] && exists i :: 0 <= i < |lines| && x == Trim(lines[i])
  {
    var t := TrimEach(lines);
    forall x | x in t ensures exists i :: 0 <= i < |lines| && x == Trim(lines[i]) {
      var i :| 0 <= i < |t| && t[i] == x;
    }
    forall i | 0 <= i < |lines| ensures Trim(lines[i]) in t {
      assert t[i] in t;
    }
  }

  /** The names of a text are, in line order, its trimmed lines that are not empty. */
  lemma TextNamesMembers(inputText: string)
    ensures var lines := Split(inputText, '\n');
      && IsSubsequence(TextNames(inputText), TrimEach(lines))
      && forall x :: x in TextNames(inputText) <==> x != [] && exists i :: 0 <= i < |lines| && x == Trim(lines[i])
  {
    var lines := Split(inputText, '\n');
    assert TextNames(inputText) == Filter(TrimEach(lines), NonEmpty);
    LineNamesMembers(lines);
  }

  /** A text yields no names exactly when it is all whitespace. */
  lemma TextNamesEmptyIff(inputText: string)
    ensures TextNames(inputText) == [] <==> AllWhitespace(inputText)
  {
    var lines := Split(inputText, '\n');
    JoinAllWhitespace(lines, '\n');
    TrimmedLinesNilIff(lines);
    assert TextNames(inputText) == Filter(TrimEach(lines), NonEmpty);
  }

  /**
   * `handleAddFromText`: a text that trims to nothing changes neither the roster
   * nor the text box; otherwise the names are appended and the box is cleared.
   */
  function AddFromText(people: seq<Person>, inputText: string, freshId: nat -> string): (r: (seq<Person>, string))
    ensures AllWhitespace(inputText) ==> r == (people, inputText)
    ensures !AllWhitespace(inputText) ==>
      && r.0 == AppendNames(people, TextNames(inputText), freshId)
      && |r.0| > |people|
      && r.1 == ""
  {
    TextNamesEmptyIff(inputText);
    if Trim(inputText) == "" then (people, inputText)
    else (AppendNames(people, TextNames(inputText), freshId), "")
  }

  /** The first comma-separated cell of a line, trimmed. */
  function FirstCell(line: string): (cell: string)
    ensures cell == Trim(line[..IndexOf(line, ',')])
    ensures ',' !in cell
    ensures ',' !in line ==> cell == Trim(line)
  {
    var parts := Split(line, ',');
    SplitFirst(line, ',');
    assert ',' !in line ==> IndexOf(line, ',') == |line| && line[..|line|] == line;
    Trim(parts[0])
  }

  /** A cell is taken as a name unless it is empty or a `name` header in any ASCII case. */
  predicate IsNameCell(cell: string) {
    |cell| > 0 && ToLower(cell) != "name"
  }

  /** The first cell of every line. */
  function FirstCells(lines: seq<string>): (r: seq<string>)
    ensures |r| == |lines|
    ensures forall i :: 0 <= i < |r| ==> r[i] == FirstCell(lines[i])
  {
    seq(|lines|, i requires 0 <= i < |lines| => FirstCell(lines[i]))
  }

  /** A line without a line break has a first cell without one. */
  lemma FirstCellOneLine(line: string)
    requires '\n' !in line
    ensures '\n' !in FirstCell(line)
  {
    var parts := Split(line, ',');
    JoinPrefix(parts, [',']);
    assert parts[0] <= line;
  }

  /** The first cells of single lines hold neither a comma nor a line break. */
  lemma FirstCellsOneLine(lines: seq<string>)
    requires forall i :: 0 <= i < |lines| ==> '\n' !in lines[i]
    ensures forall i :: 0 <= i < |lines| ==> ',' !in FirstCells(lines)[i] && '\n' !in FirstCells(lines)[i]
  {
    forall i | 0 <= i < |lines| ensures '\n' !in FirstCell(lines[i]) {
      FirstCellOneLine(lines[i]);
    }
  }

  /** Keeping the name cells of comma- and break-free cells keeps them comma- and break-free. */
  lemma NameCellsKeepShape(cells: seq<string>)
    requires forall i :: 0 <= i < |cells| ==> ',' !in cells[i] && '\n' !in cells[i]
    ensures forall i :: 0 <= i < |Filter(cells, IsNameCell)| ==>
      var x := Filter(cells, IsNameCell)[i]; IsNameCell(x) && ',' !in x && '\n' !in x
  {
    var names := Filter(cells, IsNameCell);
    assert forall i :: 0 <= i < |names| ==> names[i] in names;
  }

  /** The names in an uploaded file: the first cell of every `\r\n`- or `\n`-ended line, without blanks and headers. */
  function FileNames(content: string): (names: seq<string>)
    ensures forall i :: 0 <= i < |names| ==> IsNameCell(names[i]) && ',' !in names[i] && '\n' !in names[i]
  {
    var lines := SplitLines(content);
    FirstCellsOneLine(lines);
    NameCellsKeepShape(FirstCells(lines));
    Filter(FirstCells(lines), IsNameCell)
  }

  /** The name cells of the lines, in line order: every one of them and nothing else. */
  lemma CellNamesMembers(lines: seq<string>)
    ensures IsSubsequence(Filter(FirstCells(lines), IsNameCell), FirstCells(lines))
    ensures forall x :: x in Filter(FirstCells(lines), IsNameCell) <==>
      IsNameCell(x) && exists i :: 0 <= i < |lines| && x == FirstCell(lines[i])
  {
    var cells := FirstCells(lines);
    forall x | x in cells ensures exists i :: 0 <= i < |lines| && x == FirstCell(lines[i]) {
      var i :| 0 <= i < |cells| && cells[i] == x;
    }
    forall i | 0 <= i < |lines| ensures FirstCell(lines[i]) in cells {
      assert cells[i] in cells;
    }
  }

  /**
   * The names of a file are, in line order, the first cells of its lines that
   * are neither empty nor a `name` header.
   */
  lemma FileNamesMembers(content: string)
    ensures var lines := SplitLines(content);
      && IsSubsequence(FileNames(content), FirstCells(lines))
      && forall x :: x in FileNames(content) <==> IsNameCell(x) && exists i :: 0 <= i < |lines| && x == FirstCell(lines[i])
  {
    var lines := SplitLines(content);
    assert FileNames(content) == Filter(FirstCells(lines), IsNameCell);
    CellNamesMembers(lines);
  }

  /** The first piece of a join is a prefix of the joined string. */
  lemma JoinPrefix(parts: seq<string>, sep: string)
    requires |parts| >= 1
    ensures parts[0] <= Join(parts, sep)
  {
  }

  /** `handleFileUpload`: no file changes nothing; otherwise the file's names are appended. */
  function FileUpload(people: seq<Person>, file: Option<string>, freshId: nat -> string): (r: seq<Person>)
    ensures file.None? ==> r == people
    ensures file.Some? ==> r == AppendNames(people, FileNames(file.value), freshId)
  {
    match file
    case None => people
    case Some(content) => AppendNames(people, FileNames(content), freshId)
  }

  // -------------------------------------------------------- removal, clearing

  /** `removePerson`: drops the entries carrying `id` and keeps the others in order. */
  function RemovePerson(people: seq<Person>, id: string): (r: seq<Person>)
    ensures IsSubsequence(r, people)
    ensures forall p :: p in r <==> p in people && p.id != id
    ensures (forall i :: 0 <= i < |people| ==> people[i].id != id) ==> r == people
    ensures UniqueIds(people) && (exists i :: 0 <= i < |people| && people[i].id == id) ==>
      |r| == |people| - 1 && UniqueIds(r)
  {
    if forall i :: 0 <= i < |people| ==> people[i].id != id then
      WithoutAbsentId(people, id);
      WithoutId(people, id)
    else if UniqueIds(people) then
      WithoutPresentId(people, id);
      FilterKeepsUniqueIds(people, IdIsNot(id));
      WithoutId(people, id)
    else
      WithoutId(people, id)
  }

  /** `clearList`: once the user confirms, the roster is empty; otherwise nothing changes. */
  function ClearList(people: seq<Person>, confirmed: bool): (r: seq<Person>)
    ensures confirmed ==> r == []
    ensures !confirmed ==> r == people
  {
    if confirmed then [] else people
  }
}
