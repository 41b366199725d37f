/**
 * The team-grouping panel: a Fisher–Yates shuffle of a copy of the roster,
 * cut into consecutive groups of the chosen size and numbered from 1, and the
 * group-size input with its "Expected Groups" hint.
 *
 * The random index of every shuffle step is a parameter: `picks[i]` is the
 * position swapped with position `i`, and the step promises `picks[i] <= i`.
 */
module Grouping {
  import opened Types
  import GroupExport

  /** The group size before the user touches the input. */
  const INITIAL_GROUP_SIZE: int := 4

  // ------------------------------------------------------------ group size

  /**
   * `Math.max(1, parseInt(value) || 1)`: a number that does not parse, and a
   * zero, become 1; anything below 1 is raised to 1.
   */
  function ClampGroupSize(parsed: Option<int>): (size: int)
    ensures size >= 1
    ensures parsed.Some? && parsed.value >= 1 ==> size == parsed.value
    ensures parsed.None? || parsed.value < 1 ==> size == 1
  {
    var orOne := match parsed
      case None => 1
      case Some(v) => if v == 0 then 1 else v;
    if orOne > 1 then orOne else 1
  }

  /** `n / g` rounded up, for a positive `g`. */
  function CeilDiv(n: nat, g: nat): (k: nat)
    requires g >= 1
    ensures k * g >= n
    ensures k == 0 || (k - 1) * g < n
  {
    if n == 0 then 0 else 1 + CeilDiv(n - (if n < g then n else g), g)
  }

  /** The "Expected Groups" hint: `ceil(n / groupSize)` for a non-empty roster, else 0. */
  function ExpectedGroups(n: nat, groupSize: nat): (k: nat)
    requires groupSize >= 1
    ensures n == 0 ==> k == 0
    ensures n > 0 ==> k >= 1 && (k - 1) * groupSize < n <= k * groupSize
  {
    if n > 0 then CeilDiv(n, groupSize) else 0
  }

  // --------------------------------------------------------------- shuffle

  /** Exchanges positions `i` and `j`. */
  function Swap<T>(s: seq<T>, i: nat, j: nat): (r: seq<T>)
    requires i < |s| && j < |s|
    ensures |r| == |s| && r[i] == s[j] && r[j] == s[i]
    ensures forall k :: 0 <= k < |s| && k != i && k != j ==> r[k] == s[k]
  {
    s[i := s[j]][j := s[i]]
  }

  /** The swap indexes are usable: one per position, each at most its position. */
  predicate ValidPicks(picks: seq<nat>, n: nat) {
    |picks| == n && forall i :: 0 <= i < |picks| ==> picks[i] <= i
  }

  /** The shuffle steps for positions `i`, `i - 1`, ..., 1, in that order. */
  function ShuffleSteps<T>(s: seq<T>, picks: seq<nat>, i: nat): seq<T>
    requires ValidPicks(picks, |s|) && i < |s|
    decreases i
  {
    if i == 0 then s else ShuffleSteps(Swap(s, i, picks[i]), picks, i - 1)
  }

  /** The whole shuffle: one step for every position from the last down to 1. */
  function Shuffled<T>(s: seq<T>, picks: seq<nat>): seq<T>
    requires ValidPicks(picks, |s|)
  {
    if s == [] then s else ShuffleSteps(s, picks, |s| - 1)
  }

  /** A swap rearranges and neither adds nor drops. */
  lemma SwapPermutes<T>(s: seq<T>, i: nat, j: nat)
    requires i < |s| && j < |s|
    ensures multiset(Swap(s, i, j)) == multiset(s)
  {
    var t := s[i := s[j]];
    assert multiset(t) == multiset(s) - multiset{s[i]} + multiset{s[j]};
    assert multiset(t[j := s[i]]) == multiset(t) - multiset{t[j]} + multiset{s[i]};
  }

  lemma {:induction false} ShuffleStepsPermutes<T>(s: seq<T>, picks: seq<nat>, i: nat)
    requires ValidPicks(picks, |s|) && i < |s|
    ensures |ShuffleSteps(s, picks, i)| == |s|
    ensures multiset(ShuffleSteps(s, picks, i)) == multiset(s)
    decreases i
  {
    if i > 0 {
      SwapPermutes(s, i, picks[i]);
      ShuffleStepsPermutes(Swap(s, i, picks[i]), picks, i - 1);
    }
  }

  /** The shuffle yields a permutation of its input: the same length and the same multiset. */
  lemma ShuffledPermutes<T>(s: seq<T>, picks: seq<nat>)
    requires ValidPicks(picks, |s|)
    ensures |Shuffled(s, picks)| == |s|
    ensures multiset(Shuffled(s, picks)) == multiset(s)
  {
    if s != [] {
      ShuffleStepsPermutes(s, picks, |s| - 1);
    }
  }

  /** The in-place loop: for `i` from the last position down to 1, swap `a[i]` with `a[picks[i]]`. */
  method ShuffleInPlace<T>(a: array<T>, picks: seq<nat>)
    requires ValidPicks(picks, a.Length)
    modifies a
    ensures a[..] == Shuffled(old(a[..]), picks)
  {
    if a.Length == 0 {
      return;
    }
    var i := a.Length - 1;
    while i > 0
      invariant 0 <= i < a.Length
      invariant Shuffled(old(a[..]), picks) == ShuffleSteps(a[..], picks, i)
      decreases i
    {
      var j := picks[i];
      ghost var before := a[..];
      a[i], a[j] := a[j], a[i];
      assert a[..] == Swap(before, i, j);
      i := i - 1;
    }
  }

  // ------------------------------------------------------------- partition

  /** The smaller of two numbers. */
  function Min(a: nat, b: nat): nat {
    if a < b then a else b
  }

  /**
   * Consecutive windows of `groupSize` numbered from `firstId`, the last one
   * holding what is left: what `slice(i, i + groupSize)` yields for `i` = 0,
   * `groupSize`, `2 * groupSize`, ...
   */
  function Chunks(s: seq<Person>, groupSize: nat, firstId: int): seq<Group>
    requires groupSize >= 1
    decreases |s|
  {
    if s == [] then []
    else [Group(firstId, s[..Min(groupSize, |s|)])] + Chunks(s[Min(groupSize, |s|)..], groupSize, firstId + 1)
  }

  /** All members, group after group. */
  function Flatten(groups: seq<Group>): seq<Person> {
    if groups == [] then [] else groups[0].members + Flatten(groups[1..])
  }

  /** The groups give back the sequence they were cut from. */
  lemma {:induction false} ChunksFlatten(s: seq<Person>, groupSize: nat, firstId: int)
    requires groupSize >= 1
    ensures Flatten(Chunks(s, groupSize, firstId)) == s
    decreases |s|
  {
    if s != [] {
      var m := Min(groupSize, |s|);
      var c := Chunks(s, groupSize, firstId);
      ChunksFlatten(s[m..], groupSize, firstId + 1);
      assert c[1..] == Chunks(s[m..], groupSize, firstId + 1);
      assert s == s[..m] + s[m..];
    }
  }

  /** There are `ceil(|s| / groupSize)` groups. */
  lemma {:induction false} ChunksCount(s: seq<Person>, groupSize: nat, firstId: int)
    requires groupSize >= 1
    ensures |Chunks(s, groupSize, firstId)| == CeilDiv(|s|, groupSize)
    decreases |s|
  {
    if s != [] {
      ChunksCount(s[Min(groupSize, |s|)..], groupSize, firstId + 1);
    }
  }

  /** The groups are numbered `firstId`, `firstId + 1`, ... in the order they are produced. */
  lemma {:induction false} ChunksIds(s: seq<Person>, groupSize: nat, firstId: int)
    requires groupSize >= 1
    ensures forall k :: 0 <= k < |Chunks(s, groupSize, firstId)| ==> Chunks(s, groupSize, firstId)[k].id == firstId + k
    decreases |s|
  {
    if s != [] {
      var c := Chunks(s, groupSize, firstId);
      var rest := Chunks(s[Min(groupSize, |s|)..], groupSize, firstId + 1);
      ChunksIds(s[Min(groupSize, |s|)..], groupSize, firstId + 1);
      assert forall k :: 1 <= k < |c| ==> c[k] == rest[k - 1];
    }
  }

  /** Every group but the last has exactly `groupSize` members; the last has between 1 and `groupSize`. */
  lemma {:induction false} ChunksSizes(s: seq<Person>, groupSize: nat, firstId: int)
    requires groupSize >= 1
    ensures forall k :: 0 <= k < |Chunks(s, groupSize, firstId)| - 1 ==> |Chunks(s, groupSize, firstId)[k].members| == groupSize
    ensures Chunks(s, groupSize, firstId) != [] ==>
      1 <= |Chunks(s, groupSize, firstId)[|Chunks(s, groupSize, firstId)| - 1].members| <= groupSize
    decreases |s|
  {
    if s != [] {
      var c := Chunks(s, groupSize, firstId);
      var rest := Chunks(s[Min(groupSize, |s|)..], groupSize, firstId + 1);
      ChunksSizes(s[Min(groupSize, |s|)..], groupSize, firstId + 1);
      assert forall k :: 1 <= k < |c| ==> c[k] == rest[k - 1];
      if rest != [] {
        assert |s| > groupSize;
      }
    }
  }

  /** What is left from position `i` on; nothing once `i` is past the end. */
  function From(s: seq<Person>, i: nat): seq<Person> {
    if i < |s| then s[i..] else []
  }

  /** Cutting the group that starts at `i` off the rest of the windows. */
  lemma ChunksStep(s: seq<Person>, i: nat, groupSize: nat, firstId: int)
    requires groupSize >= 1 && i < |s|
    ensures Chunks(From(s, i), groupSize, firstId) ==
      [Group(firstId, s[i..Min(i + groupSize, |s|)])] + Chunks(From(s, i + groupSize), groupSize, firstId + 1)
  {
    var t := s[i..];
    assert t[..Min(groupSize, |t|)] == s[i..Min(i + groupSize, |s|)];
    if i + groupSize < |s| {
      assert t[Min(groupSize, |t|)..] == s[i + groupSize..];
    } else {
      assert t[Min(groupSize, |t|)..] == [];
    }
  }

  /**
   * The chunking loop of `handleGroup`: from the front, one group per window
   * of `groupSize`, ids counting up from 1.
   */
  method Partition(shuffled: seq<Person>, groupSize: nat) returns (groups: seq<Group>)
    requires groupSize >= 1
    ensures groups == Chunks(shuffled, groupSize, 1)
  {
    groups := [];
    var groupId := 1;
    var i := 0;
    assert From(shuffled, 0) == shuffled;
    while i < |shuffled|
      invariant groupId == |groups| + 1
      invariant groups + Chunks(From(shuffled, i), groupSize, groupId) == Chunks(shuffled, groupSize, 1)
      decreases |shuffled| - i
    {
      ChunksStep(shuffled, i, groupSize, groupId);
      var chunk := shuffled[i..Min(i + groupSize, |shuffled|)];
      groups := groups + [Group(groupId, chunk)];
      groupId := groupId + 1;
      i := i + groupSize;
    }
    assert From(shuffled, i) == [];
  }

  /**
   * The groups that a shuffle and a partition produce: every participant in
   * exactly one group, as many groups as the hint announces, numbered 1, 2, ...,
   * all full but possibly the last.
   */
  lemma GroupsOfRoster(people: seq<Person>, picks: seq<nat>, groupSize: nat)
    requires ValidPicks(picks, |people|) && groupSize >= 1
    ensures multiset(Flatten(Chunks(Shuffled(people, picks), groupSize, 1))) == multiset(people)
    ensures |Chunks(Shuffled(people, picks), groupSize, 1)| == ExpectedGroups(|people|, groupSize)
    ensures forall k :: 0 <= k < |Chunks(Shuffled(people, picks), groupSize, 1)| ==>
      Chunks(Shuffled(people, picks), groupSize, 1)[k].id == k + 1
  {
    var s := Shuffled(people, picks);
    ShuffledPermutes(people, picks);
    ChunksFlatten(s, groupSize, 1);
    ChunksCount(s, groupSize, 1);
    ChunksIds(s, groupSize, 1);
  }

  /** Five people in groups of two: sizes 2, 2 and 1. */
  lemma FiveInPairs(s: seq<Person>)
    requires |s| == 5
    ensures |Chunks(s, 2, 1)| == 3
    ensures |Chunks(s, 2, 1)[0].members| == 2 && |Chunks(s, 2, 1)[1].members| == 2 && |Chunks(s, 2, 1)[2].members| == 1
  {
    var t := s[2..];
    var u := t[2..];
    assert |u| == 1 && u[1..] == [];
    assert Chunks(u, 2, 3) == [Group(3, u[..1])];
    assert Chunks(t, 2, 2) == [Group(2, t[..2])] + Chunks(u, 2, 3);
    assert Chunks(s, 2, 1) == [Group(1, s[..2])] + Chunks(t, 2, 2);
  }

  // ----------------------------------------------------------------- panel

  /** The panel state: the group size, the last generated groups, and whether a generation happened. */
  class GroupingPanel {
    var groupSize: int
    var groups: seq<Group>
    var isGenerated: bool

    predicate Valid()
      reads this
    {
      groupSize >= 1
    }

    constructor()
      ensures Valid()
      ensures groupSize == INITIAL_GROUP_SIZE && groups == [] && !isGenerated
    {
      groupSize := INITIAL_GROUP_SIZE;
      groups := [];
      isGenerated := false;
    }

    /** The number input: the parsed value, clamped. */
    method SetGroupSize(parsed: Option<int>)
      requires Valid()
      modifies this
      ensures Valid()
      ensures groupSize == ClampGroupSize(parsed)
      ensures groups == old(groups) && isGenerated == old(isGenerated)
    {
      groupSize := ClampGroupSize(parsed);
    }

    /**
     * `handleGroup`: nothing happens for an empty roster; otherwise a copy of
     * the roster is shuffled in place and cut into groups, which replace the
     * previous ones.
     */
    method HandleGroup(people: seq<Person>, picks: seq<nat>)
      requires Valid()
      requires ValidPicks(picks, |people|)
      modifies this
      ensures Valid()
      ensures people == [] ==> groupSize == old(groupSize) && groups == old(groups) && isGenerated == old(isGenerated)
      ensures people != [] ==> groupSize == old(groupSize) && isGenerated && groups == Chunks(Shuffled(people, picks), groupSize, 1)
    {
      if |people| == 0 {
        return;
      }
      var shuffled := new Person[|people|](k requires 0 <= k < |people| => people[k]);
      assert shuffled[..] == people;
      ShuffleInPlace(shuffled, picks);
      groups := Partition(shuffled[..], groupSize);
      isGenerated := true;
    }

    /**
     * `downloadCSV`: the header line, then one `id,name` row per member, group
     * after group, each name escaped.
     */
    method DownloadCsv() returns (csv: string)
      ensures csv == GroupExport.CsvText(groups)
    {
      var header := GroupExport.CSV_HEADER;
      csv := header;
      ghost var rows: string := [];
      var gi := 0;
      while gi < |groups|
        invariant 0 <= gi <= |groups|
        invariant csv == header + rows
        invariant rows == GroupExport.RowsText(GroupExport.Entries(groups[..gi]))
      {
        var group := groups[gi];
        ghost var done := GroupExport.Entries(groups[..gi]);
        var mi := 0;
        assert group.members[..0] == [];
        assert done + GroupExport.MemberEntries(group.id, group.members[..0]) == done;
        while mi < |group.members|
          invariant 0 <= mi <= |group.members|
          invariant csv == header + rows
          invariant rows == GroupExport.RowsText(done + GroupExport.MemberEntries(group.id, group.members[..mi]))
        {
          GroupExport.RowStep(done, group.id, group.members, mi);
          var row := GroupExport.CsvRow(group.id, group.members[mi].name);
          csv := csv + row;
          rows := rows + row;
          mi := mi + 1;
        }
        assert group.members[..mi] == group.members;
        GroupExport.EntriesSnoc(groups, gi);
        gi := gi + 1;
      }
      assert groups[..gi] == groups;
    }
  }
}
