/** The three records shared by the components, and the roster's identity invariant. */
module Types {
  import opened Seqs

  /** A participant. `id` is opaque and assigned once, `name` is free text. */
  datatype Person = Person(id: string, name: string)

  /** One group produced by a partition: a sequence number starting at 1 and its members. */
  datatype Group = Group(id: int, members: seq<Person>)

  /** One committed draw. The timestamp is an opaque instant supplied by the host. */
  datatype DrawHistoryItem = DrawHistoryItem(timestamp: int, winner: Person)

  /** A value that may be missing: an absent file, a number input that does not parse. */
  datatype Option<T> = None | Some(value: T)

  /** No two roster entries share an id. */
  predicate UniqueIds(people: seq<Person>) {
    forall i, j :: 0 <= i < j < |people| ==> people[i].id != people[j].id
  }

  /** The test "this entry does not carry `id`". */
  function IdIsNot(id: string): Person -> bool {
    (p: Person) => p.id != id
  }

  /** Keeps the entries whose id differs from `id`. */
  function WithoutId(people: seq<Person>, id: string): (r: seq<Person>)
    ensures IsSubsequence(r, people)
    ensures forall p :: p in r <==> p in people && p.id != id
  {
    Filter(people, IdIsNot(id))
  }

  /** Filtering keeps the ids of a roster unique. */
  lemma {:induction false} FilterKeepsUniqueIds(people: seq<Person>, keep: Person -> bool)
    requires UniqueIds(people)
    ensures UniqueIds(Filter(people, keep))
  {
    if people != [] {
      var init := people[..|people| - 1];
      var last := people[|people| - 1];
      assert UniqueIds(init) by {
        forall i, j | 0 <= i < j < |init| ensures init[i].id != init[j].id {
          assert init[i] == people[i] && init[j] == people[j];
        }
      }
      FilterKeepsUniqueIds(init, keep);
      var f := Filter(init, keep);
      if keep(last) {
        var r := f + [last];
        assert Filter(people, keep) == r;
        forall i, j | 0 <= i < j < |r| ensures r[i].id != r[j].id {
          if j < |f| {
            assert r[i] == f[i] && r[j] == f[j];
          } else {
            assert r[i] == f[i] && f[i] in init;
            var k :| 0 <= k < |init| && init[k] == f[i];
            assert people[k] == r[i] && people[|people| - 1] == r[j];
          }
        }
      }
    }
  }

  /** In a roster with unique ids, removing an id that occurs takes out exactly one entry. */
  lemma {:induction false} WithoutPresentId(people: seq<Person>, id: string)
    requires UniqueIds(people)
    requires exists i :: 0 <= i < |people| && people[i].id == id
    ensures |WithoutId(people, id)| == |people| - 1
  {
    var init := people[..|people| - 1];
    var last := people[|people| - 1];
    assert people == init + [last];
    assert UniqueIds(init) by {
      forall i, j | 0 <= i < j < |init| ensures init[i].id != init[j].id {
        assert init[i] == people[i] && init[j] == people[j];
      }
    }
    if last.id == id {
      assert WithoutId(people, id) == WithoutId(init, id);
      WithoutAbsentId(init, id);
    } else {
      var i :| 0 <= i < |people| && people[i].id == id;
      assert i < |init| && init[i].id == id;
      WithoutPresentId(init, id);
      assert WithoutId(people, id) == WithoutId(init, id) + [last];
    }
  }

  /** Removing an id that does not occur leaves the roster as it is. */
  lemma {:induction false} WithoutAbsentId(people: seq<Person>, id: string)
    requires forall i :: 0 <= i < |people| ==> people[i].id != id
    ensures WithoutId(people, id) == people
  {
    if people != [] {
      var init := people[..|people| - 1];
      assert people == init + [people[|people| - 1]];
      WithoutAbsentId(init, id);
    }
  }
}
