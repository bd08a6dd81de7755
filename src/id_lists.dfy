/** The id lists the client's hooks keep (favourite places, events and
    services; attended events) and what they read from `localStorage`. */
module IdLists {
  import opened Seqs

  /** The filter's callback `x => x !== id`. */
  function Other(id: string): string -> bool {
    y => y != id
  }

  /** `list.filter(x => x !== id)`. */
  function Without(list: seq<string>, id: string): (r: seq<string>)
    ensures id !in r
    ensures forall x :: x != id ==> (x in r <==> x in list)
  {
    forall x ensures x in Filter(list, Other(id)) <==> x in list && x != id {
      FilterMembership(list, Other(id), x);
    }
    Filter(list, Other(id))
  }

  /** The toggle: remove every copy of a present id, append an absent one. */
  function Toggle(list: seq<string>, id: string): seq<string> {
    if id in list then Without(list, id) else list + [id]
  }

  /** After a toggle, `id` is present exactly when it was absent, and every
      other id is as it was. */
  lemma ToggleMembership(list: seq<string>, id: string)
    ensures id in Toggle(list, id) <==> id !in list
    ensures forall x :: x != id ==> (x in Toggle(list, id) <==> x in list)
  {
  }

  /** An absent id goes at the end, after the list unchanged. */
  lemma ToggleAbsentAppends(list: seq<string>, id: string)
    requires id !in list
    ensures Toggle(list, id) == list + [id]
    ensures |Toggle(list, id)| == |list| + 1
  {
  }

  /** Removing an id keeps the other ids in their order. */
  lemma {:induction false} WithoutKeepsOrder(list: seq<string>, id: string)
    ensures id !in list ==> Without(list, id) == list
    ensures Without(list + [id], id) == Without(list, id)
  {
    FilterAppend(list, [id], Other(id));
    assert Filter([id], Other(id)) == [] by {
      assert [id][..0] == [];
    }
    if id !in list {
      FilterKeepsAll(list, Other(id));
    }
  }

  /** Toggling an absent id twice gives the list back. */
  lemma ToggleTwiceRestores(list: seq<string>, id: string)
    requires id !in list
    ensures Toggle(Toggle(list, id), id) == list
  {
    WithoutKeepsOrder(list, id);
  }

  /** Toggling a present id twice moves it to the end, once. */
  lemma ToggleTwiceMovesToEnd(list: seq<string>, id: string)
    requires id in list
    ensures Toggle(Toggle(list, id), id) == Without(list, id) + [id]
  {
  }

  /** A list without repetitions keeps none after a toggle. */
  lemma ToggleKeepsDistinct(list: seq<string>, id: string)
    requires Distinct(list)
    ensures Distinct(Toggle(list, id))
  {
    if id in list {
      FilterDistinct(list, Other(id));
    } else {
      var r := list + [id];
      forall i, j | 0 <= i < j < |r| ensures r[i] != r[j] {
        if j == |list| {
          assert r[i] == list[i];
        }
      }
    }
  }

  /** A `localStorage` entry: missing or empty, not valid JSON, or a value. */
  datatype Entry<T> = Missing | Unreadable | Holds(value: T)

  /** What the hooks start from: the stored value, or the default when the
      entry is missing or `JSON.parse` throws. */
  function Load<T>(entry: Entry<T>, default: T): (r: T)
    ensures entry.Holds? ==> r == entry.value
    ensures !entry.Holds? ==> r == default
  {
    if entry.Holds? then entry.value else default
  }
}
