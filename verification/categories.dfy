/**
  The conservation-category tables of main.py and modular.py: an ordered list
  of (category, species names) groups, searched group by group in table order
  (the insertion order of the Python dict).
 */
module Categories {
  import opened Wrappers

  datatype Group = Group(category: string, members: seq<string>)

  type Table = seq<Group>

  function CategoryNames(table: Table): (r: set<string>)
    ensures forall i :: 0 <= i < |table| ==> table[i].category in r
    ensures forall c :: c in r ==> exists i :: 0 <= i < |table| && table[i].category == c
  {
    set i | 0 <= i < |table| :: table[i].category
  }

  /** The first group, from `from` on, whose member list contains `name`. */
  function FirstGroupWith(table: Table, name: string, from: nat): (r: Option<nat>)
    requires from <= |table|
    ensures r.Some? ==> from <= r.value < |table| && name in table[r.value].members
    ensures r.Some? ==> forall j :: from <= j < r.value ==> name !in table[j].members
    ensures r.None? ==> forall j :: from <= j < |table| ==> name !in table[j].members
    decreases |table| - from
  {
    if from == |table| then None
    else if name in table[from].members then Some(from)
    else FirstGroupWith(table, name, from + 1)
  }

  /** The category of the first group listing `name`, or `fallback`. */
  function Lookup(table: Table, name: string, fallback: string): (r: string)
    ensures r == fallback || r in CategoryNames(table)
    ensures (forall j :: 0 <= j < |table| ==> name !in table[j].members) ==> r == fallback
    ensures forall i :: (0 <= i < |table| && name in table[i].members
      && forall j :: 0 <= j < i ==> name !in table[j].members) ==> r == table[i].category
  {
    match FirstGroupWith(table, name, 0)
    case Some(i) => table[i].category
    case None => fallback
  }

  /** When the fallback is not a category, it is returned exactly when no group lists the name. */
  lemma FallbackIffUnlisted(table: Table, name: string, fallback: string)
    requires fallback !in CategoryNames(table)
    ensures Lookup(table, name, fallback) == fallback
        <==> forall j :: 0 <= j < |table| ==> name !in table[j].members
  {
    var first := FirstGroupWith(table, name, 0);
    if first.Some? {
      assert Lookup(table, name, fallback) == table[first.value].category;
      assert table[first.value].category in CategoryNames(table);
    }
  }
}
