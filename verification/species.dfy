/**
  Species metadata lookup and the conservation-status display hint of the
  detection screen (app.py). The metadata file is a JSON object from species
  name to a JSON object of string fields; it is kept here as the ordered list
  of its entries, in file order, which is the order Python iterates it in.
 */
module Species {
  import opened Wrappers
  import opened Text

  /** One metadata value: a JSON object of string fields. */
  type Info = map<string, string>

  /** The decoded metadata file. A failed load is the empty table. */
  type SpeciesTable = seq<(string, Info)>

  /** A decoded JSON object never holds the same key twice. */
  predicate DistinctKeys(table: SpeciesTable) {
    forall i, j :: 0 <= i < j < |table| ==> table[i].0 != table[j].0
  }

  /** The value returned when nothing matches. */
  const Placeholder: Info := map["scientific_name" := "Not available", "status" := "Unknown"]

  /** The fuzzy rule: either lower-cased name contains the other. */
  predicate FuzzyMatch(name: string, key: string) {
    Contains(Lower(key), Lower(name)) || Contains(Lower(name), Lower(key))
  }

  predicate HasKey(table: SpeciesTable, name: string) {
    exists i :: 0 <= i < |table| && table[i].0 == name
  }

  /** The position of `name` as a key, searching from `from`. */
  function KeyIndex(table: SpeciesTable, name: string, from: nat): (r: Option<nat>)
    requires from <= |table|
    ensures r.Some? ==> from <= r.value < |table| && table[r.value].0 == name
    ensures r.None? ==> forall i :: from <= i < |table| ==> table[i].0 != name
    decreases |table| - from
  {
    if from == |table| then None
    else if table[from].0 == name then Some(from)
    else KeyIndex(table, name, from + 1)
  }

  /** The first entry, from `from` on and in table order, whose key matches `name` fuzzily. */
  function FirstFuzzy(table: SpeciesTable, name: string, from: nat): (r: Option<nat>)
    requires from <= |table|
    ensures r.Some? ==> from <= r.value < |table| && FuzzyMatch(name, table[r.value].0)
    ensures r.Some? ==> forall i :: from <= i < r.value ==> !FuzzyMatch(name, table[i].0)
    ensures r.None? ==> forall i :: from <= i < |table| ==> !FuzzyMatch(name, table[i].0)
    decreases |table| - from
  {
    if from == |table| then None
    else if FuzzyMatch(name, table[from].0) then Some(from)
    else FirstFuzzy(table, name, from + 1)
  }

  /** `get_species_details`: exact key first, then the first fuzzy match in
      table order, then the placeholder. */
  function SpeciesDetails(table: SpeciesTable, name: string): (r: Info)
    requires DistinctKeys(table)
    ensures forall i :: 0 <= i < |table| && table[i].0 == name ==> r == table[i].1
    ensures !HasKey(table, name) ==>
      forall i :: (0 <= i < |table| && FuzzyMatch(name, table[i].0)
        && forall j :: 0 <= j < i ==> !FuzzyMatch(name, table[j].0)) ==> r == table[i].1
    ensures (!HasKey(table, name) && forall i :: 0 <= i < |table| ==> !FuzzyMatch(name, table[i].0))
      ==> r == Placeholder
  {
    match KeyIndex(table, name, 0)
    case Some(i) => table[i].1
    case None =>
      match FirstFuzzy(table, name, 0)
      case Some(i) => table[i].1
      case None => Placeholder
  }

  /** The result is always a table value or the placeholder. */
  lemma DetailsComeFromTable(table: SpeciesTable, name: string)
    requires DistinctKeys(table)
    ensures SpeciesDetails(table, name) == Placeholder
         || exists i :: 0 <= i < |table| && SpeciesDetails(table, name) == table[i].1
  {
    var r := SpeciesDetails(table, name);
    match KeyIndex(table, name, 0)
    case Some(i) =>
      assert r == table[i].1;
    case None =>
      match FirstFuzzy(table, name, 0)
      case Some(i) =>
        assert r == table[i].1;
      case None =>
        assert r == Placeholder;
  }

  /** The empty label is a substring of every key, so unless it is itself a
      key it resolves to the first entry of a non-empty table. */
  lemma EmptyNameMatchesFirstEntry(table: SpeciesTable)
    requires DistinctKeys(table)
    requires |table| > 0 && !HasKey(table, "")
    ensures SpeciesDetails(table, "") == table[0].1
  {
    assert OccursAt(Lower(table[0].0), Lower(""), 0);
  }

  /** A label differing from a key only in ASCII case, with no earlier fuzzy
      hit, resolves to that key's entry. */
  lemma CaseInsensitiveHit(table: SpeciesTable, name: string, k: nat)
    requires DistinctKeys(table) && k < |table|
    requires !HasKey(table, name)
    requires Lower(name) == Lower(table[k].0)
    requires forall j :: 0 <= j < k ==> !FuzzyMatch(name, table[j].0)
    ensures SpeciesDetails(table, name) == table[k].1
  {
    assert OccursAt(Lower(table[k].0), Lower(name), 0);
  }

  /** The fields the detection screen reads, with its defaults (app.py `.get`). */
  function ScientificName(info: Info): string {
    if "scientific_name" in info then info["scientific_name"] else "Not available"
  }

  function Status(info: Info): string {
    if "status" in info then info["status"] else "Unknown"
  }

  /** A miss displays as "Not available" / "Unknown". */
  lemma PlaceholderFields()
    ensures ScientificName(Placeholder) == "Not available"
    ensures Status(Placeholder) == "Unknown"
  {
  }

  /** The seven display classes of `get_status_display`, in cascade order. */
  datatype StatusLevel =
    | Extinct | CriticallyEndangered | Endangered | Vulnerable
    | NearThreatened | LeastConcern | Unrecognised

  const Warning: string := "\U{26A0}\U{FE0F}"

  /** Icon and colour of each level. The warning icon marks exactly the four
      middle levels, between extinct and least concern. */
  function Display(level: StatusLevel): (r: (string, string))
    ensures r.0 == Warning <==> level in {CriticallyEndangered, Endangered, Vulnerable, NearThreatened}
  {
    match level
    case Extinct => ("\U{1F534}", "#ff0000")
    case CriticallyEndangered => (Warning, "#ff4500")
    case Endangered => (Warning, "#ff8c00")
    case Vulnerable => (Warning, "#ffd700")
    case NearThreatened => (Warning, "#ffff00")
    case LeastConcern => ("\U{2705}", "#90ee90")
    case Unrecognised => ("\U{2753}", "#808080")
  }

  /** Distinct levels have distinct colours, so the colour tells the level. */
  lemma ColoursDistinct(a: StatusLevel, b: StatusLevel)
    requires Display(a).1 == Display(b).1
    ensures a == b
  {
  }

  /** The keyword cascade on the lower-cased status text. */
  function Classify(status: string): (r: StatusLevel)
    ensures r == Extinct <==> Contains(Lower(status), "extinct")
    ensures r == CriticallyEndangered <==>
      !Contains(Lower(status), "extinct") && Contains(Lower(status), "critically")
    ensures r == Endangered <==>
      && !Contains(Lower(status), "extinct") && !Contains(Lower(status), "critically")
      && Contains(Lower(status), "endangered")
    ensures r == Vulnerable <==>
      && !Contains(Lower(status), "extinct") && !Contains(Lower(status), "critically")
      && !Contains(Lower(status), "endangered") && Contains(Lower(status), "vulnerable")
    ensures r == NearThreatened <==>
      && (forall w :: w in ["extinct", "critically", "endangered", "vulnerable"] ==> !Contains(Lower(status), w))
      && Contains(Lower(status), "near") && Contains(Lower(status), "threatened")
    ensures r == LeastConcern <==>
      && (forall w :: w in ["extinct", "critically", "endangered", "vulnerable"] ==> !Contains(Lower(status), w))
      && !(Contains(Lower(status), "near") && Contains(Lower(status), "threatened"))
      && Contains(Lower(status), "least") && Contains(Lower(status), "concern")
    ensures r == Unrecognised <==>
      && (forall w :: w in ["extinct", "critically", "endangered", "vulnerable"] ==> !Contains(Lower(status), w))
      && !(Contains(Lower(status), "near") && Contains(Lower(status), "threatened"))
      && !(Contains(Lower(status), "least") && Contains(Lower(status), "concern"))
  {
    var s := Lower(status);
    if Contains(s, "extinct") then Extinct
    else if Contains(s, "critically") then CriticallyEndangered
    else if Contains(s, "endangered") then Endangered
    else if Contains(s, "vulnerable") then Vulnerable
    else if Contains(s, "near") && Contains(s, "threatened") then NearThreatened
    else if Contains(s, "least") && Contains(s, "concern") then LeastConcern
    else Unrecognised
  }

  /** `get_status_display`. The colour shown identifies the level of the
      cascade: red exactly for an "extinct" status, grey exactly for a status
      with none of the keywords. */
  function StatusDisplay(status: string): (r: (string, string))
    ensures forall level :: r.1 == Display(level).1 <==> Classify(status) == level
    ensures r.1 == "#ff0000" <==> Contains(Lower(status), "extinct")
    ensures r == ("\U{2753}", "#808080") <==> Classify(status) == Unrecognised
    ensures r == ("\U{1F534}", "#ff0000") <==> Classify(status) == Extinct
    ensures r == ("\U{2705}", "#90ee90") <==> Classify(status) == LeastConcern
    ensures r.0 == Warning <==> Classify(status) in {CriticallyEndangered, Endangered, Vulnerable, NearThreatened}
  {
    Display(Classify(status))
  }

  /** The empty status has no keyword and shows the unknown marker. */
  lemma EmptyStatusIsUnknown()
    ensures StatusDisplay("") == ("\U{2753}", "#808080")
  {
  }

  lemma LowerCriticallyEndangered()
    ensures Lower("Critically Endangered") == "critically endangered"
  {
  }

  /** The lower-cased status has no "x", so it cannot contain "extinct". */
  lemma NoExtinctInCriticallyEndangered()
    ensures !Contains("critically endangered", "extinct")
  {
    assert "extinct"[1] == 'x';
    MissingCharNotContained("critically endangered", "extinct", 1);
  }

  /** "Critically Endangered" stops at the second test and never reaches the
      "endangered" one. */
  lemma CriticallyEndangeredIsOrangeRed()
    ensures StatusDisplay("Critically Endangered") == (Warning, "#ff4500")
  {
    LowerCriticallyEndangered();
    NoExtinctInCriticallyEndangered();
    assert OccursAt("critically endangered", "critically", 0);
  }
}
