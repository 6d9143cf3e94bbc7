/**
  main.py: the label list, the conservation table, the normalised category
  lookup `get_animal_class` and the post-processing of `predict_image` that
  turns the winning label line into a species name and its category. The
  model call and the arg-max are outside the model: the winning index and its
  score are parameters.
 */
module MainClassifier {
  import opened Text
  import opened Categories

  /** `animal_classes` of main.py (this copy lists "Beluga" under NT(G4)). */
  const AnimalClasses: Table := [
    Group("EN(G1)", ["Vaquita", "Pseudoryx nghetinhensis saola", "Eastern Lowland Gorilla",
                     "Bornean Orangutan", "Black Rhino", "Amur Leopard", "African forest elephant"]),
    Group("EN(G2)", ["Black-footed Ferret", "Sea Turtle", "Red Panda", "Monarch Butterfly",
                     "Humphead Wrasse", "Whale Shark", "African Wild Dog", "Sea Lions", "Chimpanzee"]),
    Group("VU(G3)", ["Black Spider Monkey", "Lion", "Greater One-Horned Rhino", "Dugong",
                     "Hippopotamus", "Olive Ridley Turtle"]),
    Group("NT(G4)", ["Mountain Plover", "Beluga", "Yellowfin Tuna", "Greater Sage-Grouse",
                     "Plains Bison", "Jaguar"]),
    Group("LC(G5)", ["Beaver", "Tree Kangaroo", "Macaw", "Swift Fox", "Arctic Wolf", "Arctic Fox"])
  ]

  /** "Unknown class", returned when no entry matches. */
  const Unmatched: string := "Bilinmeyen S\U{131}n\U{131}f"

  /** `name.strip().lower()`: no surrounding whitespace and no capitals. */
  function Normalize(name: string): (r: string)
    ensures IsStripped(r)
    ensures forall i :: 0 <= i < |r| ==> !IsUpper(r[i])
  {
    LowerKeepsStripped(Strip(name));
    Lower(Strip(name))
  }

  /** The normal form of a string with no surrounding whitespace is its lower case. */
  lemma NormalizeStripped(s: string)
    requires IsStripped(s)
    ensures Normalize(s) == Lower(s)
  {
    StripOfStripped(s);
  }

  /** Normalising twice is normalising once. */
  lemma NormalizeIdempotent(name: string)
    ensures Normalize(Normalize(name)) == Normalize(name)
  {
    StripOfStripped(Normalize(name));
    LowerIdempotent(Strip(name));
  }

  /** The table with every member normalised, group order and member order kept. */
  function NormalizedTable(table: Table): (r: Table)
    ensures |r| == |table|
    ensures forall i :: 0 <= i < |table| ==> r[i].category == table[i].category
    ensures forall i :: 0 <= i < |table| ==> |r[i].members| == |table[i].members|
    ensures forall i, k :: 0 <= i < |table| && 0 <= k < |table[i].members| ==>
      r[i].members[k] == Normalize(table[i].members[k])
  {
    seq(|table|, i requires 0 <= i < |table| =>
      Group(table[i].category, seq(|table[i].members|, k requires 0 <= k < |table[i].members| =>
        Normalize(table[i].members[k]))))
  }

  /** A member of group `i` matches `name` when both normalise to the same text. */
  predicate GroupMatches(g: Group, name: string) {
    exists k :: 0 <= k < |g.members| && Normalize(g.members[k]) == Normalize(name)
  }

  /** `get_animal_class` of main.py: the category of the first group holding a
      member equal to `name` after both are stripped and lower-cased. */
  function ClassIn(table: Table, name: string): (r: string)
    requires Unmatched !in CategoryNames(table)
    ensures r == Unmatched || r in CategoryNames(table)
    ensures r == Unmatched <==> forall i :: 0 <= i < |table| ==> !GroupMatches(table[i], name)
    ensures forall i :: (0 <= i < |table| && GroupMatches(table[i], name)
        && forall j :: 0 <= j < i ==> !GroupMatches(table[j], name)) ==> r == table[i].category
  {
    ClassInFirstMatch(table, name);
    ClassInFallback(table, name);
    Lookup(NormalizedTable(table), Normalize(name), Unmatched)
  }

  lemma ListedIffMatchesAll(table: Table, name: string)
    ensures forall i :: 0 <= i < |table| ==>
      (Normalize(name) in NormalizedTable(table)[i].members <==> GroupMatches(table[i], name))
  {
    forall i | 0 <= i < |table|
      ensures Normalize(name) in NormalizedTable(table)[i].members <==> GroupMatches(table[i], name)
    {
      ListedIffMatches(table, name, i);
    }
  }

  lemma ClassInFirstMatch(table: Table, name: string)
    ensures forall i ::
      (0 <= i < |table| && GroupMatches(table[i], name) && forall j :: 0 <= j < i ==> !GroupMatches(table[j], name))
        ==> Lookup(NormalizedTable(table), Normalize(name), Unmatched) == table[i].category
  {
    ListedIffMatchesAll(table, name);
  }

  lemma ClassInFallback(table: Table, name: string)
    requires Unmatched !in CategoryNames(table)
    ensures Lookup(NormalizedTable(table), Normalize(name), Unmatched) == Unmatched
      <==> forall i :: 0 <= i < |table| ==> !GroupMatches(table[i], name)
    ensures Lookup(NormalizedTable(table), Normalize(name), Unmatched) in CategoryNames(table) + {Unmatched}
  {
    var t := NormalizedTable(table);
    assert CategoryNames(t) == CategoryNames(table);
    ListedIffMatchesAll(table, name);
    FallbackIffUnlisted(t, Normalize(name), Unmatched);
  }

  /** Membership in the normalised group is a match in the original one. */
  lemma ListedIffMatches(table: Table, name: string, i: nat)
    requires i < |table|
    ensures Normalize(name) in NormalizedTable(table)[i].members <==> GroupMatches(table[i], name)
  {
    var ms := NormalizedTable(table)[i].members;
    if Normalize(name) in ms {
      var k :| 0 <= k < |ms| && ms[k] == Normalize(name);
      assert Normalize(table[i].members[k]) == Normalize(name);
    }
    if GroupMatches(table[i], name) {
      var k :| 0 <= k < |table[i].members| && Normalize(table[i].members[k]) == Normalize(name);
      assert ms[k] == Normalize(name);
    }
  }

  lemma CategoriesOfMainTable()
    ensures CategoryNames(AnimalClasses) == {"EN(G1)", "EN(G2)", "VU(G3)", "NT(G4)", "LC(G5)"}
  {
    var cs := CategoryNames(AnimalClasses);
    assert AnimalClasses[0].category == "EN(G1)" && AnimalClasses[1].category == "EN(G2)";
    assert AnimalClasses[2].category == "VU(G3)" && AnimalClasses[3].category == "NT(G4)";
    assert AnimalClasses[4].category == "LC(G5)";
  }

  lemma UnmatchedIsNoCategory()
    ensures Unmatched !in CategoryNames(AnimalClasses)
  {
    CategoriesOfMainTable();
  }

  /** `get_animal_class` of main.py: `ClassIn` over main.py's own table. */
  function AnimalClass(name: string): string {
    UnmatchedIsNoCategory();
    ClassIn(AnimalClasses, name)
  }

  /** Case and surrounding whitespace never change the category. */
  lemma AnimalClassIgnoresCaseAndSpace(a: string, b: string)
    requires Normalize(a) == Normalize(b)
    ensures AnimalClass(a) == AnimalClass(b)
  {
  }

  /** `[line.strip() for line in lines]`: the label file as main.py keeps it. */
  function LoadLabels(lines: seq<string>): (r: seq<string>)
    ensures |r| == |lines|
    ensures forall i :: 0 <= i < |r| ==> r[i] == Strip(lines[i]) && IsStripped(r[i])
  {
    seq(|lines|, i requires 0 <= i < |lines| => Strip(lines[i]))
  }

  /** `" ".join(line.strip().split(" ")[1:])`: the label without its leading
      index token. It is everything after the first space of the stripped
      label, and empty when there is no space. */
  function ExtractName(line: string): (r: string)
    ensures r == AfterFirst(Strip(line), ' ')
  {
    JoinDropFirst(Strip(line), ' ');
    Join(Split(Strip(line), ' ')[1..], ' ')
  }

  /** The second `strip()` that `predict_image` applies to a loaded label
      changes nothing: the name is the same as from the raw line. */
  lemma LoadedLabelName(lines: seq<string>, i: nat)
    requires i < |lines|
    ensures ExtractName(LoadLabels(lines)[i]) == ExtractName(lines[i])
  {
    StripIdempotent(lines[i]);
  }

  /** A result of main.py's `predict_image`. It has no sentinel: every frame
      yields a name, a category and the score. */
  datatype Prediction = Prediction(name: string, category: string, confidence: real)

  /** The post-processing of `predict_image` for the arg-max `index` over the
      stripped label list and its score. */
  function Predict(labels: seq<string>, index: nat, confidence: real): (r: Prediction)
    requires index < |labels|
    ensures r.name == AfterFirst(Strip(labels[index]), ' ')
    ensures r.category == AnimalClass(r.name)
    ensures r.confidence == confidence
  {
    var name := ExtractName(labels[index]);
    Prediction(name, AnimalClass(name), confidence)
  }

  lemma StrippedVaquitaLabel()
    ensures Strip("0 Vaquita") == "0 Vaquita"
  {
    StripOfStripped("0 Vaquita");
  }

  lemma AfterIndexToken()
    ensures AfterFirst("0 Vaquita", ' ') == "Vaquita"
  {
    assert IndexOf("0 Vaquita", ' ') == 1;
  }

  /** "0 Vaquita" names the vaquita. */
  lemma VaquitaLabel()
    ensures ExtractName("0 Vaquita") == "Vaquita"
  {
    StrippedVaquitaLabel();
    AfterIndexToken();
  }

  lemma StrippedVaquita()
    ensures Strip("Vaquita") == "Vaquita"
  {
    StripOfStripped("Vaquita");
  }

  lemma NoSpaceInVaquita()
    ensures AfterFirst("Vaquita", ' ') == ""
  {
    assert forall i :: 0 <= i < |"Vaquita"| ==> "Vaquita"[i] != ' ';
  }

  /** A label with no space loses its only token and extracts to "". */
  lemma SingleTokenLabel()
    ensures ExtractName("Vaquita") == ""
  {
    StrippedVaquita();
    NoSpaceInVaquita();
  }

  lemma StripShoutedVaquita()
    ensures Strip("  VAQUITA ") == "VAQUITA"
  {
    assert "  VAQUITA " == "  " + "VAQUITA" + " ";
    StripPadded("  ", "VAQUITA", " ");
  }

  lemma LowerShoutedVaquita()
    ensures Lower("VAQUITA") == "vaquita"
  {
  }

  lemma LowerVaquita()
    ensures Lower("Vaquita") == "vaquita"
  {
  }

  /** Differently written vaquitas are all EN(G1). */
  lemma VaquitaIsEndangered()
    ensures AnimalClass("  VAQUITA ") == "EN(G1)"
  {
    StripShoutedVaquita();
    LowerShoutedVaquita();
    NormalizeStripped("Vaquita");
    LowerVaquita();
    assert Normalize("  VAQUITA ") == Normalize("Vaquita");
    assert AnimalClasses[0].members[0] == "Vaquita";
    assert GroupMatches(AnimalClasses[0], "  VAQUITA ");
  }
}
