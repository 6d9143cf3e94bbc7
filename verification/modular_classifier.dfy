/**
  modular.py: label-file cleaning, its own conservation table with an exact,
  case-sensitive lookup, and the rules of `predict_image` that turn the
  winning index and its score into a detection or the `(None, None, None)`
  sentinel. The model call, the probability normalisation and the arg-max
  are outside the model: the winning index and its score are parameters.
 */
module ModularClassifier {
  import opened Text
  import opened Categories

  /** `animal_classes` of modular.py (this copy has no "Beluga"). */
  const AnimalClasses: Table := [
    Group("EN(G1)", ["Vaquita", "Pseudoryx nghetinhensis saola", "Eastern Lowland Gorilla",
                     "Bornean Orangutan", "Black Rhino", "Amur Leopard", "African forest elephant"]),
    Group("EN(G2)", ["Black-footed Ferret", "Sea Turtle", "Red Panda", "Monarch Butterfly",
                     "Humphead Wrasse", "Whale Shark", "African Wild Dog", "Sea Lions", "Chimpanzee"]),
    Group("VU(G3)", ["Black Spider Monkey", "Lion", "Greater One-Horned Rhino", "Dugong",
                     "Hippopotamus", "Olive Ridley Turtle"]),
    Group("NT(G4)", ["Mountain Plover", "Yellowfin Tuna", "Greater Sage-Grouse", "Plains Bison", "Jaguar"]),
    Group("LC(G5)", ["Beaver", "Tree Kangaroo", "Macaw", "Swift Fox", "Arctic Wolf", "Arctic Fox"])
  ]

  const Unknown: string := "Unknown"

  /** The score a prediction needs to be reported. */
  const Threshold: real := 0.90

  /** Length of the run of digits `s` starts with. */
  function DigitRun(s: string): (n: nat)
    ensures n <= |s| && AllDigits(s[..n])
    ensures n < |s| ==> !IsDigit(s[n])
  {
    if |s| > 0 && IsDigit(s[0]) then
      var n := 1 + DigitRun(s[1..]);
      assert s[..n] == [s[0]] + s[1..][..n - 1];
      n
    else 0
  }

  /** `s` begins with what `^\d+\s+` matches: digits, then whitespace. */
  predicate StartsWithIndex(s: string) {
    exists k :: 0 < k < |s| && AllDigits(s[..k]) && IsSpace(s[k])
  }

  /** A removed prefix: empty, or one or more digits then one or more whitespace characters. */
  predicate IndexPrefix(p: string) {
    p == [] || exists k :: 0 < k < |p| && AllDigits(p[..k]) && AllSpace(p[k..])
  }

  /** A digit prefix, read character by character. */
  lemma DigitsAt(s: string, k: nat)
    requires k <= |s| && AllDigits(s[..k])
    ensures forall i :: 0 <= i < k ==> IsDigit(s[i])
  {
    forall i | 0 <= i < k ensures IsDigit(s[i]) { assert s[..k][i] == s[i]; }
  }

  /** The digit run is the only way to start an index prefix. */
  lemma StartsWithIndexAtRun(s: string)
    ensures StartsWithIndex(s) <==> (0 < DigitRun(s) < |s| && IsSpace(s[DigitRun(s)]))
  {
    var d := DigitRun(s);
    DigitsAt(s, d);
    if StartsWithIndex(s) {
      var k :| 0 < k < |s| && AllDigits(s[..k]) && IsSpace(s[k]);
      DigitsAt(s, k);
      assert k == d;
    }
  }

  /** Where the run of whitespace starting at `i` ends. */
  function SpaceEnd(s: string, i: nat): (j: nat)
    requires i <= |s|
    ensures i <= j <= |s|
    ensures forall k :: i <= k < j ==> IsSpace(s[k])
    ensures j < |s| ==> !IsSpace(s[j])
    decreases |s| - i
  {
    if i < |s| && IsSpace(s[i]) then SpaceEnd(s, i + 1) else i
  }

  /** Any whitespace run that stops at a non-space (or the end) is the one `SpaceEnd` finds. */
  lemma SpaceEndUnique(s: string, i: nat, j: nat)
    requires i <= j <= |s|
    requires forall k :: i <= k < j ==> IsSpace(s[k])
    requires j < |s| ==> !IsSpace(s[j])
    ensures SpaceEnd(s, i) == j
  {
  }

  /** Where the match of `^\d+\s+` ends: after the digit run and all the
      whitespace that follows it, or 0 when there is no match. */
  function IndexEnd(t: string): (e: nat)
    ensures e <= |t|
  {
    var d := DigitRun(t);
    if 0 < d < |t| && IsSpace(t[d]) then SpaceEnd(t, d) else 0
  }

  /** `re.sub(r'^\d+\s+', '', t)`: drop a leading index, if there is one. */
  function RemoveIndex(t: string): (r: string)
    ensures |r| <= |t| && r == t[|t| - |r|..]
  {
    t[IndexEnd(t)..]
  }

  /** What goes is a leading index and nothing else. */
  lemma RemoveIndexDropsIndex(t: string)
    ensures IndexPrefix(t[..|t| - |RemoveIndex(t)|])
  {
    var d := DigitRun(t);
    var e := IndexEnd(t);
    if 0 < d < |t| && IsSpace(t[d]) {
      var p := t[..e];
      assert p[..d] == t[..d];
      forall k | 0 <= k < |p[d..]| ensures IsSpace(p[d..][k]) {
        assert p[d..][k] == t[d + k];
      }
      assert 0 < d < |p| && AllDigits(p[..d]) && AllSpace(p[d..]);
    } else {
      assert t[..e] == [];
    }
  }

  /** Something goes exactly when the text starts with an index. */
  lemma RemoveIndexIffIndexed(t: string)
    ensures |RemoveIndex(t)| < |t| <==> StartsWithIndex(t)
  {
    StartsWithIndexAtRun(t);
  }

  /** Removing the index from stripped text leaves stripped text, and never
      empties a non-empty one. */
  lemma RemoveIndexKeepsStripped(t: string)
    requires IsStripped(t)
    ensures IsStripped(RemoveIndex(t))
    ensures t != "" ==> RemoveIndex(t) != ""
  {
    var e := IndexEnd(t);
    if t != "" && e > 0 {
      assert e < |t| by {
        assert !IsSpace(t[|t| - 1]);
      }
      assert t[e..][0] == t[e];
      assert t[e..][|t| - e - 1] == t[|t| - 1];
    }
  }

  /** `clean_label`: strip the line, then drop a leading index (`^\d+\s+`). */
  function CleanLabel(line: string): (r: string)
    ensures IsStripped(r)
    ensures Strip(line) != "" ==> r != ""
  {
    RemoveIndexKeepsStripped(Strip(line));
    RemoveIndex(Strip(line))
  }

  /** The digit run of `digits + tail` is `digits` when `tail` does not start with a digit. */
  lemma {:induction false} DigitRunOf(digits: string, tail: string)
    requires AllDigits(digits) && (|tail| == 0 || !IsDigit(tail[0]))
    ensures DigitRun(digits + tail) == |digits|
    decreases |digits|
  {
    if |digits| > 0 {
      assert (digits + tail)[1..] == digits[1..] + tail;
      DigitRunOf(digits[1..], tail);
    } else {
      assert digits + tail == tail;
    }
  }

  /** Digits, whitespace, then a non-space: the index ends where the non-space starts. */
  lemma RemoveIndexOf(digits: string, gap: string, rest: string)
    requires |digits| > 0 && AllDigits(digits)
    requires |gap| > 0 && AllSpace(gap)
    requires rest != "" && !IsSpace(rest[0])
    ensures RemoveIndex(digits + gap + rest) == rest
  {
    var s := digits + gap + rest;
    assert s == digits + (gap + rest);
    DigitRunOf(digits, gap + rest);
    var d := |digits|;
    var e := d + |gap|;
    forall k | d <= k < e ensures IsSpace(s[k]) { assert s[k] == gap[k - d]; }
    assert s[e] == rest[0];
    SpaceEndUnique(s, d, e);
    assert s[e..] == rest;
  }

  /** A stripped line that starts with an index loses exactly that index. */
  lemma CleanIndexedLine(digits: string, gap: string, rest: string)
    requires |digits| > 0 && AllDigits(digits)
    requires |gap| > 0 && AllSpace(gap)
    requires rest != "" && IsStripped(rest)
    ensures CleanLabel(digits + gap + rest) == rest
  {
    var s := digits + gap + rest;
    assert IsStripped(s) by {
      assert s[0] == digits[0];
      assert s[|s| - 1] == rest[|rest| - 1];
    }
    StripOfStripped(s);
    RemoveIndexOf(digits, gap, rest);
  }

  /** `clean_label` is not idempotent: only the first index goes. */
  lemma CleanLabelNotIdempotent()
    ensures CleanLabel("1 2 Lion") == "2 Lion"
    ensures CleanLabel("2 Lion") == "Lion"
  {
    OneTwoLion();
    TwoLion();
  }

  lemma OneTwoLion()
    ensures CleanLabel("1 2 Lion") == "2 Lion"
  {
    assert "1 2 Lion" == "1" + " " + "2 Lion";
    CleanIndexedLine("1", " ", "2 Lion");
  }

  lemma TwoLion()
    ensures CleanLabel("2 Lion") == "Lion"
  {
    assert "2 Lion" == "2" + " " + "Lion";
    CleanIndexedLine("2", " ", "Lion");
  }

  /** What one line of labels.txt contributes: nothing when it is blank,
      otherwise its cleaned text. */
  function LoadLine(line: string): (r: seq<string>)
    ensures |r| <= 1
    ensures |r| == 0 <==> Strip(line) == ""
    ensures forall i :: 0 <= i < |r| ==> r[i] != "" && IsStripped(r[i])
  {
    if Strip(line) == "" then [] else [CleanLabel(line)]
  }

  /** The label list of modular.py: blank lines dropped, the rest cleaned, in file order. */
  function LoadClassNames(lines: seq<string>): (r: seq<string>)
    ensures |r| <= |lines|
    ensures forall i :: 0 <= i < |r| ==> r[i] != "" && IsStripped(r[i])
  {
    if |lines| == 0 then [] else LoadLine(lines[0]) + LoadClassNames(lines[1..])
  }

  /** Loading concatenated files loads each in turn: the order of the lines is kept. */
  lemma {:induction false} LoadClassNamesAppend(a: seq<string>, b: seq<string>)
    ensures LoadClassNames(a + b) == LoadClassNames(a) + LoadClassNames(b)
    decreases |a|
  {
    if |a| > 0 {
      assert (a + b)[0] == a[0];
      assert (a + b)[1..] == a[1..] + b;
      LoadClassNamesAppend(a[1..], b);
    } else {
      assert a + b == b;
    }
  }

  /** A blank or whitespace-only line contributes nothing; any other line contributes its cleaned text. */
  lemma LoadOneLine(line: string)
    ensures Strip(line) == "" ==> LoadClassNames([line]) == []
    ensures Strip(line) != "" ==> LoadClassNames([line]) == [CleanLabel(line)]
  {
    assert [line][1..] == [];
  }

  /** `get_animal_class` of modular.py: exact, case-sensitive membership. */
  function AnimalClass(name: string): string {
    Lookup(AnimalClasses, name, Unknown)
  }

  /** An exact table entry finds its category. */
  lemma LionIsVulnerable()
    ensures AnimalClass("Lion") == "VU(G3)"
  {
    assert "Lion" !in AnimalClasses[0].members;
    assert "Lion" !in AnimalClasses[1].members;
    assert AnimalClasses[2].members[1] == "Lion";
  }

  /** The lookup is case-sensitive: a lower-case entry name is not found. */
  lemma LowerCaseLionIsUnknown()
    ensures AnimalClass("lion") == Unknown
  {
    assert forall j :: 0 <= j < |AnimalClasses| ==> "lion" !in AnimalClasses[j].members;
  }

  /** This table has no beluga, unlike main.py's. */
  lemma BelugaIsUnknown()
    ensures AnimalClass("Beluga") == Unknown
  {
    assert forall j :: 0 <= j < |AnimalClasses| ==> "Beluga" !in AnimalClasses[j].members;
  }

  /** The result of modular.py's `predict_image`: a detection or the sentinel. */
  datatype Prediction = NoDetection | Detection(name: string, category: string, confidence: real)

  /** The label for the arg-max index; an index past the list reads "Unknown". */
  function LabelAt(classNames: seq<string>, index: nat): string {
    if index < |classNames| then Strip(classNames[index]) else Unknown
  }

  /** The post-processing of `predict_image` after the arg-max. */
  function Predict(classNames: seq<string>, index: nat, confidence: real): (r: Prediction)
    ensures r.NoDetection? <==>
      LabelAt(classNames, index) in ["Environment", "Human"] || confidence < Threshold
    ensures r.Detection? ==>
      && r.name == LabelAt(classNames, index)
      && r.name != "Environment" && r.name != "Human"
      && r.confidence == confidence && r.confidence >= Threshold
      && r.category == AnimalClass(r.name)
  {
    var name := LabelAt(classNames, index);
    if name in ["Environment", "Human"] then NoDetection
    else if confidence < Threshold then NoDetection
    else Detection(name, AnimalClass(name), confidence)
  }

  /** Loaded class names are already stripped, so the second strip in
      `predict_image` changes nothing. */
  lemma LabelAtLoaded(lines: seq<string>, index: nat)
    requires index < |LoadClassNames(lines)|
    ensures LabelAt(LoadClassNames(lines), index) == LoadClassNames(lines)[index]
  {
    StripOfStripped(LoadClassNames(lines)[index]);
  }

  /** An index past the label list is reported as an "Unknown" animal of
      category "Unknown" when its score is high enough. */
  lemma OutOfRangeIndex(classNames: seq<string>, index: nat, confidence: real)
    requires index >= |classNames| && confidence >= Threshold
    ensures Predict(classNames, index, confidence) == Detection(Unknown, Unknown, confidence)
  {
    UnknownIsUnlisted();
  }

  lemma UnknownIsUnlisted()
    ensures forall j :: 0 <= j < |AnimalClasses| ==> Unknown !in AnimalClasses[j].members
  {
  }
}
