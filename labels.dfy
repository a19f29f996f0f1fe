/**
 * The four class labels and the ground-truth heuristic that recovers a label
 * from an archive entry's name: both sides lower-cased and stripped of spaces,
 * labels tried in list order, the first one found as a substring wins.
 */
module Labels {
  import opened Wrappers
  import opened Text

  /** `CLASS_NAMES`, in the order of the classifier's output positions. */
  const ClassNames: seq<string> := ["Corona Virus Disease", "Normal", "Pneumonia", "Tuberculosis"]

  /** No two entries of `labels` are equal. */
  predicate Distinct<T(==)>(labels: seq<T>)
  {
    forall i, j :: 0 <= i < j < |labels| ==> labels[i] != labels[j]
  }

  /** The label search's test: the label's normal form is a substring of the name's normal form. */
  predicate LabelOccurs(className: string, filename: string)
  {
    Contains(Normalize(className), Normalize(filename))
  }

  /** The normal form of each entry of `ClassNames`, at the same position. */
  const NormalizedClassNames: seq<string> := ["coronavirusdisease", "normal", "pneumonia", "tuberculosis"]

  /** Each precomputed normal form is `label.lower().replace(" ", "")` of the label at its position. */
  lemma NormalizedClassNamesAgree()
    ensures |NormalizedClassNames| == |ClassNames|
    ensures forall k :: 0 <= k < |ClassNames| ==> NormalizedClassNames[k] == Normalize(ClassNames[k])
  {
    NormalizedFirst();
    NormalizedSecond();
    NormalizedThird();
    NormalizedLast();
    forall k | 0 <= k < |ClassNames|
      ensures NormalizedClassNames[k] == Normalize(ClassNames[k])
    {
      assert k == 0 || k == 1 || k == 2 || k == 3;
    }
  }

  /** "Normal" only loses its capital. */
  lemma NormalizedSecond()
    ensures Normalize(ClassNames[1]) == NormalizedClassNames[1]
  {
    NormalizeWord(ClassNames[1], NormalizedClassNames[1]);
  }

  /** "Pneumonia" only loses its capital. */
  lemma NormalizedThird()
    ensures Normalize(ClassNames[2]) == NormalizedClassNames[2]
  {
    NormalizeWord(ClassNames[2], NormalizedClassNames[2]);
  }

  /** The one label with spaces loses them, and its capitals, in normal form. */
  lemma NormalizedFirst()
    ensures Normalize(ClassNames[0]) == NormalizedClassNames[0]
  {
    LowerFirst();
    var corona, virus, disease := FirstWords();
    RemoveSpacesAround(virus, disease);
    RemoveSpacesAround(corona, virus + " " + disease);
    RemoveSpacesNoSpace(corona);
    RemoveSpacesNoSpace(virus);
    RemoveSpacesNoSpace(disease);
  }

  /**
   * Lower-casing the first label keeps its spaces. Stated on its own so that the
   * solver compares this literal string without the space-removal facts in scope.
   */
  lemma LowerFirst()
    ensures Lower(ClassNames[0]) == "corona virus disease"
  {
  }

  /**
   * The words of the first label, lower-cased. The literal strings are split
   * here, apart from the lemmas about them, only because it keeps proofs cheap.
   */
  lemma FirstWords() returns (corona: string, virus: string, disease: string)
    ensures ' ' !in corona && ' ' !in virus && ' ' !in disease
    ensures "corona virus disease" == corona + " " + (virus + " " + disease)
    ensures NormalizedClassNames[0] == corona + (virus + disease)
  {
    corona, virus, disease := "corona", "virus", "disease";
  }

  /** "Tuberculosis" only loses its capital; it is lower-cased in two halves. */
  lemma NormalizedLast()
    ensures Normalize(ClassNames[3]) == NormalizedClassNames[3]
  {
    var tuber, culosis := LastHalves();
    NormalizeWord(tuber, "tuber");
    NormalizeWord(culosis, "culosis");
    NormalizeAppend(tuber, culosis);
  }

  /**
   * The last label in two halves, short enough to lower-case letter by letter.
   * Like `FirstWords`, it exists only to split literal strings cheaply.
   */
  lemma LastHalves() returns (tuber: string, culosis: string)
    ensures ClassNames[3] == tuber + culosis
    ensures NormalizedClassNames[3] == "tuber" + "culosis"
    ensures tuber == "Tuber" && culosis == "culosis"
  {
    tuber, culosis := "Tuber", "culosis";
  }

  /** A word without spaces normalizes to its lower-cased spelling. */
  lemma NormalizeWord(w: string, lower: string)
    requires |w| == |lower| && ' ' !in lower
    requires forall i :: 0 <= i < |w| ==> LowerChar(w[i]) == lower[i]
    ensures Normalize(w) == lower
  {
    assert Lower(w) == lower;
    RemoveSpacesNoSpace(lower);
  }

  /** The label test for the label at position `k`, against its precomputed normal form. */
  predicate OccursAtPosition(k: nat, filename: string)
  {
    k < |NormalizedClassNames| && Contains(NormalizedClassNames[k], Normalize(filename))
  }

  /**
   * The loop over the labels from position `k` on, with its early return: the
   * first position whose label occurs in the name, or None when none does.
   */
  function SearchFrom(k: nat, filename: string): (r: Option<nat>)
    ensures r.Some? ==> k <= r.value < |ClassNames|
    decreases |ClassNames| - k
  {
    if k >= |ClassNames| then None
    else if OccursAtPosition(k, filename) then Some(k)
    else SearchFrom(k + 1, filename)
  }

  /** `extract_true_label_from_filename`: the first label, in list order, that occurs in the name. */
  function ExtractTrueLabel(filename: string): (r: Option<string>)
    ensures r.None? || r.value in ClassNames
  {
    match SearchFrom(0, filename)
    case None => None
    case Some(k) => Some(ClassNames[k])
  }

  /** The search from `k` comes back empty exactly when no label from position `k` on occurs. */
  lemma {:induction false} SearchFromNoneIff(k: nat, filename: string)
    ensures SearchFrom(k, filename).None? <==> forall j :: k <= j < |ClassNames| ==> !OccursAtPosition(j, filename)
    decreases |ClassNames| - k
  {
    if k < |ClassNames| && !OccursAtPosition(k, filename) {
      SearchFromNoneIff(k + 1, filename);
    }
  }

  /**
   * The search from `k` stops at position `m` exactly when the label there
   * occurs and none between `k` and `m` does.
   */
  lemma {:induction false} SearchFromIsEarliest(k: nat, filename: string, m: nat)
    requires k <= m < |ClassNames|
    ensures SearchFrom(k, filename) == Some(m) <==>
              OccursAtPosition(m, filename) && forall j :: k <= j < m ==> !OccursAtPosition(j, filename)
    decreases |ClassNames| - k
  {
    if k < m && !OccursAtPosition(k, filename) {
      SearchFromIsEarliest(k + 1, filename, m);
    }
  }

  /** The search looks at the name only through its normal form. */
  lemma {:induction false} SearchFromDependsOnNormalForm(k: nat, a: string, b: string)
    requires Normalize(a) == Normalize(b)
    ensures SearchFrom(k, a) == SearchFrom(k, b)
    decreases |ClassNames| - k
  {
    if k < |ClassNames| {
      SearchFromDependsOnNormalForm(k + 1, a, b);
    }
  }

  /** The test at position `k` is the label test for `ClassNames[k]`. */
  lemma OccursAtPositionIff(k: nat, filename: string)
    requires k < |ClassNames|
    ensures OccursAtPosition(k, filename) <==> LabelOccurs(ClassNames[k], filename)
  {
    NormalizedClassNamesAgree();
  }

  /** The result is None exactly when no label occurs in the name. */
  lemma ExtractNoneIff(filename: string)
    ensures ExtractTrueLabel(filename).None? <==> forall c :: c in ClassNames ==> !LabelOccurs(c, filename)
  {
    SearchFromNoneIff(0, filename);
    forall k | 0 <= k < |ClassNames|
      ensures OccursAtPosition(k, filename) <==> LabelOccurs(ClassNames[k], filename)
    {
      OccursAtPositionIff(k, filename);
    }
  }

  lemma ClassNamesDistinct()
    ensures Distinct(ClassNames)
  {
  }

  /**
   * First match wins: the extracted label is `ClassNames[k]` exactly when that
   * label occurs in the name and none listed before it does.
   */
  lemma ExtractIsFirstOccurring(filename: string, k: nat)
    requires k < |ClassNames|
    ensures ExtractTrueLabel(filename) == Some(ClassNames[k]) <==>
              LabelOccurs(ClassNames[k], filename) &&
              forall j :: 0 <= j < k ==> !LabelOccurs(ClassNames[j], filename)
  {
    ClassNamesDistinct();
    SearchFromIsEarliest(0, filename, k);
    forall j | 0 <= j <= k
      ensures OccursAtPosition(j, filename) <==> LabelOccurs(ClassNames[j], filename)
    {
      OccursAtPositionIff(j, filename);
    }
  }

  /** A label spelled out inside a name, whatever surrounds it, occurs in it. */
  lemma LabelInName(className: string, before: string, after: string)
    ensures LabelOccurs(className, before + className + after)
  {
    NormalizeAppend(before + className, after);
    NormalizeAppend(before, className);
    var n := Normalize(before + className + after);
    assert OccursAt(Normalize(className), n, |Normalize(before)|);
    ContainsIff(Normalize(className), n);
  }

  /**
   * First match wins: a name that spells out "Normal" and later "Pneumonia" is
   * never labelled "Pneumonia" (nor "Tuberculosis"); it is labelled "Normal"
   * unless "Corona Virus Disease", listed first, occurs as well.
   */
  lemma NormalBeforePneumonia(before: string, middle: string, after: string)
    ensures var f := before + ClassNames[1] + middle + ClassNames[2] + after;
      LabelOccurs(ClassNames[1], f) && LabelOccurs(ClassNames[2], f) &&
      ExtractTrueLabel(f) == (if LabelOccurs(ClassNames[0], f) then Some(ClassNames[0]) else Some(ClassNames[1]))
  {
    var f := before + ClassNames[1] + middle + ClassNames[2] + after;
    assert f == before + ClassNames[1] + (middle + ClassNames[2] + after);
    LabelInName(ClassNames[1], before, middle + ClassNames[2] + after);
    assert f == (before + ClassNames[1] + middle) + ClassNames[2] + after;
    LabelInName(ClassNames[2], before + ClassNames[1] + middle, after);
    ExtractIsFirstOccurring(f, 0);
    ExtractIsFirstOccurring(f, 1);
  }

  /** Two names with the same normal form get the same label. */
  lemma ExtractDependsOnNormalForm(a: string, b: string)
    requires Normalize(a) == Normalize(b)
    ensures ExtractTrueLabel(a) == ExtractTrueLabel(b)
  {
    SearchFromDependsOnNormalForm(0, a, b);
  }

  /** The label does not change when a name is normalized first. */
  lemma ExtractOfNormalized(filename: string)
    ensures ExtractTrueLabel(Normalize(filename)) == ExtractTrueLabel(filename)
  {
    NormalizeIdempotent(filename);
    ExtractDependsOnNormalForm(Normalize(filename), filename);
  }

  /** Inserting a space anywhere in a name does not change its label. */
  lemma ExtractIgnoresSpace(a: string, b: string)
    ensures ExtractTrueLabel(a + " " + b) == ExtractTrueLabel(a + b)
  {
    NormalizeAppend(a + " ", b);
    NormalizeAppend(a, " ");
    NormalizeAppend(a, b);
    assert Normalize(" ") == [];
    assert Normalize(a) + [] == Normalize(a);
    ExtractDependsOnNormalForm(a + " " + b, a + b);
  }

  /** Two names that differ only in the case of ASCII letters get the same label. */
  lemma ExtractIgnoresCase(a: string, b: string)
    requires |a| == |b|
    requires forall i :: 0 <= i < |a| ==> LowerChar(a[i]) == LowerChar(b[i])
    ensures ExtractTrueLabel(a) == ExtractTrueLabel(b)
  {
    assert Lower(a) == Lower(b);
    ExtractDependsOnNormalForm(a, b);
  }

}
