/**
 * The batch evaluation over a ZIP archive: keep the entries whose names end in
 * an image extension, classify each, recover its ground-truth label from its
 * name, tally how many were recognised and how many of those were predicted
 * correctly, and build one result row per image.
 */
module Batch {
  import opened Wrappers
  import opened Text
  import opened Labels

  /** The classifier's output: a position in `ClassNames`. */
  type ClassIndex = i: nat | i < |ClassNames|

  /** `CLASS_NAMES[class_idx]`: the label the classifier's output stands for. */
  function PredictedLabel(idx: ClassIndex): (name: string)
    ensures name in ClassNames
  {
    ClassNames[idx]
  }

  /** The "Match" cell: the comparison's outcome, or "N/A" when no true label was recognised. */
  datatype MatchCell = Match(isCorrect: bool) | NotApplicable

  /** One row of the batch table; the confidence column is not modelled. */
  datatype ResultRow = ResultRow(filename: string, predicted: string, trueLabel: string, matchCell: MatchCell)

  /** What is reported under the table: the tally when some label was recognised, a warning otherwise. */
  datatype Summary = Accuracy(correct: nat, total: nat) | NoGroundTruth

  /** The extension test of the entry filter: `f.endswith(('jpg', 'jpeg', 'png'))`, case-sensitive, no dot. */
  predicate IsImageName(name: string)
  {
    EndsWith(name, "jpg") || EndsWith(name, "jpeg") || EndsWith(name, "png")
  }

  /** The entry filter: the image names of `namelist()`, in archive order. */
  function ImageEntries(names: seq<string>): (images: seq<string>)
    ensures |images| <= |names|
    ensures forall x {:trigger multiset(images)[x]} ::
              multiset(images)[x] == if IsImageName(x) then multiset(names)[x] else 0
  {
    if names == [] then []
    else
      assert names == [names[0]] + names[1..];
      (if IsImageName(names[0]) then [names[0]] else []) + ImageEntries(names[1..])
  }

  /** `sub` is `s` with some entries left out, the rest kept in order. */
  predicate IsSubsequence<T(==)>(sub: seq<T>, s: seq<T>)
    decreases |s|
  {
    if sub == [] then true
    else if s == [] then false
    else (sub[0] == s[0] && IsSubsequence(sub[1..], s[1..])) || IsSubsequence(sub, s[1..])
  }

  /** The filter keeps the order of `namelist()`. */
  lemma {:induction false} ImageEntriesIsSubsequence(names: seq<string>)
    ensures IsSubsequence(ImageEntries(names), names)
  {
    if names != [] {
      ImageEntriesIsSubsequence(names[1..]);
      var rest := ImageEntries(names[1..]);
      if IsImageName(names[0]) {
        assert ImageEntries(names) == [names[0]] + rest;
        assert ([names[0]] + rest)[1..] == rest;
      } else {
        assert ImageEntries(names) == rest;
      }
    }
  }

  /** Filtering a concatenation filters each part. */
  lemma {:induction false} ImageEntriesAppend(a: seq<string>, b: seq<string>)
    ensures ImageEntries(a + b) == ImageEntries(a) + ImageEntries(b)
  {
    if a != [] {
      assert (a + b)[1..] == a[1..] + b;
      ImageEntriesAppend(a[1..], b);
    } else {
      assert a + b == b;
    }
  }

  /** Filtering twice keeps what filtering once kept. */
  lemma {:induction false} ImageEntriesIdempotent(names: seq<string>)
    ensures ImageEntries(ImageEntries(names)) == ImageEntries(names)
  {
    if names != [] {
      var head := if IsImageName(names[0]) then [names[0]] else [];
      ImageEntriesAppend(head, ImageEntries(names[1..]));
      ImageEntriesIdempotent(names[1..]);
      if IsImageName(names[0]) {
        assert ImageEntries(head) == [names[0]] + ImageEntries([]);
      }
    }
  }

  /** The row built for an image whose prediction is `predicted`. */
  function RowFor(name: string, predicted: string): ResultRow
  {
    match ExtractTrueLabel(name)
    case None => ResultRow(name, predicted, "Unknown", NotApplicable)
    case Some(t) => ResultRow(name, predicted, t, Match(predicted == t))
  }

  /**
   * The cells of a row agree with each other: "N/A" stands exactly where the
   * true label is the placeholder "Unknown" (which is no class name), and a
   * row is marked correct exactly when its two labels are equal.
   */
  lemma RowCellsAgree(name: string, predicted: string)
    requires predicted in ClassNames
    ensures var row := RowFor(name, predicted);
      row.filename == name && row.predicted == predicted &&
      (row.matchCell == NotApplicable <==> row.trueLabel == "Unknown") &&
      (row.trueLabel != "Unknown" ==> row.trueLabel in ClassNames) &&
      (row.matchCell == Match(true) <==> row.predicted == row.trueLabel)
  {
  }

  /** The table for `images`: one row per image, in order. */
  function Rows(images: seq<string>, predict: string -> ClassIndex): seq<ResultRow>
  {
    if images == [] then []
    else
      var last := images[|images| - 1];
      Rows(images[..|images| - 1], predict) + [RowFor(last, PredictedLabel(predict(last)))]
  }

  /** The table has exactly one row per image, and row `i` is the row of image `i`. */
  lemma {:induction false} RowsAt(images: seq<string>, predict: string -> ClassIndex)
    ensures |Rows(images, predict)| == |images|
    ensures forall i :: 0 <= i < |images| ==>
              Rows(images, predict)[i] == RowFor(images[i], PredictedLabel(predict(images[i])))
  {
    if images != [] {
      var init := images[..|images| - 1];
      RowsAt(init, predict);
      forall i | 0 <= i < |init|
        ensures Rows(images, predict)[i] == RowFor(images[i], PredictedLabel(predict(images[i])))
      {
        assert init[i] == images[i];
      }
    }
  }

  /** Extending the prefix `images[..k]` by one image extends its table by that image's row. */
  lemma RowsExtend(images: seq<string>, k: nat, predict: string -> ClassIndex, row: ResultRow)
    requires k < |images| && row == RowFor(images[k], PredictedLabel(predict(images[k])))
    ensures Rows(images[..k], predict) + [row] == Rows(images[..k + 1], predict)
  {
    assert images[..k + 1][..k] == images[..k];
  }

  /** How many rows carry a recognised true label: the final value of `total`. */
  function Recognised(rows: seq<ResultRow>): nat
  {
    if rows == [] then 0
    else Recognised(rows[..|rows| - 1]) + (if rows[|rows| - 1].matchCell.Match? then 1 else 0)
  }

  /** How many rows are marked as a match: the final value of `correct`. */
  function Correct(rows: seq<ResultRow>): nat
  {
    if rows == [] then 0
    else Correct(rows[..|rows| - 1]) + (if rows[|rows| - 1].matchCell == Match(true) then 1 else 0)
  }

  /** Appending a row adds one to a tally exactly when the row's "Match" cell qualifies. */
  lemma TallySnoc(rows: seq<ResultRow>, row: ResultRow)
    ensures Recognised(rows + [row]) == Recognised(rows) + (if row.matchCell.Match? then 1 else 0)
    ensures Correct(rows + [row]) == Correct(rows) + (if row.matchCell == Match(true) then 1 else 0)
  {
    assert (rows + [row])[..|rows|] == rows;
  }

  /** The tally never exceeds the rows it counts: `correct <= total <= len(results)`. */
  lemma {:induction false} TallyBounded(rows: seq<ResultRow>)
    ensures Correct(rows) <= Recognised(rows) <= |rows|
  {
    if rows != [] {
      TallyBounded(rows[..|rows| - 1]);
    }
  }

  /** The tally of recognised rows is zero exactly when every row's "Match" cell is "N/A". */
  lemma {:induction false} RecognisedZeroIff(rows: seq<ResultRow>)
    ensures Recognised(rows) == 0 <==> forall i :: 0 <= i < |rows| ==> rows[i].matchCell == NotApplicable
  {
    if rows != [] {
      var init := rows[..|rows| - 1];
      RecognisedZeroIff(init);
      assert forall i :: 0 <= i < |init| ==> init[i] == rows[i];
    }
  }

  /** `total` is zero, and the accuracy is not shown, exactly when no image name holds a label. */
  lemma NoGroundTruthIff(images: seq<string>, predict: string -> ClassIndex)
    ensures Recognised(Rows(images, predict)) == 0 <==> forall i :: 0 <= i < |images| ==> ExtractTrueLabel(images[i]).None?
  {
    var rows := Rows(images, predict);
    RowsAt(images, predict);
    RecognisedZeroIff(rows);
    assert forall i :: 0 <= i < |images| ==> (rows[i].matchCell == NotApplicable <==> ExtractTrueLabel(images[i]).None?);
  }

  /** How many of `images` have a label in their name. */
  function CountRecognised(images: seq<string>): nat
  {
    if images == [] then 0
    else CountRecognised(images[..|images| - 1]) + (if ExtractTrueLabel(images[|images| - 1]).Some? then 1 else 0)
  }

  /** How many of `images` are predicted as the label their name carries. */
  function CountCorrect(images: seq<string>, predict: string -> ClassIndex): nat
  {
    if images == [] then 0
    else
      var last := images[|images| - 1];
      CountCorrect(images[..|images| - 1], predict) +
        (if ExtractTrueLabel(last) == Some(PredictedLabel(predict(last))) then 1 else 0)
  }

  /**
   * Counted over the table, `total` is the number of images whose name yields a
   * label and `correct` the number of those predicted as that label.
   */
  lemma {:induction false} TallyCountsImages(images: seq<string>, predict: string -> ClassIndex)
    ensures Recognised(Rows(images, predict)) == CountRecognised(images)
    ensures Correct(Rows(images, predict)) == CountCorrect(images, predict)
  {
    if images != [] {
      var init := images[..|images| - 1];
      var last := images[|images| - 1];
      TallyCountsImages(init, predict);
      TallySnoc(Rows(init, predict), RowFor(last, PredictedLabel(predict(last))));
    }
  }

  /**
   * The batch section: filter the archive's entry names, then for each image
   * classify it, recover its true label, update `correct` and `total`, and
   * append its row; finally report the tally when `total > 0`.
   * `predict` stands for the classifier applied to the image stored under a name.
   */
  method RunBatch(namelist: seq<string>, predict: string -> ClassIndex)
    returns (results: seq<ResultRow>, correct: nat, total: nat, summary: Summary)
    ensures results == Rows(ImageEntries(namelist), predict)
    ensures |results| == |ImageEntries(namelist)|
    ensures forall i :: 0 <= i < |results| ==>
              results[i] == RowFor(ImageEntries(namelist)[i], PredictedLabel(predict(ImageEntries(namelist)[i])))
    ensures total == Recognised(results)
    ensures correct == Correct(results)
    ensures correct <= total <= |results|
    ensures total == CountRecognised(ImageEntries(namelist))
    ensures correct == CountCorrect(ImageEntries(namelist), predict)
    ensures summary == if total > 0 then Accuracy(correct, total) else NoGroundTruth
  {
    var imageFiles := ImageEntries(namelist);
    correct, total, results := 0, 0, [];
    for k := 0 to |imageFiles|
      invariant results == Rows(imageFiles[..k], predict)
      invariant total == Recognised(results)
      invariant correct == Correct(results)
      invariant |results| == k
      invariant correct <= total <= k
    {
      var imageFile := imageFiles[k];
      var predictedLabel := PredictedLabel(predict(imageFile));
      var trueLabel := ExtractTrueLabel(imageFile);
      var isCorrect: Option<bool> := if trueLabel.Some? then Some(predictedLabel == trueLabel.value) else None;
      if isCorrect.Some? {
        if isCorrect.value {
          correct := correct + 1;
        }
        total := total + 1;
      }
      var row := ResultRow(
        imageFile,
        predictedLabel,
        if trueLabel.Some? then trueLabel.value else "Unknown",
        if isCorrect.Some? then Match(isCorrect.value) else NotApplicable);
      TallySnoc(results, row);
      assert row == RowFor(imageFile, predictedLabel);
      RowsExtend(imageFiles, k, predict, row);
      results := results + [row];
      TallyBounded(results);
    }
    assert imageFiles[..|imageFiles|] == imageFiles;
    RowsAt(imageFiles, predict);
    TallyBounded(results);
    TallyCountsImages(imageFiles, predict);
    summary := if total > 0 then Accuracy(correct, total) else NoGroundTruth;
  }

}
