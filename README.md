# Batch evaluation of the EfficientNetB3 chest X-ray demo

The demo classifies chest X-ray images into four classes:
"Corona Virus Disease", "Normal", "Pneumonia" and "Tuberculosis". In batch mode it
takes a ZIP archive and works as follows:

- It keeps the entries whose names end in `jpg`, `jpeg` or `png`.
- It classifies each kept image.
- It recovers each image's ground-truth label from the entry name. The first
  class name whose lower-cased, space-free spelling is a substring of the
  lower-cased, space-free entry name is taken.
- It builds one result row per image. The true-label cell reads "Unknown" and
  the match cell reads "N/A" when the name yields no label.
- It counts `total`, the images with a recognised label, and `correct`, those
  among them whose prediction equals the label.
- It shows the accuracy only when `total > 0`.

The project has four modules:

- `Wrappers` (`wrappers.dfy`): the `Option` type.
- `Text` (`text.dfy`): the string operations the heuristic is built from.
  - `str.lower` on ASCII letters.
  - Removal of U+0020 spaces.
  - Python's substring test `p in s`, as a left-to-right scan.
  - `str.endswith`.
- `Labels` (`labels.dfy`):
  - `CLASS_NAMES`;
  - the label test;
  - `extract_true_label_from_filename`, as a search over the label positions that returns the first hit.
- `Batch` (`batch.dfy`):
  - the entry filter;
  - the result rows;
  - the tallies;
  - the batch loop itself, as the method `RunBatch` with loop invariants. It is proved against the specification functions `Rows`, `Recognised` and `Correct`, and those are tied to the images by lemmas.

The label test compares each class name's normal form with the entry name's
normal form. A normal form is the string lower-cased, with its spaces removed.
For the class names, these forms are written out once in
`NormalizedClassNames`, and the lemma `NormalizedClassNamesAgree` proves that
each one is the normal form of its label. The search therefore does exactly what
the source's `label.lower().replace(" ", "")` does, without recomputing it.

## Model

| member | source | states |
|---|---|---|
| Text.LowerChar | alice_efficientnetb3_4classes.py:97 | lower-casing yields no ASCII capital, leaves every other character alone, and maps 'A'..'Z' onto 'a'..'z' in order |
| Text.Lower | alice_efficientnetb3_4classes.py:97 | lower-casing keeps the length and lower-cases each character with LowerChar |
| Text.RemoveSpacesKeepsOthers | alice_efficientnetb3_4classes.py:97 | `replace(" ", "")` removes every space and keeps every other character as often as it occurs |
| Text.NormalizeChars | alice_efficientnetb3_4classes.py:97 | a normal form holds no space and no capital, only lower-cased characters of the input |
| Text.StartsWithIff | alice_efficientnetb3_4classes.py:97 | the character-by-character prefix test equals comparing the first characters at once |
| Text.ContainsIff | alice_efficientnetb3_4classes.py:97 | the substring scan answers true exactly when the pattern occurs at some index |
| Text.EndsWithIffSplit | alice_efficientnetb3_4classes.py:107 | `s.endswith(t)` holds exactly when `s` is some string followed by `t` |
| Text.RemoveSpacesAppend | alice_efficientnetb3_4classes.py:97 | space removal distributes over concatenation |
| Text.RemoveSpacesAround | alice_efficientnetb3_4classes.py:97 | a space between two strings vanishes and the two sides join |
| Text.NormalizeAppend | alice_efficientnetb3_4classes.py:97 | the normal form distributes over concatenation |
| Text.RemoveSpacesNoSpace | alice_efficientnetb3_4classes.py:97 | a string without spaces is left unchanged |
| Text.NormalizeIdempotent | alice_efficientnetb3_4classes.py:97 | normalizing twice equals normalizing once |
| Text.TabIsKept | alice_efficientnetb3_4classes.py:97 | only U+0020 is removed: a tab stays in the normal form between the two sides |
| Labels.NormalizedClassNamesAgree | alice_efficientnetb3_4classes.py:33 | the written-out normal forms are exactly `label.lower().replace(" ", "")` of the four class names, position by position |
| Labels.SearchFrom | alice_efficientnetb3_4classes.py:96-99 | the search from position k returns None or a position between k and the last label |
| Labels.ExtractTrueLabel | alice_efficientnetb3_4classes.py:95-99 | the extracted label is None or an element of `CLASS_NAMES`, never another string |
| Labels.SearchFromNoneIff | alice_efficientnetb3_4classes.py:96-99 | the search from k returns None exactly when no label from k on occurs |
| Labels.SearchFromIsEarliest | alice_efficientnetb3_4classes.py:96-98 | the search from k stops at m exactly when label m occurs and none between k and m does |
| Labels.SearchFromDependsOnNormalForm | alice_efficientnetb3_4classes.py:97 | names with equal normal forms get equal search results |
| Labels.OccursAtPositionIff | alice_efficientnetb3_4classes.py:97 | the test at position k is the label test for the k-th class name |
| Labels.ExtractNoneIff | alice_efficientnetb3_4classes.py:96-99 | the result is None exactly when no class name's normal form occurs in the name's normal form |
| Labels.ClassNamesDistinct | alice_efficientnetb3_4classes.py:33 | the four class names are pairwise different |
| Labels.ExtractIsFirstOccurring | alice_efficientnetb3_4classes.py:96-98 | the result is label L exactly when L occurs and no label listed before L occurs (both directions) |
| Labels.LabelInName | alice_efficientnetb3_4classes.py:97 | a class name spelled out anywhere in an entry name occurs in it |
| Labels.NormalBeforePneumonia | alice_efficientnetb3_4classes.py:96-98 | a name spelling "Normal" and then "Pneumonia" is labelled "Normal", unless "Corona Virus Disease" also occurs |
| Labels.ExtractDependsOnNormalForm | alice_efficientnetb3_4classes.py:97 | two names with the same normal form get the same label |
| Labels.ExtractOfNormalized | alice_efficientnetb3_4classes.py:97 | normalizing a name first does not change its label |
| Labels.ExtractIgnoresSpace | alice_efficientnetb3_4classes.py:97 | inserting a space anywhere in a name does not change its label |
| Labels.ExtractIgnoresCase | alice_efficientnetb3_4classes.py:97 | names differing only in the case of ASCII letters get the same label |
| Batch.PredictedLabel | alice_efficientnetb3_4classes.py:42-44 | the predicted label, `CLASS_NAMES[class_idx]`, is one of the four class names |
| Batch.ImageEntries | alice_efficientnetb3_4classes.py:107 | every name ending in "jpg", "jpeg" or "png" is kept as often as it occurs, every other name is dropped |
| Batch.ImageEntriesIsSubsequence | alice_efficientnetb3_4classes.py:107 | the kept names form an order-preserving subsequence of `namelist()` |
| Batch.ImageEntriesAppend | alice_efficientnetb3_4classes.py:107 | filtering a concatenation filters each part |
| Batch.ImageEntriesIdempotent | alice_efficientnetb3_4classes.py:107 | filtering the filtered list changes nothing |
| Batch.RowCellsAgree | alice_efficientnetb3_4classes.py:120-126 | a row is "N/A" exactly where its true label is "Unknown", otherwise its true label is a class name, and it is a match exactly when its two labels are equal |
| Batch.RowsAt | alice_efficientnetb3_4classes.py:108-126 | the table has exactly one row per image, and row i is image i's row |
| Batch.RowsExtend | alice_efficientnetb3_4classes.py:108-126 | one more image appends exactly that image's row |
| Batch.TallySnoc | alice_efficientnetb3_4classes.py:114-118 | a row adds one to `total` exactly when it has a match cell, and one to `correct` exactly when that cell is a match |
| Batch.TallyBounded | alice_efficientnetb3_4classes.py:114-118 | `correct <= total <= ` the number of rows |
| Batch.RecognisedZeroIff | alice_efficientnetb3_4classes.py:114-125 | `total` is zero exactly when every match cell is "N/A" |
| Batch.NoGroundTruthIff | alice_efficientnetb3_4classes.py:112-131 | `total` is zero exactly when no image name yields a label |
| Batch.TallyCountsImages | alice_efficientnetb3_4classes.py:112-118 | `total` is the number of images whose name yields a label, and `correct` the number of those predicted as that label |
| Batch.RunBatch | alice_efficientnetb3_4classes.py:101-131 | after the loop, `results` is one row per filtered image in order, with `total` and `correct` the counts above, `correct <= total <= len(results)`, and the accuracy reported exactly when `total > 0` |

## Left out

- The Streamlit user interface: page set-up, widgets, images shown, success and warning messages, the sidebar. It is presentation only.
- Downloading the model with `gdown` and loading it with `load_model`. This is network and file I/O through foreign libraries.
- The body of `predict`: image resizing, array conversion, the Keras model, `argmax`. `RunBatch` receives the classifier as a parameter `predict` that maps an entry name to a class position below 4. The archive fixes the bytes under each name, so this is the classifier applied to the image stored there.
- The confidence value and the percentage `(correct / total) * 100`. Both are floating point. The summary `Accuracy(correct, total)` carries the integer pair the percentage is computed from.
- The "Confidence" column of the result rows, for the same reason.
- `log_prediction`, the CSV history and the single-image upload path. These are pandas and file writes outside the batch section.
- Reading the ZIP archive and decoding each image with PIL. An image that fails to decode raises in the source and ends the batch; the model assumes every kept entry decodes.
- Text.Lower: Python's `str.lower` is Unicode-aware; the model lower-cases the ASCII letters 'A'..'Z' only and leaves every other character unchanged. The restriction does not change any extracted label. Only two non-ASCII characters lower-case to ASCII in Python: U+0130 becomes "i" followed by U+0307, and U+212A becomes "k". No class name's normal form contains "k", and every "i" in them is followed by a letter, never by U+0307. Every other character that Python lower-cases stays outside ASCII, so it can match no character of the four all-ASCII normal forms, whether or not it is lower-cased.
- The truthiness test `if true_label` is modelled as "a label was found". The two agree because no class name is empty.
