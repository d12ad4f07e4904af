# pdfgeneration report composition

This project models the report-composition part of `Pdfgeneration.run` in the
`pdfgeneration` ChRIS plugin. The plugin reads a classification result and optional
severity scores. It fills one of two HTML templates with them and renders the filled
template to `patient_analysis.pdf`. The model covers the three steps that decide what
the HTML says:

- **Template choice.** The positive template (`pdf-covid-positive-template.html`) is used
  only when the classification's `prediction` is `COVID-19` and severity data was
  loaded. Every other case uses the negative template, including a COVID-19 prediction
  without severity data (`SelectTemplate`).
- **Analysis block.** The loop walks the classification mapping in insertion order. It
  skips the keys `prediction`, `Prediction` and `**DISCLAIMER**`. For every other key it
  appends `<h3>{key}: <span>{value} ({percent}%)</span></h3>` (`AnalysisBlock`, computed
  by the loop method `ComposeAnalysis`).
- **Placeholder substitution.** The template text goes through a fixed chain of literal
  replace-all operations, in this order: `${PATIENT_TOKEN}`,
  `${PREDICTION_CLASSIFICATION}`, `${PRED_ANALYSIS}`, `${X-RAY-IMAGE}`, `${month-date}`,
  `${year}`. On the positive template only, four more follow: `${GEO_SEVERITY}`,
  `${GEO_EXTENT_SCORE}`, `${OPC_SEVERITY}` and `${OPC_EXTENT_SCORE}` (`Rendered`,
  computed step by step by the method `Render`).

Files:

- `text.dfy`, module `Text`: Python's `str.replace` as `ReplaceAll`, with `str.count`,
  `in`, `str.find`, `str.split` and `str.join` beside it, and lemmas relating them.
- `report.dfy`, module `Pdfgeneration`: the data model and the three steps, with their
  specification functions, the methods proved against them, and lemmas.

Inputs are taken as already-parsed values:

- The classification JSON object is a sequence of `(key, value)` string pairs in
  iteration order, with distinct keys (`Classification`).
- The severity JSON object is `Option<map<string, string>>`. `None` stands for a
  missing or unreadable file. It also stands for a file holding JSON `null`, which
  `json.load` returns as `None`.
- The template file contents, the two formatted clock strings (`%c` and `%Y`) and the
  percentage formatting are parameters.

Errors are values of `Result`. They are the exceptions `run` raises, in the order it
raises them:

1. `MissingKey("prediction")`: the `KeyError` at line 168.
2. `FormatError(key, value)`: the `ValueError` from `float(value)` at line 182.
3. `MissingSeverityField(field)`: the `KeyError` for the first missing field at
   lines 193-196. This one is raised on the positive path only.

Two behaviours of the code are worth stating outright:

- The replacements run in a fixed order, so a value inserted by an earlier step is
  rewritten by a later one (`LaterTokenInEarlierValueIsRewritten`), while a value
  inserted by a later step keeps any token whose replacement already ran
  (`EarlierTokenInLaterValueSurvives`).
- The two `os.remove` calls (lines 207-208) run only after `pdfkit` succeeds, so a
  renderer failure leaves the intermediate files behind; this is file-system behaviour
  outside the model.

## Model

| member | source | states |
|---|---|---|
| `Text.ReplaceAll` | pdfgeneration/pdfgeneration.py:175-196 | `s.replace(t, v)`: scanning left to right, each non-overlapping occurrence of `t` is replaced by `v`; an empty `t` inserts `v` before every character and at the end |
| `Text.Count` | pdfgeneration/pdfgeneration.py:175-196 | `s.count(t)`: the number of non-overlapping occurrences, `len(s) + 1` for an empty `t` |
| `Text.ReplaceAbsent` | pdfgeneration/pdfgeneration.py:175-196 | a text in which the token does not occur is returned unchanged |
| `Text.ReplaceBySelf` | pdfgeneration/pdfgeneration.py:175-196 | replacing a token by itself leaves any text unchanged, including under the empty-token rule of `str.replace` |
| `Text.ReplaceWhole` | pdfgeneration/pdfgeneration.py:175-196 | a text that is exactly a (non-empty) token becomes exactly the value |
| `Text.ReplaceLength` | pdfgeneration/pdfgeneration.py:175-196 | the result's length is `len(s) + count * (len(new) - len(old))` |
| `Text.Find` | pdfgeneration/pdfgeneration.py:175-196 | reference definition used to characterise `str.replace`, not a call the program makes: `s.find(t)` is -1 exactly when `t` does not occur in `s`; otherwise `t` occurs there and at no earlier index |
| `Text.Split` | pdfgeneration/pdfgeneration.py:175-196 | reference definition used to characterise `str.replace`, not a call the program makes: `s.split(t)` cuts at the leftmost occurrences one after another and always has at least one piece |
| `Text.SplitPiecesLackToken` | pdfgeneration/pdfgeneration.py:175-196 | a property of the reference `str.split` used to characterise `str.replace`: no piece of `s.split(t)` contains `t` |
| `Text.ReplaceUpToFirst` | pdfgeneration/pdfgeneration.py:175-196 | everything before the leftmost occurrence is kept, that occurrence becomes `v`, and the rest is processed in the same way |
| `Text.ReplaceIsJoinOfSplit` | pdfgeneration/pdfgeneration.py:175-196 | for a non-empty token, `s.replace(t, v) == v.join(s.split(t))`: every occurrence the split finds is rewritten to `v` and every other character is kept, in order |
| `Text.SplitJoinRoundTrip` | pdfgeneration/pdfgeneration.py:175-196 | a property of the reference `str.split` and `str.join` used to characterise `str.replace`: `t.join(s.split(t)) == s` for a non-empty token, so the split loses nothing |
| `Text.CountPositiveIffContains` | pdfgeneration/pdfgeneration.py:175-196 | `replace` has an occurrence to rewrite exactly when the token is `in` the text |
| `Pdfgeneration.Lookup` | pdfgeneration/pdfgeneration.py:168 | `classification_data['prediction']` finds nothing exactly when no entry has that key, and otherwise returns a value stored under it |
| `Pdfgeneration.LookupFindsEntry` | pdfgeneration/pdfgeneration.py:168 | in a mapping with distinct keys, the lookup returns `value` exactly when `(key, value)` is stored |
| `Pdfgeneration.SelectTemplate` | pdfgeneration/pdfgeneration.py:167-169 | the positive template is chosen if and only if the prediction is `COVID-19` and severity data was loaded; COVID-19 without severity data gets the negative template |
| `Pdfgeneration.TemplateFile` | pdfgeneration/pdfgeneration.py:167-169 | the file name equals the positive template's name exactly for the positive template, so the test at line 192 is the template choice |
| `Pdfgeneration.IsReserved` | pdfgeneration/pdfgeneration.py:181 | the keys `prediction`, `Prediction` and `**DISCLAIMER**`, and only these, are skipped |
| `Pdfgeneration.Fragment` | pdfgeneration/pdfgeneration.py:182-183 | the fragment for one entry is `<h3>{key}: <span>{value} ({percent}%)</span></h3>` |
| `Pdfgeneration.AnalysisBlock` | pdfgeneration/pdfgeneration.py:178-185 | a failed analysis block is always a FormatError naming a stored entry whose key is not reserved and whose value `float` rejects |
| `Pdfgeneration.KeptMembers` | pdfgeneration/pdfgeneration.py:179-181 | an entry gets a fragment exactly when it is in the mapping under a key other than `prediction`, `Prediction` and `**DISCLAIMER**` |
| `Pdfgeneration.KeptAppend` | pdfgeneration/pdfgeneration.py:179-181 | filtering the entries keeps their iteration order: the filter of `a + b` is the filter of `a` followed by the filter of `b` |
| `Pdfgeneration.AnalysisBlockIsFilterThenConcat` | pdfgeneration/pdfgeneration.py:178-185 | when every value parses, the block is exactly one fragment per non-reserved entry, concatenated in iteration order |
| `Pdfgeneration.AnalysisBlockOkIffParses` | pdfgeneration/pdfgeneration.py:179-182 | the block fails if and only if some non-reserved value does not parse; reserved values are never parsed |
| `Pdfgeneration.FailurePersists` | pdfgeneration/pdfgeneration.py:179-182 | once a prefix of the entries has failed, later entries cannot change the error |
| `Pdfgeneration.FirstBadValueFails` | pdfgeneration/pdfgeneration.py:179-182 | the error names the first non-reserved entry, in iteration order, whose value does not parse |
| `Pdfgeneration.OnlyReservedKeysGiveEmptyBlock` | pdfgeneration/pdfgeneration.py:178-185 | a mapping holding only reserved keys yields an empty analysis block |
| `Pdfgeneration.PneumoniaExample` | pdfgeneration/pdfgeneration.py:179-183 | `{"prediction": "COVID-19", "Pneumonia": "0.87"}` with `87.00` as the percentage yields `<h3>Pneumonia: <span>0.87 (87.00%)</span></h3>` |
| `Pdfgeneration.ComposeAnalysis` | pdfgeneration/pdfgeneration.py:178-183 | the loop's accumulator, with the loop left at the first unparsable value, equals `AnalysisBlock` of the whole mapping |
| `Pdfgeneration.CommonSubstitutions` | pdfgeneration/pdfgeneration.py:175-190 | the common replacements are the six tokens in source order |
| `Pdfgeneration.SeveritySubstitutions` | pdfgeneration/pdfgeneration.py:193-196 | succeeds exactly when all four severity fields are present, giving each token its field's value in order; otherwise fails naming the first missing field |
| `Pdfgeneration.WithSeverity` | pdfgeneration/pdfgeneration.py:192-196 | the positive-path tail of the chain succeeds exactly when all four severity fields are present, and otherwise fails with the `KeyError` of a severity field |
| `Pdfgeneration.ReplaceSeverityTokens` | pdfgeneration/pdfgeneration.py:192-196 | the four lookups and replacements, one at a time, equal `WithSeverity`: the four severity replacements, or the first field's `KeyError` |
| `Pdfgeneration.Substitute` | pdfgeneration/pdfgeneration.py:175-196 | the rebinding of `txt`: each replacement applies to the result of the previous one, in list order |
| `Pdfgeneration.Rendered` | pdfgeneration/pdfgeneration.py:167-196 | `run`'s composition as a whole: a report needs the `prediction` key and a parsable analysis block, uses the template `SelectTemplate` chooses, and is always produced when severity data is missing and the first two steps succeed |
| `Pdfgeneration.Render` | pdfgeneration/pdfgeneration.py:167-196 | the step-by-step template choice and replacement chain equals `Rendered`: the same template, the same HTML and the same first error |
| `Pdfgeneration.SubstituteAppend` | pdfgeneration/pdfgeneration.py:175-196 | running two groups of replacements one after the other is running their concatenation |
| `Pdfgeneration.SubstituteAbsent` | pdfgeneration/pdfgeneration.py:175-196 | a text that contains none of the tokens comes through the whole chain unchanged |
| `Pdfgeneration.RenderedErrors` | pdfgeneration/pdfgeneration.py:159-196 | a missing `prediction` key is an error; otherwise an unparsable value is; otherwise, on the positive path only, a missing severity field is; in every other case the report is produced, so missing severity data is never an error |
| `Pdfgeneration.PositiveReport` | pdfgeneration/pdfgeneration.py:175-196 | on the positive path the HTML is the positive template after the six common replacements followed by the four severity replacements |
| `Pdfgeneration.NegativeReport` | pdfgeneration/pdfgeneration.py:167-196 | on the negative path the HTML is the negative template after the six common replacements only, and it is the same whether or not severity data was loaded |
| `Pdfgeneration.TokenFreeTemplateIsUnchanged` | pdfgeneration/pdfgeneration.py:175-196 | a chosen template that contains none of the ten tokens is written out unchanged |
| `Pdfgeneration.LaterTokenInEarlierValueIsRewritten` | pdfgeneration/pdfgeneration.py:175-190 | a patient id of `${year}` in a template that is just `${PATIENT_TOKEN}` comes out as the year, because the year replacement runs later |
| `Pdfgeneration.EarlierTokenInLaterValueSurvives` | pdfgeneration/pdfgeneration.py:175-190 | a prediction of `${PATIENT_TOKEN}` in a template that is just `${PREDICTION_CLASSIFICATION}` comes out as `${PATIENT_TOKEN}`, whatever the other values, because the patient-id replacement ran earlier |
| `Pdfgeneration.TokenChain` | pdfgeneration/pdfgeneration.py:175-196 | a text that is exactly the k-th token comes out as the k-th value when no earlier token occurs in that token and no later token occurs in that value |

## Left out

- Reading and parsing `prediction-default.json` and `severity.json` (lines 157-163) is file I/O. The classification comes in as a sequence of string pairs and the severity data as an optional map. JSON values that are not strings, and a severity document that is not an object, are not modelled.
- The image copy, writing `specificPatient.html` and the `os.remove` cleanup (lines 171, 197-198, 207-208) are file-system I/O.
- `pyvirtualdisplay.Display` and `pdfkit.from_file` (lines 200-204) are calls into an external display and renderer.
- `float(value) * 100` formatted with `:.2f` (line 182) is floating-point work. It is the parameter `pct`: `Some(text)` is the formatted percentage, and `None` is the `ValueError` of `float`.
- `datetime.now()` and `strftime` (lines 188-190) read the clock and depend on the locale. The two formatted strings are parameters (`Timestamp`).
- The chain does not guarantee that no placeholder is left: a value inserted at one step keeps any token whose replacement already ran (`EarlierTokenInLaterValueSurvives`); the template files themselves are assets outside the model.
- The default `'N/A'` of `classification_data.get` (line 180) is never used, because the key comes from iterating the same mapping. The model reads the entry's value directly.
- The plugin boilerplate is left out: metadata, `define_parameters`, `show_man_page`, the banner and the `print` calls.
