/** The report-composition part of the pdfgeneration plugin's `run`: choosing the
    positive or negative HTML template, building the per-category analysis block,
    and the fixed chain of literal placeholder replacements applied to the template.
    File reading, the image copy, the PDF renderer and the clock stay outside: their
    results come in as parameters. */
module Pdfgeneration {
  import opened Text

  datatype Option<T> = None | Some(value: T)

  /** The exceptions `run` can raise while composing the report. */
  datatype Error =
    | MissingKey(key: string)                   // KeyError on the classification mapping
    | FormatError(key: string, value: string)   // ValueError from float(value)
    | MissingSeverityField(field: string)       // KeyError on the severity mapping

  datatype Result<T> = Ok(value: T) | Err(error: Error)

  datatype Template = Positive | Negative

  /** One (category, value) pair of the classification JSON object. */
  type Entry = (string, string)

  predicate DistinctKeys(c: seq<Entry>)
  {
    forall i, j :: 0 <= i < j < |c| ==> c[i].0 != c[j].0
  }

  /** The classification mapping, in its insertion (iteration) order. */
  type Classification = c: seq<Entry> | DistinctKeys(c)

  /** The parsed severity mapping. */
  type Severity = map<string, string>

  /** The text `float(value) * 100` formats to with two decimals, or `None` when
      `float(value)` raises. */
  type PercentText = string -> Option<string>

  /** A (token, value) replacement. */
  type Sub = (string, string)

  /** The two command-line options the replacement chain uses. */
  datatype Options = Options(imageFile: string, patientId: string)

  /** `now().strftime("%c")` and `now().strftime("%Y")`. */
  datatype Timestamp = Timestamp(full: string, year: string)

  /** The contents of the two template files. */
  datatype TemplateFiles = TemplateFiles(positive: string, negative: string) {
    function Contents(t: Template): string
    {
      if t == Positive then positive else negative
    }
  }

  datatype Report = Report(template: Template, html: string)

  const PredictionKey := "prediction"
  const CovidLabel := "COVID-19"

  const PositiveTemplateFile := "pdf-covid-positive-template.html"
  const NegativeTemplateFile := "pdf-covid-negative-template.html"

  const PatientToken := "${PATIENT_TOKEN}"
  const PredictionToken := "${PREDICTION_CLASSIFICATION}"
  const AnalysisToken := "${PRED_ANALYSIS}"
  const ImageToken := "${X-RAY-IMAGE}"
  const MonthDateToken := "${month-date}"
  const YearToken := "${year}"

  const GeoSeverityToken := "${GEO_SEVERITY}"
  const GeoExtentToken := "${GEO_EXTENT_SCORE}"
  const OpacitySeverityToken := "${OPC_SEVERITY}"
  const OpacityExtentToken := "${OPC_EXTENT_SCORE}"

  const GeoSeverityField := "Geographic severity"
  const GeoExtentField := "Geographic extent score"
  const OpacitySeverityField := "Opacity severity"
  const OpacityExtentField := "Opacity extent score"

  const SeverityFields: seq<string> :=
    [GeoSeverityField, GeoExtentField, OpacitySeverityField, OpacityExtentField]
  const SeverityTokens: seq<string> :=
    [GeoSeverityToken, GeoExtentToken, OpacitySeverityToken, OpacityExtentToken]

  /** The tokens every template gets replaced, in the order they are replaced. */
  const CommonTokens: seq<string> :=
    [PatientToken, PredictionToken, AnalysisToken, ImageToken, MonthDateToken, YearToken]

  /** `c[key]`: the value stored under `key`, if any. */
  function Lookup(c: seq<Entry>, key: string): (r: Option<string>)
    ensures r.None? <==> forall i :: 0 <= i < |c| ==> c[i].0 != key
    ensures r.Some? ==> exists i :: 0 <= i < |c| && c[i] == (key, r.value)
  {
    if c == [] then None
    else if c[0].0 == key then Some(c[0].1)
    else
      var r := Lookup(c[1..], key);
      assert forall i :: 1 <= i < |c| ==> c[i] == c[1..][i - 1];
      r
  }

  /** In a mapping, `c[key]` is `value` exactly when the pair is stored. */
  lemma {:induction false} LookupFindsEntry(c: Classification, key: string, value: string)
    ensures Lookup(c, key) == Some(value) <==> (key, value) in c
  {
    if c != [] && c[0].0 != key {
      var rest: Classification := c[1..];
      LookupFindsEntry(rest, key, value);
      assert (key, value) in c ==> (key, value) in rest;
    } else if c != [] && (key, value) in c {
      var i :| 0 <= i < |c| && c[i] == (key, value);
      assert i == 0;
    }
  }

  // ---------------------------------------------------------------------------
  // Template selection

  /** The positive template is used exactly when the prediction is COVID-19 and
      severity data was loaded; a COVID-19 prediction without severity data falls
      back to the negative template. */
  function SelectTemplate(prediction: string, severityLoaded: bool): (t: Template)
    ensures t == Positive <==> prediction == CovidLabel && severityLoaded
  {
    if prediction != CovidLabel || !severityLoaded then Negative else Positive
  }

  /** The file the template is read from; only the positive one carries the
      severity placeholders. */
  function TemplateFile(t: Template): (name: string)
    ensures name == PositiveTemplateFile <==> t == Positive
  {
    if t == Positive then PositiveTemplateFile else NegativeTemplateFile
  }

  // ---------------------------------------------------------------------------
  // Analysis block

  /** The three keys that never produce a fragment. */
  predicate IsReserved(key: string)
  {
    key == "prediction" || key == "Prediction" || key == "**DISCLAIMER**"
  }

  /** `<h3>{key}: <span>{value} ({percent}%)</span></h3>` */
  function Fragment(key: string, value: string, percent: string): string
  {
    "<h3>" + key + ": <span>" + value + " (" + percent + "%)</span></h3>"
  }

  /** The analysis block for the entries of `c`, taken in order: the value the
      loop's accumulator holds after the whole of `c`, or the FormatError of the
      first non-reserved value `float` rejects. */
  function AnalysisBlock(c: seq<Entry>, pct: PercentText): (r: Result<string>)
    ensures r.Err? ==> (r.error.FormatError? && (r.error.key, r.error.value) in c
                        && !IsReserved(r.error.key) && pct(r.error.value).None?)
    decreases |c|
  {
    if c == [] then Ok("")
    else
      var prefix := AnalysisBlock(c[..|c| - 1], pct);
      var key, value := c[|c| - 1].0, c[|c| - 1].1;
      if prefix.Err? || IsReserved(key) then prefix
      else match pct(value)
        case None => Err(FormatError(key, value))
        case Some(p) => Ok(prefix.value + Fragment(key, value, p))
  }

  /** The entries that produce a fragment, in their original order. */
  function Kept(c: seq<Entry>): seq<Entry>
  {
    if c == [] then []
    else (if IsReserved(c[0].0) then [] else [c[0]]) + Kept(c[1..])
  }

  /** An entry is kept exactly when it is in the mapping under a non-reserved key. */
  lemma {:induction false} KeptMembers(c: seq<Entry>)
    ensures forall e :: e in Kept(c) <==> e in c && !IsReserved(e.0)
  {
    if c != [] {
      KeptMembers(c[1..]);
      assert forall e :: e in c <==> e == c[0] || e in c[1..];
    }
  }

  /** Every entry that needs a percentage has one. */
  predicate Parses(c: seq<Entry>, pct: PercentText)
  {
    forall e :: e in c && !IsReserved(e.0) ==> pct(e.1).Some?
  }

  /** The fragments of `entries`, concatenated in order. */
  function Fragments(entries: seq<Entry>, pct: PercentText): string
    requires forall e :: e in entries ==> pct(e.1).Some?
  {
    if entries == [] then ""
    else Fragment(entries[0].0, entries[0].1, pct(entries[0].1).value) + Fragments(entries[1..], pct)
  }

  lemma {:induction false} KeptAppend(a: seq<Entry>, b: seq<Entry>)
    ensures Kept(a + b) == Kept(a) + Kept(b)
  {
    if a == [] {
      assert a + b == b;
    } else {
      assert (a + b)[0] == a[0] && (a + b)[1..] == a[1..] + b;
      KeptAppend(a[1..], b);
    }
  }

  lemma {:induction false} FragmentsAppend(a: seq<Entry>, b: seq<Entry>, pct: PercentText)
    requires forall e :: e in a + b ==> pct(e.1).Some?
    ensures Fragments(a + b, pct) == Fragments(a, pct) + Fragments(b, pct)
  {
    if a == [] {
      assert a + b == b;
    } else {
      assert (a + b)[0] == a[0] && (a + b)[1..] == a[1..] + b;
      FragmentsAppend(a[1..], b, pct);
    }
  }

  /** When every value parses, the block is the filter of the non-reserved entries
      followed by the concatenation of their fragments. */
  lemma {:induction false} AnalysisBlockIsFilterThenConcat(c: seq<Entry>, pct: PercentText)
    requires Parses(c, pct)
    ensures forall e :: e in Kept(c) ==> pct(e.1).Some?
    ensures AnalysisBlock(c, pct) == Ok(Fragments(Kept(c), pct))
    decreases |c|
  {
    KeptMembers(c);
    if c != [] {
      ParsesPrefix(c, pct);
      AnalysisBlockIsFilterThenConcat(c[..|c| - 1], pct);
      FilterThenConcatStep(c, pct);
    }
  }

  /** One loop iteration of the block agrees with one more filtered entry. */
  lemma FilterThenConcatStep(c: seq<Entry>, pct: PercentText)
    requires c != [] && Parses(c, pct)
    requires forall e :: e in Kept(c[..|c| - 1]) ==> pct(e.1).Some?
    requires AnalysisBlock(c[..|c| - 1], pct) == Ok(Fragments(Kept(c[..|c| - 1]), pct))
    ensures forall e :: e in Kept(c) ==> pct(e.1).Some?
    ensures AnalysisBlock(c, pct) == Ok(Fragments(Kept(c), pct))
  {
    SplitLast(c);
    KeptAppend(c[..|c| - 1], [c[|c| - 1]]);
    KeptMembers(c);
    if IsReserved(c[|c| - 1].0) {
      SkippedLast(c, pct);
    } else {
      KeptLast(c, pct);
    }
  }

  /** A reserved last entry adds nothing to the block or to the kept entries. */
  lemma SkippedLast(c: seq<Entry>, pct: PercentText)
    requires c != [] && IsReserved(c[|c| - 1].0)
    requires Kept(c) == Kept(c[..|c| - 1]) + Kept([c[|c| - 1]])
    requires forall e :: e in Kept(c[..|c| - 1]) ==> pct(e.1).Some?
    requires AnalysisBlock(c[..|c| - 1], pct) == Ok(Fragments(Kept(c[..|c| - 1]), pct))
    ensures Kept(c) == Kept(c[..|c| - 1])
    ensures AnalysisBlock(c, pct) == Ok(Fragments(Kept(c), pct))
  {
    var init, last := c[..|c| - 1], c[|c| - 1];
    KeptSingleton(last);
    assert Kept(c) == Kept(init) + [];
  }

  /** A non-reserved, parsable last entry appends its fragment. */
  lemma KeptLast(c: seq<Entry>, pct: PercentText)
    requires c != [] && !IsReserved(c[|c| - 1].0) && pct(c[|c| - 1].1).Some?
    requires Kept(c) == Kept(c[..|c| - 1]) + Kept([c[|c| - 1]])
    requires forall e :: e in Kept(c[..|c| - 1]) ==> pct(e.1).Some?
    requires AnalysisBlock(c[..|c| - 1], pct) == Ok(Fragments(Kept(c[..|c| - 1]), pct))
    ensures forall e :: e in Kept(c) ==> pct(e.1).Some?
    ensures AnalysisBlock(c, pct) == Ok(Fragments(Kept(c), pct))
  {
    var init, last := c[..|c| - 1], c[|c| - 1];
    KeptSingleton(last);
    AnalysisBlockSnoc(c, pct);
    FragmentsSnoc(Kept(init), last, pct);
    var f := Fragment(last.0, last.1, pct(last.1).value);
    calc {
      AnalysisBlock(c, pct);
      Ok(Fragments(Kept(init), pct) + f);
      Ok(Fragments(Kept(init) + [last], pct));
      { assert Kept(c) == Kept(init) + [last]; }
      Ok(Fragments(Kept(c), pct));
    }
  }

  /** One step of the loop: a non-reserved, parsable entry appends its fragment. */
  lemma AnalysisBlockSnoc(c: seq<Entry>, pct: PercentText)
    requires c != [] && !IsReserved(c[|c| - 1].0) && pct(c[|c| - 1].1).Some?
    requires AnalysisBlock(c[..|c| - 1], pct).Ok?
    ensures AnalysisBlock(c, pct)
      == Ok(AnalysisBlock(c[..|c| - 1], pct).value + Fragment(c[|c| - 1].0, c[|c| - 1].1, pct(c[|c| - 1].1).value))
  {
  }

  lemma KeptSingleton(e: Entry)
    ensures Kept([e]) == if IsReserved(e.0) then [] else [e]
  {
    assert [e][1..] == [];
  }

  /** Appending a parsable entry appends its fragment. */
  lemma FragmentsSnoc(kept: seq<Entry>, last: Entry, pct: PercentText)
    requires forall e :: e in kept ==> pct(e.1).Some?
    requires pct(last.1).Some?
    ensures forall e :: e in kept + [last] ==> pct(e.1).Some?
    ensures Fragments(kept + [last], pct) == Fragments(kept, pct) + Fragment(last.0, last.1, pct(last.1).value)
  {
    FragmentsAppend(kept, [last], pct);
    var f := Fragment(last.0, last.1, pct(last.1).value);
    assert [last][1..] == [];
    assert Fragments([last], pct) == f + "";
    assert f + "" == f;
  }

  lemma SplitLast(c: seq<Entry>)
    requires c != []
    ensures c[..|c| - 1] + [c[|c| - 1]] == c
  {
  }

  lemma ParsesPrefix(c: seq<Entry>, pct: PercentText)
    requires c != [] && Parses(c, pct)
    ensures Parses(c[..|c| - 1], pct)
  {
    forall e | e in c[..|c| - 1] && !IsReserved(e.0) ensures pct(e.1).Some? {
      assert e in c;
    }
  }

  /** The block is an error exactly when some non-reserved value does not parse. */
  lemma {:induction false} AnalysisBlockOkIffParses(c: seq<Entry>, pct: PercentText)
    ensures AnalysisBlock(c, pct).Ok? <==> Parses(c, pct)
    decreases |c|
  {
    if c != [] {
      var init, last := c[..|c| - 1], c[|c| - 1];
      assert c == init + [last];
      AnalysisBlockOkIffParses(init, pct);
    }
  }

  /** Once a prefix has failed, the whole block fails with the same error. */
  lemma {:induction false} FailurePersists(c: seq<Entry>, n: nat, pct: PercentText)
    requires n <= |c| && AnalysisBlock(c[..n], pct).Err?
    ensures AnalysisBlock(c, pct) == AnalysisBlock(c[..n], pct)
    decreases |c|
  {
    if n < |c| {
      var init := c[..|c| - 1];
      assert init[..n] == c[..n];
      FailurePersists(init, n, pct);
    } else {
      assert c[..n] == c;
    }
  }

  /** The error names the first non-reserved entry whose value does not parse. */
  lemma FirstBadValueFails(c: seq<Entry>, i: nat, pct: PercentText)
    requires i < |c| && !IsReserved(c[i].0) && pct(c[i].1).None?
    requires Parses(c[..i], pct)
    ensures AnalysisBlock(c, pct) == Err(FormatError(c[i].0, c[i].1))
  {
    AnalysisBlockOkIffParses(c[..i], pct);
    assert c[..i + 1][..i] == c[..i];
    FailurePersists(c, i + 1, pct);
  }

  /** A mapping holding only reserved keys yields an empty block. */
  lemma OnlyReservedKeysGiveEmptyBlock(c: seq<Entry>, pct: PercentText)
    requires forall i :: 0 <= i < |c| ==> IsReserved(c[i].0)
    ensures AnalysisBlock(c, pct) == Ok("")
  {
    AnalysisBlockIsFilterThenConcat(c, pct);
  }

  /** A classification with the prediction and one category, Pneumonia at 0.87. */
  lemma PneumoniaExample(pct: PercentText)
    requires pct("0.87") == Some("87.00")
    ensures AnalysisBlock([("prediction", "COVID-19"), ("Pneumonia", "0.87")], pct)
      == Ok("<h3>Pneumonia: <span>0.87 (87.00%)</span></h3>")
  {
    var c := [("prediction", "COVID-19"), ("Pneumonia", "0.87")];
    assert c[..1][..0] == [];
    assert IsReserved(c[0].0) && !IsReserved(c[1].0);
    assert AnalysisBlock(c[..1], pct) == Ok("");
    assert c[..|c| - 1] == c[..1];
    PneumoniaFragment();
    assert "" + Fragment("Pneumonia", "0.87", "87.00") == Fragment("Pneumonia", "0.87", "87.00");
  }

  /** The fragment of that category, spelled out. */
  lemma PneumoniaFragment()
    ensures Fragment("Pneumonia", "0.87", "87.00") == "<h3>Pneumonia: <span>0.87 (87.00%)</span></h3>"
  {
  }

  /** The loop accumulating `prediction_analysis` over the classification keys. */
  method ComposeAnalysis(c: seq<Entry>, pct: PercentText) returns (r: Result<string>)
    ensures r == AnalysisBlock(c, pct)
  {
    var block := "";
    var i := 0;
    while i < |c|
      invariant 0 <= i <= |c|
      invariant AnalysisBlock(c[..i], pct) == Ok(block)
    {
      var key, value := c[i].0, c[i].1;
      assert c[..i + 1][..i] == c[..i];
      if !IsReserved(key) {
        var percent := pct(value);
        if percent.None? {
          FailurePersists(c, i + 1, pct);
          return Err(FormatError(key, value));
        }
        block := block + Fragment(key, value, percent.value);
      }
      i := i + 1;
    }
    assert c[..i] == c;
    r := Ok(block);
  }

  // ---------------------------------------------------------------------------
  // Placeholder substitution

  /** The replacements applied one after another, each to the previous result. */
  function Substitute(txt: string, subs: seq<Sub>): string
    decreases |subs|
  {
    if subs == [] then txt
    else ReplaceAll(Substitute(txt, subs[..|subs| - 1]), subs[|subs| - 1].0, subs[|subs| - 1].1)
  }

  function CommonSubstitutions(options: Options, prediction: string, analysis: string, time: Timestamp): (subs: seq<Sub>)
    ensures |subs| == |CommonTokens| && forall i :: 0 <= i < |subs| ==> subs[i].0 == CommonTokens[i]
  {
    [(PatientToken, options.patientId), (PredictionToken, prediction), (AnalysisToken, analysis),
     (ImageToken, options.imageFile), (MonthDateToken, time.full), (YearToken, time.year)]
  }

  /** The four severity replacements, or the KeyError of the first missing field. */
  function SeveritySubstitutions(severity: Severity): (r: Result<seq<Sub>>)
    ensures r.Ok? <==> forall f :: f in SeverityFields ==> f in severity
    ensures r.Ok? ==> |r.value| == 4 && forall i :: 0 <= i < 4 ==>
      SeverityFields[i] in severity && r.value[i] == (SeverityTokens[i], severity[SeverityFields[i]])
    ensures r.Err? ==> (exists i :: 0 <= i < 4 && r.error == MissingSeverityField(SeverityFields[i])
                          && SeverityFields[i] !in severity && forall j :: 0 <= j < i ==> SeverityFields[j] in severity)
  {
    if GeoSeverityField !in severity then
      assert SeverityFields[0] == GeoSeverityField;
      Err(MissingSeverityField(GeoSeverityField))
    else if GeoExtentField !in severity then
      assert SeverityFields[1] == GeoExtentField;
      Err(MissingSeverityField(GeoExtentField))
    else if OpacitySeverityField !in severity then
      assert SeverityFields[2] == OpacitySeverityField;
      Err(MissingSeverityField(OpacitySeverityField))
    else if OpacityExtentField !in severity then
      assert SeverityFields[3] == OpacityExtentField;
      Err(MissingSeverityField(OpacityExtentField))
    else
      Ok([(GeoSeverityToken, severity[GeoSeverityField]),
          (GeoExtentToken, severity[GeoExtentField]),
          (OpacitySeverityToken, severity[OpacitySeverityField]),
          (OpacityExtentToken, severity[OpacityExtentField])])
  }

  /** What `run` writes to the intermediate HTML file, or the exception it raises
      first: the missing `prediction` key, then an unparsable value in the analysis
      loop, then (positive template only) the first missing severity field.
      `severity` is `None` when the severity file was missing or unreadable. */
  function Rendered(files: TemplateFiles, c: Classification, severity: Option<Severity>,
                    options: Options, time: Timestamp, pct: PercentText): (r: Result<Report>)
    ensures r.Ok? ==> Lookup(c, PredictionKey).Some? && AnalysisBlock(c, pct).Ok?
    ensures r.Ok? ==> r.value.template == SelectTemplate(Lookup(c, PredictionKey).value, severity.Some?)
    ensures severity.None? && Lookup(c, PredictionKey).Some? && AnalysisBlock(c, pct).Ok? ==> r.Ok?
  {
    match Lookup(c, PredictionKey)
    case None => Err(MissingKey(PredictionKey))
    case Some(prediction) =>
      var template := SelectTemplate(prediction, severity.Some?);
      match AnalysisBlock(c, pct)
      case Err(e) => Err(e)
      case Ok(analysis) =>
        var txt := Substitute(files.Contents(template), CommonSubstitutions(options, prediction, analysis, time));
        if template == Negative then Ok(Report(template, txt))
        else match WithSeverity(txt, severity.value)
          case Err(e) => Err(e)
          case Ok(html) => Ok(Report(template, html))
  }

  /** The four severity replacements applied to `txt`, or the KeyError of the first
      missing field. */
  function WithSeverity(txt: string, severity: Severity): (r: Result<string>)
    ensures r.Ok? <==> forall f :: f in SeverityFields ==> f in severity
    ensures r.Err? ==> r.error.MissingSeverityField? && r.error.field in SeverityFields
  {
    match SeveritySubstitutions(severity)
    case Err(e) => Err(e)
    case Ok(subs) => Ok(Substitute(txt, subs))
  }

  /** The severity replacements of the positive path, one field lookup at a time. */
  method ReplaceSeverityTokens(txt: string, scores: Severity) returns (r: Result<string>)
    ensures r == WithSeverity(txt, scores)
  {
    var out := txt;
    ghost var done: seq<Sub> := [];
    if GeoSeverityField !in scores {
      return Err(MissingSeverityField(GeoSeverityField));
    }
    SubstituteSnoc(txt, done, GeoSeverityToken, scores[GeoSeverityField]);
    out := ReplaceAll(out, GeoSeverityToken, scores[GeoSeverityField]);
    done := done + [(GeoSeverityToken, scores[GeoSeverityField])];
    if GeoExtentField !in scores {
      return Err(MissingSeverityField(GeoExtentField));
    }
    SubstituteSnoc(txt, done, GeoExtentToken, scores[GeoExtentField]);
    out := ReplaceAll(out, GeoExtentToken, scores[GeoExtentField]);
    done := done + [(GeoExtentToken, scores[GeoExtentField])];
    if OpacitySeverityField !in scores {
      return Err(MissingSeverityField(OpacitySeverityField));
    }
    SubstituteSnoc(txt, done, OpacitySeverityToken, scores[OpacitySeverityField]);
    out := ReplaceAll(out, OpacitySeverityToken, scores[OpacitySeverityField]);
    done := done + [(OpacitySeverityToken, scores[OpacitySeverityField])];
    if OpacityExtentField !in scores {
      return Err(MissingSeverityField(OpacityExtentField));
    }
    SubstituteSnoc(txt, done, OpacityExtentToken, scores[OpacityExtentField]);
    out := ReplaceAll(out, OpacityExtentToken, scores[OpacityExtentField]);
    done := done + [(OpacityExtentToken, scores[OpacityExtentField])];
    assert done == [(GeoSeverityToken, scores[GeoSeverityField]),
                    (GeoExtentToken, scores[GeoExtentField]),
                    (OpacitySeverityToken, scores[OpacitySeverityField]),
                    (OpacityExtentToken, scores[OpacityExtentField])];
    r := Ok(out);
  }

  lemma SubstituteSnoc(txt: string, subs: seq<Sub>, token: string, value: string)
    ensures Substitute(txt, subs + [(token, value)]) == ReplaceAll(Substitute(txt, subs), token, value)
  {
    assert (subs + [(token, value)])[..|subs|] == subs;
  }

  /** The template choice and replacement chain of `run`; `severity` is `None` when
      the severity file was missing or unreadable. */
  method Render(files: TemplateFiles, c: Classification, severity: Option<Severity>,
                options: Options, time: Timestamp, pct: PercentText) returns (r: Result<Report>)
    ensures r == Rendered(files, c, severity, options, time, pct)
  {
    var found := Lookup(c, PredictionKey);
    if found.None? {
      return Err(MissingKey(PredictionKey));
    }
    var prediction := found.value;
    var template := SelectTemplate(prediction, severity.Some?);
    var txt := files.Contents(template);
    ghost var original, done: seq<Sub> := txt, [];

    SubstituteSnoc(original, done, PatientToken, options.patientId);
    txt := ReplaceAll(txt, PatientToken, options.patientId);
    done := done + [(PatientToken, options.patientId)];

    SubstituteSnoc(original, done, PredictionToken, prediction);
    txt := ReplaceAll(txt, PredictionToken, prediction);
    done := done + [(PredictionToken, prediction)];

    var analysis := ComposeAnalysis(c, pct);
    if analysis.Err? {
      return Err(analysis.error);
    }
    SubstituteSnoc(original, done, AnalysisToken, analysis.value);
    txt := ReplaceAll(txt, AnalysisToken, analysis.value);
    done := done + [(AnalysisToken, analysis.value)];

    SubstituteSnoc(original, done, ImageToken, options.imageFile);
    txt := ReplaceAll(txt, ImageToken, options.imageFile);
    done := done + [(ImageToken, options.imageFile)];

    SubstituteSnoc(original, done, MonthDateToken, time.full);
    txt := ReplaceAll(txt, MonthDateToken, time.full);
    done := done + [(MonthDateToken, time.full)];

    SubstituteSnoc(original, done, YearToken, time.year);
    txt := ReplaceAll(txt, YearToken, time.year);
    done := done + [(YearToken, time.year)];

    assert done == CommonSubstitutions(options, prediction, analysis.value, time);
    assert txt == Substitute(original, done);

    if TemplateFile(template) == PositiveTemplateFile {
      var replaced := ReplaceSeverityTokens(txt, severity.value);
      if replaced.Err? {
        return Err(replaced.error);
      }
      txt := replaced.value;
    }
    r := Ok(Report(template, txt));
  }

  // ---------------------------------------------------------------------------
  // Properties of the rendered report

  /** Applying two lists of replacements in turn is applying their concatenation. */
  lemma {:induction false} SubstituteAppend(txt: string, a: seq<Sub>, b: seq<Sub>)
    ensures Substitute(txt, a + b) == Substitute(Substitute(txt, a), b)
    decreases |b|
  {
    if b == [] {
      assert a + b == a;
    } else {
      var init := b[..|b| - 1];
      assert (a + b)[..|a + b| - 1] == a + init;
      SubstituteAppend(txt, a, init);
    }
  }

  /** A text containing none of the tokens passes through every replacement unchanged. */
  lemma {:induction false} SubstituteAbsent(txt: string, subs: seq<Sub>)
    requires forall i :: 0 <= i < |subs| ==> !Contains(txt, subs[i].0)
    ensures Substitute(txt, subs) == txt
    decreases |subs|
  {
    if subs != [] {
      var init := subs[..|subs| - 1];
      SubstituteAbsent(txt, init);
      ReplaceAbsent(txt, subs[|subs| - 1].0, subs[|subs| - 1].1);
    }
  }

  /** The errors `run` raises, and when: a missing `prediction` key, a value that
      does not parse, and (positive path only) a missing severity field. A missing
      severity file is never an error. */
  lemma RenderedErrors(files: TemplateFiles, c: Classification, severity: Option<Severity>,
                       options: Options, time: Timestamp, pct: PercentText)
    ensures var r := Rendered(files, c, severity, options, time, pct);
            var prediction := Lookup(c, PredictionKey);
            var positive := prediction == Some(CovidLabel) && severity.Some?;
            && (r == Err(MissingKey(PredictionKey)) <==> prediction.None?)
            && (r.Err? && r.error.FormatError? <==> prediction.Some? && !Parses(c, pct))
            && (r.Err? && r.error.MissingSeverityField? <==>
                  (prediction.Some? && Parses(c, pct) && positive
                   && exists f :: f in SeverityFields && f !in severity.value))
            && (r.Ok? <==> (prediction.Some? && Parses(c, pct)
                            && (positive ==> forall f :: f in SeverityFields ==> f in severity.value)))
  {
    AnalysisBlockOkIffParses(c, pct);
  }

  /** On the positive path the result is the template after all ten replacements,
      the six common ones followed by the four severity ones. */
  lemma PositiveReport(files: TemplateFiles, c: Classification, scores: Severity,
                       options: Options, time: Timestamp, pct: PercentText, analysis: string)
    requires Lookup(c, PredictionKey) == Some(CovidLabel)
    requires AnalysisBlock(c, pct) == Ok(analysis)
    requires forall f :: f in SeverityFields ==> f in scores
    ensures SeveritySubstitutions(scores).Ok?
    ensures Rendered(files, c, Some(scores), options, time, pct)
      == Ok(Report(Positive, Substitute(files.positive,
                                        CommonSubstitutions(options, CovidLabel, analysis, time)
                                        + SeveritySubstitutions(scores).value)))
  {
    SubstituteAppend(files.positive, CommonSubstitutions(options, CovidLabel, analysis, time),
                     SeveritySubstitutions(scores).value);
  }

  /** On the negative path the severity tokens are left alone: the result is the
      template after the six common replacements, whatever severity data there is. */
  lemma NegativeReport(files: TemplateFiles, c: Classification, severity: Option<Severity>,
                       options: Options, time: Timestamp, pct: PercentText, prediction: string, analysis: string)
    requires Lookup(c, PredictionKey) == Some(prediction)
    requires SelectTemplate(prediction, severity.Some?) == Negative
    requires AnalysisBlock(c, pct) == Ok(analysis)
    ensures Rendered(files, c, severity, options, time, pct)
      == Ok(Report(Negative, Substitute(files.negative, CommonSubstitutions(options, prediction, analysis, time))))
    ensures Rendered(files, c, severity, options, time, pct) == Rendered(files, c, None, options, time, pct)
  {
  }

  /** A template holding none of the tokens is written out unchanged. */
  lemma TokenFreeTemplateIsUnchanged(files: TemplateFiles, c: Classification, severity: Option<Severity>,
                                     options: Options, time: Timestamp, pct: PercentText, report: Report)
    requires Rendered(files, c, severity, options, time, pct) == Ok(report)
    requires forall t :: t in CommonTokens + SeverityTokens ==> !Contains(files.Contents(report.template), t)
    ensures report.html == files.Contents(report.template)
  {
    var prediction := Lookup(c, PredictionKey).value;
    var analysis := AnalysisBlock(c, pct).value;
    var common := CommonSubstitutions(options, prediction, analysis, time);
    var txt := files.Contents(report.template);
    assert forall i :: 0 <= i < |common| ==> common[i].0 in CommonTokens + SeverityTokens;
    SubstituteAbsent(txt, common);
    if report.template == Positive {
      var extra := SeveritySubstitutions(severity.value).value;
      assert forall i :: 0 <= i < |extra| ==> extra[i].0 in CommonTokens + SeverityTokens;
      SubstituteAbsent(txt, extra);
    }
  }

  /** Replacements run in a fixed order, so a value inserted by an earlier step is
      itself rewritten by a later step: a patient id of `${year}` comes out as the year. */
  lemma LaterTokenInEarlierValueIsRewritten(files: TemplateFiles, c: Classification, severity: Option<Severity>,
                                           imageFile: string, time: Timestamp, pct: PercentText)
    requires files.negative == PatientToken
    requires Lookup(c, PredictionKey).Some?
    requires SelectTemplate(Lookup(c, PredictionKey).value, severity.Some?) == Negative
    requires AnalysisBlock(c, pct).Ok?
    ensures Rendered(files, c, severity, Options(imageFile, YearToken), time, pct)
      == Ok(Report(Negative, time.year))
  {
    var prediction, analysis := Lookup(c, PredictionKey).value, AnalysisBlock(c, pct).value;
    var options := Options(imageFile, YearToken);
    NegativeReport(files, c, severity, options, time, pct, prediction, analysis);
    PatientIdRewrittenByYear(imageFile, prediction, analysis, time);
  }

  /** The chain on the text `${PATIENT_TOKEN}` with the patient id `${year}`. */
  lemma PatientIdRewrittenByYear(imageFile: string, prediction: string, analysis: string, time: Timestamp)
    ensures Substitute(PatientToken, CommonSubstitutions(Options(imageFile, YearToken), prediction, analysis, time))
      == time.year
  {
    var subs := CommonSubstitutions(Options(imageFile, YearToken), prediction, analysis, time);
    ReplaceWhole(PatientToken, YearToken);
    assert Substitute(PatientToken, subs[..1]) == YearToken by {
      assert subs[..1][..0] == [];
    }
    forall k | 1 <= k < 5 ensures !Contains(YearToken, subs[k].0) {
    }
    SubstituteAbsent(YearToken, subs[1..5]);
    SubstituteAppend(PatientToken, subs[..1], subs[1..5]);
    assert subs[..1] + subs[1..5] == subs[..5];
    ReplaceWhole(YearToken, time.year);
    assert subs[..6] == subs;
  }

  /** Replacements run in a fixed order, so a value inserted by a later step keeps any
      token whose replacement already ran: a prediction of `${PATIENT_TOKEN}` survives
      into the HTML, whatever the other values are. */
  lemma EarlierTokenInLaterValueSurvives(files: TemplateFiles, c: Classification, severity: Option<Severity>,
                                         options: Options, time: Timestamp, pct: PercentText)
    requires files.negative == PredictionToken
    requires Lookup(c, PredictionKey) == Some(PatientToken)
    requires AnalysisBlock(c, pct).Ok?
    ensures Rendered(files, c, severity, options, time, pct) == Ok(Report(Negative, PatientToken))
  {
    var analysis := AnalysisBlock(c, pct).value;
    assert SelectTemplate(PatientToken, severity.Some?) == Negative;
    NegativeReport(files, c, severity, options, time, pct, PatientToken, analysis);
    PredictionValueKeepsPatientToken(options, analysis, time);
  }

  /** The chain on the text `${PREDICTION_CLASSIFICATION}` with the prediction
      `${PATIENT_TOKEN}`. */
  lemma PredictionValueKeepsPatientToken(options: Options, analysis: string, time: Timestamp)
    ensures Substitute(PredictionToken, CommonSubstitutions(options, PatientToken, analysis, time))
      == PatientToken
  {
    var subs := CommonSubstitutions(options, PatientToken, analysis, time);
    PatientTokenNotInPredictionToken();
    LaterTokensNotInPatientToken();
    assert subs[1] == (PredictionToken, PatientToken);
    assert forall j :: 1 < j < |subs| ==> subs[j].0 in [AnalysisToken, ImageToken, MonthDateToken, YearToken];
    TokenChain(PredictionToken, subs, 1);
  }

  /** A text that is exactly the `k`-th token comes out as the `k`-th value when no
      earlier token occurs in it and no later token occurs in that value. */
  lemma TokenChain(txt: string, subs: seq<Sub>, k: nat)
    requires k < |subs| && txt == subs[k].0 && txt != []
    requires forall j :: 0 <= j < k ==> !Contains(txt, subs[j].0)
    requires forall j :: k < j < |subs| ==> !Contains(subs[k].1, subs[j].0)
    ensures Substitute(txt, subs) == subs[k].1
  {
    var before, after := subs[..k], subs[k + 1..];
    SubstituteAbsent(txt, before);
    SubstituteSnoc(txt, before, txt, subs[k].1);
    ReplaceWhole(txt, subs[k].1);
    SubstituteAbsent(subs[k].1, after);
    SubstituteAppend(txt, before + [subs[k]], after);
    assert before + [subs[k]] + after == subs;
  }

  lemma PatientTokenNotInPredictionToken()
    ensures !Contains(PredictionToken, PatientToken)
  {
    assert PredictionToken[..|PatientToken|][3] != PatientToken[3];
    DollarTokenAbsent(PredictionToken, PatientToken);
  }

  /** None of the four tokens replaced after the prediction occurs in `${PATIENT_TOKEN}`. */
  lemma LaterTokensNotInPatientToken()
    ensures forall t :: t in [AnalysisToken, ImageToken, MonthDateToken, YearToken] ==> !Contains(PatientToken, t)
  {
    assert forall j | 0 < j < |PatientToken| :: PatientToken[j] != '$';
    assert PatientToken[..|AnalysisToken|][3] != AnalysisToken[3];
    DollarTokenAbsent(PatientToken, AnalysisToken);
    assert PatientToken[..|ImageToken|][3] != ImageToken[3];
    DollarTokenAbsent(PatientToken, ImageToken);
    assert PatientToken[..|MonthDateToken|][3] != MonthDateToken[3];
    DollarTokenAbsent(PatientToken, MonthDateToken);
    assert PatientToken[..|YearToken|][3] != YearToken[3];
    DollarTokenAbsent(PatientToken, YearToken);
  }

  /** A `$`-led token can only start at a `$`; in a text whose only `$` is its
      first character, it occurs only at index 0. */
  lemma DollarTokenAbsent(s: string, t: string)
    requires |s| > 0 && |t| > 0 && t[0] == '$'
    requires forall j | 0 < j < |s| :: s[j] != '$'
    requires !OccursAt(s, t, 0)
    ensures !Contains(s, t)
  {
  }
}
