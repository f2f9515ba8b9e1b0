/** src/services/vision_service.ts: turn the classifier's label annotations
    into label results (confidence filter, default names, a placeholder when
    nothing is left), and on a classifier failure remove the temporary file
    unless it is to be kept. */
module VisionService {
  import opened Common
  import opened LocalDisk

  /** One label annotation: both fields may be missing. */
  datatype Annotation = Annotation(description: Option<string>, score: Option<real>)

  /** The confidence text: a percentage of the score, or 'N/A'. */
  datatype Confidence = Percent(score: real) | NotAvailable

  datatype LabelResult = LabelResult(name: string, confidence: Confidence, rawScore: real)

  /** `visionConfig.minConfidence` and `visionConfig.keepTempFiles`. */
  datatype Config = Config(minConfidence: real, keepTempFiles: bool)

  const UnknownName := "Desconocido"
  const PlaceholderName := "No se detectaron objetos con suficiente confianza"
  const ErrorPrefix := "Error al analizar la imagen: "

  /** The single entry returned when no annotation passes the filter. */
  const Placeholder := LabelResult(PlaceholderName, NotAvailable, 0.0)

  /** `label.score && label.score >= minConfidence`: a missing or zero score
      never passes. */
  predicate Kept(a: Annotation, minConfidence: real) {
    a.score.Some? && a.score.value != 0.0 && a.score.value >= minConfidence
  }

  /** A missing or empty description becomes 'Desconocido'; a missing
      score becomes raw score 0. */
  function ToLabel(a: Annotation): (r: LabelResult)
    ensures (a.description.None? || a.description.value == []) ==> r.name == UnknownName
    ensures a.description.Some? && a.description.value != [] ==> r.name == a.description.value
    ensures r.name != []
    ensures a.score.None? ==> r.rawScore == 0.0 && r.confidence == NotAvailable
  {
    LabelResult(
      if a.description.None? || a.description.value == [] then UnknownName else a.description.value,
      if a.score.Some? && a.score.value != 0.0 then Percent(a.score.value) else NotAvailable,
      if a.score.Some? then a.score.value else 0.0)
  }

  /** The filter followed by the map. */
  function Survivors(anns: seq<Annotation>, minConfidence: real): (r: seq<LabelResult>)
    ensures |r| <= |anns|
    ensures forall i :: 0 <= i < |r| ==> r[i].rawScore != 0.0 && r[i].rawScore >= minConfidence
    ensures forall i :: 0 <= i < |r| ==> r[i].name != [] && r[i].confidence == Percent(r[i].rawScore)
  {
    if |anns| == 0 then []
    else (if Kept(anns[0], minConfidence) then [ToLabel(anns[0])] else [])
         + Survivors(anns[1..], minConfidence)
  }

  /** The `results` list of `detectLabels`; a missing annotation list counts
      as empty. */
  function Results(annotations: Option<seq<Annotation>>, minConfidence: real): (r: seq<LabelResult>)
    ensures |r| > 0
  {
    var labels := Survivors(if annotations.Some? then annotations.value else [], minConfidence);
    if |labels| > 0 then labels else [Placeholder]
  }

  /** `cleanupFile(filePath)`: remove the temporary file unless temporary
      files are kept. */
  method CleanupFile(disk: Disk, filePath: string, keepTempFiles: bool)
    modifies disk
    ensures disk.files == if keepTempFiles then old(disk.files) else old(disk.files) - {filePath}
  {
    if keepTempFiles {
      return;
    }
    if filePath in disk.files {
      var _ := disk.Unlink(filePath);
    }
  }

  /** `detectLabels(filePath)`: ask the classifier; on success return the
      results and leave the file alone; on failure clean up and rethrow with
      the analysis prefix. */
  method DetectLabels(disk: Disk, filePath: string, config: Config,
                      classify: string -> Result<Option<seq<Annotation>>>)
    returns (r: Result<seq<LabelResult>>)
    modifies disk
    ensures classify(filePath).Ok? ==>
      r == Ok(Results(classify(filePath).value, config.minConfidence))
      && disk.files == old(disk.files)
    ensures classify(filePath).Err? ==>
      r == Err(ErrorPrefix + classify(filePath).message)
      && disk.files == if config.keepTempFiles then old(disk.files) else old(disk.files) - {filePath}
  {
    var response := classify(filePath);
    if response.Err? {
      CleanupFile(disk, filePath, config.keepTempFiles);
      return Err(ErrorPrefix + response.message);
    }
    r := Ok(Results(response.value, config.minConfidence));
  }

  // ---- lemmas ----

  /** The filter keeps order: filtering a concatenation concatenates the
      filtered parts. */
  lemma {:induction false} SurvivorsAppend(a: seq<Annotation>, b: seq<Annotation>, minConfidence: real)
    ensures Survivors(a + b, minConfidence) == Survivors(a, minConfidence) + Survivors(b, minConfidence)
    decreases |a|
  {
    if |a| > 0 {
      assert (a + b)[1..] == a[1..] + b;
      SurvivorsAppend(a[1..], b, minConfidence);
    } else {
      assert a + b == b;
    }
  }

  /** A single annotation survives exactly when it passes the filter, and
      then with its score as raw score and its description (or the default)
      as name. */
  lemma {:induction false} SurvivorsSingle(a: Annotation, minConfidence: real)
    ensures Survivors([a], minConfidence) == if Kept(a, minConfidence) then [ToLabel(a)] else []
    ensures Kept(a, minConfidence) ==> ToLabel(a).rawScore == a.score.value
  {
    assert [a][1..] == [];
  }

  /** Every annotation that passes the filter is in the results. */
  lemma {:induction false} SurvivorsComplete(anns: seq<Annotation>, minConfidence: real, i: nat)
    requires i < |anns| && Kept(anns[i], minConfidence)
    ensures ToLabel(anns[i]) in Survivors(anns, minConfidence)
    decreases i
  {
    if i > 0 {
      SurvivorsComplete(anns[1..], minConfidence, i - 1);
    }
  }

  /** The placeholder is returned exactly when no annotation passes. */
  lemma {:induction false} PlaceholderIffNoneKept(anns: seq<Annotation>, minConfidence: real)
    ensures Results(Some(anns), minConfidence) == [Placeholder]
            <==> forall i :: 0 <= i < |anns| ==> !Kept(anns[i], minConfidence)
  {
    var s := Survivors(anns, minConfidence);
    if forall i :: 0 <= i < |anns| ==> !Kept(anns[i], minConfidence) {
      NoneKept(anns, minConfidence);
    } else {
      var i :| 0 <= i < |anns| && Kept(anns[i], minConfidence);
      SurvivorsComplete(anns, minConfidence, i);
      assert |s| > 0 && s[0].rawScore != 0.0;
    }
  }

  lemma {:induction false} NoneKept(anns: seq<Annotation>, minConfidence: real)
    requires forall i :: 0 <= i < |anns| ==> !Kept(anns[i], minConfidence)
    ensures Survivors(anns, minConfidence) == []
    decreases |anns|
  {
    if |anns| > 0 {
      assert !Kept(anns[0], minConfidence);
      NoneKept(anns[1..], minConfidence);
    }
  }
}
