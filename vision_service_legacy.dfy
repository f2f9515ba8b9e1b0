/** build/services/vision_service.js, the compiled older revision of the
    vision service: the first landmark's name, and the names of all labels,
    each failure replaced by one fixed message. */
module LegacyVisionService {
  import opened Common
  import opened VisionService

  const UnknownLandmark := "Desconocido"
  const UnknownLabel := "Etiqueta desconocida"
  const LandmarkError := "Error al analizar la imagen para detectar puntos de referencia."
  const LabelsError := "Error al analizar la imagen para detectar etiquetas."

  /** `description ?? fallback`: only a missing description is replaced; an
      empty one is kept. */
  function DescriptionOr(a: Annotation, fallback: string): string {
    if a.description.Some? then a.description.value else fallback
  }

  /** `annotations?.map(a => a.description ?? fallback) ?? []`. */
  function Descriptions(anns: seq<Annotation>, fallback: string): (r: seq<string>)
    ensures |r| == |anns|
    ensures forall i :: 0 <= i < |anns| ==> r[i] == DescriptionOr(anns[i], fallback)
  {
    if |anns| == 0 then [] else [DescriptionOr(anns[0], fallback)] + Descriptions(anns[1..], fallback)
  }

  /** `detectLandmark`: the first landmark's description; no landmark, or
      any classifier failure, gives the one fixed error. */
  function DetectLandmark(response: Result<Option<seq<Annotation>>>): (r: Result<string>)
    ensures r.Err? ==> r.message == LandmarkError
    ensures r.Ok? <==> response.Ok? && response.value.Some? && |response.value.value| > 0
    ensures r.Ok? ==> var first := response.value.value[0];
      r.value == if first.description.Some? then first.description.value else UnknownLandmark
  {
    if response.Err? then Err(LandmarkError)
    else
      var names := Descriptions(if response.value.Some? then response.value.value else [], UnknownLandmark);
      if |names| == 0 then Err(LandmarkError) else Ok(names[0])
  }

  /** `detectLabels`: one name per annotation, in order; an empty or missing
      list, or any classifier failure, gives the one fixed error. */
  function DetectLabels(response: Result<Option<seq<Annotation>>>): (r: Result<seq<string>>)
    ensures r.Err? ==> r.message == LabelsError
    ensures r.Ok? <==> response.Ok? && response.value.Some? && |response.value.value| > 0
    ensures r.Ok? ==> |r.value| > 0 && |r.value| == |response.value.value|
    ensures r.Ok? ==> forall i :: 0 <= i < |r.value| ==>
      r.value[i] == DescriptionOr(response.value.value[i], UnknownLabel)
  {
    if response.Err? then Err(LabelsError)
    else
      var names := Descriptions(if response.value.Some? then response.value.value else [], UnknownLabel);
      if |names| == 0 then Err(LabelsError) else Ok(names)
  }
}
