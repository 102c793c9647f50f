/** The UI's view of the registry: id, display name and colour of each model,
    in registry order. */
module ModelsView {
  import opened ModelsConfig

  datatype ModelInfo = ModelInfo(id: string, name: string, color: string)

  /** The `map` projection that drops `cli` and `model`. */
  function Project(ms: seq<ModelConfig>): (r: seq<ModelInfo>)
    ensures |r| == |ms|
    ensures forall i :: 0 <= i < |ms| ==>
      r[i].id == ms[i].id && r[i].name == ms[i].name && r[i].color == ms[i].color
  {
    if ms == [] then [] else [ModelInfo(ms[0].id, ms[0].name, ms[0].color)] + Project(ms[1..])
  }

  const UiModels: seq<ModelInfo> := Project(Models)

  /** Ids stay pairwise distinct through the projection. */
  lemma UiModelIdsUnique()
    ensures forall i, j :: 0 <= i < j < |UiModels| ==> UiModels[i].id != UiModels[j].id
  {
    RegistryIdsUnique();
  }

  /** The projection keeps the registry's ids, in order. */
  lemma UiModelIdsAreRegistryIds()
    ensures |UiModels| == |Models| && forall i :: 0 <= i < |UiModels| ==> UiModels[i].id == Ids(Models)[i]
  {
  }
}
