/**
 * The content overview as the front end receives it: an ordered list of
 * modules, each with an ordered list of concepts (`ModulesOverviewResponse`,
 * `ModuleOverviewItem` and `ConceptListItem` in lib/types/api.ts). The legacy
 * pages' `Module` record carries the same fields the model needs, so both
 * generations use these types. Theme descriptors and descriptions are display
 * text and are left out.
 */
module Course {
  import opened Wrappers

  datatype ConceptListItem = ConceptListItem(id: int, title: string, completed: bool)

  datatype ModuleOverviewItem = ModuleOverviewItem(
    id: int,
    title: string,
    progress: int,
    concepts: seq<ConceptListItem>)

  /** `modules.find((m) => m.id === moduleId)`: the first module with that id. */
  function FindModule(modules: seq<ModuleOverviewItem>, moduleId: int): (r: Option<ModuleOverviewItem>)
    ensures r.None? <==> forall i :: 0 <= i < |modules| ==> modules[i].id != moduleId
    ensures r.Some? ==> exists i :: 0 <= i < |modules| && modules[i] == r.value
                          && r.value.id == moduleId
                          && forall j :: 0 <= j < i ==> modules[j].id != moduleId
  {
    if |modules| == 0 then None
    else if modules[0].id == moduleId then Some(modules[0])
    else
      var r := FindModule(modules[1..], moduleId);
      assert r.Some? ==> exists i :: 0 <= i < |modules| && modules[i] == r.value
                          && forall j :: 0 <= j < i ==> modules[j].id != moduleId by {
        if r.Some? {
          var i :| 0 <= i < |modules[1..]| && modules[1..][i] == r.value && r.value.id == moduleId
                   && forall j :: 0 <= j < i ==> modules[1..][j].id != moduleId;
          assert modules[i + 1] == r.value;
        }
      }
      r
  }

  /** The module at a position is what the search returns when no earlier module shares its id. */
  lemma {:induction false} FindModuleAt(modules: seq<ModuleOverviewItem>, i: int)
    requires 0 <= i < |modules|
    requires forall j :: 0 <= j < i ==> modules[j].id != modules[i].id
    ensures FindModule(modules, modules[i].id) == Some(modules[i])
  {
    if i > 0 {
      FindModuleAt(modules[1..], i - 1);
    }
  }

  /** The ids of a concept list, in order. */
  function ConceptIds(concepts: seq<ConceptListItem>): (ids: seq<int>)
    ensures |ids| == |concepts|
    ensures forall i :: 0 <= i < |concepts| ==> ids[i] == concepts[i].id
  {
    seq(|concepts|, i requires 0 <= i < |concepts| => concepts[i].id)
  }
}
