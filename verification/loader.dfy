/** The model-loading entry point of the page: the guarded path lookup that decides
    whether a load is requested, and the scale the success handler gives the loaded
    scene. The loading itself is done by an external library and is not modelled. */
module Loader {
  import opened Optional
  import opened Catalog

  /** The one asset that is shown at a reduced scale. */
  const FullDevicePath: string := "3d Models/Full Device.glb"
  const FullDeviceScale: real := 0.002
  /** The scale every other asset is shown at. */
  const DefaultScale: real := 20.0

  /** The load requested for a selection: the mapped path when the selection has one
      that JavaScript considers true, and no load otherwise. */
  function LoadRequest(selected: Option<int>, paths: map<int, string>): (r: Option<string>)
    ensures r.Some? <==> selected.Some? && HasPath(paths, selected.value)
    ensures r.Some? ==> r.value == paths[selected.value] && r.value != ""
  {
    match selected
    case None => None
    case Some(id) => if id in paths && paths[id] != "" then Some(paths[id]) else None
  }

  /** The uniform scale applied to a freshly loaded scene. */
  function ScaleFor(path: string): (s: real)
    ensures s > 0.0
    ensures s < 1.0 <==> path == FullDevicePath
  {
    if path == FullDevicePath then FullDeviceScale else DefaultScale
  }

  /** Every item of a well-formed catalog requests exactly its own model file. */
  lemma CatalogItemRequestsItsPath(items: seq<Item>, paths: map<int, string>, k: int)
    requires WellFormed(items, paths)
    requires 0 <= k < |items|
    ensures LoadRequest(Some(items[k].id), paths) == Some(paths[items[k].id])
  {
  }

  /** No path of the page's catalog is the reduced-scale asset, so every load the
      page can request uses the default scale. */
  lemma PageLoadsUseDefaultScale(id: int)
    ensures LoadRequest(Some(id), ModelPaths).Some? <==> 1 <= id <= 8
    ensures LoadRequest(Some(id), ModelPaths).Some? ==>
              ScaleFor(LoadRequest(Some(id), ModelPaths).value) == DefaultScale
  {
    if id in ModelPaths {
      var p := ModelPaths[id];
      assert p != FullDevicePath by {
        assert |FullDevicePath| == 25;
        assert 1 <= id <= 8;
        if id == 1 { assert |p| == 30; }
        else if id == 2 { assert |p| == 21; }
        else if id == 3 { assert |p| == 21; }
        else if id == 4 { assert |p| == 26; }
        else if id == 5 { assert |p| == 40; }
        else if id == 6 { assert |p| == 24; }
        else if id == 7 { assert |p| == 17; }
        else { assert |p| == 25; assert p[10] != FullDevicePath[10]; }
      }
    }
  }
}
