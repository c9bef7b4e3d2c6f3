/** The product catalog of the viewer page: the ordered list of selectable items and
    the mapping from item id to the model file that shows it. */
module Catalog {

  /** One selectable entry: a numeric id and the name shown in the item list. */
  datatype Item = Item(id: int, name: string)

  /** The eight items of the page, in display order. */
  const Items: seq<Item> := [
    Item(1, "Full device"),
    Item(2, "Microcontroller (MCU)"),
    Item(3, "Iridium 9603n"),
    Item(4, "Pressure / Depth Sensor"),
    Item(5, "IMU ( Acceerometer + Gyroscope )"),
    Item(6, "Hydrophone"),
    Item(7, "GPS"),
    Item(8, "Temperature Sensor")
  ]

  /** The model file shown for each item id. */
  const ModelPaths: map<int, string> := map[
    1 := "3d Models/Mighty Borwo (1).glb",
    2 := "3d Models/control.glb",
    3 := "3d Models/iridium.glb",
    4 := "3d Models/depth sensor.glb",
    5 := "3d Models/gyroscope and acceleration.glb",
    6 := "3d Models/hydrophone.glb",
    7 := "3d Models/Gps.glb",
    8 := "3d Models/temp sensor.glb"
  ]

  /** `id` is the id of some item of the list. */
  predicate HasId(items: seq<Item>, id: int) {
    exists k :: 0 <= k < |items| && items[k].id == id
  }

  /** No two items share an id. */
  predicate DistinctIds(items: seq<Item>) {
    forall i, j :: 0 <= i < j < |items| ==> items[i].id != items[j].id
  }

  /** Whether a path triggers a load: JavaScript treats a missing entry and the
      empty string alike as false. */
  predicate HasPath(paths: map<int, string>, id: int) {
    id in paths && paths[id] != ""
  }

  /** A catalog the page can run on: a first item exists, ids are unique and every
      item has a model file. */
  predicate WellFormed(items: seq<Item>, paths: map<int, string>) {
    && |items| > 0
    && DistinctIds(items)
    && forall k :: 0 <= k < |items| ==> HasPath(paths, items[k].id)
  }

  /** The position of the first item whose id equals `id`, or -1 when there is none,
      as `Array.prototype.findIndex` returns it. */
  function FindIndex(items: seq<Item>, id: int): (r: int)
    ensures -1 <= r < |items|
    ensures r == -1 ==> forall j :: 0 <= j < |items| ==> items[j].id != id
    ensures r >= 0 ==> items[r].id == id
    ensures r >= 0 ==> forall j :: 0 <= j < r ==> items[j].id != id
  {
    if |items| == 0 then -1
    else if items[0].id == id then 0
    else
      var rest := FindIndex(items[1..], id);
      if rest == -1 then -1 else rest + 1
  }

  /** `findIndex` fails exactly for an id that no item carries. */
  lemma FindIndexMissesOnlyAbsent(items: seq<Item>, id: int)
    ensures FindIndex(items, id) == -1 <==> !HasId(items, id)
  {
    var r := FindIndex(items, id);
    if r >= 0 {
      assert items[r].id == id;
    }
  }

  /** With unique ids, looking up an item's id finds that item's own position. */
  lemma FindIndexOfItem(items: seq<Item>, k: int)
    requires DistinctIds(items)
    requires 0 <= k < |items|
    ensures FindIndex(items, items[k].id) == k
  {
    assert HasId(items, items[k].id);
  }

  /** The page's own catalog: its ids are unique, each has a non-empty model path,
      and the path map has no other keys. */
  lemma PageCatalogWellFormed()
    ensures |Items| == 8
    ensures forall k :: 0 <= k < |Items| ==> Items[k].id == k + 1
    ensures WellFormed(Items, ModelPaths)
    ensures ModelPaths.Keys == set k | 0 <= k < |Items| :: Items[k].id
  {
    assert DistinctIds(Items);
    forall k | 0 <= k < |Items| ensures HasPath(ModelPaths, Items[k].id) {
      assert Items[k].id in {1, 2, 3, 4, 5, 6, 7, 8};
    }
    var ids := set k | 0 <= k < |Items| :: Items[k].id;
    forall id | id in ModelPaths.Keys ensures id in ids {
      assert Items[id - 1].id == id;
    }
  }
}
