/** The `ExrImage` aggregate and its layer lookup. */
module Aggregates {
  import opened Wrappers
  import opened ValueObjects
  import opened Entities

  /** The `ValueError` of a failed lookup, with the name and the file. */
  datatype LookupError = LayerNotFound(layerName: string, filePath: string)

  /**
   * Index of the first layer called `name`, if any: the linear search of
   * `get_layer`, from the front.
   */
  function FindLayer(layers: seq<Layer>, name: string): (r: Option<nat>)
    ensures r.None? <==> forall k :: 0 <= k < |layers| ==> layers[k].name != name
    ensures r.Some? ==> r.value < |layers| && layers[r.value].name == name
    ensures r.Some? ==> forall k :: 0 <= k < r.value ==> layers[k].name != name
  {
    if layers == [] then None
    else if layers[0].name == name then Some(0)
    else
      match FindLayer(layers[1..], name)
      case None => None
      case Some(i) => Some(i + 1)
  }

  /**
   * An image: the file it was read from, its string-valued header
   * attributes in header order, its data window and its layers.
   */
  datatype ExrImage = ExrImage(
    filePath: string,
    header: seq<(string, HeaderValue)>,
    window: PixelWindow,
    layers: seq<Layer>)
  {
    /**
     * `ExrImage.get_layer`: the first layer with the given name; a
     * `ValueError` naming the layer and the file when there is none.
     */
    function GetLayer(layerName: string): (r: Result<Layer, LookupError>)
      ensures r.Success? <==> exists i :: 0 <= i < |layers| && layers[i].name == layerName
      ensures r.Success? ==> r.value.name == layerName
      ensures r.Success? ==>
                exists i :: 0 <= i < |layers| && layers[i] == r.value &&
                  forall k :: 0 <= k < i ==> layers[k].name != layerName
      ensures r.Failure? ==> r.error == LayerNotFound(layerName, filePath)
    {
      match FindLayer(layers, layerName)
      case None => Failure(LayerNotFound(layerName, filePath))
      case Some(i) => Success(layers[i])
    }
  }
}
