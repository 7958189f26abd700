/**
 * The record being enriched. It stands in for the pipeline's document
 * object: the stage reads its centroid, layer, gid and parent fields and
 * changes it only through `AddParent` and `SetAddress`.
 */
module Document {
  import opened Wrappers

  datatype Point = Point(lat: real, lon: real)

  /** One entry of the record's administrative hierarchy, as one `addParent` call adds it. */
  datatype Parent = Parent(placetype: string, name: string, id: string, abbr: Option<string>)

  class Record {
    const centroid: Option<Point>
    const layer: string
    const gid: string
    /** The administrative placetypes this record carries, in the record's own order. */
    const parentFields: seq<string>
    /** The parents added so far, in the order they were added. */
    var parents: seq<Parent>
    /** The address parts (zip, ...). */
    var address: map<string, string>

    constructor (centroid: Option<Point>, layer: string, gid: string, parentFields: seq<string>,
                 parents: seq<Parent>, address: map<string, string>)
      ensures this.centroid == centroid && this.layer == layer && this.gid == gid
      ensures this.parentFields == parentFields
      ensures this.parents == parents && this.address == address
    {
      this.centroid := centroid;
      this.layer := layer;
      this.gid := gid;
      this.parentFields := parentFields;
      this.parents := parents;
      this.address := address;
    }

    /**
     * Adds one parent. An empty name is rejected (the document throws);
     * a rejected call leaves the record as it was.
     */
    method AddParent(placetype: string, name: string, id: string, abbr: Option<string>) returns (ok: bool)
      modifies this
      ensures ok <==> name != ""
      ensures parents == if ok then old(parents) + [Parent(placetype, name, id, abbr)] else old(parents)
      ensures address == old(address)
    {
      ok := name != "";
      if ok {
        parents := parents + [Parent(placetype, name, id, abbr)];
      }
    }

    /** Sets one address part, replacing any earlier value under that key. */
    method SetAddress(key: string, value: string)
      modifies this
      ensures address == old(address)[key := value]
      ensures parents == old(parents)
    {
      address := address[key := value];
    }
  }
}
