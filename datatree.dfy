/**
 * The screenshot tree of datatree.go: a map from game directory to image paths that is
 * replaced wholesale. A Go nil map is `None`; the read/write lock is not modelled.
 */
module DataTrees {
  import opened Results
  import Discovery

  class DataTree {
    var data: Option<map<string, seq<string>>>

    /** NewDataTree: the tree starts without data. */
    constructor ()
      ensures data == None
    {
      data := None;
    }

    /**
     * GetKeys: no list before any data was stored, otherwise every key of the stored map
     * once (an empty list for an empty map).
     */
    method GetKeys() returns (keys: Option<seq<string>>)
      ensures keys.None? <==> data.None?
      ensures data.Some? ==>
        (keys.Some?
         && Discovery.Distinct(keys.value)
         && (forall k :: k in keys.value <==> k in data.value)
         && |keys.value| == |data.value|)
    {
      if data.None? {
        return None;
      }
      var ks := Discovery.GetKeys(data.value);
      return Some(ks);
    }

    /** Update: the new map replaces the old one; nothing of the old one survives. */
    method Update(newData: Option<map<string, seq<string>>>)
      modifies this`data
      ensures data == newData
    {
      data := newData;
    }
  }
}
