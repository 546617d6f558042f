/** `PropertyCounter`: the sequential integer id generator of the listing manager. */
module Counter {
  import opened Listings

  /**
   * The largest integer id among the listings, or 0 when there is none or all
   * are smaller; ids that are not integers are ignored.
   */
  function MaxIntId(ps: seq<Listing>): (m: int)
    ensures m >= 0
    ensures forall i :: 0 <= i < |ps| && ps[i].id.IntKey? ==> ps[i].id.n <= m
    ensures m == 0 || exists i :: 0 <= i < |ps| && ps[i].id == IntKey(m)
  {
    if ps == [] then 0
    else
      var m := MaxIntId(ps[..|ps| - 1]);
      var last := ps[|ps| - 1];
      if last.id.IntKey? && last.id.n > m then last.id.n else m
  }

  /** The counter; Python keeps `current_id` as a class attribute, here it is one object's field. */
  class PropertyCounter {
    var currentId: int

    /** The class attribute starts at 0. */
    constructor ()
      ensures currentId == 0
    {
      currentId := 0;
    }

    /** `initialize`: seeds the counter with the largest integer id of the listings. */
    method Initialize(properties: seq<Listing>)
      modifies this
      ensures currentId == MaxIntId(properties)
    {
      var maxId := 0;
      for i := 0 to |properties|
        invariant maxId == MaxIntId(properties[..i])
      {
        assert properties[..i + 1][..i] == properties[..i];
        var id := properties[i].id;
        if id.IntKey? {
          maxId := if id.n > maxId then id.n else maxId;
        }
      }
      assert properties[..|properties|] == properties;
      currentId := maxId;
    }

    /** `get_next_id`: increments the counter and returns the new value. */
    method GetNextId() returns (id: int)
      modifies this
      ensures currentId == old(currentId) + 1
      ensures id == currentId
    {
      currentId := currentId + 1;
      id := currentId;
    }
  }

  /**
   * A counter seeded from `ps` and then asked for `n` ids, as the window does
   * when it starts and then on each add: the ids strictly increase and each is
   * larger than every integer id of `ps`.
   */
  method IssueIds(ps: seq<Listing>, n: nat) returns (ids: seq<int>)
    ensures |ids| == n
    ensures forall k, i :: 0 <= k < n && 0 <= i < |ps| && ps[i].id.IntKey? ==> ps[i].id.n < ids[k]
    ensures forall k, l :: 0 <= k < l < n ==> ids[k] < ids[l]
  {
    var counter := new PropertyCounter();
    counter.Initialize(ps);
    ids := [];
    for k := 0 to n
      invariant |ids| == k
      invariant counter.currentId == MaxIntId(ps) + k
      invariant forall j :: 0 <= j < k ==> ids[j] == MaxIntId(ps) + j + 1
    {
      var id := counter.GetNextId();
      ids := ids + [id];
    }
  }
}
