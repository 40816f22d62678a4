/**
 * The model's `makeUniqueKeyFunction`, set up in `load`: a closure over
 * `lastkey` (initially 1) that starts at the requested key, or at `lastkey`
 * when the request is absent or 0, counts up past every key the model
 * already uses, and remembers the key it hands out.
 */
module KeyGen {
  import opened Wrappers
  import opened OrgModel

  /** A key above every key in `used`; it bounds the search for an unused key. */
  ghost function KeyBound(used: set<Key>): (b: Key)
    ensures forall x | x in used :: x < b
    decreases used
  {
    if used == {} then 0
    else
      HasElement(used);
      var y :| y in used;
      var rest := used - {y};
      var b' := KeyBound(rest);
      assert forall x | x in used :: x == y || x in rest;
      if y < b' then b' else y + 1
  }

  /** `data.key || lastkey`: an absent key and the key 0 are both falsy. */
  function StartKey(requested: Option<Key>, lastkey: Key): (start: Key)
    ensures requested.None? ==> start == lastkey
    ensures requested.Some? ==> start == if requested.value == 0 then lastkey else requested.value
  {
    if requested.Some? && requested.value != 0 then requested.value else lastkey
  }

  class UniqueKeyFunction {
    var lastkey: Key

    constructor ()
      ensures lastkey == 1
    {
      lastkey := 1;
    }

    /**
     * One call `(model, data) => ...`; `requested` is `data.key`.  The key
     * returned is the least unused key at or above the start, and it is
     * also left in `lastkey` (and, by the caller, in `data.key`).
     */
    method Call(model: Chart, requested: Option<Key>) returns (k: Key)
      modifies this
      ensures k !in model
      ensures StartKey(requested, old(lastkey)) <= k
      ensures forall j | StartKey(requested, old(lastkey)) <= j < k :: j in model
      ensures StartKey(requested, old(lastkey)) !in model ==> k == StartKey(requested, old(lastkey))
      ensures lastkey == k
    {
      var start := StartKey(requested, lastkey);
      k := start;
      while k in model
        invariant start <= k
        invariant forall j | start <= j < k :: j in model
        decreases KeyBound(model.Keys) - k
      {
        k := k + 1;
      }
      lastkey := k;
    }
  }
}
