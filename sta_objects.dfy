/** The object helpers of the StaMina plugin: `objFrom`, `objPick` and `objOmit`. */
module StaObjects {
  import opened JsCore
  import StaArrays

  /** `S.objFrom(arr, key)`: a reduction that stores every item under the
      name of its `key` value; a later item with the same name replaces an
      earlier one. */
  method ObjFrom(arr: seq<Obj>, key: string) returns (index: map<string, Obj>)
    ensures forall g :: g in index <==> StaArrays.Members(arr, key, g) != []
    ensures forall g :: g in index ==>
              var ms := StaArrays.Members(arr, key, g); index[g] == ms[|ms| - 1]
  {
    index := map[];
    for n := 0 to |arr|
      invariant forall g :: g in index <==> StaArrays.Members(arr[..n], key, g) != []
      invariant forall g :: g in index ==>
                  var ms := StaArrays.Members(arr[..n], key, g); index[g] == ms[|ms| - 1]
    {
      StaArrays.MembersStep(arr, key, n);
      index := index[StaArrays.GroupName(arr[n], key) := arr[n]];
    }
    assert arr[..|arr|] == arr;
  }

  /** The item stored under a name is one of the input items and has that name. */
  lemma ObjFromEntry(arr: seq<Obj>, key: string, index: map<string, Obj>, g: string)
    requires forall g :: g in index <==> StaArrays.Members(arr, key, g) != []
    requires forall g :: g in index ==>
               var ms := StaArrays.Members(arr, key, g); index[g] == ms[|ms| - 1]
    requires g in index
    ensures index[g] in arr && StaArrays.GroupName(index[g], key) == g
  {
    var ms := StaArrays.Members(arr, key, g);
    StaArrays.MembersIn(arr, key, g, ms[|ms| - 1]);
  }

  /** The own properties of `obj` whose names are listed in `keys`. */
  function Picked(obj: Obj, keys: seq<string>): (r: Obj)
  {
    map k | k in obj && k in keys :: obj[k]
  }

  /** `S.objPick(obj, keys)`: a reduction over `keys` that copies each key
      `obj` owns (`hasOwnProperty`). */
  method ObjPick(obj: Obj, keys: seq<string>) returns (r: Obj)
    ensures r == Picked(obj, keys)
    ensures r.Keys <= obj.Keys
    ensures forall k :: k in r ==> r[k] == obj[k] && k in keys
  {
    r := map[];
    for n := 0 to |keys|
      invariant r == Picked(obj, keys[..n])
    {
      assert keys[..n + 1] == keys[..n] + [keys[n]];
      if keys[n] in obj {
        r := r[keys[n] := obj[keys[n]]];
      }
    }
    assert keys[..|keys|] == keys;
  }

  /** `S.objOmit(obj, keys)`: the own properties of `obj` whose names are not listed. */
  function ObjOmit(obj: Obj, keys: seq<string>): (r: Obj)
    ensures forall k :: k in r <==> k in obj && k !in keys
    ensures forall k :: k in r ==> r[k] == obj[k]
  {
    map k | k in obj && k !in keys :: obj[k]
  }

  /** Picking and omitting the same keys split an object into two disjoint halves. */
  lemma PickOmitPartition(obj: Obj, keys: seq<string>)
    ensures Picked(obj, keys).Keys !! ObjOmit(obj, keys).Keys
    ensures Picked(obj, keys) + ObjOmit(obj, keys) == obj
  {
    var p, o := Picked(obj, keys), ObjOmit(obj, keys);
    assert (p + o).Keys == obj.Keys;
  }
}
