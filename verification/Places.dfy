/** The places of a list at which something holds, for saying that one list picks its elements from another,
    in order and each once. */
module Places {

  /** The places of a list of flags that are set, in order. */
  function SetPlaces(flags: seq<bool>, n: nat): seq<nat>
    requires n <= |flags|
  {
    if n == 0 then [] else SetPlaces(flags, n - 1) + (if flags[n - 1] then [n - 1] else [])
  }

  lemma {:induction false} PlacesIff(flags: seq<bool>, n: nat, i: nat)
    requires n <= |flags|
    ensures i in SetPlaces(flags, n) <==> i < n && flags[i]
  {
    if n > 0 {
      PlacesIff(flags, n - 1, i);
    }
  }

  lemma {:induction false} PlacesInOrder(flags: seq<bool>, n: nat, k: nat, l: nat)
    requires n <= |flags| && k < l < |SetPlaces(flags, n)|
    ensures SetPlaces(flags, n)[k] < SetPlaces(flags, n)[l]
  {
    var before := SetPlaces(flags, n - 1);
    if l < |before| {
      PlacesInOrder(flags, n - 1, k, l);
    } else {
      PlacesIff(flags, n - 1, before[k]);
      assert before[k] in before;
    }
  }

  /** The places listed are exactly those that are set, each once, in order. */
  ghost predicate AreSet(at: seq<nat>, flags: seq<bool>) {
    && (forall k, l :: 0 <= k < l < |at| ==> at[k] < at[l])
    && (forall i: nat :: i in at <==> i < |flags| && flags[i])
  }

  lemma PlacesAreSet(flags: seq<bool>)
    ensures AreSet(SetPlaces(flags, |flags|), flags)
  {
    forall k, l | 0 <= k < l < |SetPlaces(flags, |flags|)|
      ensures SetPlaces(flags, |flags|)[k] < SetPlaces(flags, |flags|)[l]
    {
      PlacesInOrder(flags, |flags|, k, l);
    }
    forall i: nat
      ensures i in SetPlaces(flags, |flags|) <==> i < |flags| && flags[i]
    {
      PlacesIff(flags, |flags|, i);
    }
  }
}
