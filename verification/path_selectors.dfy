/**
 The two selectors over the recorded path set: the shortest path (fewest
 cells) and the cheapest path (lowest cost). Both are one pass with a running
 minimum that a later entry replaces only when strictly smaller, so the
 earliest of several equal minima is the one selected.
 */
module PathSelectors {
  import opened Wrappers
  import opened PathCost

  datatype SelectError = NoPathsFound

  /**
   i is the first position of a least key: keys[i] is at most every key, and
   every key before position i is strictly greater.
   */
  predicate IsFirstMin(keys: seq<int>, i: int) {
    && 0 <= i < |keys|
    && (forall j :: 0 <= j < |keys| ==> keys[i] <= keys[j])
    && (forall j :: 0 <= j < i ==> keys[j] > keys[i])
  }

  /** At most one position is the first position of a least key. */
  lemma FirstMinUnique(keys: seq<int>, i: int, j: int)
    requires IsFirstMin(keys, i) && IsFirstMin(keys, j)
    ensures i == j
  {
    // Both are least keys, so they are equal, and neither can then lie before the other.
    assert keys[i] == keys[j];
  }

  /** No key equals the sentinel -1 that the selection loop starts from. */
  predicate NoSentinel(keys: seq<int>) {
    forall j :: 0 <= j < |keys| ==> keys[j] != -1
  }

  /**
   The selection loop shared by both selectors. The running minimum starts
   at the sentinel -1; an entry is taken without moving the index while the
   minimum still equals -1, and afterwards only an entry with a strictly
   smaller key moves it. When no key equals the sentinel, the result is the
   first position of a least key and that key.
   */
  method FirstMinIndex(keys: seq<int>) returns (index: nat, minKey: int)
    ensures |keys| == 0 ==> index == 0 && minKey == -1
    ensures |keys| > 0 && NoSentinel(keys) ==> IsFirstMin(keys, index) && minKey == keys[index]
  {
    minKey := -1;
    index := 0;
    var i := 0;
    while i < |keys|
      invariant 0 <= i <= |keys|
      invariant i == 0 ==> index == 0 && minKey == -1
      invariant NoSentinel(keys) && i > 0 ==> IsFirstMin(keys[..i], index) && minKey == keys[index]
    {
      if minKey == -1 {
        minKey := keys[i];
      } else if minKey > keys[i] {
        minKey := keys[i];
        index := i;
      }
      i := i + 1;
    }
    assert keys[..i] == keys;
  }

  /** The length of each path. */
  function Lengths(paths: seq<string>): (keys: seq<int>)
    ensures |keys| == |paths| && NoSentinel(keys)
    ensures forall j :: 0 <= j < |paths| ==> keys[j] == |paths[j]|
  {
    seq(|paths|, j requires 0 <= j < |paths| => |paths[j]|)
  }

  /** The cost of each path. */
  function Costs(paths: seq<string>): (keys: seq<int>)
    ensures |keys| == |paths|
    ensures forall j :: 0 <= j < |paths| ==> keys[j] == Cost(paths[j])
  {
    seq(|paths|, j requires 0 <= j < |paths| => Cost(paths[j]))
  }

  /**
   The index of the shortest path: no path is shorter, and every earlier
   path is strictly longer. An empty path set has no shortest path.
   */
  method ShortestPath(paths: seq<string>) returns (res: Result<nat, SelectError>)
    ensures res.Failure? <==> |paths| == 0
    ensures res.Success? ==>
      && res.value < |paths|
      && (forall j :: 0 <= j < |paths| ==> |paths[res.value]| <= |paths[j]|)
      && (forall j :: 0 <= j < res.value ==> |paths[j]| > |paths[res.value]|)
  {
    if |paths| == 0 {
      return Failure(NoPathsFound);
    }
    var index, _ := FirstMinIndex(Lengths(paths));
    return Success(index);
  }

  /**
   The index and cost of the cheapest path. When no path costs exactly -1
   (which holds whenever every path is made of digits), no path costs less,
   every earlier path costs strictly more, and the cost returned is that
   path's cost. An empty path set has no cheapest path.
   */
  method CheapestPath(paths: seq<string>) returns (res: Result<(nat, int), SelectError>)
    ensures res.Failure? <==> |paths| == 0
    ensures res.Success? && (forall j :: 0 <= j < |paths| ==> Cost(paths[j]) != -1) ==>
      var (index, cost) := res.value;
      && index < |paths|
      && cost == Cost(paths[index])
      && (forall j :: 0 <= j < |paths| ==> cost <= Cost(paths[j]))
      && (forall j :: 0 <= j < index ==> Cost(paths[j]) > cost)
  {
    if |paths| == 0 {
      return Failure(NoPathsFound);
    }
    var index, cost := FirstMinIndex(Costs(paths));
    return Success((index, cost));
  }

  /** A path set made only of digits never meets the sentinel. */
  lemma DigitPathsAvoidSentinel(paths: seq<string>)
    requires forall j :: 0 <= j < |paths| ==> AllDigits(paths[j])
    ensures NoSentinel(Costs(paths))
  {
    forall j | 0 <= j < |paths| ensures Costs(paths)[j] != -1 {
      CostOfDigits(paths[j]);
    }
  }

  /**
   With the path set ["12", "30"], both paths have length 2 and cost 3, and
   both selectors take the first.
   */
  lemma TieBreakExample()
    ensures IsFirstMin(Lengths(["12", "30"]), 0) && !IsFirstMin(Lengths(["12", "30"]), 1)
    ensures IsFirstMin(Costs(["12", "30"]), 0) && !IsFirstMin(Costs(["12", "30"]), 1)
  {
    assert "12"[1..] == "2" && "30"[1..] == "0";
    assert Cost("12") == 3 && Cost("30") == 3;
  }
}
