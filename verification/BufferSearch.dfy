/** Substring search in a Buffer: `arrayIndexOf` with single-byte indexing. */
module BufferSearch {
  import opened Common

  ghost predicate MatchAt(arr: seq<Byte>, val: seq<Byte>, i: int) {
    0 <= i && i + |val| <= |arr| && forall k :: 0 <= k < |val| ==> arr[i + k] == val[k]
  }

  /** The search forward steps `i` back to the start of a partial match that fails, and goes on behind it. */
  method IndexOf(arr: seq<Byte>, val: seq<Byte>, byteOffset: nat) returns (r: int)
    requires val != []
    ensures r == -1 || (r >= byteOffset && MatchAt(arr, val, r))
    ensures forall j :: byteOffset <= j && (r == -1 || j < r) ==> !MatchAt(arr, val, j)
  {
    var foundIndex := -1;
    var i := byteOffset;
    while i < |arr|
      invariant byteOffset <= i
      invariant foundIndex != -1 ==>
        byteOffset <= foundIndex < i <= |arr| && i - foundIndex < |val|
        && forall k :: 0 <= k < i - foundIndex ==> arr[foundIndex + k] == val[k]
      invariant forall j :: byteOffset <= j < (if foundIndex == -1 then i else foundIndex) ==> !MatchAt(arr, val, j)
      decreases |arr| - (if foundIndex == -1 then i else foundIndex), |arr| - i
    {
      if arr[i] == val[if foundIndex == -1 then 0 else i - foundIndex] {
        if foundIndex == -1 {
          foundIndex := i;
        }
        if i - foundIndex + 1 == |val| {
          return foundIndex;
        }
      } else {
        ghost var start := if foundIndex == -1 then i else foundIndex;
        assert arr[start + (i - start)] != val[i - start];
        if foundIndex != -1 {
          i := i - (i - foundIndex);
        }
        foundIndex := -1;
      }
      i := i + 1;
    }
    r := -1;
  }

  method LastIndexOf(arr: seq<Byte>, val: seq<Byte>, byteOffset: nat) returns (r: int)
    requires val != []
    ensures r == -1 || (r <= byteOffset && MatchAt(arr, val, r))
    ensures forall j :: j <= byteOffset && j > r ==> !MatchAt(arr, val, j)
  {
    var from: int := byteOffset;
    if from + |val| > |arr| {
      from := |arr| - |val|;
    }
    var i := from;
    while i >= 0
      invariant i <= from
      invariant forall j :: i < j <= byteOffset ==> !MatchAt(arr, val, j)
    {
      var found := true;
      var j := 0;
      while j < |val|
        invariant 0 <= j <= |val| && found && forall k :: 0 <= k < j ==> arr[i + k] == val[k]
      {
        if arr[i + j] != val[j] {
          found := false;
          break;
        }
        j := j + 1;
      }
      if found {
        return i;
      }
      i := i - 1;
    }
    r := -1;
  }

  /** `arrayIndexOf`: the first match from `byteOffset` on, or the last one up to it, or -1 iff there is none. */
  method ArrayIndexOf(arr: seq<Byte>, val: seq<Byte>, byteOffset: nat, dir: bool) returns (r: int)
    requires val != []
    ensures r == -1 || (MatchAt(arr, val, r) && if dir then byteOffset <= r else r <= byteOffset)
    ensures r == -1 <==> forall j :: (if dir then byteOffset <= j else j <= byteOffset) ==> !MatchAt(arr, val, j)
    ensures r != -1 ==> forall j :: MatchAt(arr, val, j) && (if dir then byteOffset <= j else j <= byteOffset) ==>
      if dir then r <= j else j <= r
  {
    if dir {
      r := IndexOf(arr, val, byteOffset);
    } else {
      r := LastIndexOf(arr, val, byteOffset);
    }
  }
}
