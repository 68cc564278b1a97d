/** `Arrays.RotateListRight`: rotating a list of integers to the right, in place.  The C# `List<int>`
    is modelled by an `array<int>`, since the method only reads and overwrites its elements. */
module Arrays {

  /** The list rotated right by `amount`: its last `amount` elements move to the front. */
  function RotatedRight(s: seq<int>, amount: nat): seq<int>
    requires amount <= |s|
  {
    s[|s| - amount..] + s[..|s| - amount]
  }

  /** `x % n` for `0 <= x < 2 * n`, without the division. */
  function Wrap(x: int, n: int): int {
    if x < n then x else x - n
  }

  lemma ModIsWrap(x: int, n: int)
    requires 0 < n && 0 <= x < 2 * n
    ensures x % n == Wrap(x, n)
  {
    if x >= n {
      assert x == 1 * n + (x - n);
    }
  }

  /** Index `t` of the rotation holds the element `amount` places before it, wrapping around. */
  lemma RotatedRightIndex(s: seq<int>, amount: nat, t: nat)
    requires amount <= |s| && t < |s|
    ensures RotatedRight(s, amount)[t] == if t < amount then s[|s| - amount + t] else s[t - amount]
  {
  }

  /** The element at index `i` moves to index `(i + amount) % |s|`. */
  lemma RotatedRightAt(s: seq<int>, amount: nat, i: nat)
    requires amount <= |s| && i < |s|
    ensures |RotatedRight(s, amount)| == |s|
    ensures RotatedRight(s, amount)[(i + amount) % |s|] == s[i]
  {
    ModIsWrap(i + amount, |s|);
  }

  /** Rotation keeps every element, with its number of occurrences. */
  lemma RotatedRightMultiset(s: seq<int>, amount: nat)
    requires amount <= |s|
    ensures multiset(RotatedRight(s, amount)) == multiset(s)
  {
    assert s == s[..|s| - amount] + s[|s| - amount..];
  }

  /** Rotating by the whole length gives the list back. */
  lemma RotatedRightFullTurn(s: seq<int>)
    ensures RotatedRight(s, |s|) == s
  {
    assert s[..0] == [];
  }

  /** The worked example of the exercise. */
  lemma RotatedRightExample()
    ensures RotatedRight([1, 2, 3, 4, 5, 6, 7, 8, 9], 3) == [7, 8, 9, 1, 2, 3, 4, 5, 6]
  {
    var s := [1, 2, 3, 4, 5, 6, 7, 8, 9];
    assert s[6..] == [7, 8, 9];
    assert s[..6] == [1, 2, 3, 4, 5, 6];
  }

  /** A list holding each element `j` of `s` at index `(j + amount) % |s|` is the rotation of `s`. */
  lemma PlacedIsRotation(r: seq<int>, s: seq<int>, amount: nat)
    requires |r| == |s| && 1 <= amount <= |s|
    requires forall j :: 0 <= j < |s| ==> r[Wrap(j + amount, |s|)] == s[j]
    ensures r == RotatedRight(s, amount)
  {
    var n := |s|;
    forall t | 0 <= t < n
      ensures r[t] == RotatedRight(s, amount)[t]
    {
      RotatedRightIndex(s, amount, t);
      var j := if t >= amount then t - amount else t + n - amount;
      assert Wrap(j + amount, n) == t;
    }
  }

  /** The first half of the rotation: a new list holding element `i` at index `(i + amount) % n`. */
  method PlaceRotated(data: array<int>, amount: int) returns (rotated: array<int>)
    requires 1 <= amount <= data.Length
    ensures fresh(rotated)
    ensures rotated[..] == RotatedRight(data[..], amount)
  {
    var n := data.Length;
    rotated := new int[n];
    for i := 0 to n
      modifies rotated
      invariant forall j :: 0 <= j < i ==> rotated[Wrap(j + amount, n)] == data[j]
    {
      var newIndex := (i + amount) % n;
      ModIsWrap(i + amount, n);
      rotated[newIndex] := data[i];
    }
    PlacedIsRotation(rotated[..], data[..], amount);
  }

  /** Fills a temporary list by placing element `i` at `(i + amount) % n`, then copies it back
      into `data`. */
  method RotateListRight(data: array<int>, amount: int)
    requires 1 <= amount <= data.Length
    modifies data
    ensures data[..] == RotatedRight(old(data[..]), amount)
  {
    var n := data.Length;
    var rotated := PlaceRotated(data, amount);
    ghost var original := data[..];
    for i := 0 to n
      modifies data
      invariant forall j :: 0 <= j < i ==> data[j] == rotated[j]
      invariant forall j :: i <= j < n ==> data[j] == original[j]
    {
      data[i] := rotated[i];
    }
    assert data[..] == rotated[..];
  }
}
