/** Controller and interface names, and the list operations of
    hardware_interface/include/hardware_interface/helpers.hpp that the rest of the model relies on. */
module Names {

  datatype Option<+T> = None | Some(value: T)

  /** The name of a controller or of a hardware component. */
  datatype Name = Name(text: string)

  /** An interface name `owner/item`: `owner` is the text before the first '/'. */
  datatype Interface = Interface(owner: Name, item: string)

  /** No element occurs twice. */
  ghost predicate Unique<T>(s: seq<T>) {
    forall i, j :: 0 <= i < j < |s| ==> s[i] != s[j]
  }

  /** The elements of a list. */
  function Elements<T>(s: seq<T>): set<T>
  {
    set x | x in s
  }

  /** `add_item`: append unless already there. */
  function AddItem<T(==,!new)>(s: seq<T>, x: T): (r: seq<T>)
    ensures x in r && s <= r
    ensures forall y :: y in r <==> y in s || y == x
    ensures Unique(s) ==> Unique(r)
  {
    if x in s then s else s + [x]
  }

  /** `add_items`: the loop over `add_item`. */
  function AddItems<T(==,!new)>(s: seq<T>, xs: seq<T>): (r: seq<T>)
    ensures s <= r
    ensures forall y :: y in r <==> y in s || y in xs
    ensures Unique(s) ==> Unique(r)
    decreases |xs|
  {
    if xs == [] then s
    else
      assert forall y :: y in xs <==> y == xs[0] || y in xs[1..];
      AddItems(AddItem(s, xs[0]), xs[1..])
  }

  /** Position of the first occurrence, or the length when there is none (`std::find`). */
  function IndexOf<T(==,!new)>(s: seq<T>, x: T): (k: nat)
    ensures k <= |s|
    ensures k < |s| <==> x in s
    ensures k < |s| ==> s[k] == x
    ensures forall i :: 0 <= i < k ==> s[i] != x
  {
    if s == [] then 0 else if s[0] == x then 0 else 1 + IndexOf(s[1..], x)
  }

  /** `remove_item`: erase the first occurrence, if any. */
  function RemoveItem<T(==,!new)>(s: seq<T>, x: T): (r: seq<T>)
    ensures x !in s ==> r == s
    ensures forall y :: y in r ==> y in s
    ensures forall y :: y != x ==> (y in r <==> y in s)
    ensures Unique(s) ==> Unique(r) && x !in r
  {
    var k := IndexOf(s, x);
    if k == |s| then s
    else
      var r := s[..k] + s[k + 1..];
      assert forall i :: 0 <= i < |r| ==> r[i] == (if i < k then s[i] else s[i + 1]);
      assert forall i :: 0 <= i < |s| && i != k ==> s[i] == r[if i < k then i else i - 1];
      r
  }

  /** The loop over `find` and `erase` that takes a list of elements out. */
  function RemoveItems<T(==,!new)>(s: seq<T>, xs: seq<T>): (r: seq<T>)
    ensures forall y :: y !in xs ==> (y in r <==> y in s)
    ensures forall y :: y in r ==> y in s
    ensures Unique(s) ==> Unique(r) && forall y :: y in r ==> y !in xs
    decreases |xs|
  {
    if xs == [] then s
    else
      assert forall y :: y in xs <==> y == xs[0] || y in xs[1..];
      RemoveItems(RemoveItem(s, xs[0]), xs[1..])
  }

  /** In a list without repetition every element sits where `IndexOf` finds it. */
  lemma IndexOfUnique<T(!new)>(s: seq<T>, i: nat)
    requires Unique(s) && i < |s|
    ensures IndexOf(s, s[i]) == i
  {
    if i != 0 {
      IndexOfUnique(s[1..], i - 1);
    }
  }
}
