/** Clients of the list that exercise its operations together. */
module Scenario {
  import opened LinkedList

  /** Inserting a payload at the front and removing index 0 hands the same
      payload back and restores the previous contents. */
  method AddThenRemoveFront<T>(list: List<T>, x: Option<T>) returns (y: Option<T>)
    requires list.Valid()
    modifies list.Repr
    ensures list.Valid()
    ensures y == x && list.elems == old(list.elems) && list.size == old(list.size)
  {
    var same := Add(list, x);
    y := RemoveIndex(list, 0);
  }

  /** With a comparator that reports a payload equal to itself, a payload
      inserted at the front is found at index 0. */
  method AddThenIndexOf<T>(list: List<T>, x: T) returns (i: int)
    requires list.Valid()
    requires list.compareTo.Some? && list.compareTo.value(Some(x), Some(x)) == 0
    modifies list.Repr
    ensures list.Valid() && list.elems == [Some(x)] + old(list.elems)
    ensures i == 0
  {
    var same := Add(list, Some(x));
    i := IndexOf(list, Some(x));
  }

  /** A three-way comparison of integer payloads; a null payload is below
      every integer. */
  function IntCompare(a: Option<int>, b: Option<int>): (c: int)
  {
    match (a, b)
    case (Some(x), Some(y)) => if x < y then -1 else if x == y then 0 else 1
    case (None, None) => 0
    case (None, Some(_)) => -1
    case (Some(_), None) => 1
  }

  /** A list with destructor and integer comparator, after inserting 7, 3
      and 9 at the front. */
  method NineThreeSeven() returns (list: List<int>)
    ensures list.Valid() && fresh(list.Repr)
    ensures list.elems == [Some(9), Some(3), Some(7)] && list.size == 3
    ensures list.hasDestroy && list.compareTo == Some(IntCompare)
  {
    list := new List<int>(true, Some(IntCompare));
    var r := Add(list, Some(7));
    r := Add(list, Some(3));
    r := Add(list, Some(9));
  }

  /** Tearing down a list holding 9 and 7 hands both to the destructor, front
      first, and releases the list; a second teardown through the cleared
      handle does nothing. */
  method TearDownNineSeven(list: List<int>) returns (calls: seq<int>, again: seq<int>)
    requires list.Valid() && list.hasDestroy && list.elems == [Some(9), Some(7)]
    modifies list
    ensures calls == [9, 7] && again == []
    ensures !list.Valid()
  {
    var handle := new Handle(list);
    ghost var s := list.elems;
    assert s[1..] == [Some(7)] && s[1..][1..] == [];
    assert Payloads(s) == [9, 7];
    calls := Destroy(handle);
    again := Destroy(handle);
  }

  /** Insert 7, 3 and 9, look up 7, remove index 1, try to remove past the
      end, then tear the list down twice. */
  method Example() returns (found: int, removed: Option<int>, pastEnd: Option<int>, calls: seq<int>, again: seq<int>)
    ensures found == 2
    ensures removed == Some(3)
    ensures pastEnd == None
    ensures calls == [9, 7] && again == []
  {
    var list := NineThreeSeven();
    ghost var s := list.elems;
    assert s[1..][1..] == [Some(7)] && s[1..] == [Some(3), Some(7)];
    assert FirstMatch(s[1..][1..], IntCompare, Some(7)) == 0;
    assert FirstMatch(s[1..], IntCompare, Some(7)) == 1;
    found := IndexOf(list, Some(7));
    removed := RemoveIndex(list, 1);
    assert list.elems == [Some(9), Some(7)] && list.size == 2;
    pastEnd := RemoveIndex(list, list.size);
    calls, again := TearDownNineSeven(list);
  }
}
