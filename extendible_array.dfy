/**
  A list with worst-case O(1) append, backed by two buffers.

  `newArr` is the current buffer and `oldArr` the previous, half-sized one.
  Each append writes at `end` and migrates the single element at `shadow`
  from the old buffer into the new one, so that a reallocation is paid for
  one element at a time.  Slot 0 of every buffer is a sentinel, so logical
  index `i` lives at slot `i + 1`: in `oldArr` when `i + 1 <= shadow`,
  otherwise in `newArr`.

  The ghost field `elems` is the list the structure represents; `Valid()`
  ties it to the buffers and cursors.
*/
module ExtendibleArrays {

  datatype Error = IndexOutOfBounds

  datatype Result<T> = Ok(value: T) | Err(error: Error)

  datatype Outcome = Pass | Fail(error: Error)

  /** `n` is 1, 2, 4, 8, ... */
  ghost predicate IsPow2(n: int)
    decreases if n < 1 then 0 else n
  {
    n == 1 || (n >= 2 && n % 2 == 0 && IsPow2(n / 2))
  }

  /** Every power of two above 1 is even and halves to a power of two. */
  lemma Pow2Halves(n: int)
    requires IsPow2(n) && n >= 2
    ensures n % 2 == 0 && IsPow2(n / 2) && n / 2 >= 1
  {
  }

  /** Doubling keeps a power of two. */
  lemma Pow2Doubles(n: int)
    requires IsPow2(n)
    ensures IsPow2(2 * n)
  {
    assert (2 * n) / 2 == n;
  }

  /** The list after inserting `x` before position `i`: the promise of add(int, T). */
  function Inserted<T>(s: seq<T>, i: int, x: T): (r: seq<T>)
    requires 0 <= i <= |s|
    ensures |r| == |s| + 1 && r[i] == x
    ensures forall k :: 0 <= k < i ==> r[k] == s[k]
    ensures forall k :: i < k < |r| ==> r[k] == s[k - 1]
  {
    s[..i] + [x] + s[i..]
  }

  /**
    The list that add(int, T) leaves behind for `0 <= i < |s|`: both of its
    shift lengths are one short, so the former last element is lost and `x`
    also stays at the end where the preliminary append put it.
  */
  function InsertedAsWritten<T>(s: seq<T>, i: int, x: T): (r: seq<T>)
    requires 0 <= i < |s|
    ensures |r| == |s| + 1 && r[i] == x && r[|s|] == x
    ensures r[..|s|] == Inserted(s, i, x)[..|s|]
  {
    s[..i] + [x] + s[i..|s| - 1] + [x]
  }

  /** The as-written insertion is the intended one exactly when `x` equals the former last element. */
  lemma AsWrittenInsertAgrees<T>(s: seq<T>, i: int, x: T)
    requires 0 <= i < |s|
    ensures InsertedAsWritten(s, i, x) == Inserted(s, i, x) <==> s[|s| - 1] == x
  {
    var w, r := InsertedAsWritten(s, i, x), Inserted(s, i, x);
    assert r[|s|] == s[|s| - 1];
    if s[|s| - 1] == x {
      assert forall k :: 0 <= k < |s| + 1 ==> w[k] == r[k];
    }
  }

  /** The worked example: inserting 3 before index 2 of [1, 2, 4, 5]. */
  lemma AsWrittenInsertExample()
    ensures InsertedAsWritten([1, 2, 4, 5], 2, 3) == [1, 2, 3, 4, 3]
    ensures Inserted([1, 2, 4, 5], 2, 3) == [1, 2, 3, 4, 5]
  {
    assert [1, 2, 4, 5][..2] == [1, 2];
    assert [1, 2, 4, 5][2..3] == [4];
    assert [1, 2, 4, 5][2..] == [4, 5];
  }

  /** The list without position `i`: the promise of remove(int). */
  function Removed<T>(s: seq<T>, i: int): (r: seq<T>)
    requires 0 <= i < |s|
    ensures |r| == |s| - 1
    ensures forall k :: 0 <= k < i ==> r[k] == s[k]
    ensures forall k :: i <= k < |r| ==> r[k] == s[k + 1]
  {
    s[..i] + s[i + 1..]
  }

  /**
    `a` with the `length` elements from position `index` moved up one slot
    (the element they push out is dropped) and `x` written at `index`.
  */
  ghost function Shifted<T>(a: seq<T>, index: int, x: T, length: int): (r: seq<T>)
    requires 0 <= index && 0 <= length && index + length < |a|
    ensures |r| == |a| && r[index] == x
    ensures forall i :: 0 <= i < index ==> r[i] == a[i]
    ensures forall i :: index < i <= index + length ==> r[i] == a[i - 1]
    ensures forall i :: index + length < i < |a| ==> r[i] == a[i]
  {
    a[..index] + [x] + a[index..index + length] + a[index + length + 1..]
  }

  /**
    After appending `x`, shifting the `length` elements from `index` up and
    writing `x` at `index` is the intended insertion when the shift reaches
    the appended slot, and the as-written one when it stops one short.
  */
  lemma ShiftedAfterAppend<T>(s: seq<T>, index: int, x: T, length: int)
    requires 0 <= index && 0 <= length && index + length <= |s|
    ensures index + length == |s| ==> Shifted(s + [x], index, x, length) == Inserted(s, index, x)
    ensures index + length == |s| - 1 ==> Shifted(s + [x], index, x, length) == InsertedAsWritten(s, index, x)
  {
    var r := Shifted(s + [x], index, x, length);
    if index + length == |s| {
      assert forall i :: 0 <= i < |r| ==> r[i] == Inserted(s, index, x)[i];
    }
    if index + length == |s| - 1 {
      var w := InsertedAsWritten(s, index, x);
      assert forall i :: 0 <= i < |s| ==> w[i] == Inserted(s, index, x)[i];
      assert forall i :: 0 <= i < |r| ==> r[i] == w[i];
    }
  }

  /**
    System.arraycopy(a, srcPos, a, destPos, length) within one array: it acts
    as if the source range went through a temporary buffer, so an upward
    shift copies from the top down.
  */
  method ArrayCopy<T>(a: array<T>, srcPos: int, destPos: int, length: int)
    requires 0 <= srcPos && 0 <= destPos && 0 <= length
    requires srcPos + length <= a.Length && destPos + length <= a.Length
    modifies a
    ensures forall k :: 0 <= k < a.Length && destPos <= k < destPos + length ==>
      a[k] == old(a[k - destPos + srcPos])
    ensures forall k :: 0 <= k < a.Length && !(destPos <= k < destPos + length) ==>
      a[k] == old(a[k])
  {
    if destPos <= srcPos {
      var i := 0;
      while i < length
        invariant 0 <= i <= length
        invariant forall k :: 0 <= k < a.Length && destPos <= k < destPos + i ==>
          a[k] == old(a[k - destPos + srcPos])
        invariant forall k :: 0 <= k < a.Length && !(destPos <= k < destPos + i) ==>
          a[k] == old(a[k])
      {
        a[destPos + i] := a[srcPos + i];
        i := i + 1;
      }
    } else {
      var i := length;
      while i > 0
        invariant 0 <= i <= length
        invariant forall k :: 0 <= k < a.Length && destPos + i <= k < destPos + length ==>
          a[k] == old(a[k - destPos + srcPos])
        invariant forall k :: 0 <= k < a.Length && !(destPos + i <= k < destPos + length) ==>
          a[k] == old(a[k])
      {
        i := i - 1;
        a[destPos + i] := a[srcPos + i];
      }
    }
  }

  class ExtendibleArray<T(0)> {
    /** The list this structure represents. */
    ghost var elems: seq<T>
    ghost var Repr: set<object>

    var oldArr: array?<T>
    var newArr: array<T>
    var shadow: int
    var end: int

    /**
      The buffers and cursors hold `elems`; the new region between the
      cursors may be drained (`end == shadow + 1`), as it is for a moment
      inside remove(index).
    */
    ghost predicate Linked()
      reads this, Repr
      ensures Linked() ==> this in Repr
    {
      && this in Repr && newArr in Repr
      && Repr == {this, newArr} + (if oldArr == null then {} else {oldArr})
      && (oldArr != null ==> oldArr != newArr && oldArr.Length == newArr.Length / 2)
      && (newArr.Length >= 2 ==> oldArr != null)
      && IsPow2(newArr.Length)
      && shadow + end == newArr.Length - 1
      && -1 <= shadow && shadow + 1 <= end <= newArr.Length
      && |elems| == end - 1
      && (forall i :: 0 <= i < |elems| && i + 1 <= shadow ==> elems[i] == oldArr[i + 1])
      && (forall i :: 0 <= i < |elems| && shadow < i + 1 ==> elems[i] == newArr[i + 1])
    }

    /** The class invariant: linked, and the new region is never empty between operations. */
    ghost predicate Valid()
      reads this, Repr
      ensures Valid() ==> this in Repr
    {
      Linked() && shadow + 1 < end
    }

    /** The sizes the invariant forces: the bounds every buffer access relies on. */
    lemma Bounds()
      requires Valid()
      ensures newArr.Length >= 2 ==> newArr.Length % 2 == 0
      ensures newArr.Length == 1 ==> shadow == -1 && end == 1 && elems == []
      ensures shadow == -1 <==> end == newArr.Length
      ensures 0 <= shadow ==> oldArr != null && shadow + 2 <= oldArr.Length
      ensures 1 <= shadow ==> end + 2 <= newArr.Length
    {
      if newArr.Length >= 2 { Pow2Halves(newArr.Length); }
    }

    /** The new buffer holds an even number of slots between the cursors. */
    lemma NewRegionEven()
      requires Valid() && newArr.Length >= 2
      ensures (end - shadow - 1) % 2 == 0 && end - shadow - 1 >= 2
    {
      Pow2Halves(newArr.Length);
    }

    constructor ()
      ensures Valid() && fresh(Repr)
      ensures elems == []
      ensures oldArr == null && newArr.Length == 1 && shadow == -1 && end == 1
    {
      oldArr := null;
      newArr := new T[1];
      shadow, end := -1, 1;
      elems := [];
      Repr := {this, newArr};
    }

    function Size(): (n: int)
      reads this, Repr
      requires Valid()
      ensures n == |elems| && n >= 0
    {
      end - 1
    }

    /** get(index): reads the old buffer exactly when `index + 1 <= shadow`. */
    function Get(index: int): (r: Result<T>)
      reads this, Repr
      requires Valid()
      ensures r.Ok? <==> 0 <= index < |elems|
      ensures r.Ok? ==> r.value == elems[index]
      ensures !r.Ok? ==> r == Err(IndexOutOfBounds)
    {
      if index < 0 || index >= Size() then Err(IndexOutOfBounds)
      else if index + 1 <= shadow then Ok(oldArr[index + 1])
      else Ok(newArr[index + 1])
    }

    /** set(index, value): returns the previous element; nothing else changes. */
    method Set(index: int, value: T) returns (r: Result<T>)
      requires Valid()
      modifies Repr
      ensures Valid() && Repr == old(Repr)
      ensures r == old(Get(index))
      ensures r.Ok? ==> elems == old(elems)[index := value]
      ensures r.Err? ==> elems == old(elems)
      ensures oldArr == old(oldArr) && newArr == old(newArr)
      ensures shadow == old(shadow) && end == old(end)
    {
      r := Get(index);
      if r.Err? {
        return;
      }
      if index + 1 <= shadow {
        oldArr[index + 1] := value;
      } else {
        newArr[index + 1] := value;
      }
      elems := elems[index := value];
    }

    /**
      add(elem): constant work.  A full new buffer becomes the old one and a
      buffer of twice its size is allocated; then `elem` is written at `end`
      and the one element at `shadow` migrates.
    */
    method Add(elem: T) returns (b: bool)
      requires Valid()
      modifies Repr
      ensures Valid() && fresh(Repr - old(Repr))
      ensures b
      ensures elems == old(elems) + [elem]
      ensures old(end) == old(newArr.Length) ==>
        oldArr == old(newArr) && newArr.Length == 2 * old(newArr.Length)
      ensures old(end) < old(newArr.Length) ==>
        oldArr == old(oldArr) && newArr == old(newArr)
      ensures end == old(end) + 1
    {
      Bounds();
      if end == newArr.Length {
        Promote();
      }
      newArr[end] := elem;
      newArr[shadow] := oldArr[shadow];
      end, shadow := end + 1, shadow - 1;
      elems := elems + [elem];
      b := true;
    }

    /**
      The reallocation step of add(elem) on a full buffer: the new buffer
      becomes the old one, a buffer twice its size is allocated, and the
      migration cursor restarts below `end`.  Every element now lives in the
      old buffer; the new region is empty until the append that follows.
    */
    method Promote()
      requires Valid() && end == newArr.Length
      modifies this`oldArr, this`newArr, this`shadow, this`Repr
      ensures oldArr == old(newArr) && fresh(newArr) && newArr.Length == 2 * oldArr.Length
      ensures Repr == {this, oldArr, newArr} && oldArr != newArr
      ensures IsPow2(newArr.Length)
      ensures shadow == end - 1 && shadow + end == oldArr.Length + end - 1
      ensures forall i :: 0 <= i < |elems| ==> elems[i] == oldArr[i + 1]
    {
      Pow2Doubles(newArr.Length);
      oldArr := newArr;
      newArr := new T[newArr.Length * 2];
      shadow := end - 1;
      Repr := {this, oldArr, newArr};
    }

    /**
      Drops the new buffer once it has drained (`end == shadow + 1`): the old
      buffer becomes the new one and a blank half-sized old buffer is made.
    */
    method Demote()
      requires Linked() && end == shadow + 1 && newArr.Length >= 2
      modifies this
      ensures Valid() && fresh(Repr - old(Repr))
      ensures elems == old(elems)
      ensures newArr == old(oldArr) && shadow == -1 && end == newArr.Length
    {
      Pow2Halves(newArr.Length);
      newArr := oldArr;
      oldArr := new T[newArr.Length / 2];
      shadow := -1;
      end := newArr.Length;
      Repr := {this, newArr, oldArr};
    }

    /** remove(index) for an element held in the new buffer (`index + 1 > shadow`). */
    method RemoveFromNew(index: int)
      requires Valid() && 0 <= index < |elems| && shadow < index + 1
      modifies Repr
      ensures Linked() && Repr == old(Repr) && oldArr == old(oldArr) && newArr == old(newArr)
      ensures elems == Removed(old(elems), index)
      ensures shadow == old(shadow) + 1 && end == old(end) - 1
    {
      Bounds();
      NewRegionEven();
      ghost var a, ob, nb := elems, oldArr[..], newArr[..];
      RemoveMovesNew(oldArr, newArr, index, shadow, end);
      shadow, end := shadow + 1, end - 1;
      elems := Removed(a, index);
      forall i | 0 <= i < |elems| && i + 1 <= shadow
        ensures elems[i] == oldArr[i + 1]
      {
        if i + 1 < shadow {
          assert oldArr[i + 1] == ob[i + 1] == a[i];
        } else if i < index {
          assert oldArr[i + 1] == nb[i + 1] == a[i];
        } else {
          assert oldArr[i + 1] == nb[i + 2] == a[i + 1];
        }
      }
      forall i | 0 <= i < |elems| && shadow < i + 1
        ensures elems[i] == newArr[i + 1]
      {
        if i < index {
          assert newArr[i + 1] == nb[i + 1] == a[i];
        } else {
          assert newArr[i + 1] == nb[i + 2] == a[i + 1];
        }
      }
    }

    /**
      The buffer moves of remove(index) in the new buffer, cursors `s` and
      `e`: the slots after `index + 1` move down one, and the element then
      at new slot `s + 1` goes back to old slot `s + 1` (both new slots it
      vacates are cleared).
    */
    static method RemoveMovesNew(oldA: array<T>, newA: array<T>, index: int, s: int, e: int)
      requires oldA != newA && -1 <= s < index + 1 < e <= newA.Length && s + 3 <= e && s + 1 < oldA.Length
      modifies oldA, newA
      ensures forall k :: 0 <= k < oldA.Length && k != s + 1 ==> oldA[k] == old(oldA[k])
      ensures oldA[s + 1] == if s + 1 < index + 1 then old(newA[s + 1]) else old(newA[s + 2])
      ensures forall k :: s + 2 <= k < index + 1 ==> newA[k] == old(newA[k])
      ensures forall k :: index + 1 <= k < e - 1 && s + 2 <= k ==> newA[k] == old(newA[k + 1])
    {
      CloseSlot(newA, index + 1, (e - 1) - (index + 1));
      oldA[s + 1] := newA[s + 1];
      newA[e - 1] := *;
      newA[s + 1] := *;
    }

    /** remove(index) for an element held in the old buffer (`index + 1 <= shadow`). */
    method RemoveFromOld(index: int)
      requires Valid() && 0 <= index && index + 1 <= shadow
      modifies Repr
      ensures Linked() && Repr == old(Repr) && oldArr == old(oldArr) && newArr == old(newArr)
      ensures elems == Removed(old(elems), index)
      ensures shadow == old(shadow) + 1 && end == old(end) - 1
    {
      Bounds();
      NewRegionEven();
      ghost var a, ob, nb := elems, oldArr[..], newArr[..];
      RemoveMovesOld(oldArr, newArr, index, shadow, end);
      shadow, end := shadow + 1, end - 1;
      elems := Removed(a, index);
      forall i | 0 <= i < |elems| && i + 1 <= shadow
        ensures elems[i] == oldArr[i + 1]
      {
        if i < index {
          assert oldArr[i + 1] == ob[i + 1] == a[i];
        } else if i + 2 < shadow {
          assert oldArr[i + 1] == ob[i + 2] == a[i + 1];
        } else {
          assert oldArr[i + 1] == nb[i + 2] == a[i + 1];
        }
      }
      forall i | 0 <= i < |elems| && shadow < i + 1
        ensures elems[i] == newArr[i + 1]
      {
        assert newArr[i + 1] == nb[i + 2] == a[i + 1];
      }
    }

    /**
      The buffer moves of remove(index) in the old buffer, cursors `s` and
      `e`: the old slots after `index + 1` move down one, the first two
      elements of the new region go to old slots `s` and `s + 1`, and the
      rest of the new region moves down one.
    */
    static method RemoveMovesOld(oldA: array<T>, newA: array<T>, index: int, s: int, e: int)
      requires oldA != newA && 0 <= index && index + 1 <= s && s + 2 <= oldA.Length
      requires s + 3 <= e && e + 1 <= newA.Length
      modifies oldA, newA
      ensures forall k :: 0 <= k < index + 1 ==> oldA[k] == old(oldA[k])
      ensures forall k :: index + 1 <= k < s ==> oldA[k] == old(oldA[k + 1])
      ensures oldA[s] == old(newA[s + 1]) && oldA[s + 1] == old(newA[s + 2])
      ensures forall k :: s + 2 <= k < e - 1 ==> newA[k] == old(newA[k + 1])
    {
      ghost var o0, n0 := oldA[..], newA[..];
      CloseSlot(oldA, index + 1, s - (index + 1));
      ghost var o1 := oldA[..];
      MoveTwoBack(oldA, newA, s);
      assert forall k :: 0 <= k < s ==> oldA[k] == o1[k];
      CloseSlot(newA, s + 2, e - s - 2);
      newA[e - 1] := *;
      assert forall k :: s + 2 <= k < e - 1 ==> newA[k] == n0[k + 1];
    }

    /** The `length` slots after `pos` move down one, over the slot at `pos`. */
    static method CloseSlot(a: array<T>, pos: int, length: int)
      requires 0 <= pos && 0 <= length && pos + length < a.Length
      modifies a
      ensures forall k :: 0 <= k < pos ==> a[k] == old(a[k])
      ensures forall k :: pos <= k < pos + length ==> a[k] == old(a[k + 1])
      ensures forall k :: pos + length <= k < a.Length ==> a[k] == old(a[k])
    {
      ArrayCopy(a, pos + 1, pos, length);
    }

    /**
      The loop of remove(index) that moves the two new-buffer slots after
      `s` to old slots `s` and `s + 1`, clearing the new slots.
    */
    static method MoveTwoBack(oldA: array<T>, newA: array<T>, s: int)
      requires oldA != newA && 0 <= s && s + 2 <= oldA.Length && s + 3 <= newA.Length
      modifies oldA, newA
      ensures oldA[s] == old(newA[s + 1]) && oldA[s + 1] == old(newA[s + 2])
      ensures forall k :: 0 <= k < oldA.Length && k != s && k != s + 1 ==> oldA[k] == old(oldA[k])
      ensures forall k :: 0 <= k < newA.Length && k != s + 1 && k != s + 2 ==> newA[k] == old(newA[k])
    {
      for i := 0 to 2
        invariant forall k :: 0 <= k < oldA.Length && !(s <= k < s + i) ==> oldA[k] == old(oldA[k])
        invariant forall k :: s <= k < s + i ==> oldA[k] == old(newA[k + 1])
        invariant forall k :: 0 <= k < newA.Length && !(s + 1 <= k < s + 1 + i) ==> newA[k] == old(newA[k])
      {
        oldA[s + i] := newA[s + 1 + i];
        newA[s + 1 + i] := *;
      }
    }

    /**
      remove(index): returns the removed element.  When the new buffer has
      drained, the buffers are demoted.
    */
    method Remove(index: int) returns (r: Result<T>)
      requires Valid()
      modifies Repr
      ensures Valid() && fresh(Repr - old(Repr))
      ensures r == old(Get(index))
      ensures r.Ok? ==> elems == Removed(old(elems), index)
      ensures r.Err? ==> elems == old(elems) && Repr == old(Repr)
      ensures r.Ok? && old(end) == old(shadow) + 3 ==>
        newArr == old(oldArr) && shadow == -1 && end == newArr.Length
      ensures !(r.Ok? && old(end) == old(shadow) + 3) ==> newArr == old(newArr) && oldArr == old(oldArr)
    {
      r := Get(index);
      if r.Err? {
        return;
      }
      Bounds();
      if index + 1 > shadow {
        RemoveFromNew(index);
      } else {
        RemoveFromOld(index);
      }
      if end == shadow + 1 {
        Demote();
      }
    }

    /**
      The shift of add(index, elem) when the gap falls in the new buffer
      (`index + 1 > shadow`): `length` slots after the gap move up one and
      `elem` fills the gap.
    */
    method OpenGapInNew(index: int, elem: T, length: int)
      requires Valid() && shadow < index + 1 && 0 <= index && 0 <= length
      requires index + 1 + length < end
      modifies newArr, this`elems
      ensures Valid() && Repr == old(Repr) && newArr == old(newArr) && oldArr == old(oldArr)
      ensures shadow == old(shadow) && end == old(end)
      ensures elems == Shifted(old(elems), index, elem, length)
    {
      Bounds();
      ghost var a, nb := elems, newArr[..];
      OpenSlot(newArr, index + 1, elem, length);
      elems := Shifted(a, index, elem, length);
      forall i | 0 <= i < |elems| && shadow < i + 1
        ensures elems[i] == newArr[i + 1]
      {
        if i < index || i > index + length {
          assert newArr[i + 1] == nb[i + 1] == a[i];
        } else if i > index {
          assert newArr[i + 1] == nb[i] == a[i - 1];
        }
      }
    }

    /** The `length` slots from `pos` move up one and `x` is written at `pos`. */
    static method OpenSlot(a: array<T>, pos: int, x: T, length: int)
      requires 0 <= pos && 0 <= length && pos + length < a.Length
      modifies a
      ensures a[pos] == x
      ensures forall k :: 0 <= k < pos ==> a[k] == old(a[k])
      ensures forall k :: pos < k <= pos + length ==> a[k] == old(a[k - 1])
      ensures forall k :: pos + length < k < a.Length ==> a[k] == old(a[k])
    {
      ArrayCopy(a, pos, pos + 1, length);
      a[pos] := x;
    }

    /**
      The shifts of add(index, elem) when the gap falls in the old buffer
      (`index + 1 <= shadow`): `length` slots of the new buffer move up one,
      the old buffer's tail moves up one, `elem` fills the gap and the old
      buffer's last element crosses into the new buffer.
    */
    method OpenGapInOld(index: int, elem: T, length: int)
      requires Valid() && 0 <= index && index + 1 <= shadow && 0 <= length
      requires shadow + 2 + length <= end
      modifies Repr
      ensures Valid() && Repr == old(Repr) && newArr == old(newArr) && oldArr == old(oldArr)
      ensures shadow == old(shadow) && end == old(end)
      ensures elems == Shifted(old(elems), index, elem, shadow + length - index)
    {
      Bounds();
      NewRegionEven();
      ghost var a, nb, ob := elems, newArr[..], oldArr[..];
      SeamShift(oldArr, newArr, index, elem, shadow, length);
      elems := Shifted(a, index, elem, shadow + length - index);
      forall i | 0 <= i < |elems| && i + 1 <= shadow
        ensures elems[i] == oldArr[i + 1]
      {
        if i < index {
          assert oldArr[i + 1] == ob[i + 1] == a[i];
        } else if index < i {
          assert oldArr[i + 1] == ob[i] == a[i - 1];
        }
      }
      forall i | 0 <= i < |elems| && shadow < i + 1
        ensures elems[i] == newArr[i + 1]
      {
        if i == shadow {
          assert newArr[i + 1] == ob[i] == a[i - 1];
        } else if i <= shadow + length {
          assert newArr[i + 1] == nb[i] == a[i - 1];
        } else {
          assert newArr[i + 1] == nb[i + 1] == a[i];
        }
      }
    }

    /**
      The buffer moves of OpenGapInOld: `length` slots of the new buffer
      after `shadow + 1` move up one, the old buffer's slots `index + 1` to
      `shadow` move up one, `elem` goes to old slot `index + 1`, and the
      element pushed to old slot `shadow + 1` moves on to new slot
      `shadow + 1` (its old slot is then cleared).
    */
    static method SeamShift(oldA: array<T>, newA: array<T>, index: int, elem: T, shadow: int, length: int)
      requires oldA != newA && 0 <= index && index + 1 <= shadow && 0 <= length
      requires shadow + 2 <= oldA.Length && shadow + 2 + length <= newA.Length
      modifies oldA, newA
      ensures forall k :: 0 <= k <= index ==> oldA[k] == old(oldA[k])
      ensures oldA[index + 1] == elem
      ensures forall k :: index + 1 < k <= shadow ==> oldA[k] == old(oldA[k - 1])
      ensures newA[shadow + 1] == old(oldA[shadow])
      ensures forall k :: shadow + 1 < k < shadow + 2 + length ==> newA[k] == old(newA[k - 1])
      ensures forall k :: 0 <= k < newA.Length && (k <= shadow || shadow + 2 + length <= k) ==>
        newA[k] == old(newA[k])
    {
      ArrayCopy(newA, shadow + 1, shadow + 2, length);
      ArrayCopy(oldA, index + 1, index + 2, (shadow - (index + 1)) + 1);
      oldA[index + 1] := elem;
      newA[shadow + 1] := oldA[shadow + 1];
      oldA[shadow + 1] := *;
    }

    /**
      add(index, elem) as the source writes it: after the bounds check it
      appends `elem` and then shifts with lengths one short.  With
      `index == size()` the shift length is -1, so System.arraycopy throws
      after the append has already happened.
    */
    method AddAt(index: int, elem: T) returns (r: Outcome)
      requires Valid()
      modifies Repr
      ensures Valid() && fresh(Repr - old(Repr))
      ensures r.Pass? <==> 0 <= index < |old(elems)|
      ensures (index < 0 || index > |old(elems)|) ==> elems == old(elems) && Repr == old(Repr)
      ensures index == |old(elems)| ==> elems == old(elems) + [elem]
      ensures r.Pass? ==> elems == InsertedAsWritten(old(elems), index, elem)
      ensures r.Fail? ==> r.error == IndexOutOfBounds
    {
      if index < 0 || index > Size() {
        return Fail(IndexOutOfBounds);
      }
      ghost var s := elems;
      var _ := Add(elem);
      r := ShiftAsWritten(s, index, elem);
    }

    /**
      The shifts of add(index, elem) as the source writes them, after the
      preliminary append of `elem` to `s`.  For `index == |s|` the shift
      length in the new buffer is -1, which System.arraycopy rejects.
    */
    method ShiftAsWritten(ghost s: seq<T>, index: int, elem: T) returns (r: Outcome)
      requires Valid() && elems == s + [elem] && 0 <= index <= |s|
      modifies Repr
      ensures Valid() && Repr == old(Repr)
      ensures r.Pass? <==> index < |s|
      ensures r.Pass? ==> elems == InsertedAsWritten(s, index, elem)
      ensures r.Fail? ==> elems == s + [elem] && r.error == IndexOutOfBounds
    {
      Bounds();
      NewRegionEven();
      if index + 1 > shadow {
        var length := (end - 2) - (index + 1);
        if length < 0 {
          // System.arraycopy rejects a negative length.
          return Fail(IndexOutOfBounds);
        }
        OpenGapInNew(index, elem, length);
      } else {
        OpenGapInOld(index, elem, (end - 2) - (shadow + 1));
      }
      ShiftedAfterAppend(s, index, elem, |s| - 1 - index);
      r := Pass;
    }

    /**
      add(index, elem) with both shift lengths one longer, so that it keeps
      the insertion promise for every `0 <= index <= size()`.
    */
    method InsertAt(index: int, elem: T) returns (r: Outcome)
      requires Valid()
      modifies Repr
      ensures Valid() && fresh(Repr - old(Repr))
      ensures r.Pass? <==> 0 <= index <= |old(elems)|
      ensures r.Pass? ==> elems == Inserted(old(elems), index, elem)
      ensures r.Fail? ==> elems == old(elems) && Repr == old(Repr) && r.error == IndexOutOfBounds
    {
      if index < 0 || index > Size() {
        return Fail(IndexOutOfBounds);
      }
      ghost var s := elems;
      var _ := Add(elem);
      Bounds();
      NewRegionEven();
      if index + 1 > shadow {
        OpenGapInNew(index, elem, (end - 2) - (index + 1) + 1);
      } else {
        OpenGapInOld(index, elem, (end - 2) - (shadow + 1) + 1);
      }
      ShiftedAfterAppend(s, index, elem, |s| - index);
      r := Pass;
    }
  }

  /**
    The worked example of add(index, elem): on [1, 2, 4, 5], add(2, 3)
    reports success but leaves 3 at index 4, where the intended insertion
    has 5.
  */
  method WorkedExample() returns (last: Result<int>)
    ensures last == Ok(3)
  {
    var xs := new ExtendibleArray<int>();
    var ok := xs.Add(1);
    ok := xs.Add(2);
    ok := xs.Add(4);
    ok := xs.Add(5);
    assert xs.elems == [1, 2, 4, 5];
    var r := xs.AddAt(2, 3);
    AsWrittenInsertExample();
    last := xs.Get(4);
  }
}
