/** The growable array of `lib/array.h`. `copied` counts the elements that regrowing has moved. */
module GrowArray {

  class GrowArray<T(0)> {
    var data: array<T>
    var len: nat
    ghost var copied: nat

    ghost predicate Valid()
      reads this
    {
      len <= data.Length
    }

    ghost function Contents(): seq<T>
      reads this, data
      requires Valid()
    {
      data[..len]
    }

    /** All growth so far has been by doubling from 4, for one element at a time. */
    ghost predicate Doubled()
      reads this
    {
      data.Length == copied + 4 && (data.Length == 4 || data.Length < 2 * len)
    }

    /** `VD_ARRAY_INIT`: growing from null by one element. */
    constructor ()
      ensures Valid() && Contents() == [] && Doubled() && fresh(data)
    {
      data := new T[NewCap(0, 0, 1, 0)];
      len := 0;
      copied := 0;
    }

    /** `vd_array_grow` */
    method Grow(addLen: nat, minCap: nat)
      requires Valid()
      modifies this`data, this`copied
      ensures Valid() && Contents() == old(Contents())
      ensures data.Length >= len + addLen && data.Length >= minCap
      ensures if len + addLen <= old(data.Length) && minCap <= old(data.Length) then data == old(data) && copied == old(copied)
              else
                && fresh(data) && copied == old(copied) + old(data.Length)
                && data.Length >= 2 * old(data.Length)
                && data.Length == NewCap(old(data.Length), len, addLen, minCap)
    {
      var newCap := NewCap(data.Length, len, addLen, minCap);
      if newCap <= data.Length {
        return;
      }
      var b := new T[newCap];
      forall i | 0 <= i < data.Length {
        b[i] := data[i];
      }
      copied := copied + data.Length;
      data := b;
    }

    /** `VD_ARRAY_ADD` */
    method Add(v: T)
      requires Valid()
      modifies this, data
      ensures Valid() && Contents() == old(Contents()) + [v]
      ensures data == old(data) || fresh(data)
      ensures old(Doubled()) ==> Doubled()
    {
      if len + 1 > data.Length {
        Grow(1, 0);
      }
      data[len] := v;
      len := len + 1;
    }

    /** `VD_ARRAY_ADDN`: what the new elements hold is not determined. */
    method AddN(n: nat)
      requires Valid()
      modifies this
      ensures Valid() && len == old(len) + n && Contents()[..old(len)] == old(Contents())
      ensures data == old(data) || fresh(data)
    {
      if len + n > data.Length {
        Grow(n, 0);
      }
      len := len + n;
    }

    /** Any number of single adds to a new array. */
    static method AddAll(xs: seq<T>) returns (a: GrowArray<T>)
      ensures a.Valid() && a.Contents() == xs && a.Doubled()
      ensures xs != [] ==> a.copied < 2 * |xs|
    {
      a := new GrowArray();
      var i := 0;
      while i < |xs|
        invariant 0 <= i <= |xs| && a.Valid() && a.Doubled() && a.Contents() == xs[..i]
        invariant fresh(a) && fresh(a.data)
      {
        assert xs[..i + 1] == xs[..i] + [xs[i]];
        a.Add(xs[i]);
        i := i + 1;
      }
      assert xs[..i] == xs;
      assert a.len == |a.Contents()|;
    }
  }

  /** The capacity that `vd_array_grow` comes to. */
  function NewCap(cap: nat, len: nat, addLen: nat, minCap: nat): (r: nat)
    ensures r >= len + addLen && r >= minCap
    ensures r > cap ==> r >= 2 * cap && r >= 4
    ensures r <= cap <==> len + addLen <= cap && minCap <= cap
    ensures r > 2 * cap && r > 4 ==> r == len + addLen || r == minCap
  {
    var need := if len + addLen > minCap then len + addLen else minCap;
    if need <= cap then need
    else if need < 2 * cap then 2 * cap
    else if need < 4 then 4
    else need
  }
}
