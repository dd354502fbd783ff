/**
 * `AST::StringArray`: a growable buffer of strings that reallocates its
 * storage on every append.
 */
module Buffers {

  class StringArray {
    var data: array<string>
    var size: nat

    /** `size` counts exactly the cells of `data`. */
    ghost predicate Valid()
      reads this
    {
      size == data.Length
    }

    /** The strings held, in order. */
    ghost function Contents(): seq<string>
      reads this, data
    {
      data[..]
    }

    /** The default constructor: an empty buffer. */
    constructor ()
      ensures Valid() && Contents() == [] && fresh(data)
    {
      data := new string[0];
      size := 0;
    }

    /** `add`: copy the old cells into storage one cell longer and put `s`
        in the last cell. */
    method Add(s: string)
      requires Valid()
      modifies this
      ensures Valid() && fresh(data)
      ensures Contents() == old(Contents()) + [s]
    {
      var newData := new string[size + 1];
      var i := 0;
      while i < size
        invariant 0 <= i <= size
        modifies newData
        invariant forall k :: 0 <= k < i ==> newData[k] == data[k]
      {
        newData[i] := data[i];
        i := i + 1;
      }
      newData[size] := s;
      assert newData[..] == data[..] + [s];
      data := newData;
      size := size + 1;
    }

    /** `clear`: drop the storage and become empty. */
    method Clear()
      modifies this
      ensures Valid() && fresh(data) && Contents() == []
    {
      data := new string[0];
      size := 0;
    }
  }
}
