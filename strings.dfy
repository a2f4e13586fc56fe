/**
 * `Str`: a growable, owned sequence of Unicode scalar values, kept in a
 * vector of `char`s, and `StrIterator`, the consuming iterator over it.
 *
 * The vector is modelled as its buffer: an array whose length is the
 * capacity, of which the first `len` slots hold the elements.
 */
module Strings {
  import Utf8
  import CharSeq

  datatype Option<T> = None | Some(value: T)

  class Str {
    var data: array<char>
    var len: nat

    /** The vector's invariant: the elements fit in the buffer. */
    ghost predicate Valid()
      reads this
    {
      len <= data.Length
    }

    /** The elements, in order. */
    ghost function Contents(): seq<char>
      reads this, data
      requires Valid()
    {
      data[..len]
    }

    /** `Str::new`: no elements and no buffer allocated yet. */
    constructor ()
      ensures Valid() && fresh(data)
      ensures Contents() == [] && Capacity() == 0
    {
      data := new char[0];
      len := 0;
    }

    /** `Str::with_capacity`: no elements, room for at least `capacity` of them. */
    constructor WithCapacity(capacity: nat)
      ensures Valid() && fresh(data)
      ensures Contents() == [] && Capacity() >= capacity
    {
      data := new char[capacity];
      len := 0;
    }

    /** `<[char]>::to_vec`: a new string owning a copy of `s`. */
    constructor FromSlice(s: seq<char>)
      ensures Valid() && fresh(data)
      ensures Contents() == s && Capacity() == |s|
    {
      data := new char[|s|](i requires 0 <= i < |s| => s[i]);
      len := |s|;
    }

    /** `Str::capacity`: the number of elements the buffer holds without reallocating. */
    function Capacity(): (n: nat)
      reads this, data
      requires Valid()
      ensures |Contents()| <= n
    {
      data.Length
    }

    /** `Str::len`. */
    function Len(): (n: nat)
      reads this, data
      requires Valid()
      ensures n == |Contents()| && n <= Capacity()
    {
      len
    }

    /** `Str::is_empty`. */
    function IsEmpty(): (b: bool)
      reads this, data
      requires Valid()
      ensures b <==> Contents() == []
    {
      len == 0
    }

    /** Moves the elements into a fresh buffer of `newCap` slots, as a reallocation does. */
    method Reallocate(newCap: nat)
      requires Valid() && len <= newCap
      modifies this
      ensures Valid() && fresh(data) && data.Length == newCap
      ensures len == old(len) && Contents() == old(Contents())
    {
      var buf := new char[newCap];
      var i := 0;
      while i < len
        invariant i <= len
        invariant buf[..i] == data[..i]
        modifies buf
      {
        buf[i] := data[i];
        i := i + 1;
      }
      data := buf;
    }

    /**
     * `Str::reserve`: afterwards there is room for `additional` more
     * elements; nothing happens when there already is. When it grows, this
     * model takes the largest of twice the capacity, `len + additional` and
     * 4 slots, one policy among those the contract allows.
     */
    method Reserve(additional: nat)
      requires Valid()
      modifies this
      ensures Valid() && Contents() == old(Contents())
      ensures Capacity() >= |Contents()| + additional
      ensures old(Capacity()) >= old(len) + additional ==> data == old(data)
      ensures data == old(data) || fresh(data)
      ensures Capacity() >= old(Capacity())
    {
      if data.Length - len < additional {
        var required := len + additional;
        var doubled := 2 * data.Length;
        var newCap := if doubled < required then required else doubled;
        Reallocate(if newCap < 4 then 4 else newCap);
      }
    }

    /** `Str::reserve_exact`: as `Reserve`, growing to exactly the room asked for. */
    method ReserveExact(additional: nat)
      requires Valid()
      modifies this
      ensures Valid() && Contents() == old(Contents())
      ensures Capacity() >= |Contents()| + additional
      ensures old(Capacity()) >= old(len) + additional ==> data == old(data)
      ensures old(Capacity()) < old(len) + additional ==> Capacity() == |Contents()| + additional
      ensures data == old(data) || fresh(data)
    {
      if data.Length - len < additional {
        Reallocate(len + additional);
      }
    }

    /** `Str::shrink_to_fit`: drops unused room; the elements stay as they are. */
    method ShrinkToFit()
      requires Valid()
      modifies this
      ensures Valid() && Contents() == old(Contents())
      ensures |Contents()| <= Capacity() <= old(Capacity())
      ensures data == old(data) || fresh(data)
    {
      if len < data.Length {
        Reallocate(len);
      }
    }

    /** `Str::push`: appends `ch`; the buffer is reallocated only when it is full. */
    method Push(ch: char)
      requires Valid()
      modifies this, data
      ensures Valid() && Contents() == old(Contents()) + [ch]
      ensures old(len) < old(Capacity()) ==> data == old(data)
      ensures data == old(data) || fresh(data)
      ensures Capacity() >= old(Capacity())
    {
      if len == data.Length {
        Reserve(1);
      }
      data[len] := ch;
      len := len + 1;
    }

    /** `Str::truncate`: keeps the first `newLen` elements; never grows, never reallocates. */
    method Truncate(newLen: nat)
      requires Valid()
      modifies this
      ensures Valid() && data == old(data)
      ensures Contents() == CharSeq.Truncated(old(Contents()), newLen)
    {
      if newLen < len {
        len := newLen;
      }
    }

    /** `Str::pop`: removes and returns the last element, or `None` when there is none. */
    method Pop() returns (r: Option<char>)
      requires Valid()
      modifies this
      ensures Valid() && data == old(data)
      ensures r.None? <==> old(Contents()) == []
      ensures r.None? ==> Contents() == old(Contents())
      ensures r.Some? ==> old(Contents()) == Contents() + [r.value]
    {
      if len == 0 {
        r := None;
      } else {
        len := len - 1;
        r := Some(data[len]);
        assert old(Contents()) == data[..len] + [data[len]];
      }
    }

    /** `Str::remove`: removes and returns the element at `idx`, shifting the rest left. */
    method Remove(idx: nat) returns (ch: char)
      requires Valid() && idx < len
      modifies this, data
      ensures Valid() && data == old(data)
      ensures ch == old(Contents())[idx]
      ensures Contents() == CharSeq.Removed(old(Contents()), idx)
    {
      ch := data[idx];
      var i := idx;
      while i + 1 < len
        invariant idx <= i < len
        invariant forall k :: 0 <= k < idx ==> data[k] == old(data[k])
        invariant forall k :: idx <= k < i ==> data[k] == old(data[k + 1])
        invariant forall k :: i < k < len ==> data[k] == old(data[k])
        modifies data
      {
        data[i] := data[i + 1];
        i := i + 1;
      }
      len := len - 1;
      assert forall k :: 0 <= k < len ==> Contents()[k] == CharSeq.Removed(old(Contents()), idx)[k];
    }

    /** `Str::insert`: puts `ch` at `idx`, shifting the elements from `idx` on right. */
    method Insert(idx: nat, ch: char)
      requires Valid() && idx <= len
      modifies this, data
      ensures Valid() && Contents() == CharSeq.Inserted(old(Contents()), idx, ch)
      ensures old(len) < old(Capacity()) ==> data == old(data)
      ensures data == old(data) || fresh(data)
      ensures Capacity() >= old(Capacity())
    {
      if len == data.Length {
        Reserve(1);
      }
      ghost var s := Contents();
      var j := len;
      while j > idx
        invariant idx <= j <= len < data.Length
        invariant forall k :: 0 <= k < j ==> data[k] == s[k]
        invariant forall k :: j < k <= len ==> data[k] == s[k - 1]
        modifies data
      {
        data[j] := data[j - 1];
        j := j - 1;
      }
      data[idx] := ch;
      len := len + 1;
      assert forall k :: 0 <= k < len ==> Contents()[k] == CharSeq.Inserted(s, idx, ch)[k];
    }

    /** `Str::insert_str` as written: its body is empty, so nothing changes. */
    method InsertStr(idx: nat, text: seq<Utf8.byte>)
      requires Valid() && Utf8.WellFormed(text)
      ensures Valid() && Contents() == old(Contents())
    {
    }

    /**
     * `Str::split_off`: the elements from `at` on move to a new string;
     * this one keeps the elements before `at` and its buffer.
     */
    method SplitOff(at: nat) returns (other: Str)
      requires Valid() && at <= len
      modifies this
      ensures Valid() && data == old(data)
      ensures fresh(other) && fresh(other.data) && other.Valid()
      ensures Contents() == old(Contents())[..at]
      ensures other.Contents() == old(Contents())[at..]
      ensures Contents() + other.Contents() == old(Contents())
    {
      other := new Str.FromSlice(data[at..len]);
      len := at;
      assert old(Contents()) == data[..at] + data[at..old(len)];
    }

    /**
     * `Str::split_at`: two new, independent strings holding copies of the
     * elements before and from `mid`; this one is left as it is.
     */
    method SplitAt(mid: nat) returns (left: Str, right: Str)
      requires Valid() && mid <= len
      ensures fresh(left) && fresh(left.data) && fresh(right) && fresh(right.data)
      ensures left.data != right.data
      ensures left.Valid() && right.Valid()
      ensures left.Contents() == Contents()[..mid]
      ensures right.Contents() == Contents()[mid..]
    {
      left := new Str.FromSlice(data[..mid]);
      right := new Str.FromSlice(data[mid..len]);
    }

    /** `Str::clear`: no elements left; the buffer is kept. */
    method Clear()
      requires Valid()
      modifies this
      ensures Valid() && data == old(data)
      ensures Contents() == []
    {
      len := 0;
    }

    /** `IntoIterator::into_iter`: an iterator that takes over the buffer. */
    method IntoIter() returns (it: StrIterator)
      requires Valid()
      ensures fresh(it) && it.Valid()
      ensures it.Remaining() == Contents()
    {
      it := new StrIterator(data, len);
    }

    /** `Str::iter`: the same consuming iterator. */
    method Iter() returns (it: StrIterator)
      requires Valid()
      ensures fresh(it) && it.Valid()
      ensures it.Remaining() == Contents()
    {
      it := IntoIter();
    }

    /**
     * `Into<String>`: every element encoded as UTF-8, in order; the result
     * is well-formed text.
     */
    method IntoString() returns (text: seq<Utf8.byte>)
      requires Valid()
      ensures text == Utf8.Encode(Contents())
      ensures Utf8.WellFormed(text)
    {
      text := [];
      var i := 0;
      while i < len
        invariant i <= len
        invariant text == Utf8.Encode(data[..i])
      {
        assert data[..i + 1] == data[..i] + [data[i]];
        Utf8.EncodeAppend(data[..i], [data[i]]);
        text := text + Utf8.EncodeChar(data[i]);
        i := i + 1;
      }
      assert data[..len] == Contents();
      Utf8.EncodeWellFormed(Contents());
    }

    /** `From<&str>` and `From<String>`: one element per scalar value of `text`, in order. */
    static method FromText(text: seq<Utf8.byte>) returns (s: Str)
      requires Utf8.WellFormed(text)
      ensures fresh(s) && fresh(s.data) && s.Valid()
      ensures s.Contents() == Utf8.Decode(text)
    {
      s := new Str.FromSlice(Utf8.Decode(text));
    }

    /** `Default`: the same as `Str::new`. */
    static method Default() returns (s: Str)
      ensures fresh(s) && fresh(s.data) && s.Valid()
      ensures s.Contents() == [] && s.Capacity() == 0
    {
      s := new Str();
    }
  }

  /** The consuming iterator: the buffer taken over from a `Str` and a cursor into it. */
  class StrIterator {
    const buf: array<char>
    const end: nat
    var pos: nat

    ghost predicate Valid()
      reads this
    {
      pos <= end <= buf.Length
    }

    /** The elements still to be yielded, in order. */
    ghost function Remaining(): seq<char>
      reads this, buf
      requires Valid()
    {
      buf[pos..end]
    }

    constructor (buf: array<char>, end: nat)
      requires end <= buf.Length
      ensures Valid() && this.buf == buf
      ensures Remaining() == buf[..end]
    {
      this.buf := buf;
      this.end := end;
      pos := 0;
    }

    /** `Iterator::next`: the first remaining element, or `None` once all have been yielded. */
    method Next() returns (r: Option<char>)
      requires Valid()
      modifies this
      ensures Valid()
      ensures r.None? <==> old(Remaining()) == []
      ensures r.None? ==> Remaining() == []
      ensures r.Some? ==> old(Remaining()) == [r.value] + Remaining()
    {
      if pos < end {
        assert Remaining() == [buf[pos]] + buf[pos + 1..end];
        r := Some(buf[pos]);
        pos := pos + 1;
      } else {
        r := None;
      }
    }
  }

  /** `Str::from(text)` followed by `Into<String>` gives back exactly `text`. */
  method TextRoundTrip(text: seq<Utf8.byte>) returns (back: seq<Utf8.byte>)
    requires Utf8.WellFormed(text)
    ensures back == text
  {
    var s := Str.FromText(text);
    back := s.IntoString();
    Utf8.EncodeDecode(text);
  }

  /** `pop` right after `push(c)` returns `c` and restores the previous elements. */
  method PushThenPop(s: Str, c: char) returns (r: Option<char>)
    requires s.Valid()
    modifies s, s.data
    ensures s.Valid() && r == Some(c) && s.Contents() == old(s.Contents())
  {
    s.Push(c);
    r := s.Pop();
  }

  /** `remove(i)` right after `insert(i, c)` returns `c` and restores the previous elements. */
  method InsertThenRemove(s: Str, i: nat, c: char) returns (r: char)
    requires s.Valid() && i <= s.len
    modifies s, s.data
    ensures s.Valid() && r == c && s.Contents() == old(s.Contents())
  {
    s.Insert(i, c);
    CharSeq.RemoveInserted(old(s.Contents()), i, c);
    r := s.Remove(i);
  }
}
