/**
 * The positional operations of a growable vector, stated on the sequence
 * of elements it holds. The methods of `Strings.Str` are specified by
 * these functions; the lemmas relate them to each other.
 */
module CharSeq {

  /** `Vec::insert`: `c` lands at position `i`, the elements from `i` on move one place right. */
  function Inserted(s: seq<char>, i: nat, c: char): (r: seq<char>)
    requires i <= |s|
    ensures |r| == |s| + 1 && r[i] == c
    ensures forall k :: 0 <= k < i ==> r[k] == s[k]
    ensures forall k :: i < k < |r| ==> r[k] == s[k - 1]
  {
    s[..i] + [c] + s[i..]
  }

  /** `Vec::remove`: the element at `i` leaves, the elements after it move one place left. */
  function Removed(s: seq<char>, i: nat): (r: seq<char>)
    requires i < |s|
    ensures |r| == |s| - 1
    ensures forall k :: 0 <= k < i ==> r[k] == s[k]
    ensures forall k :: i <= k < |r| ==> r[k] == s[k + 1]
  {
    s[..i] + s[i + 1..]
  }

  /** `Vec::truncate`: keeps the first `n` elements, or all of them when there are fewer. */
  function Truncated(s: seq<char>, n: nat): (r: seq<char>)
    ensures r <= s
    ensures |r| == if n < |s| then n else |s|
  {
    if n < |s| then s[..n] else s
  }

  /** Removing at the position just inserted at gives back the original sequence. */
  lemma RemoveInserted(s: seq<char>, i: nat, c: char)
    requires i <= |s|
    ensures Inserted(s, i, c)[i] == c
    ensures Removed(Inserted(s, i, c), i) == s
  {
  }

  /** Re-inserting a removed element where it was gives back the original sequence. */
  lemma InsertRemoved(s: seq<char>, i: nat)
    requires i < |s|
    ensures Inserted(Removed(s, i), i, s[i]) == s
  {
  }

  /** Truncating twice keeps the shorter of the two prefixes. */
  lemma TruncateTwice(s: seq<char>, m: nat, n: nat)
    ensures Truncated(Truncated(s, m), n) == Truncated(s, if m < n then m else n)
  {
  }
}
