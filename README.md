# Str: a growable string of Unicode scalar values

This project models the Rust crate `string` (`src/lib.rs`). The crate has one type, `Str`, a growable, owned sequence of `char`s. A Rust `char` is a Unicode scalar value. `Str` wraps a `Vec<char>`, and every method except `insert_str` forwards to the vector. The crate also has:

- the conversions `From<&str>` and `From<String>`, which decode UTF-8 text into one element per scalar value;
- `Into<String>`, which encodes the elements back;
- `Default`;
- a consuming iterator, `StrIterator`.

The model has three modules:

- `Utf8` (`utf8.dfy`) is UTF-8 as RFC 3629 defines it, written as pure functions. `EncodeChar` is section 3 (one to four bytes per scalar value). `SeqWidth` and `WellFormed` are the byte-sequence table of section 4. `DecodeChar` and `Decode` are the inverse of the encoder, playing the part of `str::chars`. The lemmas prove the round trip in both directions, that encoding always yields well-formed text, that encoding distributes over concatenation, and that decoding yields exactly one value per lead byte. Dafny's `char` has the same set of values as Rust's `char`: the surrogates are excluded and the maximum is U+10FFFF.
- `CharSeq` (`charseq.dfy`) gives the positional vector operations `insert`, `remove` and `truncate` as functions on `seq<char>`. Each has a position-by-position contract, and the lemmas relate the operations to each other.
- `Strings` (`strings.dfy`) holds the class `Str`. Its buffer is an `array<char>` whose length is the capacity, and `len` counts the slots in use. `Valid()` is the invariant `len <= capacity`, and every method preserves it. Each mutating method states its new contents as an equation over the old contents. `insert` and `remove` are shifting loops, and a reallocation is a copying loop. `StrIterator` is the consuming iterator: a cursor over the buffer it takes over.

Two points about the code:

- `insert_str` (src/lib.rs:71-73) has an empty body and ignores its `_idx` and `_string` parameters, so it inserts nothing. The model reproduces this: `Strings.Str.InsertStr` changes nothing. This is most likely a defect, because the method's name promises a shifting insertion of the decoded text. That insertion is not in the code, so it is not modelled.
- The conversions take a Rust `&str` or `String`, which are valid UTF-8 by their type. No malformed-input error path exists. `FromText` therefore requires well-formed text instead of returning an error.

## Model

| member | source | states |
|---|---|---|
| Utf8.SeqWidth | src/lib.rs:127 | the width of the well-formed character sequence at the head of the text is at most 4; its first byte is a lead byte and the rest are continuation bytes |
| Utf8.EncodeChar | src/lib.rs:142 | one scalar value becomes `Width(c)` bytes (1 below U+0080, 2 below U+0800, 3 below U+10000, else 4), forming exactly one well-formed character sequence |
| Utf8.DecodeChar | src/lib.rs:127 | one well-formed character sequence decodes to a scalar value whose encoded width is the length of that sequence |
| Utf8.DecodeEncodeChar | src/lib.rs:142 | decoding the bytes `encode_utf8` produces gives back the same scalar value |
| Utf8.EncodeDecodeChar | src/lib.rs:127 | every well-formed character sequence is exactly the encoding of the value it decodes to |
| Utf8.Encode | src/lib.rs:140-144 | `Into<String>` emits between one and four bytes per element |
| Utf8.Decode | src/lib.rs:124-138 | `chars()` yields at most one scalar value per byte of well-formed text |
| Utf8.EncodeWellFormed | src/lib.rs:140-144 | the encoded elements always form well-formed UTF-8 |
| Utf8.DecodeEncode | src/lib.rs:124-144 | decoding the encoding of any sequence of scalar values gives the sequence back |
| Utf8.EncodeDecode | src/lib.rs:124-144 | for all well-formed text, `Into<String>` after `From<&str>` gives exactly the original bytes |
| Utf8.EncodeAppend | src/lib.rs:142 | the encoding of a concatenation is the concatenation of the encodings, element by element in order |
| Utf8.DecodeLength | src/lib.rs:127 | decoding yields one element per scalar value: as many as the text has bytes that are not continuation bytes |
| CharSeq.Inserted | src/lib.rs:67-69 | insertion at `idx <= len` grows the sequence by one, puts the character at `idx`, keeps the elements before it and shifts the rest one place right |
| CharSeq.Removed | src/lib.rs:63-65 | removal at `idx < len` shrinks the sequence by one, keeps the elements before `idx` and shifts the rest one place left |
| CharSeq.Truncated | src/lib.rs:55-57 | truncation keeps a prefix of length `min(new_len, len)`: a no-op when `new_len >= len`, never longer |
| CharSeq.RemoveInserted | src/lib.rs:63-69 | `remove(i)` after `insert(i, c)` returns `c` and restores the original sequence |
| CharSeq.InsertRemoved | src/lib.rs:63-69 | re-inserting a removed element at its position restores the original sequence |
| CharSeq.TruncateTwice | src/lib.rs:55-57 | two truncations keep the shorter prefix |
| Strings.Str.constructor | src/lib.rs:8-12 | `new` gives no elements and capacity 0 |
| Strings.Str.WithCapacity | src/lib.rs:14-18 | `with_capacity(n)` gives no elements and capacity at least `n` |
| Strings.Str.FromSlice | src/lib.rs:94 | `to_vec` gives a new string, with its own fresh buffer, holding exactly the given elements |
| Strings.Str.Capacity | src/lib.rs:20-22 | the capacity is never below the number of elements |
| Strings.Str.Len | src/lib.rs:75-77 | the length is the number of elements and at most the capacity |
| Strings.Str.IsEmpty | src/lib.rs:79-81 | true exactly when there are no elements |
| Strings.Str.Reserve | src/lib.rs:24-26 | elements unchanged; capacity at least `len + additional`, never smaller than before; the buffer is untouched when room already sufficed, otherwise it is a fresh one owned by this string alone |
| Strings.Str.ReserveExact | src/lib.rs:28-30 | elements unchanged; capacity at least `len + additional`; the buffer is untouched when room already sufficed, otherwise a fresh buffer of exactly `len + additional` slots |
| Strings.Str.ShrinkToFit | src/lib.rs:32-34 | elements unchanged; the capacity stays between the length and the old capacity; the buffer is the old one or a fresh one |
| Strings.Str.Push | src/lib.rs:36-38 | the new contents are the old ones followed by `ch`; no reallocation while there is spare capacity; capacity never shrinks |
| Strings.Str.Truncate | src/lib.rs:55-57 | the new contents are the old ones truncated to `new_len`; the buffer and capacity are kept; no precondition, so it never faults |
| Strings.Str.Pop | src/lib.rs:59-61 | `None` exactly when empty, and then nothing changes; otherwise the old contents are the new ones followed by the returned element; the buffer is kept |
| Strings.Str.Remove | src/lib.rs:63-65 | requires `idx < len`; returns the element at `idx` and leaves the others in order |
| Strings.Str.Insert | src/lib.rs:67-69 | requires `idx <= len`; the new contents are the old ones with `ch` inserted at `idx`; no reallocation while there is spare capacity |
| Strings.Str.InsertStr | src/lib.rs:71-73 | as written, nothing changes |
| Strings.Str.SplitOff | src/lib.rs:83-89 | requires `at <= len`; this string keeps the elements before `at` and its buffer; a new independent string gets the rest; together they form the original |
| Strings.Str.SplitAt | src/lib.rs:91-95 | requires `mid <= len`; this string is unchanged; two new strings with distinct fresh buffers hold copies of the elements before and from `mid` |
| Strings.Str.Clear | src/lib.rs:115-117 | no elements left; the buffer and so the capacity are kept |
| Strings.Str.IntoIter | src/lib.rs:153-162 | the iterator's remaining elements are the string's elements in order |
| Strings.Str.Iter | src/lib.rs:119-121 | the same as `into_iter` |
| Strings.Str.IntoString | src/lib.rs:140-144 | the text is the UTF-8 encoding of the elements in order, and it is well-formed |
| Strings.Str.FromText | src/lib.rs:124-138 | the elements are the decoded scalar values of the text, one per character, in order |
| Strings.Str.Default | src/lib.rs:146-151 | the same as `new`: no elements, capacity 0 |
| Strings.StrIterator.constructor | src/lib.rs:157-161 | the iterator takes over the buffer, with all elements remaining |
| Strings.StrIterator.Next | src/lib.rs:168-173 | returns `None` exactly when nothing remains, and nothing remains afterwards; otherwise returns the first remaining element and drops it from the remaining ones |
| Strings.TextRoundTrip | src/lib.rs:124-144 | `Str::from(t)` followed by `Into<String>` gives back exactly `t` |
| Strings.PushThenPop | src/lib.rs:36-61 | `pop` right after `push(c)` returns `Some(c)` and restores the previous contents |
| Strings.InsertThenRemove | src/lib.rs:63-69 | `remove(i)` right after `insert(i, c)` returns `c` and restores the previous contents |

## Left out

- Vec's growth policy. When `Reserve` grows the buffer, and so when `Push` or `Insert` finds it full, the model grows it to the largest of twice the capacity, `len + additional` and 4 slots. This is one admissible policy, and the contracts promise only what the vector documents: room for the requested elements, and no reallocation while room suffices.
- Strings.Str.ShrinkToFit: does not state that the capacity becomes equal to the length, because the vector promises only that the capacity stays at least the length.
- The panics of `remove`, `insert`, `split_off` and `split_at` on an out-of-range index (src/lib.rs:63-69, 83-95). The model states them as preconditions (`idx < len`, `idx <= len`, `at <= len`, `mid <= len`), so an out-of-range call is not a behaviour of the model but a caller error it rules out.
- Allocation failure and the capacity-overflow panic of `reserve`. These belong to the allocator, and the model's integers are unbounded, so `usize` limits are not modelled.
- Strings.Str.SplitOff: the vector hands its whole buffer to the returned vector when `at == 0`. The model always copies the tail. The elements are the same either way; only which buffer each side ends up with differs.
- Rust ownership: `iter(self)` and `Into<String>` consume the string. In the model the iterator shares the string's buffer, so a later mutation of the string would show through. Rust rules this out by the move.
- `Into<String>` goes through a temporary `String` per element. The model writes it as a plain concatenation of the encoded bytes, which has the same result.
- The intended shifting behaviour of `insert_str`. It is not in the code (see above).
- The commented-out `as_bytes`, `from_mut_char` and `split_at_mut`, and the `get`/`get_mut` stub comments. None of them exists in the compiled code.
- The `Clone` and `Debug` derives, and the empty test module.
