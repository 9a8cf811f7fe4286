# rejoin_slice in Dafny

A model of the Rust crate `rejoin_slice`. The crate joins two slices that sit next to each other in memory back into one slice, without copying. It has six public functions in three pairs: `&[T]`, `&mut [T]` and `&str`. In each pair the `try_` form returns `Option` and the other form panics through `expect`.

The model has no address space. Every slice points into one shared memory: a `seq<T>` when reading, an `array<T>` when a rejoined `&mut [T]` is written through.

- A slice is a `View(start, len)`: the offset of its first element and its length in elements.
- `as_ptr` / `as_mut_ptr` give `start`.
- `core::ptr::eq` is equality of offsets.
- The tail subslice `a[a.len()..]` is `SliceFrom(a, a.len)`: an empty view that starts at the end of `a`.
- A `&str` is a `StrView` over bytes. `IsStr` is Rust's `str` invariant: the bytes are in bounds and are valid UTF-8 by the grammar of section 4 of RFC 3629 (module `Utf8`).

The `try_` functions take views only and never read memory. This matches the crate: its adjacency test is an address comparison. Facts about the elements are lemmas that take the memory as a parameter.

Each panicking form is a method. Its precondition is that the matching `try_` form returns `Some`, which is exactly when `expect` does not panic. Its postcondition is that it returns that `Some` value.

Files:
- `rejoin.dfy`: module `RejoinSlice` (src/lib.rs).
- `utf8.dfy`: module `Utf8`, the UTF-8 well-formedness that `from_utf8_unchecked` relies on.

## Model

| member | source | states |
|---|---|---|
| RejoinSlice.TryRejoin | src/lib.rs:69-77 | the result is `Some` exactly when `a`'s end (the start of its empty tail subslice) equals `b`'s start; on success the view starts at `a`'s start and spans `a.len + b.len` elements |
| RejoinSlice.SliceFrom | src/lib.rs:71 | `s[k..]` (for `k <= len`) ends where `s` ends and has `len - k` elements, so `a[a.len()..]` is empty and starts at `a`'s end |
| RejoinSlice.AsPtr | src/lib.rs:71-72 | `as_ptr` / `as_mut_ptr` give the lowest offset the slice covers, which is its first element when it is not empty; for an empty slice it is the slice's end |
| RejoinSlice.TailPointsAtEnd | src/lib.rs:31-32 | the tail subslice `a[a.len()..]` is empty and its pointer is the end of `a`, obtained by safe slicing without pointer arithmetic |
| RejoinSlice.SplitAt | src/lib.rs:2-3 | the producer's cut of one slice into two: the first half keeps the start and has `mid` elements, and the second ends where the slice ends and holds the rest |
| RejoinSlice.Rejoin | src/lib.rs:46-48 | callable exactly when `try_rejoin` returns `Some` (otherwise `expect` panics); returns that `Some` value, which runs from `a`'s start to `b`'s end |
| RejoinSlice.TryRejoinMut | src/lib.rs:82-90 | the mutable join uses the same address test and builds the same view as `try_rejoin` |
| RejoinSlice.RejoinMut | src/lib.rs:54-56 | callable exactly when `try_rejoin_mut` returns `Some`; returns that value |
| RejoinSlice.Store | src/lib.rs:86 | writing element `i` of a writable view of a buffer changes the buffer at `start + i` and nowhere else; the view's contents change at `i` only |
| RejoinSlice.AsBytes | src/lib.rs:95 | `as_bytes` gives the byte view of a `&str`, and reinterpreting that view as a `str` returns the same `&str` |
| RejoinSlice.FromUtf8Unchecked | src/lib.rs:95 | `from_utf8_unchecked` reinterprets a byte view as a `str` without reading or checking it: the `str`'s bytes are that view |
| RejoinSlice.IsStr | src/lib.rs:94-95 | the `&str` invariant: the byte view is in bounds, and its bytes are the concatenation of some sequence of UTF8-chars |
| RejoinSlice.TryRejoinStr | src/lib.rs:94-96 | succeeds exactly when the byte-level `try_rejoin` succeeds; the resulting `str` has the joined byte view |
| RejoinSlice.RejoinStr | src/lib.rs:62-64 | callable exactly when `try_rejoin_str` returns `Some`; returns that value |
| RejoinSlice.Option.Map | src/lib.rs:95 | `Option::map` keeps `None` as `None` and applies the function to a `Some` value |
| RejoinSlice.TryRejoinContents | src/lib.rs:73 | a successful join of two in-bounds slices is in bounds, and its elements are `a`'s followed by `b`'s |
| RejoinSlice.TryRejoinIndex | src/lib.rs:1-3 | element `i` of the joined slice is `a[i]` for `i < a.len()` and `b[i - a.len()]` otherwise |
| RejoinSlice.TryRejoinFootprint | src/lib.rs:37-38 | the joined view covers exactly the offsets of `a` and `b`, so no new memory is reached; `a` and `b` themselves are disjoint |
| RejoinSlice.TryRejoinMutExclusive | src/lib.rs:82-90 | a view disjoint from both mutable halves is disjoint from their join, so rejoining creates no second writable view of any element |
| RejoinSlice.StoreThroughRejoined | src/lib.rs:86 | a write at index `i` of the rejoined view is a write at `a.start + i`; seen through the halves, it changes `a[i]` when `i < a.len` and `b[i - a.len]` otherwise, and the other half is unchanged |
| RejoinSlice.SplitRejoin | src/lib.rs:2-3 | cutting a slice at any point `0 <= mid <= len` and rejoining the two halves returns the original slice |
| RejoinSlice.TryRejoinIffSplit | src/lib.rs:69-77 | `try_rejoin(a, b)` succeeds exactly when `(a, b)` are the two halves some slice splits into |
| RejoinSlice.TryRejoinReversed | src/lib.rs:72-75 | when `b` ends where `a` starts and they are not both empty, `try_rejoin(a, b)` is `None` and `try_rejoin(b, a)` succeeds |
| RejoinSlice.TryRejoinGapOrOverlap | src/lib.rs:72-75 | a gap or an overlap between `a`'s end and `b`'s start makes all three `try_` forms return `None` |
| RejoinSlice.SevenElementGap | src/lib.rs:72-75 | in a seven-element buffer, [0,3) and [4,7) do not join |
| RejoinSlice.SevenElementReversed | src/lib.rs:72-75 | [3,7) followed by [0,3) does not join |
| RejoinSlice.SevenElementJoined | src/lib.rs:72-75 | [0,3) followed by [3,7) joins to [0,7) |
| RejoinSlice.TryRejoinStrValid | src/lib.rs:95 | rejoining two valid `&str`s gives a valid `&str` whose bytes are theirs concatenated: the obligation behind `from_utf8_unchecked` |
| RejoinSlice.SplitStrRejoin | src/lib.rs:94-95 | when a valid text is cut after a valid first part, the second part is valid too, and rejoining the parts gives back the text |
| RejoinSlice.StreakExample | src/lib.rs:23-25 | in the documentation's text, the runs "gggggggg" and "h" are valid `&str`s and rejoin to "ggggggggh" |
| RejoinSlice.MultiByteExample | src/lib.rs:94-95 | "é" (two bytes) and "€" (three bytes), cut between the characters, rejoin to a valid five-byte text |
| Utf8.IsChar | src/lib.rs:95 | one UTF8-char of section 4 of RFC 3629: one to four bytes, a lead byte that is not a continuation byte, then only continuation bytes (UTF8-tail) |
| Utf8.WellFormed | src/lib.rs:95 | UTF8-octets of section 4 of RFC 3629, Rust's `str` invariant: the empty string is valid, and a valid non-empty string starts with a complete UTF8-char, never with a continuation byte |
| Utf8.CharWidth | src/lib.rs:95 | the width of the UTF8-char a byte string starts with: the shortest prefix that is a UTF8-char, or 0 when no prefix is one |
| Utf8.Chars | src/lib.rs:95 | a well-formed byte string is the concatenation of a sequence of UTF8-chars |
| Utf8.CharWidthPrefix | src/lib.rs:95 | appending bytes does not change where the first character ends |
| Utf8.CharWellFormed | src/lib.rs:95 | a single UTF8-char is read as exactly one character and is well-formed |
| Utf8.ConcatWellFormed | src/lib.rs:95 | the concatenation of two well-formed UTF-8 strings is well-formed |
| Utf8.SuffixWellFormed | src/lib.rs:2-3 | what is left after a well-formed prefix of a well-formed string is well-formed |
| Utf8.FlattenWellFormed | src/lib.rs:95 | any concatenation of UTF8-chars is well-formed |
| Utf8.WellFormedIff | src/lib.rs:95 | the recogniser agrees with the grammar `UTF8-octets = *( UTF8-char )` in both directions |
| Utf8.AsciiWellFormed | src/lib.rs:23-25 | bytes below 0x80 form well-formed UTF-8 |

## Left out

- Lifetimes (`'r`, `'a: 'r`, `'b: 'r`): borrow-checker bookkeeping with no run-time behaviour.
- The exclusivity of `&mut` borrows, and `rejoin_mut` consuming `a` and `b`: the Rust compiler enforces these. The model states only the footprint facts behind them (`TryRejoinFootprint`, `TryRejoinMutExclusive`).
- Pointer provenance: in Rust, two slices from unrelated allocations that happen to be contiguous would also be joined. The model has one shared memory, so this case cannot arise.
- Zero-sized element types: the model counts offsets in elements. For a zero-sized `T`, slices usually share one dangling address, so Rust joins any two of them, even reversed or with a gap. For such `T`, `TryRejoinReversed`, `TryRejoinGapOrOverlap` and the `SevenElement*` lemmas do not hold, and `a.len() + b.len()` can go past `usize::MAX`, which the model's unbounded `nat` lengths do not capture.
- The internals of `core::slice::from_raw_parts`, `from_raw_parts_mut` and `core::str::from_utf8_unchecked` are not modelled: they are foreign unsafe calls. Only the view they return is modelled.
- The panic message passed to `expect`: text output only. A panic is modelled as the panicking method's precondition.
- `split_by_streak` (src/lib.rs:7-21) is documentation scaffolding, not library code. It appears only as the concrete `StreakExample`, with the runs it produces written out as offsets.
- Concurrency: the crate has none, and every operation is a pure function of its inputs. Calling a `try_` form twice on the same inputs therefore gives the same result both times.
