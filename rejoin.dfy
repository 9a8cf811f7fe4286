/** Rejoining two slices that are adjacent in memory into one slice, without
    copying (the crate `rejoin_slice`, src/lib.rs).

    There is no address space here. All slices point into one shared memory:
    a `seq<T>` for reading, an `array<T>` where a rejoined `&mut [T]` is written
    through. A slice is a `View`: the offset of its first element and its length
    in elements. A pointer (`as_ptr`, `as_mut_ptr`) is an offset, and
    `core::ptr::eq` is equality of offsets. */
module RejoinSlice {
  import Utf8

  datatype Option<T> = None | Some(value: T) {
    /** `Option::map` */
    function Map<U>(f: T -> U): (r: Option<U>)
      ensures r.Some? <==> Some?
      ensures r.Some? ==> r.value == f(value)
    {
      match this
      case Some(v) => Some(f(v))
      case None => None
    }
  }

  /** A slice `&[T]` or `&mut [T]`: `len` elements starting at offset `start`. */
  datatype View = View(start: nat, len: nat) {
    /** The offset one past the last element. */
    function End(): (e: nat) {
      start + len
    }

    /** The view lies inside a memory of `n` elements, as every live slice does. */
    predicate ValidIn(n: nat) {
      End() <= n
    }

    /** Offset `i` is one of the view's elements. */
    predicate Covers(i: nat) {
      start <= i < End()
    }
  }

  /** The elements a view designates. */
  function Contents<T>(mem: seq<T>, v: View): (c: seq<T>)
    requires v.ValidIn(|mem|)
    ensures |c| == v.len
    ensures forall i :: 0 <= i < v.len ==> c[i] == mem[v.start + i]
  {
    mem[v.start..v.End()]
  }

  /** The memory offsets a view covers. */
  ghost function Footprint(v: View): (fp: set<nat>) {
    set i: nat | i < v.End() && v.Covers(i)
  }

  /** `s.as_ptr()` / `s.as_mut_ptr()`: where the slice starts. For an empty slice
      this is still an offset, but one that must not be read through. */
  function AsPtr(s: View): (p: nat)
    ensures p <= s.End() && (s.len > 0 ==> s.Covers(p))
    ensures forall i: nat :: s.Covers(i) ==> p <= i
    ensures s.len == 0 ==> p == s.End()
  {
    s.start
  }

  /** `s[k..]`: the subslice from element `k` to the end. Indexing past the end
      panics in Rust; the one use, `a[a.len()..]`, never does. */
  function SliceFrom(s: View, k: nat): (r: View)
    requires k <= s.len
    ensures r.End() == s.End() && r.len == s.len - k
  {
    View(s.start + k, s.len - k)
  }

  /** The tail subslice `a[a.len()..]` points at the end of `a`: the end
      pointer is obtained from safe slicing, with no pointer arithmetic. */
  lemma TailPointsAtEnd(a: View)
    ensures SliceFrom(a, a.len).len == 0
    ensures AsPtr(SliceFrom(a, a.len)) == a.End()
  {
  }

  /** `s.split_at(mid)`, the way a producer cuts one slice into two. */
  function SplitAt(s: View, mid: nat): (r: (View, View))
    requires mid <= s.len
    ensures r.0.start == s.start && r.0.len == mid
    ensures r.1.End() == s.End() && r.1.len == s.len - mid
  {
    (View(s.start, mid), View(s.start + mid, s.len - mid))
  }

  /** `a` is immediately followed in memory by `b`. */
  predicate Adjacent(a: View, b: View) {
    a.End() == b.start
  }

  /** `try_rejoin`: the end of `a` is found as the start of the empty tail
      subslice `a[a.len()..]` (no pointer arithmetic), compared by identity
      with the start of `b`, and on a match the view from `a`'s start over
      both lengths is built. Memory is never read. */
  function TryRejoin(a: View, b: View): (r: Option<View>)
    ensures r.Some? <==> Adjacent(a, b)
    ensures r.Some? ==> r.value.start == a.start && r.value.len == a.len + b.len
  {
    var aTail := SliceFrom(a, a.len);
    if AsPtr(aTail) == AsPtr(b) then Some(View(AsPtr(a), a.len + b.len)) else None
  }

  /** `rejoin`: `try_rejoin(a, b).expect(..)`. The `expect` panics on `None`,
      so a caller must pass adjacent slices. */
  method Rejoin(a: View, b: View) returns (r: View)
    requires TryRejoin(a, b).Some?
    ensures Some(r) == TryRejoin(a, b)
    ensures r.start == a.start && r.End() == b.End()
  {
    var joined := TryRejoin(a, b);
    r := joined.value;
  }

  /** `try_rejoin_mut`: the same test as `try_rejoin`, written against
      `as_mut_ptr`; the tail subslice is only used for its address, so nothing
      at the start of `b` is borrowed by it. */
  function TryRejoinMut(a: View, b: View): (r: Option<View>)
    ensures r == TryRejoin(a, b)
  {
    var aTail := SliceFrom(a, a.len);
    if AsPtr(aTail) == AsPtr(b) then Some(View(AsPtr(a), a.len + b.len)) else None
  }

  /** `rejoin_mut`: `try_rejoin_mut(a, b).expect(..)`. */
  method RejoinMut(a: View, b: View) returns (r: View)
    requires TryRejoinMut(a, b).Some?
    ensures Some(r) == TryRejoinMut(a, b)
    ensures r.start == a.start && r.End() == b.End()
  {
    var joined := TryRejoinMut(a, b);
    r := joined.value;
  }

  /** `v[i] = x` through a `&mut [T]` view of `buf`: element `i` of the view is
      element `v.start + i` of the buffer, and nothing else changes. Indexing
      past the view's end panics in Rust. */
  method Store<T>(buf: array<T>, v: View, i: nat, x: T)
    requires v.ValidIn(buf.Length) && i < v.len
    modifies buf
    ensures buf[..] == old(buf[..])[v.start + i := x]
    ensures Contents(buf[..], v) == Contents(old(buf[..]), v)[i := x]
  {
    buf[v.start + i] := x;
  }

  /** A `&str`: its bytes, which Rust keeps valid UTF-8. */
  datatype StrView = StrView(bytes: View)

  /** `s.as_bytes()` */
  function AsBytes(s: StrView): (v: View)
    ensures FromUtf8Unchecked(v) == s
  {
    s.bytes
  }

  /** `core::str::from_utf8_unchecked`: reinterprets bytes as a `str` without
      checking them; sound only where `IsStr` holds of the result. */
  function FromUtf8Unchecked(v: View): (s: StrView)
    ensures s.bytes == v
  {
    StrView(v)
  }

  /** `s` is a valid `&str` into `mem`: in bounds and valid UTF-8. */
  predicate IsStr(mem: seq<Utf8.byte>, s: StrView)
    ensures IsStr(mem, s) <==>
      && s.bytes.ValidIn(|mem|)
      && exists cs :: Utf8.AllChars(cs) && Utf8.Flatten(cs) == Contents(mem, s.bytes)
  {
    && s.bytes.ValidIn(|mem|)
    && (Utf8.WellFormedIff(Contents(mem, s.bytes)); Utf8.WellFormed(Contents(mem, s.bytes)))
  }

  /** `try_rejoin_str`: `try_rejoin` on the bytes, mapped through
      `from_utf8_unchecked`. */
  function TryRejoinStr(a: StrView, b: StrView): (r: Option<StrView>)
    ensures r.Some? <==> TryRejoin(a.bytes, b.bytes).Some?
    ensures r.Some? ==> r.value.bytes == View(a.bytes.start, a.bytes.len + b.bytes.len)
  {
    TryRejoin(AsBytes(a), AsBytes(b)).Map(FromUtf8Unchecked)
  }

  /** `rejoin_str`: `try_rejoin_str(a, b).expect(..)`. */
  method RejoinStr(a: StrView, b: StrView) returns (r: StrView)
    requires TryRejoinStr(a, b).Some?
    ensures Some(r) == TryRejoinStr(a, b)
    ensures r.bytes.start == a.bytes.start && r.bytes.End() == b.bytes.End()
  {
    var joined := TryRejoinStr(a, b);
    r := joined.value;
  }

  // ---------------------------------------------------------------------------
  // Properties of the model

  /** A successful join of two live slices is a live slice whose elements are
      those of `a` followed by those of `b`. */
  lemma TryRejoinContents<T>(mem: seq<T>, a: View, b: View)
    requires a.ValidIn(|mem|) && b.ValidIn(|mem|)
    ensures TryRejoin(a, b).Some? ==>
      var r := TryRejoin(a, b).value;
      && r.ValidIn(|mem|)
      && Contents(mem, r) == Contents(mem, a) + Contents(mem, b)
  {
    if TryRejoin(a, b).Some? {
      var r := TryRejoin(a, b).value;
      assert Contents(mem, r) == Contents(mem, a) + Contents(mem, b);
    }
  }

  /** Element `i` of the joined slice is `a[i]` for `i < a.len()` and
      `b[i - a.len()]` otherwise. */
  lemma TryRejoinIndex<T>(mem: seq<T>, a: View, b: View, i: nat)
    requires a.ValidIn(|mem|) && b.ValidIn(|mem|)
    requires TryRejoin(a, b).Some? && i < a.len + b.len
    ensures
      var c := Contents(mem, TryRejoin(a, b).value);
      c[i] == if i < a.len then Contents(mem, a)[i] else Contents(mem, b)[i - a.len]
  {
    TryRejoinContents(mem, a, b);
  }

  /** The join gives access to no new memory: it covers exactly what `a` and `b`
      covered, and those two were disjoint, so writable halves stay exclusive. */
  lemma TryRejoinFootprint(a: View, b: View)
    requires TryRejoin(a, b).Some?
    ensures Footprint(TryRejoin(a, b).value) == Footprint(a) + Footprint(b)
    ensures Footprint(a) * Footprint(b) == {}
  {
    var r := TryRejoin(a, b).value;
    forall i: nat
      ensures i in Footprint(r) <==> i in Footprint(a) + Footprint(b)
    {
      assert r.Covers(i) <==> a.Covers(i) || b.Covers(i);
    }
    forall i: nat | i in Footprint(a)
      ensures i !in Footprint(b)
    {
      assert a.Covers(i) && !b.Covers(i);
    }
  }

  /** A mutable slice that is disjoint from both halves is disjoint from their
      join: rejoining cannot create two writable views of the same element. */
  lemma TryRejoinMutExclusive(a: View, b: View, other: View)
    requires TryRejoinMut(a, b).Some?
    requires Footprint(other) * Footprint(a) == {} && Footprint(other) * Footprint(b) == {}
    ensures Footprint(other) * Footprint(TryRejoinMut(a, b).value) == {}
  {
    TryRejoinFootprint(a, b);
  }

  /** Writing element `i` of a rejoined `&mut [T]` changes the buffer at
      `a.start + i` only: seen through the original halves, it is element `i`
      of `a` or element `i - a.len` of `b`, and the other half is untouched. */
  lemma StoreThroughRejoined<T>(mem: seq<T>, a: View, b: View, i: nat, x: T)
    requires a.ValidIn(|mem|) && b.ValidIn(|mem|)
    requires TryRejoinMut(a, b).Some? && i < a.len + b.len
    ensures
      var r := TryRejoinMut(a, b).value;
      var mem' := mem[r.start + i := x];
      && r.ValidIn(|mem|)
      && Contents(mem', r) == Contents(mem, r)[i := x]
      && (i < a.len ==>
            Contents(mem', a) == Contents(mem, a)[i := x] && Contents(mem', b) == Contents(mem, b))
      && (a.len <= i ==>
            Contents(mem', a) == Contents(mem, a) && Contents(mem', b) == Contents(mem, b)[i - a.len := x])
  {
    var r := TryRejoinMut(a, b).value;
    var mem' := mem[r.start + i := x];
    TryRejoinContents(mem, a, b);
    TryRejoinContents(mem', a, b);
    assert Contents(mem', r) == Contents(mem, r)[i := x];
    if i < a.len {
      assert Contents(mem', a) == Contents(mem, a)[i := x];
      assert Contents(mem', b) == Contents(mem, b);
    } else {
      assert Contents(mem', a) == Contents(mem, a);
      assert Contents(mem', b) == Contents(mem, b)[i - a.len := x];
    }
  }

  /** Splitting any slice at any point and rejoining the halves gives back
      that slice, including the empty halves at `mid == 0` and `mid == len`. */
  lemma SplitRejoin(s: View, mid: nat)
    requires mid <= s.len
    ensures TryRejoin(SplitAt(s, mid).0, SplitAt(s, mid).1) == Some(s)
  {
  }

  /** The join succeeds exactly on the two halves of a split: `try_rejoin`
      inverts `split_at`. */
  lemma TryRejoinIffSplit(a: View, b: View)
    ensures TryRejoin(a, b).Some? <==>
      exists s: View, mid: nat :: mid <= s.len && SplitAt(s, mid) == (a, b)
  {
    if TryRejoin(a, b).Some? {
      var s := View(a.start, a.len + b.len);
      assert SplitAt(s, a.len) == (a, b);
    }
    if exists s: View, mid: nat :: mid <= s.len && SplitAt(s, mid) == (a, b) {
      var s: View, mid: nat :| mid <= s.len && SplitAt(s, mid) == (a, b);
      SplitRejoin(s, mid);
    }
  }

  /** The order matters: when `b` ends where `a` starts and they are not both
      empty, the join is refused. */
  lemma TryRejoinReversed(a: View, b: View)
    requires Adjacent(b, a) && a.len + b.len > 0
    ensures TryRejoin(a, b) == None
    ensures TryRejoin(b, a).Some?
  {
  }

  /** Gaps and overlaps are refused: any other start for `b` than `a`'s end. */
  lemma TryRejoinGapOrOverlap(a: View, b: View)
    requires !Adjacent(a, b)
    ensures TryRejoin(a, b) == None && TryRejoinMut(a, b) == None
    ensures TryRejoinStr(StrView(a), StrView(b)) == None
  {
  }

  /** In a buffer of seven elements, [0,3) and [4,7) leave a gap at 3. */
  lemma SevenElementGap()
    ensures TryRejoin(View(0, 3), View(4, 3)) == None
  {
  }

  /** [3,7) before [0,3) is the wrong order. */
  lemma SevenElementReversed()
    ensures TryRejoin(View(3, 4), View(0, 3)) == None
  {
  }

  /** [0,3) before [3,7) joins to the whole buffer [0,7). */
  lemma SevenElementJoined()
    ensures TryRejoin(View(0, 3), View(3, 4)) == Some(View(0, 7))
  {
  }

  /** Rejoining two valid `&str`s yields a valid `&str` whose bytes are the
      concatenation of theirs: this is why `from_utf8_unchecked` is sound in
      `try_rejoin_str`. */
  lemma TryRejoinStrValid(mem: seq<Utf8.byte>, a: StrView, b: StrView)
    requires IsStr(mem, a) && IsStr(mem, b)
    ensures TryRejoinStr(a, b).Some? ==>
      var r := TryRejoinStr(a, b).value;
      && IsStr(mem, r)
      && Contents(mem, r.bytes) == Contents(mem, a.bytes) + Contents(mem, b.bytes)
  {
    if TryRejoinStr(a, b).Some? {
      TryRejoinContents(mem, a.bytes, b.bytes);
      Utf8.ConcatWellFormed(Contents(mem, a.bytes), Contents(mem, b.bytes));
    }
  }

  /** A text cut into two valid `&str`s at a byte offset rejoins to the uncut
      text, and each half of a valid text that is cut after a valid first
      half is itself valid. */
  lemma SplitStrRejoin(mem: seq<Utf8.byte>, s: StrView, mid: nat)
    requires IsStr(mem, s) && mid <= s.bytes.len
    requires IsStr(mem, StrView(SplitAt(s.bytes, mid).0))
    ensures IsStr(mem, StrView(SplitAt(s.bytes, mid).1))
    ensures TryRejoinStr(StrView(SplitAt(s.bytes, mid).0), StrView(SplitAt(s.bytes, mid).1)) == Some(s)
  {
    var (a, b) := SplitAt(s.bytes, mid);
    assert Contents(mem, s.bytes) == Contents(mem, a) + Contents(mem, b);
    Utf8.SuffixWellFormed(Contents(mem, a), Contents(mem, b));
  }

  /** The bytes of "aaaaaaabbbbbbbcccccccddddeeeeeeefffggggggggh", the text of the
      example in the crate's documentation. */
  function StreakText(): (t: seq<Utf8.byte>)
    ensures |t| == 44
  {
    [0x61, 0x61, 0x61, 0x61, 0x61, 0x61, 0x61, 0x62, 0x62, 0x62, 0x62, 0x62, 0x62, 0x62, 0x63, 0x63, 0x63, 0x63, 0x63, 0x63, 0x63, 0x64, 0x64, 0x64, 0x64, 0x65, 0x65, 0x65, 0x65, 0x65, 0x65, 0x65, 0x66, 0x66, 0x66, 0x67, 0x67, 0x67, 0x67, 0x67, 0x67, 0x67, 0x67, 0x68]
  }

  /** That example: the text is cut into runs of equal characters, and the last
      two runs, "gggggggg" at [35,43) and "h" at [43,44), rejoin to "ggggggggh". */
  lemma StreakExample()
    ensures
      var g, h := StrView(View(35, 8)), StrView(View(43, 1));
      && IsStr(StreakText(), g) && IsStr(StreakText(), h)
      && TryRejoinStr(g, h) == Some(StrView(View(35, 9)))
      && Contents(StreakText(), View(35, 9)) == [0x67, 0x67, 0x67, 0x67, 0x67, 0x67, 0x67, 0x67, 0x68]
  {
    var mem := StreakText();
    var gh := Contents(mem, View(35, 9));
    assert gh == [0x67, 0x67, 0x67, 0x67, 0x67, 0x67, 0x67, 0x67, 0x68];
    assert Contents(mem, View(35, 8)) == gh[..8];
    assert Contents(mem, View(43, 1)) == gh[8..];
    Utf8.AsciiWellFormed(gh[..8]);
    Utf8.AsciiWellFormed(gh[8..]);
  }

  /** Multi-byte text: "é" (C3 A9) and "€" (E2 82 AC) side by side, cut between
      the two characters, rejoin to the valid five-byte text. */
  lemma MultiByteExample()
    ensures
      var mem: seq<Utf8.byte> := [0xC3, 0xA9, 0xE2, 0x82, 0xAC];
      var e, euro := StrView(View(0, 2)), StrView(View(2, 3));
      && IsStr(mem, e) && IsStr(mem, euro)
      && TryRejoinStr(e, euro) == Some(StrView(View(0, 5)))
      && IsStr(mem, StrView(View(0, 5)))
  {
    var mem: seq<Utf8.byte> := [0xC3, 0xA9, 0xE2, 0x82, 0xAC];
    Utf8.CharWellFormed(Contents(mem, View(0, 2)));
    Utf8.CharWellFormed(Contents(mem, View(2, 3)));
    TryRejoinStrValid(mem, StrView(View(0, 2)), StrView(View(2, 3)));
  }
}
