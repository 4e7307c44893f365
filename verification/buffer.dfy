/**
 The non-owning slicing view: a `[lo, hi)` window onto an element sequence.
 `First` and `Last` cut a clamped number of elements off the front or the back
 and return the cut-off slice together with the shrunk view.
 */
module Buffer {
  /** A window `[lo, hi)` onto `data`; `data` stands for the memory the
      pointers address. */
  datatype View<T> = View(data: seq<T>, lo: nat, hi: nat)

  /** The window lies inside the memory. */
  predicate Valid<T>(v: View<T>)
  {
    v.lo <= v.hi <= |v.data|
  }

  /** The elements the view shows. */
  function Contents<T>(v: View<T>): (c: seq<T>)
    requires Valid(v)
    ensures |c| == v.hi - v.lo
    ensures forall i :: 0 <= i < |c| ==> c[i] == v.data[v.lo + i]
  {
    v.data[v.lo..v.hi]
  }

  /** `end - begin`: the number of elements shown. */
  function Size<T>(v: View<T>): (n: nat)
    requires Valid(v)
    ensures n == |Contents(v)|
  {
    v.hi - v.lo
  }

  /** `begin == end`: the view shows nothing. */
  function Empty<T>(v: View<T>): (b: bool)
    requires Valid(v)
    ensures b <==> Contents(v) == []
  {
    v.lo == v.hi
  }

  /** The element at offset `index` from the begin. The source does not check
      the index, so callers must keep it below the size. */
  function At<T>(v: View<T>, index: nat): (e: T)
    requires Valid(v) && index < Size(v)
    ensures e == Contents(v)[index]
  {
    v.data[v.lo + index]
  }

  /** The first element of a non-empty view. */
  function Front<T>(v: View<T>): (e: T)
    requires Valid(v) && !Empty(v)
    ensures e == Contents(v)[0]
  {
    At(v, 0)
  }

  /** The last element of a non-empty view. */
  function Back<T>(v: View<T>): (e: T)
    requires Valid(v) && !Empty(v)
    ensures e == Contents(v)[|Contents(v)| - 1]
  {
    At(v, Size(v) - 1)
  }

  /** `first(count)`: clamp `count` to the size, return the window over that
      many leading elements, and the view with its begin advanced past them. */
  function First<T>(v: View<T>, count: nat): (r: (View<T>, View<T>))
    requires Valid(v)
    ensures Valid(r.0) && Valid(r.1)
    ensures Size(r.0) == Min(count, Size(v))
    ensures Contents(r.0) == Contents(v)[..Min(count, Size(v))]
    ensures Contents(r.1) == Contents(v)[Min(count, Size(v))..]
    ensures Size(r.1) == Size(v) - Min(count, Size(v))
  {
    var n := Min(count, Size(v));
    (View(v.data, v.lo, v.lo + n), View(v.data, v.lo + n, v.hi))
  }

  /** `last(count)`: clamp `count` to the size, return the window over that
      many trailing elements, and the view with its end pulled back before
      them. */
  function Last<T>(v: View<T>, count: nat): (r: (View<T>, View<T>))
    requires Valid(v)
    ensures Valid(r.0) && Valid(r.1)
    ensures Size(r.0) == Min(count, Size(v))
    ensures Contents(r.0) == Contents(v)[Size(v) - Min(count, Size(v))..]
    ensures Contents(r.1) == Contents(v)[..Size(v) - Min(count, Size(v))]
    ensures Size(r.1) == Size(v) - Min(count, Size(v))
  {
    var n := Min(count, Size(v));
    (View(v.data, v.hi - n, v.hi), View(v.data, v.lo, v.hi - n))
  }

  /** `std::min`. */
  function Min(a: nat, b: nat): (m: nat)
    ensures m <= a && m <= b && (m == a || m == b)
  {
    if a <= b then a else b
  }

  /** After `First`, the cut-off slice followed by what remains is the
      original contents. */
  lemma FirstSplits<T>(v: View<T>, count: nat)
    requires Valid(v)
    ensures var (slice, rest) := First(v, count);
      Contents(slice) + Contents(rest) == Contents(v)
  {
    var n := Min(count, Size(v));
    assert Contents(v) == Contents(v)[..n] + Contents(v)[n..];
  }

  /** After `Last`, what remains followed by the cut-off slice is the original
      contents. */
  lemma LastSplits<T>(v: View<T>, count: nat)
    requires Valid(v)
    ensures var (slice, rest) := Last(v, count);
      Contents(rest) + Contents(slice) == Contents(v)
  {
    var n := Size(v) - Min(count, Size(v));
    assert Contents(v) == Contents(v)[..n] + Contents(v)[n..];
  }

  /** Cutting nothing returns an empty slice and leaves the view as it was. */
  lemma CutZeroChangesNothing<T>(v: View<T>)
    requires Valid(v)
    ensures Empty(First(v, 0).0) && First(v, 0).1 == v
    ensures Empty(Last(v, 0).0) && Last(v, 0).1 == v
  {
  }

  /** Asking for more than the view holds takes it all and leaves it empty. */
  lemma CutEverything<T>(v: View<T>, count: nat)
    requires Valid(v) && count >= Size(v)
    ensures Contents(First(v, count).0) == Contents(v) && Empty(First(v, count).1)
    ensures Contents(Last(v, count).0) == Contents(v) && Empty(Last(v, count).1)
  {
  }

  /** `first(a)` then `first(b)` on what remains cuts the same prefix as
      `first(a + b)`. */
  lemma FirstTwice<T>(v: View<T>, a: nat, b: nat)
    requires Valid(v)
    ensures var (s1, r1) := First(v, a);
      var (s2, r2) := First(r1, b);
      Contents(s1) + Contents(s2) == Contents(First(v, a + b).0)
      && r2 == First(v, a + b).1
  {
    var n1 := Min(a, Size(v));
    var n2 := Min(b, Size(v) - n1);
    assert v.data[v.lo..v.lo + n1] + v.data[v.lo + n1..v.lo + n1 + n2] == v.data[v.lo..v.lo + n1 + n2];
  }

  /** Element-wise comparison of two views (the four-iterator `std::equal`):
      true exactly when they show the same elements, sizes included. */
  method Equal<T(==)>(a: View<T>, b: View<T>) returns (eq: bool)
    requires Valid(a) && Valid(b)
    ensures eq <==> Contents(a) == Contents(b)
  {
    if Size(a) != Size(b) {
      return false;
    }
    var i := 0;
    while i < Size(a)
      invariant 0 <= i <= Size(a)
      invariant Contents(a)[..i] == Contents(b)[..i]
    {
      if At(a, i) != At(b, i) {
        return false;
      }
      i := i + 1;
    }
    assert Contents(a)[..i] == Contents(a) && Contents(b)[..i] == Contents(b);
    return true;
  }

  /** `!=` is the negated element-wise comparison. */
  method NotEqual<T(==)>(a: View<T>, b: View<T>) returns (ne: bool)
    requires Valid(a) && Valid(b)
    ensures ne <==> Contents(a) != Contents(b)
  {
    var eq := Equal(a, b);
    ne := !eq;
  }
}
