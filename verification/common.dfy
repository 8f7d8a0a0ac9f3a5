/** Shared value types and Java-arithmetic helpers used by every part of the model. */
module Common {

  /** A Java reference that may be `null`. */
  datatype Opt<T> = Null | Some(value: T)

  /** Outcome of an operation that either returns normally or throws `IllegalStateException`. */
  datatype Result<T> = Ok(value: T) | IllegalState

  /** `s` with position `i` dropped; the other elements keep their order. */
  function Without<T>(s: seq<T>, i: int): (r: seq<T>)
    requires 0 <= i < |s|
    ensures |r| == |s| - 1
    ensures forall k :: 0 <= k < i ==> r[k] == s[k]
    ensures forall k :: i <= k < |r| ==> r[k] == s[k + 1]
  {
    s[..i] + s[i + 1..]
  }

  /** Dropping a position keeps the other elements and adds none. */
  lemma WithoutMembers<T>(s: seq<T>, i: int)
    requires 0 <= i < |s|
    ensures forall x :: x in Without(s, i) ==> x in s
  {
    forall x | x in Without(s, i)
      ensures x in s
    {
      var k :| 0 <= k < |Without(s, i)| && Without(s, i)[k] == x;
      assert x == s[if k < i then k else k + 1];
    }
  }

  /** Dropping a position keeps every element other than the one dropped. */
  lemma WithoutKeeps<T>(s: seq<T>, i: int, x: T)
    requires 0 <= i < |s| && x in s && x != s[i]
    ensures x in Without(s, i)
  {
    var k :| 0 <= k < |s| && s[k] == x;
    assert x == Without(s, i)[if k < i then k else k - 1];
  }

  /** A fresh Java `double[n]`: every entry is zero. */
  function Zeros(n: nat): (r: seq<real>)
    ensures |r| == n && forall k :: 0 <= k < n ==> r[k] == 0.0
  {
    seq(n, _ => 0.0)
  }

  predicate NoDuplicates<T(==)>(s: seq<T>)
  {
    forall a, b :: 0 <= a < b < |s| ==> s[a] != s[b]
  }

  predicate StrictlyAscending(s: seq<int>)
  {
    forall a, b :: 0 <= a < b < |s| ==> s[a] < s[b]
  }

  /** Appending an element larger than all others keeps a sequence strictly ascending. */
  lemma AppendAscending(s: seq<int>, x: int)
    requires StrictlyAscending(s)
    requires forall k :: k in s ==> k < x
    ensures StrictlyAscending(s + [x]) && StrictlyAscending(s + [])
  {
    assert s + [] == s;
    var t := s + [x];
    forall a, b | 0 <= a < b < |t|
      ensures t[a] < t[b]
    {
      if b == |s| { assert t[a] == s[a] && s[a] in s; }
    }
  }

  /** The elements of `s` in order of first occurrence, later repeats dropped
      (what `Arrays.stream(a).distinct()` produces). */
  function Distinct<T(==)>(s: seq<T>): seq<T>
  {
    if |s| == 0 then []
    else
      var d := Distinct(s[..|s| - 1]);
      if s[|s| - 1] in d then d else d + [s[|s| - 1]]
  }

  /** `Distinct` keeps exactly the elements of its input, each once. */
  lemma {:induction false} DistinctSpec<T>(s: seq<T>)
    ensures forall x :: x in Distinct(s) <==> x in s
    ensures NoDuplicates(Distinct(s))
  {
    if |s| > 0 {
      DistinctSpec(s[..|s| - 1]);
      assert s == s[..|s| - 1] + [s[|s| - 1]];
    }
  }

  /** Position of the first occurrence of `x` in `s`, or -1 when there is none. */
  function IndexOf<T(==)>(s: seq<T>, x: T): (i: int)
    ensures -1 <= i < |s|
    ensures i == -1 <==> x !in s
    ensures 0 <= i ==> s[i] == x && x !in s[..i]
  {
    if |s| == 0 then -1
    else if s[0] == x then 0
    else
      var j := IndexOf(s[1..], x);
      if j == -1 then
        assert s == [s[0]] + s[1..];
        -1
      else
        assert s[..j + 1] == [s[0]] + s[1..][..j];
        j + 1
  }

  /** In a list without repeats, an element is found at its own position. */
  lemma {:induction false} IndexOfDistinct<T>(s: seq<T>, k: int)
    requires NoDuplicates(s) && 0 <= k < |s|
    ensures IndexOf(s, s[k]) == k
  {
    if k > 0 {
      assert s[0] != s[k];
      assert s[1..][k - 1] == s[k];
      IndexOfDistinct(s[1..], k - 1);
    }
  }

  /** Java's `/` on `int`: the quotient is truncated toward zero. */
  function JavaDiv(a: int, b: int): int
    requires b != 0
  {
    var q := Abs(a) / Abs(b);
    if (a < 0) != (b < 0) then -q else q
  }

  /** Java's `%` on `int`: the remainder takes the sign of the dividend. */
  function JavaRem(a: int, b: int): int
    requires b != 0
  {
    a - b * JavaDiv(a, b)
  }

  function Abs(a: int): nat
  {
    if a < 0 then -a else a
  }

  /** Java's `(int)` cast of a double: truncation toward zero (saturation at the int range is not modelled). */
  function TruncToInt(x: real): int
  {
    if x >= 0.0 then x.Floor else -((-x).Floor)
  }

  /** The cast keeps a whole number unchanged. */
  lemma TruncOfWhole(k: int)
    ensures TruncToInt(k as real) == k
  {
    if k < 0 {
      assert -(k as real) == (-k) as real;
    }
  }

  /** Java's `Math.round` of a double: the nearest integer, halves rounded up. */
  function JavaRound(x: real): int
  {
    (x + 0.5).Floor
  }

  /** Sum of a sequence of integers. */
  function SumOf(s: seq<int>): int
  {
    if |s| == 0 then 0 else SumOf(s[..|s| - 1]) + s[|s| - 1]
  }

  /** Helper for row-major pixel arrays: `y * w + x` is a valid index of a `w * h` array. */
  lemma RowMajorInRange(x: int, y: int, w: int, h: int)
    requires 0 <= x < w && 0 <= y < h
    ensures 0 <= y * w + x < w * h
  {
    assert y * w <= (h - 1) * w by {
      MulMonotone(y, h - 1, w);
    }
  }

  /** Decoding a row-major index the Java way (`x = pix % w`, `y = (pix - x) / w`) lands
      inside a `w * h` image exactly when the index is in range, and then gives back the
      point that `y * w + x` encodes. */
  lemma PixelDecode(pix: int, w: int, h: int)
    requires w > 0
    ensures var x := JavaRem(pix, w); var y := JavaDiv(pix - x, w);
      && ((0 <= x < w && 0 <= y < h) <==> 0 <= pix < w * h)
      && (0 <= x < w && 0 <= y < h ==> y * w + x == pix)
  {
    if pix >= 0 {
      DecodeNonNegative(pix, w, h);
    } else {
      DecodeNegative(pix, w);
    }
  }

  lemma DecodeNonNegative(pix: int, w: int, h: int)
    requires w > 0 && pix >= 0
    ensures var x := JavaRem(pix, w); var y := JavaDiv(pix - x, w);
      && x == pix % w && y == pix / w
      && (y < h <==> pix < w * h)
  {
    var q := pix / w;
    var x := JavaRem(pix, w);
    assert JavaDiv(pix, w) == q;
    assert pix - x == w * q;
    DivUnique(w * q, w, q, 0);
    var y := JavaDiv(pix - x, w);
    assert y == q;
    assert pix == w * q + pix % w;
    if q < h {
      MulMonotone(q, h - 1, w);
      assert (h - 1) * w == h * w - w;
      assert pix < w * h;
    } else {
      MulMonotone(h, q, w);
      assert pix >= w * h;
    }
  }

  /** A negative index decodes to a point left of or above the image. */
  lemma DecodeNegative(pix: int, w: int)
    requires w > 0 && pix < 0
    ensures var x := JavaRem(pix, w); x < 0 || JavaDiv(pix - x, w) < 0
  {
    var q := (-pix) / w;
    var r := (-pix) % w;
    assert JavaDiv(pix, w) == -q;
    var x := JavaRem(pix, w);
    assert x == -r;
    if r == 0 {
      assert -pix == w * q;
      MulBounds(w, q);
      assert q >= 1;
      assert JavaDiv(pix - x, w) == -q;
    }
  }

  /** Encoding a point of a `w`-wide image and decoding it again gives the point back. */
  lemma PixelRoundTrip(px: int, py: int, w: int)
    requires 0 <= px < w && 0 <= py
    ensures JavaRem(py * w + px, w) == px
    ensures JavaDiv(py * w + px - JavaRem(py * w + px, w), w) == py
  {
    var pix := py * w + px;
    DivUnique(pix, w, py, px);
    assert JavaDiv(pix, w) == py;
    DivUnique(py * w, w, py, 0);
  }

  /** Euclidean division is unique: `w * q + r` with `0 <= r < w` divides to `q`. */
  lemma DivUnique(a: int, w: int, q: int, r: int)
    requires w > 0 && 0 <= r < w && a == w * q + r
    ensures a / w == q && a % w == r
  {
    var q' := a / w;
    var r' := a % w;
    assert w * q' + r' == w * q + r;
    assert w * (q - q') == r' - r;
    MulBounds(w, q - q');
  }

  /** A non-zero multiple of `w > 0` is at least `w` away from zero. */
  lemma MulBounds(w: int, k: int)
    requires w > 0
    ensures k >= 1 ==> w * k >= w
    ensures k <= -1 ==> w * k <= -w
    ensures k == 0 ==> w * k == 0
  {
    if k >= 1 {
      MulMonotone(1, k, w);
    } else if k <= -1 {
      MulMonotone(k, -1, w);
    }
  }

  lemma MulMonotone(a: int, b: int, c: int)
    requires a <= b && 0 <= c
    ensures a * c <= b * c
  {
  }
}
