/**
 * The vector comparison function of src/Structs.c: vectors of doubles
 * (modelled as reals) ordered element by element, a proper prefix being
 * the smaller, with -1 for a null pointer or a malformed vector.
 */
module Structs {
  import opened Nullable

  /** The C `Vector` struct: a length and a possibly-null array. */
  datatype Vector = Vector(len: int, vector: Option<seq<real>>)

  /** What the C reads through a vector pointer is there: an array with
      at least `len` entries whenever `len` is non-negative. */
  predicate Readable(p: Option<Vector>)
  {
    p.Some? && p.value.vector.Some? && p.value.len >= 0 ==> p.value.len <= |p.value.vector.value|
  }

  /** A vector the comparison accepts: an array and a non-negative length. */
  predicate WellFormed(v: Vector)
  {
    v.vector.Some? && 0 <= v.len <= |v.vector.value|
  }

  /** The `len` entries the vector stands for. */
  function Entries(v: Vector): (e: seq<real>)
    requires WellFormed(v)
    ensures |e| == v.len
  {
    v.vector.value[..v.len]
  }

  /** Lexicographic comparison: the first differing entry decides, and a
      proper prefix is smaller. */
  function LexCompare(x: seq<real>, y: seq<real>): (r: int)
    ensures r in {-1, 0, 1}
  {
    if x == [] && y == [] then 0
    else if x == [] then -1
    else if y == [] then 1
    else if x[0] > y[0] then 1
    else if x[0] < y[0] then -1
    else LexCompare(x[1..], y[1..])
  }

  /** The comparison the documentation of vectorCompare1By1 describes: -1
      when either pointer, either array is null or either length is
      negative, otherwise the lexicographic order of the entries. */
  function VectorCompare(a: Option<Vector>, b: Option<Vector>): int
    requires Readable(a) && Readable(b)
  {
    if a.None? || b.None? then -1
    else if a.value.vector.None? || b.value.vector.None? || a.value.len < 0 || b.value.len < 0 then -1
    else LexCompare(Entries(a.value), Entries(b.value))
  }

  /** vectorCompare1By1 as written: its guard tests the first length
      twice and never the second. With the second length negative, the
      loop runs no iteration and the length test returns 1. */
  function VectorCompareAsWritten(a: Option<Vector>, b: Option<Vector>): int
    requires Readable(a) && Readable(b)
  {
    if a.None? || b.None? then -1
    else if a.value.vector.None? || b.value.vector.None? || a.value.len < 0 || a.value.len < 0 then -1
    else if b.value.len < 0 then 1
    else LexCompare(Entries(a.value), Entries(b.value))
  }

  /** The discrepancy: an empty vector against one of length -1. */
  lemma AsWrittenAcceptsNegativeLength()
    ensures var a, b := Some(Vector(0, Some([]))), Some(Vector(-1, Some([])));
      VectorCompareAsWritten(a, b) == 1 && VectorCompare(a, b) == -1
  {
  }

  /** The two agree on every input except a negative second length
      behind a well-formed first vector. */
  lemma AsWrittenDiffersOnlyThere(a: Option<Vector>, b: Option<Vector>)
    requires Readable(a) && Readable(b)
    ensures VectorCompareAsWritten(a, b) != VectorCompare(a, b) <==>
      a.Some? && b.Some? && WellFormed(a.value) && b.value.vector.Some? && b.value.len < 0
  {
  }

  /** vectorCompare1By1, with the guard testing both lengths. */
  method VectorCompare1By1(a: Option<Vector>, b: Option<Vector>) returns (r: int)
    requires Readable(a) && Readable(b)
    ensures r == VectorCompare(a, b)
  {
    if a.None? || b.None? {
      return -1;
    }
    var v1, v2 := a.value, b.value;
    if v1.vector.None? || v2.vector.None? || v1.len < 0 || v2.len < 0 {
      return -1;
    }
    var x, y := v1.vector.value, v2.vector.value;
    var minLength := if v1.len > v2.len then v2.len else v1.len;
    for i := 0 to minLength
      invariant x[..i] == y[..i]
    {
      assert Entries(v1)[..i] == x[..i] && Entries(v2)[..i] == y[..i];
      if x[i] > y[i] {
        FirstDifferenceDecides(Entries(v1), Entries(v2), i);
        return 1;
      }
      if x[i] < y[i] {
        FirstDifferenceDecides(Entries(v1), Entries(v2), i);
        return -1;
      }
      assert x[..i + 1] == y[..i + 1] by {
        assert x[..i + 1] == x[..i] + [x[i]] && y[..i + 1] == y[..i] + [y[i]];
      }
    }
    assert Entries(v1)[..minLength] == x[..minLength] && Entries(v2)[..minLength] == y[..minLength];
    LexCompareSkip(Entries(v1), Entries(v2), minLength);
    if v1.len > v2.len {
      return 1;
    }
    if v1.len < v2.len {
      return -1;
    }
    return 0;
  }

  // ---------------------------------------------------------------------
  // Properties of the order
  // ---------------------------------------------------------------------

  /** A common prefix does not decide the comparison. */
  lemma {:induction false} LexCompareSkip(x: seq<real>, y: seq<real>, i: nat)
    requires i <= |x| && i <= |y| && x[..i] == y[..i]
    ensures LexCompare(x, y) == LexCompare(x[i..], y[i..])
    decreases i
  {
    if i > 0 {
      assert x[0] == x[..i][0] == y[..i][0] == y[0];
      assert x[1..][..i - 1] == x[..i][1..] && y[1..][..i - 1] == y[..i][1..];
      LexCompareSkip(x[1..], y[1..], i - 1);
      assert x[1..][i - 1..] == x[i..] && y[1..][i - 1..] == y[i..];
    }
  }

  /** Zero exactly on equal sequences. */
  lemma {:induction false} LexCompareZero(x: seq<real>, y: seq<real>)
    ensures LexCompare(x, y) == 0 <==> x == y
    decreases |x|
  {
    if x != [] && y != [] && x[0] == y[0] {
      LexCompareZero(x[1..], y[1..]);
      if x[1..] == y[1..] {
        assert x == [x[0]] + x[1..] && y == [y[0]] + y[1..];
      }
    }
  }

  /** Swapping the arguments negates the result. */
  lemma {:induction false} LexCompareAntisymmetric(x: seq<real>, y: seq<real>)
    ensures LexCompare(y, x) == -LexCompare(x, y)
    decreases |x|
  {
    if x != [] && y != [] && x[0] == y[0] {
      LexCompareAntisymmetric(x[1..], y[1..]);
    }
  }

  /** The order is transitive. */
  lemma {:induction false} LexCompareTransitive(x: seq<real>, y: seq<real>, z: seq<real>)
    requires LexCompare(x, y) < 0 && LexCompare(y, z) < 0
    ensures LexCompare(x, z) < 0
    decreases |x|
  {
    if x != [] && y != [] && z != [] && x[0] == y[0] == z[0] {
      LexCompareTransitive(x[1..], y[1..], z[1..]);
    }
  }

  /** A proper prefix is the smaller. */
  lemma {:induction false} LexComparePrefix(x: seq<real>, y: seq<real>)
    requires |x| < |y| && x == y[..|x|]
    ensures LexCompare(x, y) == -1
  {
    LexCompareSkip(x, y, |x|);
    assert x[|x|..] == [];
  }

  /** The first differing entry decides. */
  lemma FirstDifferenceDecides(x: seq<real>, y: seq<real>, i: nat)
    requires i < |x| && i < |y| && x[..i] == y[..i] && x[i] != y[i]
    ensures LexCompare(x, y) == (if x[i] > y[i] then 1 else -1)
  {
    LexCompareSkip(x, y, i);
  }

  /** Well-formed vectors compare to zero exactly when their entries agree. */
  lemma VectorCompareZero(a: Vector, b: Vector)
    requires WellFormed(a) && WellFormed(b)
    ensures VectorCompare(Some(a), Some(b)) == 0 <==> Entries(a) == Entries(b)
  {
    LexCompareZero(Entries(a), Entries(b));
  }

  /** Well-formed vectors are ordered antisymmetrically. */
  lemma VectorCompareAntisymmetric(a: Vector, b: Vector)
    requires WellFormed(a) && WellFormed(b)
    ensures VectorCompare(Some(b), Some(a)) == -VectorCompare(Some(a), Some(b))
  {
    LexCompareAntisymmetric(Entries(a), Entries(b));
  }

  /** Well-formed vectors are ordered transitively. */
  lemma VectorCompareTransitive(a: Vector, b: Vector, c: Vector)
    requires WellFormed(a) && WellFormed(b) && WellFormed(c)
    requires VectorCompare(Some(a), Some(b)) < 0 && VectorCompare(Some(b), Some(c)) < 0
    ensures VectorCompare(Some(a), Some(c)) < 0
  {
    LexCompareTransitive(Entries(a), Entries(b), Entries(c));
  }
}
