/** Counting: an injective map of a finite set into itself reaches every element. So a left inverse of a square matrix
    of bytes is also a right inverse. */
module Finite {
  import opened Bytes
  import opened Field
  import opened Linear

  ghost function Image<T(!new)>(s: set<T>, f: T -> T): set<T> {
    set x | x in s :: f(x)
  }

  ghost predicate Injective<T(!new)>(s: set<T>, f: T -> T) {
    forall x, y | x in s && y in s && f(x) == f(y) :: x == y
  }

  lemma {:induction false} ImageSize<T(!new)>(s: set<T>, f: T -> T)
    requires Injective(s, f)
    ensures |Image(s, f)| == |s|
    decreases |s|
  {
    if s != {} {
      var x :| x in s;
      var rest := s - {x};
      ImageSize(rest, f);
      assert Image(s, f) == Image(rest, f) + {f(x)};
      assert f(x) !in Image(rest, f);
    }
  }

  lemma SameSize<T>(a: set<T>, b: set<T>)
    requires a <= b && |a| == |b|
    ensures a == b
  {
    assert b == a + (b - a);
    assert |b - a| == 0;
  }

  lemma InjectiveReaches<T(!new)>(s: set<T>, f: T -> T, y: T) returns (x: T)
    requires Injective(s, f) && (forall x | x in s :: f(x) in s) && y in s
    ensures x in s && f(x) == y
  {
    ImageSize(s, f);
    SameSize(Image(s, f), s);
    assert y in Image(s, f);
    x :| x in s && f(x) == y;
  }

  // ----- bytes and vectors of bytes

  ghost function AllBytes(): set<byte> {
    set i: nat | i < 256 :: ByteOf(i)
  }

  lemma {:induction false} ByteOfValue(b: byte)
    ensures ValueOf(b) < 256 && ByteOf(ValueOf(b)) == b
    decreases ValueOf(b)
  {
    ValueOfNext(b);
    if b == 0 {
      assert ValueOf(0) == 0;
    } else {
      ValueOfNext(b - 1);
      ByteOfValue(b - 1);
    }
  }

  lemma InAllBytes(b: byte)
    ensures b in AllBytes()
  {
    ByteOfValue(b);
  }

  ghost function Vectors(k: nat): set<Vec<byte>> {
    if k == 0 then {[]} else set v, b | v in Vectors(k - 1) && b in AllBytes() :: v + [b]
  }

  lemma {:induction false} InVectors(k: nat, v: Vec<byte>)
    ensures v in Vectors(k) <==> |v| == k
  {
    if k > 0 {
      if |v| == k {
        InVectors(k - 1, v[..k - 1]);
        InAllBytes(v[k - 1]);
        assert v == v[..k - 1] + [v[k - 1]];
      }
      if v in Vectors(k) {
        var u, b :| u in Vectors(k - 1) && b in AllBytes() && v == u + [b];
        InVectors(k - 1, u);
      }
    }
  }

  /** B applied to vectors of its own width; others stay as they are. */
  ghost function Applying(F: Gf<byte>, B: Matrix<byte>, k: nat): Vec<byte> -> Vec<byte>
    requires Rect(B, k, k)
  {
    x => if |x| == k then Apply(F, B, x) else x
  }

  /** A left inverse of a square matrix is a right inverse. */
  lemma LeftIsRight(F: Gf<byte>, N: Matrix<byte>, B: Matrix<byte>, x: Vec<byte>)
    requires IsField(F) && IsLeftInverse(F, N, B, |x|)
    ensures Apply(F, B, Apply(F, N, x)) == x
  {
    var k, f := |x|, Applying(F, B, |x|);
    forall u, v | u in Vectors(k) && v in Vectors(k) && f(u) == f(v) ensures u == v {
      InVectors(k, u);
      InVectors(k, v);
      InverseUndoes(F, N, B, u);
      InverseUndoes(F, N, B, v);
    }
    forall u | u in Vectors(k) ensures f(u) in Vectors(k) {
      InVectors(k, u);
      InVectors(k, f(u));
    }
    InVectors(k, x);
    var y := InjectiveReaches(Vectors(k), f, x);
    InVectors(k, y);
    InverseUndoes(F, N, B, y);
  }
}
