/** Counting arguments over byte strings of one length: a length-preserving
    function with a left inverse is a bijection on each length. */
module Counting {
  import opened Bytes

  /** The byte values below `n`. */
  ghost function BytesBelow(n: nat): (r: set<byte>)
    requires n <= 0x100
    ensures forall b: byte :: b in r <==> b as int < n
  {
    if n == 0 then {} else BytesBelow(n - 1) + {(n - 1) as byte}
  }

  /** Every byte value. */
  ghost function AllBytes(): (r: set<byte>)
    ensures forall b: byte :: b in r
  {
    BytesBelow(0x100)
  }

  /** Every byte string of length `n`. */
  ghost function Words(n: nat): (r: set<Bytes>)
    ensures forall s: Bytes :: s in r <==> |s| == n
  {
    if n == 0 then
      assert forall s: Bytes :: |s| == 0 ==> s == [];
      {[]}
    else
      var shorter := Words(n - 1);
      var r := set b, s | b in AllBytes() && s in shorter :: [b] + s;
      assert forall s: Bytes :: |s| == n ==> s in r by {
        forall s: Bytes | |s| == n
          ensures s in r
        {
          assert s[1..] in shorter;
          assert s == [s[0]] + s[1..];
        }
      }
      r
  }

  /** The image of a set under a function. */
  ghost function Image(f: Bytes -> Bytes, a: set<Bytes>): (r: set<Bytes>)
    ensures forall x :: x in a ==> f(x) in r
  {
    set x | x in a :: f(x)
  }

  /** No two members of `a` have the same image under `f`. */
  ghost predicate InjectiveOn(f: Bytes -> Bytes, a: set<Bytes>) {
    forall x, y :: x in a && y in a && f(x) == f(y) ==> x == y
  }

  lemma {:induction false} InjectiveImageSize(f: Bytes -> Bytes, a: set<Bytes>)
    requires InjectiveOn(f, a)
    ensures |Image(f, a)| == |a|
    decreases a
  {
    if a == {} {
      assert Image(f, a) == {};
    } else {
      var x :| x in a;
      var rest := a - {x};
      InjectiveImageSize(f, rest);
      assert Image(f, a) == Image(f, rest) + {f(x)};
      assert f(x) !in Image(f, rest);
    }
  }

  lemma FullSubset(a: set<Bytes>, b: set<Bytes>)
    requires a <= b && |a| == |b|
    ensures a == b
  {
    assert b == a + (b - a);
    assert |b - a| == 0;
  }

  /** A length-preserving function with a left inverse `g` also has `g` as its
      right inverse: it maps the finitely many strings of each length onto
      themselves without collisions, so it reaches all of them. */
  lemma {:induction false} LeftInverseIsRightInverse(f: Bytes -> Bytes, g: Bytes -> Bytes, y: Bytes)
    requires forall x :: |f(x)| == |x|
    requires forall x :: g(f(x)) == x
    ensures f(g(y)) == y
  {
    var a := Words(|y|);
    assert InjectiveOn(f, a) by {
      forall x, z | x in a && z in a && f(x) == f(z)
        ensures x == z
      {
        assert g(f(x)) == g(f(z));
      }
    }
    InjectiveImageSize(f, a);
    assert Image(f, a) <= a;
    FullSubset(Image(f, a), a);
    assert y in Image(f, a);
    var x :| x in a && f(x) == y;
    assert g(y) == x;
  }
}
