/** Vocabulary shared by every component: bytes, results, machine-integer bounds
    and the "this text occurs here" predicate that the parsers are stated with. */
module Prelude {
  type byte = b: int | 0 <= b < 256

  const TWO_16: int := 0x1_0000
  const TWO_32: int := 0x1_0000_0000
  const TWO_64: int := 0x1_0000_0000_0000_0000

  type u16 = n: int | 0 <= n < 0x1_0000
  type u32 = n: int | 0 <= n < 0x1_0000_0000
  type u64 = n: int | 0 <= n < 0x1_0000_0000_0000_0000
  type i64 = n: int | -0x8000_0000_0000_0000 <= n < 0x8000_0000_0000_0000

  datatype Option<+T> = None | Some(value: T)

  datatype Result<+T, +E> = Ok(value: T) | Err(error: E) {
    predicate IsFailure() {
      Err?
    }

    function PropagateFailure<U>(): Result<U, E>
      requires Err?
    {
      Err(error)
    }

    function Extract(): T
      requires Ok?
    {
      value
    }
  }

  function Max(a: nat, b: nat): nat {
    if a >= b then a else b
  }

  /** `p` occurs in `s` at index `i`. */
  predicate At<T(==)>(s: seq<T>, i: nat, p: seq<T>) {
    i + |p| <= |s| && s[i..i + |p|] == p
  }

  lemma AtSplit<T>(s: seq<T>, i: nat, p: seq<T>, q: seq<T>)
    ensures At(s, i, p + q) <==> At(s, i, p) && At(s, i + |p|, q)
  {
    if i + |p| + |q| <= |s| {
      var w := s[i..i + |p| + |q|];
      assert w[..|p|] == s[i..i + |p|];
      assert w[|p|..] == s[i + |p|..i + |p| + |q|];
      assert w == w[..|p|] + w[|p|..];
      if At(s, i, p + q) {
        assert w == p + q;
        assert w[..|p|] == p && w[|p|..] == q;
      }
    }
  }

  lemma AtIndex<T>(s: seq<T>, i: nat, p: seq<T>, k: nat)
    requires At(s, i, p) && k < |p|
    ensures s[i + k] == p[k]
  {
    assert s[i..i + |p|][k] == s[i + k];
  }

  lemma AtFirst<T>(s: seq<T>, i: nat, p: seq<T>)
    requires p != []
    ensures At(s, i, p) ==> s[i] == p[0]
  {
    if At(s, i, p) {
      AtIndex(s, i, p, 0);
    }
  }

  lemma AtHead<T>(s: seq<T>, i: nat, p: seq<T>)
    requires |p| >= 2
    ensures At(s, i, p) ==> s[i] == p[0] && s[i + 1] == p[1]
  {
    if At(s, i, p) {
      AtIndex(s, i, p, 0);
      AtIndex(s, i, p, 1);
    }
  }

  /** Index of the first occurrence of `p` at or after `i`, or the length. */
  function Find<T(==)>(s: seq<T>, p: seq<T>, i: nat): (r: nat)
    requires i <= |s|
    ensures i <= r <= |s|
    ensures r < |s| ==> At(s, r, p)
    ensures forall k: nat :: i <= k < r ==> !At(s, k, p)
    decreases |s| - i
  {
    if i == |s| || At(s, i, p) then i else Find(s, p, i + 1)
  }

  /** No `p` starts inside a run of elements without its first one. */
  lemma NotInside<T>(s: seq<T>, p: seq<T>, from: nat, end: nat)
    requires p != [] && from <= end <= |s|
    requires forall k :: from <= k < end ==> s[k] != p[0]
    ensures forall k: nat :: from <= k < end ==> !At(s, k, p)
  {
    forall k: nat | from <= k < end ensures !At(s, k, p) {
      AtFirst(s, k, p);
    }
  }

  lemma FindIs<T>(s: seq<T>, p: seq<T>, i: nat, r: nat)
    requires i <= r < |s| && At(s, r, p)
    requires forall k: nat :: i <= k < r ==> !At(s, k, p)
    ensures Find(s, p, i) == r
  {
    var q := Find(s, p, i);
    assert !(q < r) && !(r < q);
  }

  lemma SliceOfSlice<T>(s: seq<T>, a: nat, b: nat, c: nat, d: nat)
    requires a <= b <= |s| && c <= d <= b - a
    ensures s[a..b][c..d] == s[a + c..a + d]
  {
    var u, w := s[a..b][c..d], s[a + c..a + d];
    forall k | 0 <= k < |u| ensures u[k] == w[k] {
      assert u[k] == s[a..b][c + k];
    }
    assert u == w;
  }

  /** Concatenation regrouped to the left, for two to five parts after `a`. */
  lemma Regroup<T>(a: seq<T>, b: seq<T>, c: seq<T>, d: seq<T>, e: seq<T>, f: seq<T>)
    ensures a + (b + c) == a + b + c
    ensures a + (b + c + d) == a + b + c + d
    ensures a + (b + c + d + e) == a + b + c + d + e
    ensures a + (b + c + d + e + f) == a + b + c + d + e + f
  {
  }

  /** Saturating unsigned addition. */
  function SaturatingAdd(a: nat, b: nat, max: nat): (r: nat)
    requires a <= max
    ensures r <= max
    ensures r == a + b || (r == max && a + b > max)
  {
    if a + b > max then max else a + b
  }
}
