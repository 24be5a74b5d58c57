/** Small notions shared by the modules. */
module Common {

  // The modulus of the 32-bit unsigned numbers.
  const WORD: nat := 0x1_0000_0000

  datatype Option<+T> = None | Some(value: T)

  ghost predicate Distinct<T>(p: seq<T>) {
    forall s, t :: 0 <= s < t < |p| ==> p[s] != p[t]
  }

  function Last<T>(p: seq<T>): T
    requires |p| > 0
  {
    p[|p| - 1]
  }

  // Pigeonhole.
  lemma {:induction false} DistinctBound<T>(p: seq<T>, u: set<T>)
    requires Distinct(p) && forall x :: x in p ==> x in u
    ensures |p| <= |u|
  {
    if |p| > 0 {
      var x := Last(p);
      assert forall y :: y in p[..|p| - 1] ==> y in p && y != x;
      DistinctBound(p[..|p| - 1], u - {x});
    }
  }

  function Below(n: nat): (s: set<nat>)
    ensures forall x: nat :: x in s <==> x < n
    ensures |s| == n
  {
    if n == 0 then {} else
      var s := Below(n - 1) + {n - 1};
      assert Below(n - 1) == s - {n - 1};
      s
  }

  // Sequences without repetition and with the same elements are permutations of each other.
  lemma {:induction false} SameElements<T>(s: seq<T>, t: seq<T>)
    requires Distinct(s) && Distinct(t) && forall x :: x in s <==> x in t
    ensures multiset(s) == multiset(t)
  {
    forall x ensures multiset(s)[x] == multiset(t)[x] {
      CountOnce(s, x);
      CountOnce(t, x);
    }
  }

  lemma {:induction false} CountOnce<T>(s: seq<T>, x: T)
    requires Distinct(s)
    ensures multiset(s)[x] == if x in s then 1 else 0
  {
    if |s| > 0 {
      CountOnce(s[1..], x);
      assert s == [s[0]] + s[1..];
    }
  }

  // b is a, with n more if here.
  lemma {:induction false} OneMoreIn(a: set<int>, b: set<int>, n: int, here: bool)
    requires n !in a && forall x :: x in b <==> x in a || (here && x == n)
    ensures |b| == |a| + if here then 1 else 0
  {
    var c := if here then a + {n} else a;
    forall x: int ensures x in b <==> x in c {
    }
    assert b == c;
  }

  function Without<T>(s: seq<T>, k: nat): (r: seq<T>)
    requires k < |s|
    ensures |r| == |s| - 1
  {
    s[..k] + s[k + 1..]
  }

  lemma {:induction false} RemoveOne<T>(s: seq<T>, k: nat)
    requires k < |s|
    ensures multiset(s) == multiset(Without(s, k)) + multiset{s[k]}
    ensures multiset(Without(s, k)) == multiset(s) - multiset{s[k]}
  {
    assert s == s[..k] + [s[k]] + s[k + 1..];
  }

  // Division of naturals, known by its two defining inequalities.
  function Quot(x: nat, m: nat): (q: nat)
    requires m > 0
    ensures q * m <= x < q * m + m
  {
    x / m
  }

  function Rem(x: nat, m: nat): (r: nat)
    requires m > 0
    ensures r < m && x == Quot(x, m) * m + r
  {
    x - Quot(x, m) * m
  }

  lemma {:induction false} MulMonotone(a: nat, b: nat, m: nat)
    requires a <= b
    ensures a * m <= b * m
  {
  }

  // a * m + b is the pair (a, b) in base m.
  lemma {:induction false} Pack(m: nat, n: nat, a: nat, b: nat)
    requires a < n && b < m
    ensures a * m + b < n * m && Quot(a * m + b, m) == a && Rem(a * m + b, m) == b
  {
    var x := a * m + b;
    var q := Quot(x, m);
    MulMonotone(a + 1, n, m);
    if q < a {
      MulMonotone(q + 1, a, m);
    }
    if q > a {
      MulMonotone(a + 1, q, m);
    }
  }

  lemma {:induction false} Unpack(m: nat, n: nat, x: nat)
    requires m > 0 && x < n * m
    ensures Quot(x, m) < n
  {
  }
}
