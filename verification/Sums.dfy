/** Sums over sequences and over sets of map keys, and counting. */
module Sums {
  ghost function Sum<T>(s: seq<T>, f: T -> int): int {
    if s == [] then 0 else Sum(s[..|s| - 1], f) + f(s[|s| - 1])
  }

  lemma SumAppend<T>(s: seq<T>, x: T, f: T -> int)
    ensures Sum(s + [x], f) == Sum(s, f) + f(x)
  {
    assert (s + [x])[..|s|] == s;
  }

  lemma {:induction false} SumUpdate<T>(s: seq<T>, i: nat, x: T, f: T -> int)
    requires i < |s|
    ensures Sum(s[i := x], f) == Sum(s, f) - f(s[i]) + f(x)
  {
    var n := |s| - 1;
    if i == n {
      assert s[i := x][..n] == s[..n];
    } else {
      SumUpdate(s[..n], i, x, f);
      assert s[i := x][..n] == s[..n][i := x];
    }
  }

  lemma {:induction false} SumRemove<T>(s: seq<T>, i: nat, f: T -> int)
    requires i < |s|
    ensures Sum(s[..i] + s[i + 1..], f) == Sum(s, f) - f(s[i])
  {
    var n := |s| - 1;
    if i == n {
      assert s[..i] + s[i + 1..] == s[..n];
    } else {
      SumRemove(s[..n], i, f);
      var t := s[..n];
      assert s[..i] + s[i + 1..] == (t[..i] + t[i + 1..]) + [s[n]];
      SumAppend(t[..i] + t[i + 1..], s[n], f);
    }
  }

  lemma {:induction false} SumAgree<T, U>(s: seq<T>, t: seq<U>, f: T -> int, g: U -> int)
    requires |s| == |t| && forall i | 0 <= i < |s| :: f(s[i]) == g(t[i])
    ensures Sum(s, f) == Sum(t, g)
  {
    if s != [] {
      SumAgree(s[..|s| - 1], t[..|t| - 1], f, g);
    }
  }

  lemma {:induction false} SumZero<T>(s: seq<T>, f: T -> int)
    requires forall i | 0 <= i < |s| :: f(s[i]) == 0
    ensures Sum(s, f) == 0
  {
    if s != [] {
      SumZero(s[..|s| - 1], f);
    }
  }

  lemma {:induction false} SumOpposite<T>(s: seq<T>, f: T -> int, g: T -> int)
    requires forall i | 0 <= i < |s| :: f(s[i]) == -g(s[i])
    ensures Sum(s, f) == -Sum(s, g)
  {
    if s != [] {
      SumOpposite(s[..|s| - 1], f, g);
    }
  }

  lemma {:induction false} SumGrows<T>(s: seq<T>, t: seq<T>, f: T -> int)
    requires |s| <= |t| && forall i | 0 <= i < |s| :: f(s[i]) <= f(t[i])
    requires forall i | |s| <= i < |t| :: f(t[i]) >= 0
    ensures Sum(s, f) <= Sum(t, f)
  {
    if |t| > |s| {
      SumGrows(s, t[..|t| - 1], f);
    } else if s != [] {
      SumGrows(s[..|s| - 1], t[..|t| - 1], f);
    }
  }

  function Count<T>(s: seq<T>, p: T -> bool): nat {
    if s == [] then 0 else Count(s[..|s| - 1], p) + (if p(s[|s| - 1]) then 1 else 0)
  }

  function Positions<T>(s: seq<T>, p: T -> bool): set<int> {
    set i | 0 <= i < |s| && p(s[i])
  }

  lemma {:induction false} CountIsCardinality<T>(s: seq<T>, p: T -> bool)
    ensures Count(s, p) == |Positions(s, p)|
  {
    if s != [] {
      var n := |s| - 1;
      CountIsCardinality(s[..n], p);
      assert Positions(s, p) == Positions(s[..n], p) + (if p(s[n]) then {n} else {});
    }
  }

  lemma CountAppend<T>(s: seq<T>, x: T, p: T -> bool)
    ensures Count(s + [x], p) == Count(s, p) + (if p(x) then 1 else 0)
  {
    assert (s + [x])[..|s|] == s;
  }

  lemma {:induction false} CountUpdate<T>(s: seq<T>, i: nat, x: T, p: T -> bool)
    requires i < |s|
    ensures Count(s[i := x], p) == Count(s, p) - (if p(s[i]) then 1 else 0) + (if p(x) then 1 else 0)
    ensures p(s[i]) ==> Count(s, p) >= 1
  {
    var n := |s| - 1;
    if i == n {
      assert s[i := x][..n] == s[..n];
    } else {
      CountUpdate(s[..n], i, x, p);
      assert s[i := x][..n] == s[..n][i := x];
    }
  }

  lemma {:induction false} CountNone<T>(s: seq<T>, p: T -> bool)
    requires forall i | 0 <= i < |s| :: !p(s[i])
    ensures Count(s, p) == 0
  {
    if s != [] {
      CountNone(s[..|s| - 1], p);
    }
  }

  lemma {:induction false} CountZero<T>(s: seq<T>, p: T -> bool, i: nat)
    requires Count(s, p) == 0 && i < |s|
    ensures !p(s[i])
  {
    if i < |s| - 1 {
      CountZero(s[..|s| - 1], p, i);
    }
  }

  lemma {:induction false} CountImplies<T>(s: seq<T>, p: T -> bool, q: T -> bool)
    requires forall i | 0 <= i < |s| :: p(s[i]) ==> q(s[i])
    ensures Count(s, p) <= Count(s, q)
  {
    if s != [] {
      CountImplies(s[..|s| - 1], p, q);
    }
  }

  lemma {:induction false} CountBound<T>(s: seq<T>, p: T -> bool)
    ensures Count(s, p) <= |s|
  {
    if s != [] {
      CountBound(s[..|s| - 1], p);
    }
  }

  /** Whatever satisfies `p` satisfies `q` or `r`. */
  lemma {:induction false} CountCovered<T>(s: seq<T>, p: T -> bool, q: T -> bool, r: T -> bool)
    requires forall i | 0 <= i < |s| :: p(s[i]) ==> q(s[i]) || r(s[i])
    ensures Count(s, p) <= Count(s, q) + Count(s, r)
  {
    if s != [] {
      CountCovered(s[..|s| - 1], p, q, r);
    }
  }

  ghost function SumOver<K>(m: map<K, int>, s: set<K>): int
    requires s <= m.Keys
  {
    if s == {} then 0
    else
      var x :| x in s;
      m[x] + SumOver(m, s - {x})
  }

  /** The sum does not depend on the order in which the set is taken apart. */
  lemma {:induction false} SumOverPick<K>(m: map<K, int>, s: set<K>, x: K)
    requires s <= m.Keys && x in s
    ensures SumOver(m, s) == m[x] + SumOver(m, s - {x})
    decreases |s|
  {
    var y :| y in s && SumOver(m, s) == m[y] + SumOver(m, s - {y});
    if x != y {
      SumOverPick(m, s - {y}, x);
      SumOverPick(m, s - {x}, y);
      assert s - {y} - {x} == s - {x} - {y};
    }
  }

  lemma {:induction false} SumOverAgree<K>(m: map<K, int>, n: map<K, int>, s: set<K>)
    requires s <= m.Keys && s <= n.Keys && forall x | x in s :: m[x] == n[x]
    ensures SumOver(m, s) == SumOver(n, s)
    decreases |s|
  {
    if s != {} {
      var x :| x in s;
      SumOverPick(m, s, x);
      SumOverPick(n, s, x);
      SumOverAgree(m, n, s - {x});
    }
  }

  lemma SumOverUpdate<K>(m: map<K, int>, s: set<K>, x: K, v: int)
    requires s <= m.Keys && x in m
    ensures SumOver(m[x := v], s) == SumOver(m, s) + (if x in s then v - m[x] else 0)
  {
    var n := m[x := v];
    if x in s {
      SumOverPick(m, s, x);
      SumOverPick(n, s, x);
      SumOverAgree(m, n, s - {x});
    } else {
      SumOverAgree(m, n, s);
    }
  }

  lemma {:induction false} SumOverZero<K>(m: map<K, int>, s: set<K>)
    requires s <= m.Keys && forall x | x in s :: m[x] == 0
    ensures SumOver(m, s) == 0
    decreases |s|
  {
    if s != {} {
      var x :| x in s;
      SumOverPick(m, s, x);
      SumOverZero(m, s - {x});
    }
  }

  lemma {:induction false} SumOverSplit<K>(m: map<K, int>, s: set<K>, t: set<K>)
    requires s <= m.Keys && t <= m.Keys && s !! t
    ensures SumOver(m, s + t) == SumOver(m, s) + SumOver(m, t)
    decreases |t|
  {
    if t == {} {
      assert s + t == s;
    } else {
      var x :| x in t;
      SumOverPick(m, t, x);
      SumOverPick(m, s + t, x);
      assert s + t - {x} == s + (t - {x});
      SumOverSplit(m, s, t - {x});
    }
  }
}
