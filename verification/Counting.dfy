/** Sizes of finite sets and maps. */
module Counting {

  lemma FullIntervalSize(owner: map<nat, nat>, lo: nat, hi: nat)
    requires lo <= hi && forall t :: t in owner ==> lo <= t < hi
    ensures |owner| <= hi - lo && (|owner| == hi - lo <==> forall t :: lo <= t < hi ==> t in owner)
  {
    var pool := Interval(lo, hi);
    SubsetSize(owner.Keys, pool);
    assert |owner| == |owner.Keys|;
  }

  ghost function Interval(lo: nat, hi: nat): (s: set<nat>)
    requires lo <= hi
    ensures forall x :: x in s <==> lo <= x < hi
    ensures |s| == hi - lo
    decreases hi - lo
  {
    if lo == hi then {} else Interval(lo, hi - 1) + {hi - 1}
  }

  lemma DropKeySize(m: map<nat, nat>, k: nat)
    requires k in m && forall t :: t in m && m[t] == m[k] ==> t == k
    ensures |m| == |m - {k}| + 1 && |m.Values| == |(m - {k}).Values| + 1
  {
    var rest := m - {k};
    assert m.Keys == rest.Keys + {k};
    assert m.Values == rest.Values + {m[k]};
  }

  lemma {:induction false} InjectiveMapSize(m: map<nat, nat>)
    requires forall t, u :: t in m && u in m && m[t] == m[u] ==> t == u
    ensures |m.Values| == |m|
    decreases |m|
  {
    if |m| > 0 {
      var t :| t in m;
      DropKeySize(m, t);
      InjectiveMapSize(m - {t});
    }
  }

  lemma SubsetSize(a: set<nat>, b: set<nat>)
    requires a <= b
    ensures |a| <= |b| && (|a| == |b| <==> a == b)
  {
    assert b == a + (b - a);
    assert |b| == |a| + |b - a|;
    assert |b - a| == 0 ==> b - a == {};
  }
}
