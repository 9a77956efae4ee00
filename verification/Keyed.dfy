/** Sequences of keyed values: sorting by key, duplicates, and maps. */
module Keyed {
  type Entry<T> = (nat, T)

  predicate Ascending<T>(s: seq<Entry<T>>) {
    forall i, j :: 0 <= i < j < |s| ==> s[i].0 <= s[j].0
  }

  predicate DistinctKeys<T>(s: seq<Entry<T>>) {
    forall i, j :: 0 <= i < j < |s| ==> s[i].0 != s[j].0
  }

  function Insert<T>(e: Entry<T>, s: seq<Entry<T>>): (r: seq<Entry<T>>)
    ensures |r| == |s| + 1
  {
    if s == [] || e.0 <= s[0].0 then [e] + s else [s[0]] + Insert(e, s[1..])
  }

  /** The library sort by key. */
  function Sort<T>(s: seq<Entry<T>>): (r: seq<Entry<T>>)
    ensures |r| == |s|
  {
    if s == [] then [] else Insert(s[0], Sort(s[1..]))
  }

  lemma {:induction false} InsertKeepsMembers<T>(e: Entry<T>, s: seq<Entry<T>>)
    ensures multiset(Insert(e, s)) == multiset{e} + multiset(s)
  {
    if s != [] && e.0 > s[0].0 {
      InsertKeepsMembers(e, s[1..]);
      assert s == [s[0]] + s[1..];
    }
  }

  lemma {:induction false} InsertSorts<T>(e: Entry<T>, s: seq<Entry<T>>)
    requires Ascending(s)
    ensures Ascending(Insert(e, s))
  {
    if s != [] && e.0 > s[0].0 {
      InsertSorts(e, s[1..]);
      InsertKeepsMembers(e, s[1..]);
      var tail := Insert(e, s[1..]);
      forall k | 0 <= k < |tail| ensures s[0].0 <= tail[k].0 {
        assert tail[k] in multiset(tail);
        assert tail[k] == e || tail[k] in s[1..];
      }
    }
  }

  lemma {:induction false} SortSorts<T>(s: seq<Entry<T>>)
    ensures Ascending(Sort(s)) && multiset(Sort(s)) == multiset(s)
  {
    if s != [] {
      SortSorts(s[1..]);
      InsertSorts(s[0], Sort(s[1..]));
      InsertKeepsMembers(s[0], Sort(s[1..]));
      assert s == [s[0]] + s[1..];
    }
  }

  lemma HeadsAgree<T>(s: seq<Entry<T>>, t: seq<Entry<T>>)
    requires Ascending(s) && Ascending(t) && DistinctKeys(t) && multiset(s) == multiset(t) && s != []
    ensures t != [] && s[0] == t[0]
  {
    assert s[0] in multiset(t);
    var k :| 0 <= k < |t| && t[k] == s[0];
    assert t[0] in multiset(s);
    var j :| 0 <= j < |s| && s[j] == t[0];
    assert s[0].0 <= s[j].0;
    assert t[0].0 <= t[k].0;
    assert k == 0;
  }

  lemma TailsAgree<T>(s: seq<Entry<T>>, t: seq<Entry<T>>)
    requires s != [] && t != [] && s[0] == t[0] && multiset(s) == multiset(t)
    ensures multiset(s[1..]) == multiset(t[1..])
  {
    assert s == [s[0]] + s[1..] && t == [t[0]] + t[1..];
    assert multiset(s[1..]) == multiset(s) - multiset{s[0]};
    assert multiset(t[1..]) == multiset(t) - multiset{t[0]};
  }

  /** With distinct keys every sort gives the same sequence. */
  lemma {:induction false} ArrangementIsUnique<T>(s: seq<Entry<T>>, t: seq<Entry<T>>)
    requires Ascending(s) && Ascending(t) && DistinctKeys(t) && multiset(s) == multiset(t)
    ensures s == t
  {
    if s == [] {
      assert |multiset(t)| == 0;
    } else {
      HeadsAgree(s, t);
      TailsAgree(s, t);
      ArrangementIsUnique(s[1..], t[1..]);
    }
  }

  lemma DistinctPermutes<T>(s: seq<Entry<T>>, t: seq<Entry<T>>)
    requires multiset(s) == multiset(t) && DistinctKeys(s)
    ensures DistinctKeys(t)
  {
    if !DistinctKeys(t) {
      var i, j :| 0 <= i < j < |t| && t[i].0 == t[j].0;
      assert t[i] in multiset(s) && t[j] in multiset(s);
      var a :| 0 <= a < |s| && s[a] == t[i];
      var b :| 0 <= b < |s| && s[b] == t[j];
      SameKey(s, a, b);
      assert t == t[..i] + [t[i]] + t[i + 1..j] + [t[j]] + t[j + 1..];
      assert multiset(t)[t[i]] >= 2;
      OnceOnly(s, t[i]);
    }
  }

  lemma SameKey<T>(s: seq<Entry<T>>, a: nat, b: nat)
    requires DistinctKeys(s) && a < |s| && b < |s| && s[a].0 == s[b].0
    ensures a == b
  {
  }

  lemma {:induction false} OnceOnly<T>(s: seq<Entry<T>>, e: Entry<T>)
    requires DistinctKeys(s)
    ensures multiset(s)[e] <= 1
  {
    if s != [] {
      OnceOnly(s[1..], e);
      assert s == [s[0]] + s[1..];
      if s[0] == e {
        assert e !in s[1..];
      }
    }
  }

  /** Sorting brings equal keys together: comparing neighbours finds a
      duplicate exactly when there is one, and names the least. */
  method HasDuplicateKey<T>(s: seq<Entry<T>>) returns (found: bool, key: nat)
    ensures found <==> !DistinctKeys(s)
    ensures found ==> exists i, j :: 0 <= i < j < |Sort(s)| && Sort(s)[i].0 == key == Sort(s)[j].0
    ensures found ==> forall i, j :: 0 <= i < j < |Sort(s)| && Sort(s)[i].0 == Sort(s)[j].0 ==> key <= Sort(s)[i].0
  {
    var sorted := Sort(s);
    SortSorts(s);
    if s == [] {
      return false, 0;
    }
    for i := 1 to |sorted|
      invariant forall a, b :: 0 <= a < b < i ==> sorted[a].0 < sorted[b].0
    {
      if sorted[i - 1].0 == sorted[i].0 {
        if DistinctKeys(s) {
          DistinctPermutes(s, sorted);
        }
        return true, sorted[i].0;
      }
    }
    DistinctPermutes(sorted, s);
    return false, 0;
  }

  function ToMap<T>(s: seq<Entry<T>>): map<nat, T> {
    if s == [] then map[] else ToMap(s[..|s| - 1])[s[|s| - 1].0 := s[|s| - 1].1]
  }

  lemma {:induction false} KeysOfMap<T>(s: seq<Entry<T>>, k: nat)
    ensures k in ToMap(s) <==> exists i :: 0 <= i < |s| && s[i].0 == k
  {
    if s != [] {
      var n := |s| - 1;
      KeysOfMap(s[..n], k);
      if k in ToMap(s[..n]) {
        var i :| 0 <= i < n && s[..n][i].0 == k;
        assert s[i].0 == k;
      }
      if i :| 0 <= i < |s| && s[i].0 == k {
        assert i == n || s[..n][i].0 == k;
      }
    }
  }

  lemma MapGrows<T>(m: map<nat, T>, k: nat, v: T)
    requires k !in m
    ensures |m[k := v]| == |m| + 1
  {
    assert m[k := v].Keys == m.Keys + {k};
  }

  lemma {:induction false} MapOfDistinct<T>(s: seq<Entry<T>>)
    requires DistinctKeys(s)
    ensures |ToMap(s)| == |s|
    ensures forall i :: 0 <= i < |s| ==> s[i].0 in ToMap(s) && ToMap(s)[s[i].0] == s[i].1
  {
    if s != [] {
      var n := |s| - 1;
      MapOfDistinct(s[..n]);
      KeysOfMap(s[..n], s[n].0);
      MapGrows(ToMap(s[..n]), s[n].0, s[n].1);
      forall i | 0 <= i < n ensures s[i].0 in ToMap(s) && ToMap(s)[s[i].0] == s[i].1 {
        assert s[..n][i] == s[i];
      }
    }
  }

  /** A map no larger than the entries, holding each of them, is their map. */
  lemma MapIsExact<T>(s: seq<Entry<T>>, m: map<nat, T>)
    requires DistinctKeys(s) && |m| == |s|
    requires forall i :: 0 <= i < |s| ==> s[i].0 in m && m[s[i].0] == s[i].1
    ensures m == ToMap(s)
  {
    MapOfDistinct(s);
    forall k | k in ToMap(s) ensures k in m && m[k] == ToMap(s)[k] {
      KeysOfMap(s, k);
      var i :| 0 <= i < |s| && s[i].0 == k;
    }
    assert |ToMap(s).Keys| == |ToMap(s)| && |m.Keys| == |m|;
    SameSizeKeys(ToMap(s).Keys, m.Keys);
  }

  lemma {:induction false} SameSizeKeys(a: set<nat>, b: set<nat>)
    requires a <= b && |a| == |b|
    ensures a == b
  {
    if a != {} {
      var x :| x in a;
      assert |a - {x}| == |b - {x}|;
      SameSizeKeys(a - {x}, b - {x});
      assert a == (a - {x}) + {x} && b == (b - {x}) + {x};
    }
  }
}
