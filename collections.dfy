/** Python list and dict behaviour the scripts rely on: duplicate-free lists, `dict.fromkeys`
    de-duplication, `list.remove`, and insertion-ordered dictionaries. */
module Collections {

  import opened Wrappers

  predicate NoDups<T(==, !new)>(s: seq<T>)
  {
    forall i, j :: 0 <= i < j < |s| ==> s[i] != s[j]
  }

  /** `list(dict.fromkeys(s))`: the first occurrence of every element, in order. */
  function Dedup<T(==, !new)>(s: seq<T>): (r: seq<T>)
    ensures NoDups(r)
    ensures forall x :: x in r <==> x in s
    ensures |r| <= |s|
  {
    if s == [] then []
    else
      var r := Dedup(s[..|s| - 1]);
      assert forall x :: x in s <==> x in s[..|s| - 1] || x == s[|s| - 1];
      if s[|s| - 1] in r then r else r + [s[|s| - 1]]
  }

  /** The first `i` elements of the first `i + 1`. */
  lemma PrefixOfPrefix<T>(s: seq<T>, i: nat)
    requires i < |s|
    ensures s[..i + 1][..i] == s[..i] && s[..i + 1][i] == s[i] && |s[..i + 1]| == i + 1
  {
  }

  /** Appending all but the last element and then the last appends the whole list. */
  lemma AppendLast<T>(a: seq<T>, s: seq<T>)
    requires s != []
    ensures a + s[..|s| - 1] + [s[|s| - 1]] == a + s
  {
  }

  lemma SnocMultiset<T>(s: seq<T>)
    requires s != []
    ensures multiset(s) == multiset(s[..|s| - 1]) + multiset{s[|s| - 1]}
  {
    assert s == s[..|s| - 1] + [s[|s| - 1]];
  }

  /** The suffix from `i` starts with `s[i]` and continues with the suffix from `i + 1`. */
  lemma DropOne<T>(s: seq<T>, i: nat)
    requires i < |s|
    ensures s[i..] != [] && s[i..][0] == s[i] && s[i..][1..] == s[i + 1..]
  {
  }

  /** Concatenation regroups. */
  lemma Associative<T>(a: seq<T>, b: seq<T>, c: seq<T>)
    ensures a + (b + c) == (a + b) + c
  {
  }

  /** `[f(x) for x in s]` */
  function MapSeq<A, B>(s: seq<A>, f: A -> B): (r: seq<B>)
    ensures |r| == |s|
  {
    if s == [] then [] else MapSeq(s[..|s| - 1], f) + [f(s[|s| - 1])]
  }

  /** The concatenation of `f` of each element, in order. */
  function FlatMap<A, B>(s: seq<A>, f: A -> seq<B>): seq<B>
  {
    if s == [] then [] else FlatMap(s[..|s| - 1], f) + f(s[|s| - 1])
  }

  lemma FlatMapNext<A, B>(s: seq<A>, f: A -> seq<B>, i: nat)
    requires i < |s|
    ensures FlatMap(s[..i + 1], f) == FlatMap(s[..i], f) + f(s[i])
  {
    PrefixOfPrefix(s, i);
  }

  lemma {:induction false} FlatMapAppend<A, B>(a: seq<A>, b: seq<A>, f: A -> seq<B>)
    ensures FlatMap(a + b, f) == FlatMap(a, f) + FlatMap(b, f)
    decreases |b|
  {
    if b == [] {
      assert a + b == a;
    } else {
      var n := |b| - 1;
      assert (a + b)[..|a + b| - 1] == a + b[..n];
      FlatMapAppend(a, b[..n], f);
    }
  }

  /** An element of a flat map comes from the image of some element. */
  lemma {:induction false} FlatMapMembers<A, B>(s: seq<A>, f: A -> seq<B>, x: B)
    ensures x in FlatMap(s, f) <==> exists i :: 0 <= i < |s| && x in f(s[i])
  {
    if s != [] {
      var n := |s| - 1;
      var p := s[..n];
      FlatMapMembers(p, f, x);
      assert x in FlatMap(s, f) <==> x in FlatMap(p, f) || x in f(s[n]);
      if x in FlatMap(p, f) {
        var i :| 0 <= i < |p| && x in f(p[i]);
        assert p[i] == s[i];
      }
      if exists i :: 0 <= i < |s| && x in f(s[i]) {
        var i :| 0 <= i < |s| && x in f(s[i]);
        if i < n {
          assert p[i] == s[i];
        }
      }
    }
  }

  lemma {:induction false} MapSeqAt<A, B>(s: seq<A>, f: A -> B, i: nat)
    requires i < |s|
    ensures MapSeq(s, f)[i] == f(s[i])
  {
    var n := |s| - 1;
    var p := s[..n];
    if i < n {
      MapSeqAt(p, f, i);
      assert p[i] == s[i];
    }
  }

  /** Extending a prefix by one element extends its de-duplication by that element unless it occurred. */
  lemma DedupSnoc<T(!new)>(s: seq<T>, i: nat)
    requires i < |s|
    ensures Dedup(s[..i + 1]) == if s[i] in s[..i] then Dedup(s[..i]) else Dedup(s[..i]) + [s[i]]
  {
    assert s[..i + 1][..i] == s[..i];
  }

  lemma {:induction false} DedupOfNoDups<T(!new)>(s: seq<T>)
    requires NoDups(s)
    ensures Dedup(s) == s
  {
    if s != [] {
      var p := s[..|s| - 1];
      assert NoDups(p);
      DedupOfNoDups(p);
      assert s[|s| - 1] !in p;
      assert p + [s[|s| - 1]] == s;
    }
  }

  /** Dedup keeps the order of first occurrences: an element whose first occurrence comes earlier comes earlier. */
  lemma {:induction false} DedupKeepsFirstOrder<T(!new)>(s: seq<T>, i: nat, j: nat)
    requires i < j < |s|
    requires s[j] !in s[..j] && s[i] !in s[..i]
    ensures exists a, b :: 0 <= a < b < |Dedup(s)| && Dedup(s)[a] == s[i] && Dedup(s)[b] == s[j]
  {
    var p := s[..|s| - 1];
    var r := Dedup(p);
    if j == |s| - 1 {
      assert s[i] in p;
      assert s[j] !in p by { assert s[..j] == p; }
      assert s[j] !in r;
      var a :| 0 <= a < |r| && r[a] == s[i];
      var d := r + [s[j]];
      assert Dedup(s) == d;
      assert d[a] == s[i] && d[|r|] == s[j];
    } else {
      assert p[..j] == s[..j] && p[..i] == s[..i];
      DedupKeepsFirstOrder(p, i, j);
      var a, b :| 0 <= a < b < |r| && r[a] == s[i] && r[b] == s[j];
      if s[|s| - 1] in r {
        assert Dedup(s) == r;
      } else {
        var d := r + [s[|s| - 1]];
        assert Dedup(s) == d;
        assert d[a] == r[a] && d[b] == r[b];
      }
    }
  }

  /** A set drawn from a list has at most as many elements as the list. */
  lemma {:induction false} SubsetCard<T(!new)>(S: set<T>, s: seq<T>)
    requires forall x :: x in S ==> x in s
    ensures |S| <= |s|
  {
    if s != [] {
      var p := s[..|s| - 1];
      var last := s[|s| - 1];
      var S' := S - {last};
      forall x | x in S' ensures x in p {
        assert x in s && x != last;
        var k :| 0 <= k < |s| && s[k] == x;
        assert p[k] == x;
      }
      SubsetCard(S', p);
    }
  }

  /** The members of a duplicate-free list are as many as its length. */
  lemma {:induction false} NoDupsCard<T(!new)>(s: seq<T>)
    requires NoDups(s)
    ensures |set x | x in s| == |s|
  {
    if s != [] {
      var p := s[..|s| - 1];
      var last := s[|s| - 1];
      assert NoDups(p);
      NoDupsCard(p);
      assert last !in p;
      assert s == p + [last];
      assert (set x | x in s) == (set x | x in p) + {last};
    }
  }

  /** Two duplicate-free lists with the same members have the same length. */
  lemma SameMembersSameLength<T(!new)>(a: seq<T>, b: seq<T>)
    requires NoDups(a) && NoDups(b) && (forall x :: x in a <==> x in b)
    ensures |a| == |b|
  {
    NoDupsCard(a);
    NoDupsCard(b);
    assert (set x | x in a) == (set x | x in b);
  }

  /** `s.index(x)`, or -1 where Python raises `ValueError`. */
  function IndexOf<T(==)>(s: seq<T>, x: T): (i: int)
    ensures -1 <= i < |s|
    ensures i == -1 <==> x !in s
    ensures i >= 0 ==> s[i] == x && x !in s[..i]
  {
    if s == [] then -1
    else if s[0] == x then 0
    else
      var k := IndexOf(s[1..], x);
      assert k >= 0 ==> s[..k + 1] == [s[0]] + s[1..][..k];
      if k == -1 then -1 else k + 1
  }

  /** `list.remove(x)`: drop the first occurrence, or `None` where Python raises `ValueError`. */
  function RemoveFirst<T(==)>(s: seq<T>, x: T): (r: Option<seq<T>>)
    ensures r.None? <==> x !in s
    ensures r.Some? ==> |r.value| == |s| - 1 && multiset(r.value) == multiset(s) - multiset{x}
  {
    var i := IndexOf(s, x);
    if i < 0 then None
    else
      assert s == s[..i] + [x] + s[i + 1..];
      Some(s[..i] + s[i + 1..])
  }

  /** Removing an element of a duplicate-free list removes its only occurrence and keeps the list free
      of duplicates. */
  lemma RemoveFirstNoDups<T(!new)>(s: seq<T>, x: T)
    requires NoDups(s) && x in s
    ensures RemoveFirst(s, x).Some?
    ensures var t := RemoveFirst(s, x).value;
      NoDups(t) && x !in t && forall y :: y in t <==> y in s && y != x
  {
    var i := IndexOf(s, x);
    var t := s[..i] + s[i + 1..];
    assert RemoveFirst(s, x) == Some(t);
    assert forall k :: 0 <= k < |t| ==> t[k] == s[if k < i then k else k + 1];
    assert NoDups(t) by {
      forall a, b | 0 <= a < b < |t| ensures t[a] != t[b] {
        assert t[a] == s[if a < i then a else a + 1] && t[b] == s[if b < i then b else b + 1];
      }
    }
    forall y ensures y in t <==> y in s && y != x {
      if y in s && y != x {
        var k :| 0 <= k < |s| && s[k] == y;
        assert t[if k < i then k else k - 1] == y;
      }
    }
  }

  /** A list is free of duplicates exactly when no element occurs twice in its multiset. */
  lemma {:induction false} NoDupsCounts<T(!new)>(s: seq<T>)
    ensures NoDups(s) <==> forall x :: multiset(s)[x] <= 1
  {
    if s != [] {
      var t := s[1..];
      NoDupsCounts(t);
      assert s == [s[0]] + t;
      assert multiset(s) == multiset{s[0]} + multiset(t);
      if NoDups(s) {
        assert NoDups(t);
        assert s[0] !in t;
      } else {
        var i, j :| 0 <= i < j < |s| && s[i] == s[j];
        if i == 0 {
          assert s[0] in t by { assert t[j - 1] == s[j]; }
          assert multiset(s)[s[0]] >= 2;
        } else {
          assert !NoDups(t) by { assert t[i - 1] == t[j - 1]; }
          var x :| multiset(t)[x] > 1;
          assert multiset(s)[x] > 1;
        }
      }
    }
  }

  /** Two duplicate-free lists with no common element concatenate to a duplicate-free list. */
  lemma {:induction false} NoDupsAppend<T(!new)>(a: seq<T>, b: seq<T>)
    requires NoDups(a) && NoDups(b) && forall x :: x in a ==> x !in b
    ensures NoDups(a + b)
  {
    var s := a + b;
    forall i, j | 0 <= i < j < |s| ensures s[i] != s[j] {
      if i < |a| && j >= |a| {
        assert s[i] in a && s[j] == b[j - |a|];
      }
    }
  }

  /** `[x for x in s if p(x)]` */
  function Filter<T(!new)>(s: seq<T>, p: T -> bool): (r: seq<T>)
    ensures |r| <= |s|
    ensures forall x :: x in r <==> x in s && p(x)
    ensures forall i :: 0 <= i < |r| ==> p(r[i])
  {
    if s == [] then []
    else
      var t := Filter(s[1..], p);
      assert forall x :: x in s <==> x == s[0] || x in s[1..];
      if p(s[0]) then [s[0]] + t else t
  }

  /** Filtering distributes over concatenation. */
  lemma {:induction false} FilterAppend<T(!new)>(a: seq<T>, b: seq<T>, p: T -> bool)
    ensures Filter(a + b, p) == Filter(a, p) + Filter(b, p)
  {
    if a == [] {
      assert a + b == b;
    } else {
      assert (a + b)[0] == a[0] && (a + b)[1..] == a[1..] + b;
      FilterAppend(a[1..], b, p);
    }
  }

  /** Filtering one element more. */
  lemma FilterSnoc<T(!new)>(s: seq<T>, p: T -> bool, j: nat)
    requires j < |s|
    ensures Filter(s[..j + 1], p) == Filter(s[..j], p) + (if p(s[j]) then [s[j]] else [])
  {
    assert s[..j + 1] == s[..j] + [s[j]];
    FilterAppend(s[..j], [s[j]], p);
    assert [s[j]][1..] == [];
  }

  /** Filtering a duplicate-free list leaves it free of duplicates. */
  lemma {:induction false} FilterNoDups<T(!new)>(s: seq<T>, p: T -> bool)
    requires NoDups(s)
    ensures NoDups(Filter(s, p))
  {
    if s != [] {
      assert NoDups(s[1..]);
      FilterNoDups(s[1..], p);
      assert s[0] !in s[1..];
    }
  }

  /** The position of the first element satisfying `p`, or -1. */
  function FirstIndexWhere<T>(s: seq<T>, p: T -> bool): (i: int)
    ensures -1 <= i < |s|
    ensures i >= 0 ==> p(s[i])
    ensures forall j :: 0 <= j < |s| && (i < 0 || j < i) ==> !p(s[j])
  {
    if s == [] then -1
    else if p(s[0]) then 0
    else
      var i := FirstIndexWhere(s[1..], p);
      assert forall j :: 1 <= j < |s| ==> s[j] == s[1..][j - 1];
      if i < 0 then -1 else i + 1
  }

  /** `next((x for x in s if p(x)), None)`: the first element satisfying `p`. */
  function FirstWhere<T>(s: seq<T>, p: T -> bool): (r: Option<T>)
    ensures r.None? <==> forall i :: 0 <= i < |s| ==> !p(s[i])
    ensures r.Some? ==> exists i :: 0 <= i < |s| && s[i] == r.value && p(s[i]) && forall j :: 0 <= j < i ==> !p(s[j])
  {
    var i := FirstIndexWhere(s, p);
    if i < 0 then None else Some(s[i])
  }

  /** The first element satisfying `p` is the first element of the filtered list. */
  lemma {:induction false} FirstWhereFilter<T(!new)>(s: seq<T>, p: T -> bool)
    ensures FirstWhere(s, p) == if Filter(s, p) == [] then None else Some(Filter(s, p)[0])
  {
    if s != [] && !p(s[0]) {
      FirstWhereFilter(s[1..], p);
      assert FirstIndexWhere(s, p) == (if FirstIndexWhere(s[1..], p) < 0 then -1 else FirstIndexWhere(s[1..], p) + 1);
    }
  }

  /** A Python `dict`: its keys in insertion order and the mapping itself. */
  datatype Dict<K(!new), V> = Dict(keys: seq<K>, items: map<K, V>)
  {
    ghost predicate Valid()
    {
      NoDups(keys) && (forall k :: k in items <==> k in keys)
    }
  }

  function EmptyDict<K(!new), V>(): (d: Dict<K, V>)
    ensures d.Valid() && d.keys == []
  {
    Dict([], map[])
  }

  /** `d[k] = v`: an existing key keeps its position, a new key goes last. */
  function Put<K(!new), V>(d: Dict<K, V>, k: K, v: V): (r: Dict<K, V>)
    requires d.Valid()
    ensures r.Valid()
    ensures r.items == d.items[k := v]
    ensures r.keys == if k in d.items then d.keys else d.keys + [k]
  {
    if k in d.items then Dict(d.keys, d.items[k := v]) else Dict(d.keys + [k], d.items[k := v])
  }

  /** `d[k] = v` for each pair present, in order, from the empty dictionary. */
  function PutAll<K(!new), V>(entries: seq<Option<(K, V)>>): (d: Dict<K, V>)
    ensures d.Valid()
  {
    if entries == [] then EmptyDict()
    else
      var d := PutAll(entries[..|entries| - 1]);
      var e := entries[|entries| - 1];
      if e.None? then d else Put(d, e.value.0, e.value.1)
  }

  /** Whether entry `i` sets key `k`. */
  predicate Sets<K(==), V>(entries: seq<Option<(K, V)>>, i: int, k: K)
    requires 0 <= i < |entries|
  {
    entries[i].Some? && entries[i].value.0 == k
  }

  /** The map part of `PutAll`. */
  function Items<K(!new), V>(entries: seq<Option<(K, V)>>): map<K, V>
  {
    if entries == [] then map[]
    else
      var m := Items(entries[..|entries| - 1]);
      var e := entries[|entries| - 1];
      if e.None? then m else m[e.value.0 := e.value.1]
  }

  lemma {:induction false} PutAllItems<K(!new), V>(entries: seq<Option<(K, V)>>)
    ensures PutAll(entries).items == Items(entries)
  {
    if entries != [] {
      PutAllItems(entries[..|entries| - 1]);
    }
  }

  /** A key is present exactly when some entry sets it. */
  lemma {:induction false} PutAllKeys<K(!new), V>(entries: seq<Option<(K, V)>>, k: K)
    ensures k in PutAll(entries).items <==> exists i :: 0 <= i < |entries| && Sets(entries, i, k)
  {
    PutAllItems(entries);
    ItemsKeys(entries, k);
  }

  lemma {:induction false} ItemsKeys<K(!new), V>(entries: seq<Option<(K, V)>>, k: K)
    ensures k in Items(entries) <==> exists i :: 0 <= i < |entries| && Sets(entries, i, k)
  {
    if entries != [] {
      var n := |entries| - 1;
      var p := entries[..n];
      ItemsKeys(p, k);
      assert k in Items(entries) <==> k in Items(p) || Sets(entries, n, k);
      if k in Items(p) {
        var i :| 0 <= i < n && Sets(p, i, k);
        assert entries[i] == p[i] && Sets(entries, i, k);
      }
      if exists i :: 0 <= i < |entries| && Sets(entries, i, k) {
        var i :| 0 <= i < |entries| && Sets(entries, i, k);
        if i < n {
          assert entries[i] == p[i] && Sets(p, i, k);
        }
      }
    }
  }

  /** A present key holds the value of the last entry that sets it. */
  lemma PutAllLatest<K(!new), V>(entries: seq<Option<(K, V)>>, k: K)
    requires k in PutAll(entries).items
    ensures exists i :: 0 <= i < |entries| && entries[i] == Some((k, PutAll(entries).items[k])) &&
                        forall j :: i < j < |entries| ==> !Sets(entries, j, k)
  {
    PutAllItems(entries);
    ItemsLatest(entries, k);
  }

  lemma {:induction false} ItemsLatest<K(!new), V>(entries: seq<Option<(K, V)>>, k: K)
    requires k in Items(entries)
    ensures exists i :: 0 <= i < |entries| && entries[i] == Some((k, Items(entries)[k])) &&
                        forall j :: i < j < |entries| ==> !Sets(entries, j, k)
  {
    var n := |entries| - 1;
    var p := entries[..n];
    if Sets(entries, n, k) {
      assert entries[n] == Some((k, Items(entries)[k]));
    } else {
      assert k in Items(p) && Items(entries)[k] == Items(p)[k];
      ItemsLatest(p, k);
      var i :| 0 <= i < n && p[i] == Some((k, Items(p)[k])) && forall j :: i < j < n ==> !Sets(p, j, k);
      assert entries[i] == Some((k, Items(entries)[k]));
      forall j | i < j < |entries| ensures !Sets(entries, j, k) {
        if j < n {
          assert entries[j] == p[j] && !Sets(p, j, k);
        }
      }
    }
  }

  lemma PutAllSnoc<K(!new), V>(entries: seq<Option<(K, V)>>, e: Option<(K, V)>)
    ensures PutAll(entries + [e]) == if e.None? then PutAll(entries) else Put(PutAll(entries), e.value.0, e.value.1)
  {
    assert (entries + [e])[..|entries|] == entries;
  }
}
