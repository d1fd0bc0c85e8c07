/** NDN names, their canonical order, and the two library containers the
    program keeps them in: `std::set<Name>` (a Dafny `set`, read out in canonical
    order) and `std::vector<Name>` (a Dafny `seq`). */
module Names {
  type Byte = x: int | 0 <= x < 256
  type Bytes = seq<Byte>

  /** A typed name component; two components are equal when type and value are. */
  datatype Component = Component(kind: nat, value: Bytes)
  type Name = seq<Component>

  datatype Option<+T> = None | Some(value: T)

  const GENERIC_COMPONENT: nat := 8

  /** The canonical order compares component types, then value lengths, then bytes. */
  predicate BytesLess(a: Bytes, b: Bytes)
    requires |a| == |b|
  {
    a != [] && (a[0] < b[0] || (a[0] == b[0] && BytesLess(a[1..], b[1..])))
  }

  predicate ComponentLess(a: Component, b: Component) {
    || a.kind < b.kind
    || (a.kind == b.kind && |a.value| < |b.value|)
    || (a.kind == b.kind && |a.value| == |b.value| && BytesLess(a.value, b.value))
  }

  predicate NameLess(a: Name, b: Name) {
    b != [] && (a == [] || ComponentLess(a[0], b[0]) || (a[0] == b[0] && NameLess(a[1..], b[1..])))
  }

  lemma {:induction false} BytesOrder(a: Bytes, b: Bytes)
    requires |a| == |b|
    ensures BytesLess(a, b) || a == b || BytesLess(b, a)
    ensures !(BytesLess(a, b) && (a == b || BytesLess(b, a)))
  {
    if a != [] {
      BytesOrder(a[1..], b[1..]);
      assert a == [a[0]] + a[1..] && b == [b[0]] + b[1..];
    }
  }

  lemma {:induction false} BytesTransitive(a: Bytes, b: Bytes, c: Bytes)
    requires |a| == |b| == |c| && BytesLess(a, b) && BytesLess(b, c)
    ensures BytesLess(a, c)
  {
    if a[0] == b[0] == c[0] { BytesTransitive(a[1..], b[1..], c[1..]); }
  }

  lemma ComponentOrder(a: Component, b: Component)
    ensures ComponentLess(a, b) || a == b || ComponentLess(b, a)
    ensures !(ComponentLess(a, b) && (a == b || ComponentLess(b, a)))
  {
    if |a.value| == |b.value| { BytesOrder(a.value, b.value); }
  }

  lemma ComponentTransitive(a: Component, b: Component, c: Component)
    requires ComponentLess(a, b) && ComponentLess(b, c)
    ensures ComponentLess(a, c)
  {
    if |a.value| == |b.value| == |c.value| && a.kind == b.kind == c.kind {
      BytesTransitive(a.value, b.value, c.value);
    }
  }

  /** The canonical order is a strict total order on names. */
  lemma {:induction false} NameOrder(a: Name, b: Name)
    ensures NameLess(a, b) || a == b || NameLess(b, a)
    ensures !(NameLess(a, b) && (a == b || NameLess(b, a)))
  {
    if a != [] && b != [] {
      ComponentOrder(a[0], b[0]);
      NameOrder(a[1..], b[1..]);
      assert a == [a[0]] + a[1..] && b == [b[0]] + b[1..];
    }
  }

  lemma {:induction false} NameTransitive(a: Name, b: Name, c: Name)
    requires NameLess(a, b) && NameLess(b, c)
    ensures NameLess(a, c)
  {
    if a != [] {
      if ComponentLess(a[0], b[0]) && ComponentLess(b[0], c[0]) {
        ComponentTransitive(a[0], b[0], c[0]);
      } else if a[0] == b[0] == c[0] {
        NameTransitive(a[1..], b[1..], c[1..]);
      }
    }
  }

  function Elements(s: seq<Name>): set<Name> { set n | n in s }

  ghost predicate NoDup(s: seq<Name>) { forall i, j :: 0 <= i < j < |s| ==> s[i] != s[j] }

  /** Strictly ascending: how a `std::set<Name>` is iterated. */
  ghost predicate Ascending(s: seq<Name>) { forall i, j :: 0 <= i < j < |s| ==> NameLess(s[i], s[j]) }

  lemma AscendingHasNoDup(s: seq<Name>)
    requires Ascending(s)
    ensures NoDup(s)
  {
    forall i, j | 0 <= i < j < |s| ensures s[i] != s[j] { NameOrder(s[i], s[j]); }
  }

  lemma {:induction false} NoDupSize(s: seq<Name>)
    requires NoDup(s)
    ensures |Elements(s)| == |s|
  {
    if s != [] {
      var n := |s| - 1;
      NoDupSize(s[..n]);
      ElementsPrefix(s, n);
      assert s[..n + 1] == s;
      assert s[n] !in s[..n];
    }
  }

  lemma {:induction false} OccursOnce(s: seq<Name>, n: Name)
    requires NoDup(s)
    ensures multiset(s)[n] == if n in s then 1 else 0
  {
    if s != [] {
      OccursOnce(s[..|s| - 1], n);
      assert s == s[..|s| - 1] + [s[|s| - 1]];
    }
  }

  lemma SameMultiset(a: seq<Name>, b: seq<Name>)
    requires NoDup(a) && NoDup(b) && Elements(a) == Elements(b)
    ensures multiset(a) == multiset(b)
  {
    forall n ensures multiset(a)[n] == multiset(b)[n] {
      OccursOnce(a, n);
      OccursOnce(b, n);
      assert n in a <==> n in Elements(a);
      assert n in b <==> n in Elements(b);
    }
  }

  /** For duplicate-free lists, equal as multisets means equal as sets. */
  lemma SameNames(a: seq<Name>, b: seq<Name>)
    ensures multiset(a) == multiset(b) ==> Elements(a) == Elements(b)
    ensures NoDup(a) && NoDup(b) && Elements(a) == Elements(b) ==> multiset(a) == multiset(b)
  {
    if multiset(a) == multiset(b) {
      assert forall n :: n in a <==> n in multiset(a);
      assert forall n :: n in b <==> n in multiset(b);
    }
    if NoDup(a) && NoDup(b) && Elements(a) == Elements(b) { SameMultiset(a, b); }
  }

  /** Exactly the duplicate-free lists are compared as sets by comparing multisets: the
      other lists differ from the list of their own names. */
  lemma ComparedAsSets(a: seq<Name>)
    ensures NoDup(a) <==> forall b :: NoDup(b) ==> (multiset(a) == multiset(b) <==> Elements(a) == Elements(b))
  {
    if NoDup(a) {
      forall b | NoDup(b) ensures multiset(a) == multiset(b) <==> Elements(a) == Elements(b) { SameNames(a, b); }
    } else {
      var b := Listed(Elements(a));
      var i, j :| 0 <= i < j < |a| && a[i] == a[j];
      OccursTwice(a, i, j);
      OccursOnce(b, a[i]);
      assert NoDup(b) && Elements(a) == Elements(b) && multiset(a) != multiset(b);
    }
  }

  lemma OccursTwice(s: seq<Name>, i: nat, j: nat)
    requires i < j < |s| && s[i] == s[j]
    ensures multiset(s)[s[i]] >= 2
  {
    assert s == s[..i] + [s[i]] + s[i + 1..j] + [s[j]] + s[j + 1..];
  }

  lemma SubsetSize<T>(a: set<T>, b: set<T>)
    requires a <= b
    ensures |a| <= |b|
    ensures |a| == |b| ==> a == b
  {
    assert b == a + (b - a);
  }

  lemma {:induction false} LeastExists(s: set<Name>)
    requires s != {}
    ensures exists n :: n in s && forall m :: m in s && m != n ==> NameLess(n, m)
    decreases |s|
  {
    var x :| x in s;
    var rest := s - {x};
    if rest == {} {
      forall m | m in s ensures m == x { assert m == x || m in rest; }
    } else {
      LeastExists(rest);
      var n :| n in rest && forall m :: m in rest && m != n ==> NameLess(n, m);
      LeastOfMore(s, x, n);
    }
  }

  lemma LeastOfMore(s: set<Name>, x: Name, n: Name)
    requires x in s && n in s && n != x
    requires forall m :: m in s - {x} && m != n ==> NameLess(n, m)
    ensures exists l :: l in s && forall m :: m in s && m != l ==> NameLess(l, m)
  {
    NameOrder(x, n);
    var l := if NameLess(x, n) then x else n;
    forall m | m in s && m != l ensures NameLess(l, m) {
      if m != x && m != n {
        assert m in s - {x};
        if l == x { NameTransitive(x, n, m); }
      }
    }
  }

  /** The first name a loop over the set `s` meets. */
  ghost function Least(s: set<Name>): (n: Name)
    requires s != {}
    ensures n in s && forall m :: m in s && m != n ==> NameLess(n, m)
  {
    LeastExists(s);
    var n :| n in s && forall m :: m in s && m != n ==> NameLess(n, m);
    n
  }

  lemma PrependLeast(s: set<Name>, rest: seq<Name>)
    requires s != {} && Ascending(rest) && Elements(rest) == s - {Least(s)} && |rest| == |s| - 1
    ensures var v := [Least(s)] + rest; Ascending(v) && NoDup(v) && Elements(v) == s
  {
    var v := [Least(s)] + rest;
    assert Ascending(v) by {
      forall i, j | 0 <= i < j < |v| ensures NameLess(v[i], v[j]) {
        assert v[j] == rest[j - 1] && v[j] in Elements(rest);
        if i > 0 { assert v[i] == rest[i - 1]; }
      }
    }
    AscendingHasNoDup(v);
    assert Elements(v) == {Least(s)} + Elements(rest);
  }

  /** `std::vector<Name>(s.begin(), s.end())` for a `std::set<Name>` s. */
  ghost function Listed(s: set<Name>): (v: seq<Name>)
    ensures Ascending(v) && NoDup(v) && Elements(v) == s && |v| == |s|
    decreases |s|
  {
    if s == {} then [] else
      var n := Least(s);
      var rest := Listed(s - {n});
      PrependLeast(s, rest);
      [n] + rest
  }

  /** The members of the set before a name: as many as its position in the listing. */
  ghost function Below(s: set<Name>, n: Name): set<Name> { set m | m in s && NameLess(m, n) }

  /** The first k members of the set. */
  ghost function Firsts(s: set<Name>, k: nat): set<Name> { set n | n in s && |Below(s, n)| < k }

  lemma PositionIsRank(s: set<Name>, j: nat)
    requires j < |s|
    ensures |Below(s, Listed(s)[j])| == j
  {
    var v := Listed(s);
    forall m | m in Below(s, v[j]) ensures m in v[..j] {
      assert m in Elements(v);
      var i :| 0 <= i < |v| && v[i] == m;
      NameOrder(v[i], v[j]);
    }
    forall m | m in v[..j] ensures m in Below(s, v[j]) {
      assert m in Elements(v);
    }
    assert Below(s, v[j]) == Elements(v[..j]);
    NoDupSize(v[..j]);
  }

  lemma PlaceOf(s: set<Name>, n: Name) returns (j: nat)
    requires n in s
    ensures j < |s| && Listed(s)[j] == n && |Below(s, n)| == j
  {
    assert n in Elements(Listed(s));
    j :| 0 <= j < |Listed(s)| && Listed(s)[j] == n;
    PositionIsRank(s, j);
  }

  lemma InPrefixIff(v: seq<Name>, j: nat, k: nat)
    requires NoDup(v) && j < |v| && k <= |v|
    ensures v[j] in v[..k] <==> j < k
  {
    assert j < k ==> v[..k][j] == v[j];
  }

  lemma FirstIsListed(s: set<Name>, k: nat, n: Name)
    requires k <= |s|
    ensures n in Listed(s)[..k] <==> n in Firsts(s, k)
  {
    if n in s {
      var j := PlaceOf(s, n);
      InPrefixIff(Listed(s), j, k);
    } else {
      assert n !in Elements(Listed(s));
    }
  }

  /** The first k entries of the listing are the first k members. */
  lemma FirstsAreListed(s: set<Name>, k: nat)
    requires k <= |s|
    ensures Elements(Listed(s)[..k]) == Firsts(s, k)
  {
    forall n ensures n in Elements(Listed(s)[..k]) <==> n in Firsts(s, k) { FirstIsListed(s, k, n); }
  }

  lemma ElementsPrefix(s: seq<Name>, i: nat)
    requires i < |s|
    ensures Elements(s[..i + 1]) == Elements(s[..i]) + {s[i]}
  {
    assert s[..i + 1] == s[..i] + [s[i]];
  }

  lemma EmptyElements(w: seq<Name>)
    ensures Elements(w) == {} <==> w == []
  {
    assert w != [] ==> w[0] in Elements(w);
  }

  lemma {:induction false} AscendingUnique(v: seq<Name>, w: seq<Name>)
    requires Ascending(v) && Ascending(w) && Elements(v) == Elements(w)
    ensures v == w
  {
    if v == [] {
      EmptyElements(w);
    } else {
      EmptyElements(v);
      EmptyElements(w);
      assert v[0] in Elements(w) && w[0] in Elements(v);
      var i :| 0 <= i < |w| && w[i] == v[0];
      var j :| 0 <= j < |v| && v[j] == w[0];
      NameOrder(v[0], w[0]);
      assert v[0] == w[0];
      AscendingHasNoDup(v);
      AscendingHasNoDup(w);
      assert Elements(v[1..]) == Elements(v) - {v[0]} by {
        assert forall n :: n in Elements(v) && n != v[0] ==> n in v[1..];
      }
      assert Elements(w[1..]) == Elements(w) - {w[0]} by {
        assert forall n :: n in Elements(w) && n != w[0] ==> n in w[1..];
      }
      AscendingUnique(v[1..], w[1..]);
      assert v == [v[0]] + v[1..] && w == [w[0]] + w[1..];
    }
  }

  /** Decides the canonical order component by component. */
  method InsertSorted(v: seq<Name>, x: Name) returns (w: seq<Name>)
    requires Ascending(v) && x !in v
    ensures Ascending(w) && Elements(w) == Elements(v) + {x}
  {
    var i := 0;
    while i < |v| && NameLess(v[i], x)
      invariant 0 <= i <= |v|
      invariant forall j :: 0 <= j < i ==> NameLess(v[j], x)
    {
      i := i + 1;
    }
    if i < |v| {
      NameOrder(v[i], x);
      forall j | i < j < |v| ensures NameLess(x, v[j]) { NameTransitive(x, v[i], v[j]); }
    }
    w := v[..i] + [x] + v[i..];
    assert v == v[..i] + v[i..];
  }

  /** Copies a set of names into a vector in iteration order. */
  method ToVector(s: set<Name>) returns (v: seq<Name>)
    ensures v == Listed(s)
  {
    v := [];
    var rest := s;
    while rest != {}
      invariant rest <= s && Ascending(v) && Elements(v) == s - rest
      decreases |rest|
    {
      var x :| x in rest;
      assert x !in Elements(v);
      v := InsertSorted(v, x);
      rest := rest - {x};
    }
    AscendingUnique(v, Listed(s));
  }
}
