/** Listing the packages of a catalog part by stem and then by publisher, by sorting strings that hold
    both. */
module PackageNames {
  import opened CatalogParts
  import opened NestedLists
  import Strings

  /** Package stems are made of letters, digits and a few signs, all of which sort above "!". */
  predicate PlainStem(stem: string) {
    forall i :: 0 <= i < |stem| ==> stem[i] > '!'
  }

  ghost predicate PlainStems(d: Entries) {
    forall p, s :: p in d && s in d[p] ==> PlainStem(s)
  }

  function JoinedName(stem: string, pub: string): string {
    stem + "!" + pub
  }

  /** The position of the first "!", or the length of s. */
  function Bang(s: string): (i: nat)
    ensures i <= |s|
  {
    if s == "" || s[0] == '!' then 0 else 1 + Bang(s[1..])
  }

  /** entry.split("!", 1). */
  function Split(entry: string): (string, string) {
    var i := Bang(entry);
    (entry[..i], if i < |entry| then entry[i + 1..] else "")
  }

  lemma {:induction false} BangAfter(stem: string, rest: string)
    requires PlainStem(stem)
    ensures Bang(stem + "!" + rest) == |stem|
  {
    var s := stem + "!" + rest;
    if stem != "" {
      assert s[0] == stem[0] > '!' && s[1..] == stem[1..] + "!" + rest;
      BangAfter(stem[1..], rest);
    }
  }

  lemma SplitJoined(stem: string, pub: string)
    requires PlainStem(stem)
    ensures Split(JoinedName(stem, pub)) == (stem, pub)
  {
    BangAfter(stem, pub);
    var s := JoinedName(stem, pub);
    assert s[..|stem|] == stem && s[|stem| + 1..] == pub;
  }

  /** The joined strings sort by stem first and by publisher second, also when one stem is the
      beginning of the other. */
  lemma {:induction false} JoinedOrder(s: string, p: string, t: string, q: string)
    requires PlainStem(s) && PlainStem(t)
    ensures Strings.Less(JoinedName(s, p), JoinedName(t, q)) <==> Strings.Less(s, t) || (s == t && Strings.Less(p, q))
  {
    var a, b := JoinedName(s, p), JoinedName(t, q);
    if s == "" || t == "" {
      assert s == "" ==> a[0] == '!' && a[1..] == p;
      assert t == "" ==> b[0] == '!' && b[1..] == q;
    } else {
      assert a[1..] == JoinedName(s[1..], p) && b[1..] == JoinedName(t[1..], q);
      assert PlainStem(s[1..]) && PlainStem(t[1..]);
      JoinedOrder(s[1..], p, t[1..], q);
      assert s == [s[0]] + s[1..] && t == [t[0]] + t[1..];
    }
  }

  /** The last position of a publisher in the order given; the length of the list if it is not there. */
  function Position(pubs: seq<string>, pub: string): nat {
    if pubs == [] then 0
    else if pubs[|pubs| - 1] == pub then |pubs| - 1
    else
      var i := Position(pubs[..|pubs| - 1], pub);
      if pub in pubs[..|pubs| - 1] then i else |pubs|
  }

  lemma {:induction false} PositionIs(pubs: seq<string>, pub: string)
    requires pub in pubs
    ensures Position(pubs, pub) < |pubs| && pubs[Position(pubs, pub)] == pub
    ensures forall k :: Position(pubs, pub) < k < |pubs| ==> pubs[k] != pub
  {
    if pubs[|pubs| - 1] != pub {
      var init := pubs[..|pubs| - 1];
      assert pubs == init + [pubs[|pubs| - 1]];
      PositionIs(init, pub);
      assert forall k :: 0 <= k < |init| ==> pubs[k] == init[k];
    }
  }

  /** How two entries compare in the sort: as strings, or by stem and position. */
  predicate KeyLess(pubs: seq<string>, a: string, b: string) {
    if pubs == [] then Strings.Less(a, b)
    else
      || Strings.Less(Split(a).0, Split(b).0)
      || (Split(a).0 == Split(b).0 && Position(pubs, Split(a).1) < Position(pubs, Split(b).1))
  }

  /** By stem, then by publisher: alphabetically, or in the order given. */
  predicate Precedes(pubs: seq<string>, a: (Publisher, string), b: (Publisher, string)) {
    || Strings.Less(a.1, b.1)
    || (a.1 == b.1 && if pubs == [] then Strings.Less(a.0, b.0) else Position(pubs, a.0) < Position(pubs, b.0))
  }

  function JoinedPair(x: (Publisher, string)): string {
    JoinedName(x.1, x.0)
  }

  lemma KeyLessPrecedes(pubs: seq<string>, a: (Publisher, string), b: (Publisher, string))
    requires PlainStem(a.1) && PlainStem(b.1)
    ensures KeyLess(pubs, JoinedPair(a), JoinedPair(b)) <==> Precedes(pubs, a, b)
  {
    JoinedOrder(a.1, a.0, b.1, b.0);
    SplitJoined(a.1, a.0);
    SplitJoined(b.1, b.0);
  }

  lemma PrecedesTotal(pubs: seq<string>, a: (Publisher, string), b: (Publisher, string))
    requires a != b && (pubs != [] ==> a.0 in pubs && b.0 in pubs)
    ensures Precedes(pubs, a, b) || Precedes(pubs, b, a)
  {
    Strings.Total(a.1, b.1);
    Strings.Total(a.0, b.0);
    if pubs != [] {
      PositionIs(pubs, a.0);
      PositionIs(pubs, b.0);
    }
  }

  lemma PrecedesTransitive(pubs: seq<string>, a: (Publisher, string), b: (Publisher, string), c: (Publisher, string))
    requires Precedes(pubs, a, b) && Precedes(pubs, b, c)
    ensures Precedes(pubs, a, c)
  {
    if Strings.Less(a.1, b.1) && Strings.Less(b.1, c.1) {
      Strings.Transitive(a.1, b.1, c.1);
    }
    Strings.Irreflexive(a.1);
    if pubs == [] && a.1 == b.1 == c.1 {
      Strings.Transitive(a.0, b.0, c.0);
    }
  }

  /** The packages wanted. */
  ghost predicate NameWanted(d: Entries, pubs: seq<string>, x: (Publisher, string)) {
    x in Packages(d) && (pubs == [] || x.0 in pubs)
  }

  ghost predicate Ordered(pubs: seq<string>, xs: seq<(Publisher, string)>) {
    forall i, j :: 0 <= i < j < |xs| ==> Precedes(pubs, xs[i], xs[j])
  }

  ghost predicate Joins(xs: seq<(Publisher, string)>, entries: seq<string>) {
    |xs| == |entries| && forall i :: 0 <= i < |xs| ==> entries[i] == JoinedPair(xs[i])
  }

  /** Put one more entry where the sort would put it; no two entries are the same. */
  method Insert(d: Entries, pubs: seq<string>, entries: seq<string>, x: (Publisher, string),
                ghost xs: seq<(Publisher, string)>)
    returns (r: seq<string>, ghost ys: seq<(Publisher, string)>)
    requires PlainStems(d) && Joins(xs, entries) && Ordered(pubs, xs)
    requires NameWanted(d, pubs, x) && x !in xs && forall y :: y in xs ==> NameWanted(d, pubs, y)
    ensures Joins(ys, r) && Ordered(pubs, ys)
    ensures forall y :: y in ys <==> y in xs || y == x
  {
    var entry := JoinedPair(x);
    var i := 0;
    while i < |entries| && KeyLess(pubs, entries[i], entry)
      invariant i <= |entries| && forall j :: 0 <= j < i ==> Precedes(pubs, xs[j], x)
    {
      assert xs[i] in xs;
      KeyLessPrecedes(pubs, xs[i], x);
      i := i + 1;
    }
    r, ys := entries[..i] + [entry] + entries[i..], xs[..i] + [x] + xs[i..];
    if i < |entries| {
      assert xs[i] in xs;
      KeyLessPrecedes(pubs, xs[i], x);
      PrecedesTotal(pubs, xs[i], x);
    }
    InsertedOrder(pubs, xs, i, x);
    assert xs == xs[..i] + xs[i..];
  }

  lemma InsertedOrder(pubs: seq<string>, xs: seq<(Publisher, string)>, i: nat, x: (Publisher, string))
    requires i <= |xs| && Ordered(pubs, xs)
    requires forall j :: 0 <= j < i ==> Precedes(pubs, xs[j], x)
    requires i < |xs| ==> Precedes(pubs, x, xs[i])
    ensures Ordered(pubs, xs[..i] + [x] + xs[i..])
  {
    var ys := xs[..i] + [x] + xs[i..];
    forall j | i <= j < |xs|
      ensures Precedes(pubs, x, xs[j])
    {
      if j > i {
        PrecedesTransitive(pubs, x, xs[i], xs[j]);
      }
    }
    forall j, k | 0 <= j < k < |ys|
      ensures Precedes(pubs, ys[j], ys[k])
    {
      assert ys[j] == if j < i then xs[j] else if j == i then x else xs[j - 1];
      assert ys[k] == if k < i then xs[k] else if k == i then x else xs[k - 1];
    }
  }

  /** The joined entries of a part, sorted. */
  method SortedEntries(d: Entries, pubs: seq<string>) returns (r: seq<string>, ghost xs: seq<(Publisher, string)>)
    requires PlainStems(d)
    ensures Joins(xs, r) && Ordered(pubs, xs) && forall x :: x in xs <==> NameWanted(d, pubs, x)
  {
    r, xs := [], [];
    var todo := d.Keys;
    while todo != {}
      invariant todo <= d.Keys && Joins(xs, r) && Ordered(pubs, xs)
      invariant forall x :: x in xs <==> NameWanted(d, pubs, x) && x.0 !in todo
      decreases todo
    {
      var pub :| pub in todo;
      todo := todo - {pub};
      if pubs != [] && pub !in pubs {
        continue;
      }
      r, xs := PublisherEntries(d, pubs, pub, r, xs);
    }
  }

  method PublisherEntries(d: Entries, pubs: seq<string>, pub: Publisher, entries: seq<string>,
                          ghost xs: seq<(Publisher, string)>)
    returns (r: seq<string>, ghost ys: seq<(Publisher, string)>)
    requires PlainStems(d) && Joins(xs, entries) && Ordered(pubs, xs)
    requires pub in d && (pubs == [] || pub in pubs)
    requires forall x :: x in xs ==> NameWanted(d, pubs, x) && x.0 != pub
    ensures Joins(ys, r) && Ordered(pubs, ys)
    ensures forall x :: x in ys <==> x in xs || (NameWanted(d, pubs, x) && x.0 == pub)
  {
    r, ys := entries, xs;
    var todo := d[pub].Keys;
    while todo != {}
      invariant todo <= d[pub].Keys && Joins(ys, r) && Ordered(pubs, ys)
      invariant forall x :: x in ys <==> x in xs || (NameWanted(d, pubs, x) && x.0 == pub && x.1 !in todo)
      decreases todo
    {
      var stem :| stem in todo;
      todo := todo - {stem};
      r, ys := Insert(d, pubs, r, (pub, stem), ys);
    }
  }

  /** The one publisher is given before the other, or before the last time that one is given. */
  ghost predicate GivenBefore(pubs: seq<string>, a: string, b: string) {
    exists k :: 0 <= k < |pubs| && pubs[k] == b && forall m :: k <= m < |pubs| ==> pubs[m] != a
  }

  /** Each package of the part, or of the publishers given, exactly once, ordered by stem and then by
      publisher: alphabetically, or in the order in which the publishers are given. */
  method PkgNames(d: Entries, pubs: seq<string>) returns (r: seq<(Publisher, string)>)
    requires PlainStems(d)
    ensures Ordered(pubs, r)
    ensures forall x :: x in r <==> NameWanted(d, pubs, x)
    ensures forall i, j :: 0 <= i < j < |r| ==> r[i] != r[j]
    ensures forall i, j :: 0 <= i < j < |r| ==>
              || Strings.Less(r[i].1, r[j].1)
              || (r[i].1 == r[j].1 && pubs == [] && Strings.Less(r[i].0, r[j].0))
              || (r[i].1 == r[j].1 && pubs != [] && GivenBefore(pubs, r[i].0, r[j].0))
  {
    var entries;
    ghost var xs;
    entries, xs := SortedEntries(d, pubs);
    r := [];
    for i := 0 to |entries|
      invariant r == xs[..i]
    {
      assert xs[i] in xs;
      SplitJoined(xs[i].1, xs[i].0);
      var parts := Split(entries[i]);
      r := r + [(parts.1, parts.0)];
    }
    assert r == xs;
    forall i, j | 0 <= i < j < |r|
      ensures r[i] != r[j]
      ensures pubs != [] && r[i].1 == r[j].1 ==> GivenBefore(pubs, r[i].0, r[j].0)
    {
      assert Precedes(pubs, r[i], r[j]);
      Strings.Irreflexive(r[i].1);
      Strings.Irreflexive(r[i].0);
      if pubs != [] {
        assert NameWanted(d, pubs, r[i]) && NameWanted(d, pubs, r[j]);
        PositionIs(pubs, r[i].0);
        PositionIs(pubs, r[j].0);
      }
    }
  }
}
