/** The list of catalog entries kept for one package stem: how it is sorted, and what
    adding and removing an entry does to it, with the sort done after every addition
    or put off to the end. */
module VersionLists {
  import opened Actions
  import opened Wrappers

  /** The order of version strings.  Version parsing is not part of this model; any total
      preorder on the (countable) set of version strings is given by such a key, and two
      different strings may have the same key. */
  type VersionKey = string -> real

  /** One catalog entry: the version string, the BASE record's metadata and manifest signatures, and
      the actions kept in the other parts. */
  datatype Entry = Entry(version: string, metadata: map<string, string>, signatures: map<string, string>,
                         actions: seq<Action>)

  datatype Kind = Add | Remove

  /** One modification of one version list. */
  datatype Change = Change(kind: Kind, entry: Entry)

  predicate Has(s: seq<Entry>, version: string) {
    exists i :: 0 <= i < |s| && s[i].version == version
  }

  /** No version string occurs twice. */
  ghost predicate Distinct(s: seq<Entry>) {
    forall i, j :: 0 <= i < j < |s| ==> s[i].version != s[j].version
  }

  ghost predicate Sorted(key: VersionKey, s: seq<Entry>) {
    forall i, j :: 0 <= i < j < |s| ==> key(s[i].version) <= key(s[j].version)
  }

  // ----- Stable sorting

  /** Insert e behind every entry that is not newer than it. */
  function InsertLast(key: VersionKey, s: seq<Entry>, e: Entry): seq<Entry> {
    if s == [] || key(s[|s| - 1].version) <= key(e.version) then s + [e]
    else InsertLast(key, s[..|s| - 1], e) + [s[|s| - 1]]
  }

  /** What list.sort with the version as key computes. */
  function StableSort(key: VersionKey, s: seq<Entry>): seq<Entry> {
    if s == [] then [] else InsertLast(key, StableSort(key, s[..|s| - 1]), s[|s| - 1])
  }

  /** The entries of s whose version has key k, in their order. */
  ghost function WithKey(key: VersionKey, s: seq<Entry>, k: real): seq<Entry> {
    if s == [] then []
    else WithKey(key, s[..|s| - 1], k) + if key(s[|s| - 1].version) == k then [s[|s| - 1]] else []
  }

  lemma SortedAppend(key: VersionKey, s: seq<Entry>, last: Entry)
    requires Sorted(key, s) && forall x :: x in s ==> key(x.version) <= key(last.version)
    ensures Sorted(key, s + [last])
  {
    var t := s + [last];
    forall i, j | 0 <= i < j < |t|
      ensures key(t[i].version) <= key(t[j].version)
    {
      assert t[i] == s[i] && s[i] in s;
    }
  }

  lemma {:induction false} InsertLastSorted(key: VersionKey, s: seq<Entry>, e: Entry)
    requires Sorted(key, s)
    ensures Sorted(key, InsertLast(key, s, e))
    ensures |InsertLast(key, s, e)| == |s| + 1
    ensures forall x :: x in InsertLast(key, s, e) <==> x in s || x == e
    ensures multiset(InsertLast(key, s, e)) == multiset(s) + multiset{e}
  {
    if s == [] || key(s[|s| - 1].version) <= key(e.version) {
    } else {
      var init, last := s[..|s| - 1], s[|s| - 1];
      InsertLastSorted(key, init, e);
      assert s == init + [last];
      var r := InsertLast(key, init, e);
      forall x | x in r
        ensures key(x.version) <= key(last.version)
      {
        if x != e {
          var i :| 0 <= i < |init| && init[i] == x;
        }
      }
      SortedAppend(key, r, last);
    }
  }

  lemma {:induction false} InsertLastWithKey(key: VersionKey, s: seq<Entry>, e: Entry, k: real)
    requires Sorted(key, s)
    ensures WithKey(key, InsertLast(key, s, e), k) == WithKey(key, s + [e], k)
  {
    if s == [] || key(s[|s| - 1].version) <= key(e.version) {
    } else {
      var init, last := s[..|s| - 1], s[|s| - 1];
      InsertLastWithKey(key, init, e, k);
      assert (InsertLast(key, init, e) + [last])[..|InsertLast(key, init, e)|] == InsertLast(key, init, e);
      assert (s + [e])[..|s|] == s && (init + [e])[..|init|] == init;
    }
  }

  /** The sort orders the entries, keeps them all, and keeps entries that tie in their order. */
  lemma {:induction false} StableSortCorrect(key: VersionKey, s: seq<Entry>)
    ensures Sorted(key, StableSort(key, s))
    ensures multiset(StableSort(key, s)) == multiset(s)
    ensures |StableSort(key, s)| == |s|
    ensures forall x :: x in StableSort(key, s) <==> x in s
    ensures forall k: real :: WithKey(key, StableSort(key, s), k) == WithKey(key, s, k)
  {
    if s == [] {
    } else {
      var init, last := s[..|s| - 1], s[|s| - 1];
      assert s == init + [last];
      StableSortCorrect(key, init);
      var t := StableSort(key, init);
      InsertLastSorted(key, t, last);
      forall k: real
        ensures WithKey(key, StableSort(key, s), k) == WithKey(key, s, k)
      {
        InsertLastWithKey(key, t, last, k);
        assert (t + [last])[..|t|] == t;
      }
    }
  }

  lemma {:induction false} WithKeyFirst(key: VersionKey, s: seq<Entry>, k: real)
    ensures WithKey(key, s, k) != [] ==> exists i :: 0 <= i < |s| && key(s[i].version) == k
    ensures forall i :: 0 <= i < |s| && key(s[i].version) == k ==> WithKey(key, s, k) != []
  {
    if s != [] {
      WithKeyFirst(key, s[..|s| - 1], k);
    }
  }

  /** These three properties leave no choice: the stable sort is the only sorted list that
      agrees with s on the entries of every key. */
  lemma {:induction false} StableSortUnique(key: VersionKey, s: seq<Entry>, t: seq<Entry>)
    requires Sorted(key, s) && Sorted(key, t)
    requires forall k: real :: WithKey(key, s, k) == WithKey(key, t, k)
    ensures s == t
  {
    if s == [] || t == [] {
      if s != [] {
        var k := key(s[0].version);
        assert WithKey(key, s, k) == WithKey(key, t, k);
        WithKeyFirst(key, s, k);
      } else if t != [] {
        var k := key(t[0].version);
        assert WithKey(key, s, k) == WithKey(key, t, k);
        WithKeyFirst(key, t, k);
      }
    } else {
      var a, b := s[|s| - 1], t[|t| - 1];
      var ka, kb := key(a.version), key(b.version);
      WithKeyFirst(key, s, ka);
      WithKeyFirst(key, t, ka);
      WithKeyFirst(key, t, kb);
      WithKeyFirst(key, s, kb);
      assert WithKey(key, t, ka) != [];
      assert WithKey(key, s, kb) != [];
      assert ka == kb;
      assert WithKey(key, s, ka)[|WithKey(key, s, ka)| - 1] == a;
      assert WithKey(key, t, ka)[|WithKey(key, t, ka)| - 1] == b;
      assert a == b;
      var si, ti := s[..|s| - 1], t[..|t| - 1];
      forall k: real
        ensures WithKey(key, si, k) == WithKey(key, ti, k)
      {
        var u, v := WithKey(key, s, k), WithKey(key, t, k);
        assert u == v;
        if k == ka {
          assert u[..|u| - 1] == WithKey(key, si, k) && v[..|v| - 1] == WithKey(key, ti, k);
        } else {
          assert u == WithKey(key, si, k) && v == WithKey(key, ti, k);
        }
      }
      StableSortUnique(key, si, ti);
      assert s == si + [a] && t == ti + [b];
    }
  }

  lemma SortOfSorted(key: VersionKey, s: seq<Entry>)
    requires Sorted(key, s)
    ensures StableSort(key, s) == s
  {
    StableSortCorrect(key, s);
    StableSortUnique(key, StableSort(key, s), s);
  }

  /** Sorting early does not change what sorting late computes. */
  lemma SortThenAppend(key: VersionKey, s: seq<Entry>, e: Entry)
    ensures StableSort(key, StableSort(key, s) + [e]) == StableSort(key, s + [e])
  {
    var t := StableSort(key, s);
    StableSortCorrect(key, s);
    SortOfSorted(key, t);
    assert (t + [e])[..|t|] == t && (s + [e])[..|s|] == s;
  }

  // ----- Deletion by version string

  /** Delete the first entry with the given version string, if there is one. */
  function Delete(s: seq<Entry>, version: string): seq<Entry> {
    if s == [] then []
    else if s[0].version == version then s[1..]
    else [s[0]] + Delete(s[1..], version)
  }

  lemma {:induction false} DeleteHas(s: seq<Entry>, version: string)
    ensures !Has(s, version) ==> Delete(s, version) == s
    ensures Has(s, version) ==> |Delete(s, version)| == |s| - 1
    ensures forall x :: x in Delete(s, version) ==> x in s
  {
    if s != [] {
      HasCons(s, version);
      DeleteHas(s[1..], version);
    }
  }

  lemma {:induction false} DeleteOthers(s: seq<Entry>, version: string, v: string)
    requires v != version
    ensures Has(Delete(s, version), v) <==> Has(s, v)
  {
    if s != [] {
      DeleteOthers(s[1..], version, v);
      HasCons(s, v);
      if s[0].version != version {
        HasCons([s[0]] + Delete(s[1..], version), v);
      }
    }
  }

  lemma {:induction false} DeleteDistinct(s: seq<Entry>, version: string)
    requires Distinct(s)
    ensures Distinct(Delete(s, version)) && !Has(Delete(s, version), version)
  {
    if s != [] {
      var rest := s[1..];
      assert Distinct(rest);
      DeleteDistinct(rest, version);
      if s[0].version != version {
        var d := Delete(rest, version);
        DeleteHas(rest, version);
        HasCons([s[0]] + d, version);
        forall i | 0 <= i < |d|
          ensures d[i].version != s[0].version
        {
          assert d[i] in rest;
        }
      } else if Has(rest, version) {
        assert false;
      }
    }
  }

  lemma HasAppend(s: seq<Entry>, e: Entry, version: string)
    ensures Has(s + [e], version) <==> Has(s, version) || e.version == version
  {
    if Has(s, version) {
      var i :| 0 <= i < |s| && s[i].version == version;
      assert (s + [e])[i].version == version;
    }
    assert (s + [e])[|s|] == e;
  }

  lemma HasOfMembers(s: seq<Entry>, t: seq<Entry>, version: string)
    requires forall x :: x in s <==> x in t
    ensures Has(s, version) <==> Has(t, version)
  {
    if Has(s, version) {
      var i :| 0 <= i < |s| && s[i].version == version;
      assert s[i] in t;
    }
    if Has(t, version) {
      var i :| 0 <= i < |t| && t[i].version == version;
      assert t[i] in s;
    }
  }

  lemma HasSort(key: VersionKey, s: seq<Entry>, version: string)
    ensures Has(StableSort(key, s), version) <==> Has(s, version)
  {
    StableSortCorrect(key, s);
    HasOfMembers(s, StableSort(key, s), version);
  }

  lemma {:induction false} DeleteAppend(s: seq<Entry>, e: Entry, version: string)
    ensures Delete(s + [e], version)
         == if Has(s, version) then Delete(s, version) + [e]
            else if e.version == version then s else s + [e]
  {
    if s == [] {
      assert [e][1..] == [];
    } else {
      var rest := s[1..];
      assert (s + [e])[1..] == rest + [e];
      DeleteAppend(rest, e, version);
      HasCons(s, version);
    }
  }

  lemma HasCons(s: seq<Entry>, version: string)
    requires s != []
    ensures Has(s, version) <==> s[0].version == version || Has(s[1..], version)
  {
    if Has(s, version) && s[0].version != version {
      var i :| 0 <= i < |s| && s[i].version == version;
      assert s[1..][i - 1].version == version;
    }
    if Has(s[1..], version) {
      var i :| 0 <= i < |s[1..]| && s[1..][i].version == version;
      assert s[i + 1].version == version;
    }
  }

  lemma {:induction false} DeleteInsertLast(key: VersionKey, s: seq<Entry>, e: Entry, version: string)
    requires Sorted(key, s)
    ensures Delete(InsertLast(key, s, e), version)
         == if Has(s, version) then InsertLast(key, Delete(s, version), e)
            else if e.version == version then s else InsertLast(key, s, e)
  {
    if s == [] || key(s[|s| - 1].version) <= key(e.version) {
      DeleteAppend(s, e, version);
      DeleteHas(s, version);
      if Has(s, version) {
        DeleteKeepsBound(key, s, version);
      }
    } else {
      var init, last := s[..|s| - 1], s[|s| - 1];
      assert s == init + [last];
      var r := InsertLast(key, init, e);
      DeleteInsertLast(key, init, e, version);
      DeleteAppend(r, last, version);
      DeleteAppend(init, last, version);
      HasAppend(init, last, version);
      HasInsertLast(key, init, e, version);
      if Has(init, version) {
        InsertBefore(key, Delete(init, version), last, e);
      }
    }
  }

  lemma HasInsertLast(key: VersionKey, s: seq<Entry>, e: Entry, version: string)
    requires Sorted(key, s)
    ensures Has(InsertLast(key, s, e), version) <==> Has(s, version) || e.version == version
  {
    InsertLastSorted(key, s, e);
    HasAppend(s, e, version);
    HasOfMembers(InsertLast(key, s, e), s + [e], version);
  }

  lemma InsertBefore(key: VersionKey, s: seq<Entry>, last: Entry, e: Entry)
    requires key(last.version) > key(e.version)
    ensures InsertLast(key, s + [last], e) == InsertLast(key, s, e) + [last]
  {
    assert (s + [last])[..|s|] == s;
  }

  lemma DeleteKeepsBound(key: VersionKey, s: seq<Entry>, version: string)
    requires Sorted(key, s) && Has(s, version)
    ensures var d := Delete(s, version); d == [] || key(d[|d| - 1].version) <= key(s[|s| - 1].version)
  {
    DeleteHas(s, version);
    var d := Delete(s, version);
    if d != [] {
      assert d[|d| - 1] in s;
      var i :| 0 <= i < |s| && s[i] == d[|d| - 1];
    }
  }

  /** Deletion by version string commutes with the stable sort, also among ties. */
  lemma {:induction false} SortDelete(key: VersionKey, s: seq<Entry>, version: string)
    ensures Delete(StableSort(key, s), version) == StableSort(key, Delete(s, version))
  {
    if s == [] {
    } else {
      var init, last := s[..|s| - 1], s[|s| - 1];
      assert s == init + [last];
      SortDelete(key, init, version);
      StableSortCorrect(key, init);
      HasSort(key, init, version);
      DeleteAppend(init, last, version);
      DeleteInsertLast(key, StableSort(key, init), last, version);
      var d := Delete(init, version);
      assert (d + [last])[..|d|] == d;
    }
  }

  // ----- One change, and runs of changes

  /** One add or remove on a version list; None when it is rejected as a duplicate or as unknown.
      A sorted list is sorted again after each addition. */
  function Apply(key: VersionKey, ordered: bool, s: seq<Entry>, c: Change): Option<seq<Entry>> {
    match c.kind
    case Add =>
      if Has(s, c.entry.version) then None
      else if ordered then Some(StableSort(key, s + [c.entry]))
      else Some(s + [c.entry])
    case Remove =>
      if Has(s, c.entry.version) then Some(Delete(s, c.entry.version)) else None
  }

  function Run(key: VersionKey, ordered: bool, s: seq<Entry>, cs: seq<Change>): Option<seq<Entry>> {
    if cs == [] then Some(s)
    else
      var r := Run(key, ordered, s, cs[..|cs| - 1]);
      if r.None? then None else Apply(key, ordered, r.value, cs[|cs| - 1])
  }

  lemma {:induction false} RunConcat(key: VersionKey, ordered: bool, s: seq<Entry>, cs: seq<Change>, ds: seq<Change>)
    ensures Run(key, ordered, s, cs + ds)
         == var r := Run(key, ordered, s, cs);
            if r.None? then None else Run(key, ordered, r.value, ds)
  {
    if ds == [] {
      assert cs + ds == cs;
    } else {
      assert (cs + ds)[..|cs + ds| - 1] == cs + ds[..|ds| - 1];
      RunConcat(key, ordered, s, cs, ds[..|ds| - 1]);
    }
  }

  /** Once a change has been rejected the whole run is. */
  lemma {:induction false} RunPrefix(key: VersionKey, ordered: bool, s: seq<Entry>, cs: seq<Change>, n: nat)
    requires n <= |cs|
    ensures Run(key, ordered, s, cs[..n]).None? ==> Run(key, ordered, s, cs).None?
  {
    assert cs[..n] + cs[n..] == cs;
    RunConcat(key, ordered, s, cs[..n], cs[n..]);
  }

  /** The batch mode theorem for one list: from a sorted list, doing all changes unsorted and
      sorting once at the end is rejected exactly when sorting after each addition is, and otherwise
      gives exactly the same list, ties included. */
  lemma {:induction false} BatchRefinesOrdered(key: VersionKey, s: seq<Entry>, cs: seq<Change>)
    requires Sorted(key, s)
    ensures Run(key, true, s, cs)
         == var r := Run(key, false, s, cs); if r.None? then None else Some(StableSort(key, r.value))
  {
    if cs == [] {
      SortOfSorted(key, s);
    } else {
      var init, c := cs[..|cs| - 1], cs[|cs| - 1];
      BatchRefinesOrdered(key, s, init);
      var r := Run(key, false, s, init);
      if r.Some? {
        HasSort(key, r.value, c.entry.version);
        SortThenAppend(key, r.value, c.entry);
        SortDelete(key, r.value, c.entry.version);
      }
    }
  }

  /** Every list reached from a sorted one with distinct versions is such a list. */
  lemma {:induction false} RunKeepsSortedDistinct(key: VersionKey, s: seq<Entry>, cs: seq<Change>)
    requires Sorted(key, s) && Distinct(s)
    requires Run(key, true, s, cs).Some?
    ensures Sorted(key, Run(key, true, s, cs).value)
    ensures Distinct(Run(key, true, s, cs).value)
  {
    BatchRefinesOrdered(key, s, cs);
    StableSortCorrect(key, Run(key, false, s, cs).value);
    if cs != [] {
      var init, c := cs[..|cs| - 1], cs[|cs| - 1];
      RunKeepsSortedDistinct(key, s, init);
      var t := Run(key, true, s, init).value;
      match c.kind
      case Add =>
        StableSortCorrect(key, t + [c.entry]);
        DistinctMultiset(t + [c.entry], StableSort(key, t + [c.entry]));
      case Remove =>
        DeleteDistinct(t, c.entry.version);
    }
  }

  /** Whether versions are distinct depends on the multiset of entries alone. */
  lemma DistinctMultiset(s: seq<Entry>, t: seq<Entry>)
    requires Distinct(s) && multiset(s) == multiset(t)
    ensures Distinct(t)
  {
    forall i, j | 0 <= i < j < |t|
      ensures t[i].version != t[j].version
    {
      if t[i].version == t[j].version {
        assert t[i] in multiset(t) && t[j] in multiset(t);
        assert t[i] in s && t[j] in s;
        assert t[i] == t[j];
        var e := t[i];
        assert t == t[..i] + [e] + t[i + 1..j] + [e] + t[j + 1..];
        assert multiset(t)[e] >= 2;
        OccursOnce(s, e);
      }
    }
  }

  lemma {:induction false} OccursOnce(s: seq<Entry>, e: Entry)
    requires Distinct(s)
    ensures multiset(s)[e] <= 1
  {
    if s != [] {
      var init := s[..|s| - 1];
      assert s == init + [s[|s| - 1]];
      OccursOnce(init, e);
      if e == s[|s| - 1] {
        assert e !in init;
        assert e !in multiset(init);
      }
    }
  }
}
