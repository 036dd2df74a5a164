/** Deciding, from the attributes of two catalogs alone, what has to be retrieved to bring the older
    one up to date. */
module UpdatesNeeded {
  import opened CatalogParts
  import opened CatalogUpdates
  import opened Protocol
  import opened Wrappers
  import Strings

  /** The given parts sorted by locale; no locale without parts. */
  ghost predicate ByLocale(parts: map<string, set<PartName>>, names: set<PartName>) {
    && parts.Keys == LocalesOf(names)
    && forall l :: l in parts ==> parts[l] == OfLocale(names, l)
  }

  ghost function OfLocale(names: set<PartName>, locale: string): set<PartName> {
    set n | n in names && LocaleOf(n) == locale
  }

  function WithPart(parts: map<string, set<PartName>>, n: PartName): map<string, set<PartName>> {
    var l := LocaleOf(n);
    parts[l := (if l in parts then parts[l] else {}) + {n}]
  }

  lemma JoinOneMore(parts: map<string, set<PartName>>, names: set<PartName>, n: PartName)
    requires ByLocale(parts, names)
    ensures ByLocale(WithPart(parts, n), names + {n})
  {
    assert LocalesOf(names + {n}) == LocalesOf(names) + {LocaleOf(n)};
    var l := LocaleOf(n);
    if l !in parts {
      assert OfLocale(names, l) == {};
    }
    assert OfLocale(names + {n}, l) == OfLocale(names, l) + {n};
    forall k | k in parts && k != l
      ensures OfLocale(names + {n}, k) == OfLocale(names, k)
    {
    }
  }

  ghost predicate Kept(old_: Attrs, new_: Attrs, names: set<PartName>)
    requires names <= old_.parts.Keys
  {
    forall n :: n in names ==> n in new_.parts && old_.parts[n].lastModified <= new_.parts[n].lastModified
  }

  /** An update log is still offered for the last time each of the named parts changed. */
  ghost predicate Covered(old_: Attrs, new_: Attrs, names: set<PartName>)
    requires names <= old_.parts.Keys
  {
    forall n :: n in names ==> BoundaryLog(old_, n) in new_.updates
  }

  /** Compare the parts that both list. */
  method CompareParts(old_: Attrs, new_: Attrs)
    returns (r: Result<(), CatalogError>, parts: map<string, set<PartName>>, incremental: bool)
    ensures r.Err? ==> || (r.error == BadCatalogUpdateIdentity && PartMissing(old_, new_))
                       || (r.error == ObsoleteCatalogUpdate && PartOlder(old_, new_))
    ensures r.Ok? ==> !PartMissing(old_, new_) && !PartOlder(old_, new_) && ByLocale(parts, ChangedParts(old_, new_))
    ensures r.Ok? ==> (incremental <==> Covered(old_, new_, ChangedParts(old_, new_)))
  {
    r, parts, incremental := Ok(()), map[], true;
    var todo := old_.parts.Keys;
    ghost var done: set<PartName> := {};
    while todo != {}
      invariant done + todo == old_.parts.Keys && Kept(old_, new_, done)
      invariant ByLocale(parts, ChangedParts(old_, new_) * done)
      invariant incremental <==> Covered(old_, new_, ChangedParts(old_, new_) * done)
      decreases todo
    {
      var name :| name in todo;
      todo := todo - {name};
      if name !in new_.parts {
        return Err(BadCatalogUpdateIdentity), parts, incremental;
      }
      var oldTime, newTime := old_.parts[name].lastModified, new_.parts[name].lastModified;
      if newTime < oldTime {
        return Err(ObsoleteCatalogUpdate), parts, incremental;
      }
      if newTime != oldTime {
        if BoundaryLog(old_, name) !in new_.updates {
          incremental := false;
        }
        JoinOneMore(parts, ChangedParts(old_, new_) * done, name);
        parts := WithPart(parts, name);
        assert ChangedParts(old_, new_) * (done + {name}) == ChangedParts(old_, new_) * done + {name};
      } else {
        assert ChangedParts(old_, new_) * (done + {name}) == ChangedParts(old_, new_) * done;
      }
      done := done + {name};
    }
    assert ChangedParts(old_, new_) * done == ChangedParts(old_, new_);
  }

  /** Add the parts that the older catalog does not list, for its changed locales and "C". */
  method AddNewParts(old_: Attrs, new_: Attrs, changed: map<string, set<PartName>>)
    returns (parts: map<string, set<PartName>>, some: bool)
    requires ByLocale(changed, ChangedParts(old_, new_))
    ensures ByLocale(parts, ChangedParts(old_, new_) + NewParts(old_, new_))
    ensures some <==> NewParts(old_, new_) != {}
  {
    parts, some := changed, false;
    var locales := {"C"} + changed.Keys;
    ghost var all, news := ChangedParts(old_, new_), NewParts(old_, new_);
    var todo := new_.parts.Keys;
    ghost var done: set<PartName> := {};
    assert all + news * done == all;
    while todo != {}
      invariant done + todo == new_.parts.Keys
      invariant ByLocale(parts, all + news * done)
      invariant some <==> news * done != {}
      decreases todo
    {
      var name :| name in todo;
      todo := todo - {name};
      if name !in old_.parts && LocaleOf(name) in locales {
        some := true;
        JoinOneMore(parts, all + news * done, name);
        parts := WithPart(parts, name);
        assert all + news * (done + {name}) == (all + news * done) + {name};
        assert name in news * (done + {name});
      } else {
        assert news * (done + {name}) == news * done;
      }
      done := done + {name};
    }
    assert news * done == news;
  }

  method Flatten(parts: map<string, set<PartName>>, ghost names: set<PartName>) returns (r: set<PartName>)
    requires ByLocale(parts, names)
    ensures r == names
  {
    r := {};
    var todo := parts.Keys;
    while todo != {}
      invariant todo <= parts.Keys
      invariant forall n :: n in r <==> n in names && LocaleOf(n) !in todo
      decreases todo
    {
      var l :| l in todo;
      todo := todo - {l};
      r := r + parts[l];
    }
  }

  /** The newest time at which one of the named parts last changed. */
  method NewestPart(old_: Attrs, names: set<PartName>) returns (last: Option<int>)
    ensures last.None? <==> names * old_.parts.Keys == {}
    ensures last.Some? ==> exists n :: n in names && n in old_.parts && old_.parts[n].lastModified == last.value
    ensures last.Some? ==> forall n :: n in names && n in old_.parts ==> old_.parts[n].lastModified <= last.value
  {
    last := None;
    var todo := names;
    ghost var done: set<PartName> := {};
    while todo != {}
      invariant done + todo == names
      invariant last.None? <==> done * old_.parts.Keys == {}
      invariant last.Some? ==> exists n :: n in names && n in old_.parts && old_.parts[n].lastModified == last.value
      invariant last.Some? ==> forall n :: n in done && n in old_.parts ==> old_.parts[n].lastModified <= last.value
      decreases todo
    {
      var name :| name in todo;
      todo := todo - {name};
      if name in old_.parts {
        var lm := old_.parts[name].lastModified;
        if last.None? || lm > last.value {
          last := Some(lm);
        }
        assert name in (done + {name}) * old_.parts.Keys;
      } else {
        assert (done + {name}) * old_.parts.Keys == done * old_.parts.Keys;
      }
      done := done + {name};
    }
    assert done == names;
  }

  /** The logs of one locale that changed after its newest changed part. */
  method LogsOfLocale(old_: Attrs, new_: Attrs, locale: string, last: int) returns (updates: set<LogName>)
    ensures forall l :: l in updates <==> l in new_.updates && l.locale == locale && new_.updates[l] > last
  {
    updates := {};
    var todo := new_.updates.Keys;
    while todo != {}
      invariant todo <= new_.updates.Keys
      invariant forall l :: l in updates <==>
                  l in new_.updates && l !in todo && l.locale == locale && new_.updates[l] > last
      decreases todo
    {
      var name :| name in todo;
      todo := todo - {name};
      if name.locale != locale {
        continue;
      }
      if new_.updates[name] <= last {
        continue;
      }
      updates := updates + {name};
    }
  }

  /** The logs that the changed parts need, locale by locale; every locale has a newest part. */
  method LogsNeeded(old_: Attrs, new_: Attrs, parts: map<string, set<PartName>>) returns (updates: set<LogName>)
    requires ByLocale(parts, ChangedParts(old_, new_))
    ensures forall l :: l in updates <==> LogNeeded(old_, new_, l)
  {
    updates := {};
    var todo := parts.Keys;
    while todo != {}
      invariant todo <= parts.Keys
      invariant forall l :: l in updates <==> LogNeeded(old_, new_, l) && l.locale !in todo
      decreases todo
    {
      var locale :| locale in todo;
      todo := todo - {locale};
      assert parts[locale] == OfLocale(ChangedParts(old_, new_), locale);
      var last := NewestPart(old_, parts[locale]);
      NeverNone(old_, new_, parts, locale);
      var more := LogsOfLocale(old_, new_, locale, last.value);
      NeededByNewest(old_, new_, locale, last.value);
      updates := updates + more;
    }
  }

  /** A locale with changed parts has one that the older catalog lists. */
  lemma NeverNone(old_: Attrs, new_: Attrs, parts: map<string, set<PartName>>, locale: string)
    requires ByLocale(parts, ChangedParts(old_, new_)) && locale in parts
    ensures parts[locale] * old_.parts.Keys != {}
  {
    var n :| n in ChangedParts(old_, new_) && LocaleOf(n) == locale;
    assert n in parts[locale] * old_.parts.Keys;
  }

  lemma NeededByNewest(old_: Attrs, new_: Attrs, locale: string, last: int)
    requires exists n :: n in OfLocale(ChangedParts(old_, new_), locale) && old_.parts[n].lastModified == last
    requires forall n :: n in OfLocale(ChangedParts(old_, new_), locale) ==> old_.parts[n].lastModified <= last
    ensures forall l :: l in new_.updates && l.locale == locale ==>
              (LogNeeded(old_, new_, l) <==> new_.updates[l] > last)
  {
    forall l | l in new_.updates && l.locale == locale
      ensures LogNeeded(old_, new_, l) <==> new_.updates[l] > last
    {
      var m :| m in OfLocale(ChangedParts(old_, new_), locale) && old_.parts[m].lastModified == last;
      assert m in ChangedParts(old_, new_) && LocaleOf(m) == locale;
      if new_.updates[l] > last {
        forall n | n in ChangedParts(old_, new_) && LocaleOf(n) == l.locale
          ensures old_.parts[n].lastModified < new_.updates[l]
        {
          assert n in OfLocale(ChangedParts(old_, new_), locale);
        }
      }
    }
  }

  // ----- Sorting log names

  lemma LogLessTotal(a: LogName, b: LogName)
    requires a != b
    ensures LogLess(a, b) || LogLess(b, a)
  {
    if a.hour == b.hour {
      Strings.Total(a.locale, b.locale);
    }
  }

  lemma LogLessTransitive(a: LogName, b: LogName, c: LogName)
    requires LogLess(a, b) && LogLess(b, c)
    ensures LogLess(a, c)
  {
    if a.hour == b.hour == c.hour {
      Strings.Transitive(a.locale, b.locale, c.locale);
    }
  }

  method Insert(names: seq<LogName>, l: LogName) returns (r: seq<LogName>)
    requires Ascending(names) && l !in names
    ensures Ascending(r) && forall m :: m in r <==> m in names || m == l
  {
    var i := 0;
    while i < |names| && LogLess(names[i], l)
      invariant i <= |names| && forall j :: 0 <= j < i ==> LogLess(names[j], l)
    {
      i := i + 1;
    }
    r := names[..i] + [l] + names[i..];
    forall j | i <= j < |names|
      ensures LogLess(l, names[j])
    {
      LogLessTotal(l, names[i]);
      if j > i {
        LogLessTransitive(l, names[i], names[j]);
      }
    }
    InsertedAscending(names, i, l);
    forall m
      ensures m in r <==> m in names || m == l
    {
      assert names == names[..i] + names[i..];
    }
  }

  lemma InsertedAscending(names: seq<LogName>, i: nat, l: LogName)
    requires i <= |names| && Ascending(names)
    requires forall j :: 0 <= j < i ==> LogLess(names[j], l)
    requires forall j :: i <= j < |names| ==> LogLess(l, names[j])
    ensures Ascending(names[..i] + [l] + names[i..])
  {
    var r := names[..i] + [l] + names[i..];
    forall j, k | 0 <= j < k < |r|
      ensures LogLess(r[j], r[k])
    {
      assert r[j] == if j < i then names[j] else if j == i then l else names[j - 1];
      assert r[k] == if k < i then names[k] else if k == i then l else names[k - 1];
    }
  }

  method SortNames(names: set<LogName>) returns (r: seq<LogName>)
    ensures Ascending(r) && forall l :: l in r <==> l in names
  {
    r := [];
    var todo := names;
    while todo != {}
      invariant todo <= names && Ascending(r) && forall l :: l in r <==> l in names && l !in todo
      decreases todo
    {
      var l :| l in todo;
      todo := todo - {l};
      r := Insert(r, l);
    }
  }

  // ----- The decision

  /** What the catalog with attributes old_ has to retrieve from the one offered. */
  method GetUpdatesNeeded(old_: Attrs, offered: Option<Attrs>) returns (r: Result<Answer, CatalogError>)
    ensures Needed(old_, offered, r)
  {
    if offered.None? {
      return Ok(NothingChanged);
    }
    var new_ := offered.value;
    if old_.created != new_.created {
      return Err(BadCatalogUpdateIdentity);
    }
    if new_.lastModified == old_.lastModified {
      return Ok(NothingChanged);
    }
    var compared, changed, covered := CompareParts(old_, new_);
    if compared.Err? {
      return Err(compared.error);
    }
    var parts, some := AddNewParts(old_, new_, changed);
    if parts == map[] {
      EmptyByLocale(parts, ChangedParts(old_, new_) + NewParts(old_, new_));
      return Ok(WholeParts({}));
    }
    if !covered || some {
      var names := Flatten(parts, ChangedParts(old_, new_) + NewParts(old_, new_));
      return Ok(WholeParts(names));
    }
    assert ChangedParts(old_, new_) + NewParts(old_, new_) == ChangedParts(old_, new_);
    EmptyByLocale(parts, ChangedParts(old_, new_));
    var logs := LogsNeeded(old_, new_, parts);
    var sorted := SortNames(logs);
    r := Ok(UpdateLogs(sorted));
  }

  lemma EmptyByLocale(parts: map<string, set<PartName>>, names: set<PartName>)
    requires ByLocale(parts, names)
    ensures parts == map[] <==> names == {}
  {
    if names != {} {
      var n :| n in names;
      assert LocaleOf(n) in LocalesOf(names);
    }
  }
}
