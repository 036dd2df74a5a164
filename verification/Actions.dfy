/** The package actions a catalog keeps: how add_package sorts a manifest's actions into catalog
    parts, how they are read back, and how they are regenerated from the manifest instead. */
module Actions {
  import opened Wrappers

  /** Depend actions, set actions with the name of the attribute they set, and all other actions. */
  datatype Action = Depend(text: string) | Set(name: string, text: string) | Other(text: string)

  datatype Manifest = Manifest(signatures: map<string, string>, actions: seq<Action>)

  // ----- Attribute names

  /** The position of the first ':', or the length of s. */
  function Colon(s: string): (i: nat)
    ensures i <= |s|
  {
    if s == "" || s[0] == ':' then 0 else 1 + Colon(s[1..])
  }

  /** The second component of name.split(":"), if there is one. */
  function LocaleField(name: string): Option<string> {
    var i := Colon(name);
    if i == |name| then None else Some(name[i + 1..][..Colon(name[i + 1..])])
  }

  function SummaryLocale(name: string): string {
    match LocaleField(name) case Some(l) => l case None => "C"
  }

  predicate IsVarcet(name: string) {
    "variant" <= name || "facet" <= name
  }

  predicate IsDependencyName(name: string) {
    IsVarcet(name) || "pkg.depend." <= name || name == "pkg.obsolete" || name == "pkg.renamed"
  }

  predicate IsSkipped(name: string) {
    || name in {"fmri", "pkg.fmri", "publisher"}
    || "info.source-url" <= name || "pkg.debug" <= name || "pkg.linted" <= name
  }

  predicate IsDepend(a: Action) { a.Depend? }

  predicate IsSet(a: Action) { a.Set? }

  function Where(s: seq<Action>, p: Action -> bool): seq<Action> {
    if s == [] then []
    else Where(s[..|s| - 1], p) + if p(s[|s| - 1]) then [s[|s| - 1]] else []
  }

  // ----- Storing

  /** Actions kept in the dependency part. */
  predicate ToDependency(a: Action) {
    a.Depend? || (a.Set? && (IsDependencyName(a.name) || a.name == "pkg.legacy"))
  }

  /** Actions kept in the summary part of a locale. */
  predicate ToSummary(a: Action, locale: string) {
    && a.Set? && !ToDependency(a) && !IsSkipped(a.name)
    && locale == SummaryLocale(a.name)
  }

  function ForLocale(locale: string): Action -> bool {
    (a: Action) => ToSummary(a, locale)
  }

  function CatalogActions(m: Manifest): seq<Action> {
    Where(m.actions, IsDepend) + Where(m.actions, IsSet)
  }

  /** What grouping the given actions gives: one list for the dependency part, and one for each
      locale that some action names. */
  ghost predicate Grouped(actions: seq<Action>, dep: seq<Action>, summary: map<string, seq<Action>>) {
    && dep == Where(actions, ToDependency)
    && "C" in summary
    && (forall l :: l in summary ==> summary[l] == Where(actions, ForLocale(l)))
    && (forall a, l :: a in actions && ToSummary(a, l) ==> l in summary)
  }

  /** Group depend and set actions for the dependency part and the summary parts by locale. */
  method GroupActions(actions: seq<Action>) returns (dep: seq<Action>, summary: map<string, seq<Action>>)
    requires forall a :: a in actions ==> !a.Other?
    ensures Grouped(actions, dep, summary)
  {
    dep, summary := [], map["C" := []];
    for i := 0 to |actions|
      invariant Grouped(actions[..i], dep, summary)
    {
      var act := actions[i];
      assert actions[..i + 1] == actions[..i] + [act];
      GroupStep(actions[..i], act, dep, summary);
      if act.Depend? {
        dep := dep + [act];
        continue;
      }
      var name := act.name;
      if IsDependencyName(name) || name == "pkg.legacy" {
        dep := dep + [act];
        continue;
      }
      if IsSkipped(name) {
        continue;
      }
      var locale := SummaryLocale(name);
      if locale !in summary {
        summary := summary[locale := []];
      }
      summary := summary[locale := summary[locale] + [act]];
    }
    assert actions[..|actions|] == actions;
  }

  lemma GroupStep(actions: seq<Action>, act: Action, dep: seq<Action>, summary: map<string, seq<Action>>)
    requires Grouped(actions, dep, summary) && !act.Other?
    ensures ToDependency(act) ==> Grouped(actions + [act], dep + [act], summary)
    ensures act.Set? && !ToDependency(act) && IsSkipped(act.name) ==> Grouped(actions + [act], dep, summary)
    ensures act.Set? && !ToDependency(act) && !IsSkipped(act.name) ==>
              var l := SummaryLocale(act.name);
              Grouped(actions + [act], dep, summary[l := (if l in summary then summary[l] else []) + [act]])
  {
    var all := actions + [act];
    assert all[..|actions|] == actions;
    assert Where(all, ToDependency) == dep + if ToDependency(act) then [act] else [];
    forall l
      ensures Where(all, ForLocale(l)) == Where(actions, ForLocale(l)) + if ToSummary(act, l) then [act] else []
      ensures l !in summary ==> Where(actions, ForLocale(l)) == []
    {
      if l !in summary {
        WhereNone(actions, l);
      }
    }
  }

  lemma {:induction false} WhereNone(s: seq<Action>, l: string)
    requires forall a :: a in s ==> !ToSummary(a, l)
    ensures Where(s, ForLocale(l)) == []
  {
    if s != [] {
      WhereNone(s[..|s| - 1], l);
      assert s[|s| - 1] in s;
    }
  }

  // ----- Where an action goes, by its name

  /** The locale that an attribute name says: what is between its first two colons, or behind the only one,
      and "C" if there is none. */
  ghost predicate SaysLocale(name: string, l: string) {
    (':' !in name && l == "C") || exists x: string, rest: string :: IsField(name, x, l, rest)
  }

  ghost predicate IsField(name: string, x: string, l: string, rest: string) {
    ':' !in x && ':' !in l && (name == x + ":" + l || name == x + ":" + l + ":" + rest)
  }

  lemma {:induction false} FirstColon(s: string)
    ensures ':' !in s[..Colon(s)] && (Colon(s) < |s| ==> s[Colon(s)] == ':')
  {
    if s != "" && s[0] != ':' {
      FirstColon(s[1..]);
      assert s[..Colon(s)] == [s[0]] + s[1..][..Colon(s[1..])];
    }
  }

  lemma {:induction false} ColonBehind(x: string, rest: string)
    requires ':' !in x && (rest == "" || rest[0] == ':')
    ensures Colon(x + rest) == |x|
  {
    if x == "" {
      assert x + rest == rest;
    } else {
      assert (x + rest)[1..] == x[1..] + rest;
      ColonBehind(x[1..], rest);
    }
  }

  lemma FieldSaid(x: string, l: string, rest: string)
    requires ':' !in x && ':' !in l && (rest == "" || rest[0] == ':')
    ensures LocaleField(x + ":" + l + rest) == Some(l)
  {
    var name := x + ":" + l + rest;
    assert name == x + (":" + l + rest);
    ColonBehind(x, ":" + l + rest);
    assert name[|x| + 1..] == l + rest;
    ColonBehind(l, rest);
  }

  lemma LocaleFound(name: string)
    ensures SaysLocale(name, SummaryLocale(name))
  {
    var i := Colon(name);
    FirstColon(name);
    if i == |name| {
      assert name[..i] == name;
    } else {
      var tail := name[i + 1..];
      assert name == name[..i] + ":" + tail;
      FieldFound(name, name[..i], tail);
    }
  }

  lemma FieldFound(name: string, x: string, tail: string)
    requires ':' !in x && name == x + ":" + tail
    ensures SaysLocale(name, tail[..Colon(tail)])
  {
    var j := Colon(tail);
    FirstColon(tail);
    if j == |tail| {
      assert tail[..j] == tail;
      assert IsField(name, x, tail[..j], "");
    } else {
      var rest := tail[j + 1..];
      assert tail == tail[..j] + ":" + rest;
      Colons(x, tail[..j], rest);
      assert IsField(name, x, tail[..j], rest);
    }
  }

  lemma Colons(x: string, l: string, rest: string)
    ensures x + ":" + (l + ":" + rest) == x + ":" + l + ":" + rest
    ensures x + ":" + l + (":" + rest) == x + ":" + l + ":" + rest
  {
  }

  lemma LocaleSaid(name: string, l: string)
    requires SaysLocale(name, l)
    ensures SummaryLocale(name) == l
  {
    if ':' !in name {
      NoColon(name);
    } else {
      var x: string, rest: string :| IsField(name, x, l, rest);
      FieldSaid(x, l, "");
      FieldSaid(x, l, ":" + rest);
      assert x + ":" + l + "" == x + ":" + l;
      Colons(x, l, rest);
    }
  }

  lemma LocaleExactly(name: string, l: string)
    ensures SummaryLocale(name) == l <==> SaysLocale(name, l)
  {
    LocaleFound(name);
    if SaysLocale(name, l) {
      LocaleSaid(name, l);
    }
  }

  lemma CatalogActionsAre(m: Manifest, a: Action)
    ensures multiset(CatalogActions(m))[a] == if a.Other? then 0 else multiset(m.actions)[a]
  {
    WhereCount(m.actions, IsDepend, a);
    WhereCount(m.actions, IsSet, a);
  }

  /** The lists of a package, in terms of its manifest.  The dependency part gets the depend actions, and behind
      them the set actions for variants, facets and these other names, as often as the manifest has them... */
  lemma DependencyMeans(m: Manifest, dep: seq<Action>, summary: map<string, seq<Action>>, a: Action)
    requires Grouped(CatalogActions(m), dep, summary)
    ensures multiset(dep)[a] ==
            if a.Depend? || (a.Set? && ("variant" <= a.name || "facet" <= a.name || "pkg.depend." <= a.name
                                        || a.name in {"pkg.obsolete", "pkg.renamed", "pkg.legacy"}))
            then multiset(m.actions)[a] else 0
  {
    WhereCount(CatalogActions(m), ToDependency, a);
    CatalogActionsAre(m, a);
  }

  lemma DependsFirst(m: Manifest)
    ensures var dep := Where(CatalogActions(m), ToDependency);
            forall i, j :: 0 <= i < j < |dep| && dep[j].Depend? ==> dep[i].Depend?
  {
    var deps, sets := Where(m.actions, IsDepend), Where(m.actions, IsSet);
    WhereConcat(deps, sets, ToDependency);
    WhereMembers(deps, ToDependency);
    WhereMembers(sets, ToDependency);
    WhereMembers(m.actions, IsDepend);
    WhereMembers(m.actions, IsSet);
    OneKindFirst(Where(deps, ToDependency), Where(sets, ToDependency));
  }

  lemma OneKindFirst(s: seq<Action>, t: seq<Action>)
    requires (forall a :: a in s ==> a.Depend?) && forall a :: a in t ==> !a.Depend?
    ensures forall i, j :: 0 <= i < j < |s + t| && (s + t)[j].Depend? ==> (s + t)[i].Depend?
  {
    forall j | 0 <= j < |s + t|
      ensures (s + t)[j].Depend? <==> j < |s|
    {
      assert j < |s| ==> s[j] in s;
      assert j >= |s| ==> t[j - |s|] in t;
    }
  }

  /** ... and the summary part of a locale the remaining set actions whose name says that locale, but for
      those that are left out. */
  lemma SummaryMeans(m: Manifest, dep: seq<Action>, summary: map<string, seq<Action>>, l: string, a: Action)
    requires Grouped(CatalogActions(m), dep, summary)
    ensures multiset(if l in summary then summary[l] else [])[a] ==
            if a.Set? && SaysLocale(a.name, l)
               && !("variant" <= a.name || "facet" <= a.name || "pkg.depend." <= a.name
                    || a.name in {"pkg.obsolete", "pkg.renamed", "pkg.legacy", "fmri", "pkg.fmri", "publisher"}
                    || "info.source-url" <= a.name || "pkg.debug" <= a.name || "pkg.linted" <= a.name)
            then multiset(m.actions)[a] else 0
  {
    if l !in summary {
      WhereNone(CatalogActions(m), l);
    }
    WhereCount(CatalogActions(m), ForLocale(l), a);
    CatalogActionsAre(m, a);
    if a.Set? {
      LocaleExactly(a.name, l);
    }
  }

  // ----- Regenerating from the manifest

  datatype InfoNeeded = InfoNeeded(dependency: bool, summary: bool)

  /** What the lazy path produces for an action that the excludes let through. */
  predicate Regenerated(a: Action, info: InfoNeeded, locales: set<string>) {
    if a.Depend? then info.dependency
    else if a.Other? then false
    else if IsDependencyName(a.name) then info.dependency
    else
      && info.summary && !IsSkipped(a.name)
      && match LocaleField(a.name) case Some(l) => l in locales case None => true
  }

  function LazyFilter(info: InfoNeeded, locales: set<string>, allowed: Action -> bool): Action -> bool {
    (a: Action) => allowed(a) && Regenerated(a, info, locales)
  }

  /** Produce the requested actions from a manifest; asking for nothing is an error. */
  method GenLazyActions(m: Option<Manifest>, info: InfoNeeded, locales: set<string>, allowed: Action -> bool)
    returns (r: Option<seq<Action>>)
    ensures r.None? <==> m.Some? && !info.dependency && !info.summary
    ensures m.None? ==> r == Some([])
    ensures m.Some? && r.Some? ==>
              r.value == Where(CatalogActions(m.value), LazyFilter(info, locales, allowed))
  {
    if m.None? {
      return Some([]);
    }
    var actions: seq<Action>;
    if info.dependency {
      actions := CatalogActions(m.value);
    } else if info.summary {
      actions := Where(m.value.actions, IsSet);
    } else {
      return None;
    }
    var out := [];
    ghost var want := LazyFilter(info, locales, allowed);
    for i := 0 to |actions|
      invariant out == Where(actions[..i], want)
    {
      var a := actions[i];
      assert actions[..i + 1][..i] == actions[..i];
      WhereAll(m.value.actions, actions, a);
      if !allowed(a) {
        continue;
      }
      if a.Depend? || IsDependencyName(a.name) {
        if info.dependency {
          out := out + [a];
        }
      } else if info.summary {
        if IsSkipped(a.name) {
          continue;
        }
        var comps := LocaleField(a.name);
        if comps.Some? && comps.value !in locales {
          continue;
        }
        out := out + [a];
      }
    }
    assert actions[..|actions|] == actions;
    if !info.dependency {
      OnlySets(m.value, info, locales, allowed);
    }
    r := Some(out);
  }

  /** Without dependency data, depend actions need not be looked at. */
  lemma OnlySets(m: Manifest, info: InfoNeeded, locales: set<string>, allowed: Action -> bool)
    requires !info.dependency
    ensures Where(CatalogActions(m), LazyFilter(info, locales, allowed))
         == Where(Where(m.actions, IsSet), LazyFilter(info, locales, allowed))
  {
    var want := LazyFilter(info, locales, allowed);
    WhereConcat(Where(m.actions, IsDepend), Where(m.actions, IsSet), want);
    WhereMembers(m.actions, IsDepend);
    WhereNothing(Where(m.actions, IsDepend), want);
  }

  lemma {:induction false} WhereMembers(s: seq<Action>, p: Action -> bool)
    ensures forall a :: a in Where(s, p) <==> a in s && p(a)
  {
    if s != [] {
      WhereMembers(s[..|s| - 1], p);
      assert s == s[..|s| - 1] + [s[|s| - 1]];
    }
  }

  lemma WhereAll(s: seq<Action>, actions: seq<Action>, a: Action)
    requires a in actions
    requires || actions == Where(s, IsDepend) + Where(s, IsSet)
             || actions == Where(s, IsSet)
    ensures !a.Other?
  {
    WhereMembers(s, IsDepend);
    WhereMembers(s, IsSet);
  }

  lemma {:induction false} WhereNothing(s: seq<Action>, p: Action -> bool)
    requires forall a :: a in s ==> !p(a)
    ensures Where(s, p) == []
  {
    if s != [] {
      WhereNothing(s[..|s| - 1], p);
      assert s[|s| - 1] in s;
    }
  }

  lemma {:induction false} WhereConcat(s: seq<Action>, t: seq<Action>, p: Action -> bool)
    ensures Where(s + t, p) == Where(s, p) + Where(t, p)
  {
    if t == [] {
      assert s + t == s;
    } else {
      assert (s + t)[..|s + t| - 1] == s + t[..|t| - 1];
      WhereConcat(s, t[..|t| - 1], p);
    }
  }

  // ----- Reading back

  /** What is read back of an action, before the excludes. */
  predicate Stored(a: Action, info: InfoNeeded, locales: set<string>) {
    || (info.dependency && ToDependency(a))
    || (info.summary && exists l :: l in locales && ToSummary(a, l))
  }

  /** Variant and facet settings pass whatever the excludes say. */
  predicate Passes(a: Action, allowed: Action -> bool) {
    (a.Set? && IsVarcet(a.name)) || allowed(a)
  }

  function StoredFilter(info: InfoNeeded, locales: set<string>, allowed: Action -> bool): Action -> bool {
    (a: Action) => Passes(a, allowed) && Stored(a, info, locales)
  }

  function StoredIn(info: InfoNeeded, locales: set<string>): Action -> bool {
    (a: Action) => Stored(a, info, locales)
  }

  /** Merge the action lists of an entry's parts, the summary parts in any order.  The lists are
      those that GroupActions made of the given actions. */
  method MergeActions(dep: seq<Action>, summary: map<string, seq<Action>>, info: InfoNeeded, locales: set<string>,
                      ghost actions: seq<Action>)
    returns (merged: seq<Action>)
    requires Grouped(actions, dep, summary)
    ensures multiset(merged) == multiset(Where(actions, StoredIn(info, locales)))
  {
    merged := if info.dependency then dep else [];
    if info.dependency {
      WhereSame(actions, ToDependency, StoredIn(info, {}));
    } else {
      WhereNothing(actions, StoredIn(info, {}));
    }
    if !info.summary {
      WhereSame(actions, StoredIn(info, {}), StoredIn(info, locales));
      return;
    }
    var todo, done := locales, {};
    while todo != {}
      invariant todo !! done && todo + done == locales
      invariant multiset(merged) == multiset(Where(actions, StoredIn(info, done)))
      decreases todo
    {
      var l :| l in todo;
      MergeStep(actions, merged, info, done, l);
      todo, done := todo - {l}, done + {l};
      if l in summary {
        merged := merged + summary[l];
      } else {
        WhereNone(actions, l);
      }
    }
  }

  /** The locales wanted when none are named. */
  function OrDefault(locales: set<string>): set<string> {
    if locales == {} then {"C"} else locales
  }

  /** Some part asked for has an entry.  Entries are only made for lists that are not empty. */
  ghost predicate AnyStored(actions: seq<Action>, info: InfoNeeded, locales: set<string>) {
    exists a :: a in actions && Stored(a, info, locales)
  }

  /** What is read back of the given actions, up to order: what is stored, or if the parts asked for have no
      entry, what is made of the manifest, if there is a callback that has one. */
  ghost function ReadBack(actions: seq<Action>, m: Option<Manifest>, info: InfoNeeded, locales: set<string>,
                          allowed: Action -> bool): multiset<Action> {
    if AnyStored(actions, info, locales) then multiset(Where(actions, StoredFilter(info, locales, allowed)))
    else if m.Some? then multiset(Where(CatalogActions(m.value), LazyFilter(info, locales, allowed)))
    else multiset{}
  }

  /** Apply the excludes to stored actions. */
  method GenActions(actions: seq<Action>, allowed: Action -> bool) returns (r: seq<Action>)
    ensures r == Where(actions, PassFilter(allowed))
  {
    r := [];
    for i := 0 to |actions|
      invariant r == Where(actions[..i], PassFilter(allowed))
    {
      var a := actions[i];
      assert actions[..i + 1][..i] == actions[..i];
      if a.Set? && IsVarcet(a.name) {
        r := r + [a];
      } else if allowed(a) {
        r := r + [a];
      }
    }
    assert actions[..|actions|] == actions;
  }

  /** Read an entry's actions: merge the parts and apply the excludes, or fall back to the manifest. */
  method ReadActions(dep: seq<Action>, summary: map<string, seq<Action>>, m: Option<Manifest>, info: InfoNeeded,
                     wanted: set<string>, allowed: Action -> bool, ghost actions: seq<Action>)
    returns (r: seq<Action>)
    requires Grouped(actions, dep, summary) && (info.dependency || info.summary)
    ensures multiset(r) == ReadBack(actions, m, info, OrDefault(wanted), allowed)
  {
    var locales := OrDefault(wanted);
    var merged := MergeActions(dep, summary, info, locales, actions);
    r := FilterActions(merged, m, info, locales, allowed, actions);
  }

  /** Apply the excludes to what has been merged, or fall back to the manifest. */
  method FilterActions(merged: seq<Action>, m: Option<Manifest>, info: InfoNeeded, locales: set<string>,
                       allowed: Action -> bool, ghost actions: seq<Action>)
    returns (r: seq<Action>)
    requires multiset(merged) == multiset(Where(actions, StoredIn(info, locales))) && (info.dependency || info.summary)
    ensures multiset(r) == ReadBack(actions, m, info, locales, allowed)
  {
    NothingMerged(actions, merged, info, locales);
    if merged == [] {
      var lazy := GenLazyActions(m, info, locales, allowed);
      r := lazy.value;
    } else {
      r := GenActions(merged, allowed);
      FilterMerged(actions, merged, info, locales, allowed);
    }
  }

  lemma NothingMerged(s: seq<Action>, merged: seq<Action>, info: InfoNeeded, locales: set<string>)
    requires multiset(merged) == multiset(Where(s, StoredIn(info, locales)))
    ensures merged == [] <==> !AnyStored(s, info, locales)
  {
    WhereEmpty(s, StoredIn(info, locales));
    assert |merged| == |multiset(merged)| == |Where(s, StoredIn(info, locales))|;
  }

  lemma {:induction false} WhereEmpty(s: seq<Action>, p: Action -> bool)
    ensures Where(s, p) == [] <==> forall a :: a in s ==> !p(a)
  {
    if s != [] {
      WhereEmpty(s[..|s| - 1], p);
      assert s == s[..|s| - 1] + [s[|s| - 1]];
    }
  }

  function PassFilter(allowed: Action -> bool): Action -> bool {
    (a: Action) => Passes(a, allowed)
  }

  lemma {:induction false} FilterMerged(s: seq<Action>, merged: seq<Action>, info: InfoNeeded, locales: set<string>,
                                        allowed: Action -> bool)
    requires multiset(merged) == multiset(Where(s, StoredIn(info, locales)))
    ensures multiset(Where(merged, PassFilter(allowed))) == multiset(Where(s, StoredFilter(info, locales, allowed)))
  {
    forall a: Action
      ensures multiset(Where(merged, PassFilter(allowed)))[a]
           == multiset(Where(s, StoredFilter(info, locales, allowed)))[a]
    {
      WhereCount(merged, PassFilter(allowed), a);
      WhereCount(s, StoredIn(info, locales), a);
      WhereCount(s, StoredFilter(info, locales, allowed), a);
    }
  }

  lemma {:induction false} WhereCount(s: seq<Action>, p: Action -> bool, a: Action)
    ensures multiset(Where(s, p))[a] == if p(a) then multiset(s)[a] else 0
  {
    if s != [] {
      WhereCount(s[..|s| - 1], p, a);
      assert s == s[..|s| - 1] + [s[|s| - 1]];
    }
  }

  lemma {:induction false} WhereSame(s: seq<Action>, p: Action -> bool, q: Action -> bool)
    requires forall a :: a in s ==> p(a) == q(a)
    ensures Where(s, p) == Where(s, q)
  {
    if s != [] {
      WhereSame(s[..|s| - 1], p, q);
      assert s[|s| - 1] in s;
    }
  }

  /** Appending the actions of one more summary part, which no earlier part holds. */
  lemma {:induction false} MergeStep(s: seq<Action>, merged: seq<Action>, info: InfoNeeded, done: set<string>,
                                     l: string)
    requires info.summary && l !in done
    requires multiset(merged) == multiset(Where(s, StoredIn(info, done)))
    ensures multiset(merged + Where(s, ForLocale(l))) == multiset(Where(s, StoredIn(info, done + {l})))
  {
    forall a: Action
      ensures multiset(merged + Where(s, ForLocale(l)))[a] == multiset(Where(s, StoredIn(info, done + {l})))[a]
    {
      WhereCount(s, StoredIn(info, done), a);
      WhereCount(s, ForLocale(l), a);
      WhereCount(s, StoredIn(info, done + {l}), a);
      StoredStep(a, info, done, l);
    }
  }

  lemma StoredStep(a: Action, info: InfoNeeded, done: set<string>, l: string)
    requires info.summary && l !in done
    ensures Stored(a, info, done + {l}) <==> Stored(a, info, done) || ToSummary(a, l)
    ensures !(Stored(a, info, done) && ToSummary(a, l))
  {
  }

  // ----- What comes back, by the names of the attributes

  /** What is regenerated of an action: if the excludes let it pass, depend actions and the set actions for
      variants, facets and these other names as dependency data, and the remaining ones, but for those
      that are left out, as summary data, unless their name says a locale that is not wanted. */
  lemma RegeneratedMeans(m: Manifest, info: InfoNeeded, locales: set<string>, allowed: Action -> bool, a: Action)
    ensures multiset(Where(CatalogActions(m), LazyFilter(info, locales, allowed)))[a] ==
            if && allowed(a) && !a.Other?
               && if a.Depend? || "variant" <= a.name || "facet" <= a.name || "pkg.depend." <= a.name
                     || a.name in {"pkg.obsolete", "pkg.renamed"}
                  then info.dependency
                  else
                    && info.summary && a.name !in {"fmri", "pkg.fmri", "publisher"}
                    && !("info.source-url" <= a.name || "pkg.debug" <= a.name || "pkg.linted" <= a.name)
                    && (':' !in a.name || exists l :: l in locales && SaysLocale(a.name, l))
            then multiset(m.actions)[a] else 0
  {
    WhereCount(CatalogActions(m), LazyFilter(info, locales, allowed), a);
    CatalogActionsAre(m, a);
    if a.Set? {
      FieldExactly(a.name);
      forall l {
        LocaleExactly(a.name, l);
      }
    }
  }

  lemma FieldExactly(name: string)
    ensures LocaleField(name).None? <==> ':' !in name
    ensures LocaleField(name).Some? ==> LocaleField(name).value == SummaryLocale(name)
  {
    FirstColon(name);
    if Colon(name) == |name| {
      assert name[..|name|] == name;
    }
  }

  /** What is read back of what was stored: variants, facets and whatever else the excludes let pass, as dependency
      data the depend actions and the set actions for these names, and as summary data the remaining
      ones, but for those that are left out, whose name says a locale that is wanted. */
  lemma ReadBackMeans(m: Manifest, info: InfoNeeded, locales: set<string>, allowed: Action -> bool, a: Action)
    ensures multiset(Where(CatalogActions(m), StoredFilter(info, locales, allowed)))[a] ==
            if && !a.Other? && (allowed(a) || (a.Set? && ("variant" <= a.name || "facet" <= a.name)))
               && if a.Depend? || "variant" <= a.name || "facet" <= a.name || "pkg.depend." <= a.name
                     || a.name in {"pkg.obsolete", "pkg.renamed", "pkg.legacy"}
                  then info.dependency
                  else
                    && info.summary && a.name !in {"fmri", "pkg.fmri", "publisher"}
                    && !("info.source-url" <= a.name || "pkg.debug" <= a.name || "pkg.linted" <= a.name)
                    && exists l :: l in locales && SaysLocale(a.name, l)
            then multiset(m.actions)[a] else 0
  {
    WhereCount(CatalogActions(m), StoredFilter(info, locales, allowed), a);
    CatalogActionsAre(m, a);
    if a.Set? {
      forall l {
        LocaleExactly(a.name, l);
      }
    }
  }

  // ----- Agreement of the two sources

  /** The ways in which the stored and the regenerated actions differ: pkg.legacy is stored as
      dependency data and regenerated as summary data, summary data without a locale is regenerated
      even when the locale "C" is not wanted, and excludes drop variants and facets only when
      they are regenerated. */
  predicate Differs(a: Action, info: InfoNeeded, locales: set<string>, allowed: Action -> bool) {
    && a.Set?
    && (|| (a.name == "pkg.legacy" && allowed(a) && info.dependency != info.summary)
        || (ToSummary(a, "C") && LocaleField(a.name).None? && allowed(a) && info.summary && "C" !in locales)
        || (IsVarcet(a.name) && !allowed(a) && info.dependency))
  }

  /** The name "pkg.legacy" has no locale, and only its own test names it. */
  lemma LegacyName()
    ensures LocaleField("pkg.legacy").None? && !IsDependencyName("pkg.legacy") && !IsSkipped("pkg.legacy")
  {
    NoColon("pkg.legacy");
    OtherNames("pkg.legacy", "legacy");
  }

  /** A name in "pkg." whose next letters rule out all the names that are singled out. */
  lemma OtherNames(name: string, rest: string)
    requires name == "pkg." + rest && |rest| > 1
    requires rest[0] !in {'d', 'o', 'r', 'f'} && !(rest[0] == 'l' && rest[1] == 'i')
    ensures !IsDependencyName(name) && !IsSkipped(name)
  {
    assert name[0] == 'p' && name[1] == 'k' && name[4] == rest[0] && name[5] == rest[1];
    NotPrefix("variant", name, 0);
    NotPrefix("facet", name, 0);
    NotPrefix("pkg.depend.", name, 4);
    NotPrefix("pkg.obsolete", name, 4);
    NotPrefix("pkg.renamed", name, 4);
    NotPrefix("fmri", name, 0);
    NotPrefix("pkg.fmri", name, 4);
    NotPrefix("publisher", name, 1);
    NotPrefix("info.source-url", name, 0);
    NotPrefix("pkg.debug", name, 4);
    if rest[0] == 'l' {
      NotPrefix("pkg.linted", name, 5);
    } else {
      NotPrefix("pkg.linted", name, 4);
    }
  }

  lemma NotPrefix(p: string, s: string, i: nat)
    requires i < |p| && i < |s| && p[i] != s[i]
    ensures !(p <= s) && p != s
  {
  }

  lemma {:induction false} NoColon(s: string)
    requires ':' !in s
    ensures Colon(s) == |s|
  {
    if s != "" {
      NoColon(s[1..]);
    }
  }

  lemma DiffersExactly(a: Action, info: InfoNeeded, locales: set<string>, allowed: Action -> bool)
    requires !a.Other?
    ensures Differs(a, info, locales, allowed)
       <==> (StoredFilter(info, locales, allowed)(a) != LazyFilter(info, locales, allowed)(a))
  {
    LegacyName();
    if a.Set? {
      OneSummaryPart(a, locales);
    }
  }

  lemma OneSummaryPart(a: Action, locales: set<string>)
    requires a.Set?
    ensures (exists l :: l in locales && ToSummary(a, l)) <==>
              SummaryLocale(a.name) in locales && ToSummary(a, SummaryLocale(a.name))
  {
  }

  /** The stored actions and the regenerated ones are the same multiset exactly when the manifest has
      no action of those kinds. */
  lemma StoredAgreesExactly(m: Manifest, info: InfoNeeded, locales: set<string>, allowed: Action -> bool)
    ensures var s := CatalogActions(m);
            multiset(Where(s, StoredFilter(info, locales, allowed)))
              == multiset(Where(s, LazyFilter(info, locales, allowed)))
            <==> forall a :: a in s ==> !Differs(a, info, locales, allowed)
  {
    var s := CatalogActions(m);
    var p, q := StoredFilter(info, locales, allowed), LazyFilter(info, locales, allowed);
    forall a | a in s
      ensures !a.Other?
    {
      WhereAll(m.actions, s, a);
    }
    if forall a :: a in s ==> !Differs(a, info, locales, allowed) {
      forall a | a in s
        ensures p(a) == q(a)
      {
        DiffersExactly(a, info, locales, allowed);
      }
      WhereSame(s, p, q);
    } else {
      var a :| a in s && Differs(a, info, locales, allowed);
      DiffersExactly(a, info, locales, allowed);
      WhereCount(s, p, a);
      WhereCount(s, q, a);
      assert a in multiset(s);
    }
  }

  /** What a catalog reads back is what the manifest gives, exactly when nothing is stored for the request or
      the manifest has no action of those kinds. */
  lemma ReadBackAgreesExactly(m: Manifest, info: InfoNeeded, locales: set<string>, allowed: Action -> bool)
    ensures var s := CatalogActions(m);
            ReadBack(s, Some(m), info, locales, allowed) == multiset(Where(s, LazyFilter(info, locales, allowed)))
            <==> !AnyStored(s, info, locales) || forall a :: a in s ==> !Differs(a, info, locales, allowed)
  {
    StoredAgreesExactly(m, info, locales, allowed);
  }

  /** With dependency and summary data both wanted, the locale "C" among those wanted and nothing
      excluded, the catalog agrees with the manifest it was made from. */
  lemma ReadBackAgrees(m: Manifest, locales: set<string>, allowed: Action -> bool)
    requires "C" in locales && forall a :: allowed(a)
    ensures var s, info := CatalogActions(m), InfoNeeded(true, true);
            ReadBack(s, Some(m), info, locales, allowed) == multiset(Where(s, LazyFilter(info, locales, allowed)))
  {
    ReadBackAgreesExactly(m, InfoNeeded(true, true), locales, allowed);
  }
}
