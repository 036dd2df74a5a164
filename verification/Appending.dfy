/** Catalog.append, entry by entry: every entry of every part is added behind those already there, and
    finalizing brings the lists into order. */
module Appending {
  import opened CatalogParts
  import opened CatalogSteps
  import opened Catalogs
  import opened Coverage
  import opened Merging
  import opened NestedLists
  import opened Protocol
  import opened VersionLists
  import opened Wrappers

  // ----- One stem

  /** The list of one stem has got longer, and no other. */
  ghost predicate Longer(d: Entries, pub: Publisher, stem: string, l: seq<Entry>, d': Entries) {
    NoEmpty(d') && forall p: Publisher, s: string ::
      ListAt(d', p, s) == ListAt(d, p, s) + if p == pub && s == stem then l else []
  }

  lemma LongerNext(d: Entries, pub: Publisher, stem: string, l: seq<Entry>, e: Entry, d': Entries)
    requires Longer(d, pub, stem, l, d')
    ensures Longer(d, pub, stem, l + [e], Put(d', pub, stem, ListAt(d', pub, stem) + [e]))
  {
    PutListAt(d', pub, stem, ListAt(d', pub, stem) + [e]);
    assert (ListAt(d, pub, stem) + l) + [e] == ListAt(d, pub, stem) + (l + [e]);
  }

  lemma LongerGrows(d: Entries, rule: Rule, e: Entries, pubs: set<Publisher>, pub: Publisher, stem: string,
                    l: seq<Entry>, d': Entries)
    requires NoEmpty(d) && Longer(d, pub, stem, l, d')
    requires l <= Taken(rule, e, pubs, pub, stem) && CanJoin(ListAt(d, pub, stem), l)
    ensures Grown(d, rule, e, pubs, d')
  {
    forall f
      ensures Contains(d, f) ==> Contains(d', f)
      ensures Contains(d', f) ==> Contains(d, f) || Takes(rule, e, pubs, f)
    {
      LongerAt(d, pub, stem, l, d', f.pub, f.stem);
      HasConcat(ListAt(d, pub, stem), l, f.version);
      HasPrefix(l, Taken(rule, e, pubs, pub, stem), f.version);
    }
    if AllDistinct(d) {
      LongerDistinct(d, pub, stem, l, d');
    }
  }

  lemma LongerAt(d: Entries, pub: Publisher, stem: string, l: seq<Entry>, d': Entries, p: Publisher, s: string)
    requires Longer(d, pub, stem, l, d')
    ensures ListAt(d', p, s) == if p == pub && s == stem then ListAt(d, p, s) + l else ListAt(d, p, s)
  {
    assert ListAt(d, p, s) + [] == ListAt(d, p, s);
  }

  lemma LongerDistinct(d: Entries, pub: Publisher, stem: string, l: seq<Entry>, d': Entries)
    requires AllDistinct(d) && Longer(d, pub, stem, l, d') && CanJoin(ListAt(d, pub, stem), l)
    ensures AllDistinct(d')
  {
    JoinDistinct(ListAt(d, pub, stem), l);
    forall p: Publisher, s: string
      ensures Distinct(ListAt(d', p, s))
    {
      LongerAt(d, pub, stem, l, d', p, s);
    }
  }

  lemma HasPrefix(l: seq<Entry>, m: seq<Entry>, version: string)
    requires l <= m
    ensures Has(l, version) ==> Has(m, version)
  {
    if Has(l, version) {
      var i :| 0 <= i < |l| && l[i].version == version;
      assert m[i].version == version;
    }
  }

  lemma GrownMore(d: Entries, rule: Rule, e: Entries, pubs: set<Publisher>, d': Entries, d'': Entries)
    requires Grown(d, rule, e, pubs, d') && Grown(d', rule, e, pubs, d'')
    ensures Grown(d, rule, e, pubs, d'')
  {
  }

  /** The entries refused among the first ones of a list. */
  ghost predicate DropsOf(rule: Rule, pub: Publisher, stem: string, l: seq<Entry>, dropped: set<Fmri>) {
    forall f :: f in dropped <==>
           f.pub == pub && f.stem == stem && exists x :: x in l && x.version == f.version && rule(f, x).None?
  }

  lemma DropsNext(rule: Rule, pub: Publisher, stem: string, l: seq<Entry>, e: Entry, dropped: set<Fmri>)
    requires DropsOf(rule, pub, stem, l, dropped)
    ensures var f := Fmri(pub, stem, e.version);
            DropsOf(rule, pub, stem, l + [e], if rule(f, e).None? then dropped + {f} else dropped)
  {
    assert e in l + [e];
    assert forall x :: x in l + [e] <==> x in l || x == e;
  }

  ghost predicate Dated(d: Entries, time: int, opTime: int, d': Entries, time': int) {
    time' == opTime || (d' == d && time' == time)
  }

  /** Where appending one list has got to. */
  ghost predicate StemUpTo(d: Entries, rule: Rule, pub: Publisher, stem: string, l: seq<Entry>, d': Entries,
                           dropped: set<Fmri>)
  {
    && CanJoin(ListAt(d, pub, stem), Chosen(rule, pub, stem, l))
    && Longer(d, pub, stem, Chosen(rule, pub, stem, l), d') && DropsOf(rule, pub, stem, l, dropped)
  }

  lemma StemNext(d: Entries, rule: Rule, pub: Publisher, stem: string, l: seq<Entry>, e: Entry, d': Entries,
                 dropped: set<Fmri>)
    requires StemUpTo(d, rule, pub, stem, l, d', dropped)
    ensures var f := Fmri(pub, stem, e.version);
            && (rule(f, e).None? ==> StemUpTo(d, rule, pub, stem, l + [e], d', dropped + {f}))
            && (rule(f, e).Some? && !Contains(d', f) ==>
                  StemUpTo(d, rule, pub, stem, l + [e], Put(d', pub, stem, ListAt(d', pub, stem) + Added(rule, f, e)),
                           dropped))
            && (rule(f, e).Some? ==>
                  (Contains(d', f) <==> !CanJoin(ListAt(d, pub, stem), Chosen(rule, pub, stem, l + [e]))))
  {
    var f := Fmri(pub, stem, e.version);
    assert (l + [e])[..|l|] == l;
    DropsNext(rule, pub, stem, l, e, dropped);
    if rule(f, e).None? {
      assert Chosen(rule, pub, stem, l + [e]) == Chosen(rule, pub, stem, l);
    } else {
      var x := rule(f, e).value.(version := f.version);
      JoinNext(ListAt(d, pub, stem), Chosen(rule, pub, stem, l), x);
      LongerNext(d, pub, stem, Chosen(rule, pub, stem, l), x, d');
    }
  }

  /** Add what the rule makes of the next entry, if anything. */
  method AppendEntry(part: CatalogPart, pub: Publisher, stem: string, entry: Entry, rule: Rule, opTime: int,
                     dropped: set<Fmri>,
                     ghost d: Entries, ghost l: seq<Entry>) returns (failure: Option<CatalogError>, more: set<Fmri>)
    requires NoEmpty(part.data) && !part.ordered && StemUpTo(d, rule, pub, stem, l, part.data, dropped)
    modifies part
    ensures NoEmpty(part.data) && part.ordered == old(part.ordered)
    ensures Dated(old(part.data), old(part.lastModified), opTime, part.data, part.lastModified)
    ensures failure.None? ==> StemUpTo(d, rule, pub, stem, l + [entry], part.data, more)
    ensures failure.Some? ==> StemUpTo(d, rule, pub, stem, l, part.data, more)
                              && !CanJoin(ListAt(d, pub, stem), Chosen(rule, pub, stem, l + [entry]))
  {
    failure, more := None, dropped;
    var f := Fmri(pub, stem, entry.version);
    StemNext(d, rule, pub, stem, l, entry, part.data, dropped);
    var nentry := rule(f, entry);
    if nentry.None? {
      more := more + {f};
      return;
    }
    var r := part.Add(f, nentry.value, opTime);
    if r.Err? {
      failure := Some(r.error);
    }
  }

  lemma StemFails(rule: Rule, pub: Publisher, stem: string, own: seq<Entry>, l: seq<Entry>, i: nat)
    requires i <= |l| && !CanJoin(own, Chosen(rule, pub, stem, l[..i]))
    ensures !CanJoin(own, Chosen(rule, pub, stem, l))
  {
    ChosenPrefix(rule, pub, stem, l, i);
    if CanJoin(own, Chosen(rule, pub, stem, l)) {
      JoinPrefix(own, Chosen(rule, pub, stem, l[..i]), Chosen(rule, pub, stem, l));
    }
  }

  method AppendStem(part: CatalogPart, pub: Publisher, stem: string, l: seq<Entry>, rule: Rule, opTime: int)
    returns (failure: Option<CatalogError>, dropped: set<Fmri>, ghost done: nat)
    requires NoEmpty(part.data) && !part.ordered
    modifies part
    ensures NoEmpty(part.data) && part.ordered == old(part.ordered) && done <= |l|
    ensures failure.None? <==> CanJoin(old(ListAt(part.data, pub, stem)), Chosen(rule, pub, stem, l))
    ensures failure.None? ==> done == |l|
    ensures StemUpTo(old(part.data), rule, pub, stem, l[..done], part.data, dropped)
    ensures Dated(old(part.data), old(part.lastModified), opTime, part.data, part.lastModified)
  {
    failure, dropped, done := None, {}, 0;
    ghost var d, time := part.data, part.lastModified;
    assert StemUpTo(d, rule, pub, stem, l[..0], part.data, dropped);
    for i := 0 to |l|
      invariant !part.ordered && failure.None? && done == i
      invariant StemUpTo(d, rule, pub, stem, l[..i], part.data, dropped)
      invariant Dated(d, time, opTime, part.data, part.lastModified)
    {
      assert l[..i + 1] == l[..i] + [l[i]];
      failure, dropped := AppendEntry(part, pub, stem, l[i], rule, opTime, dropped, d, l[..i]);
      if failure.Some? {
        StemFails(rule, pub, stem, ListAt(d, pub, stem), l, i + 1);
        return;
      }
      done := i + 1;
    }
    assert l[..|l|] == l;
  }

  // ----- One publisher

  /** The stems of one publisher that are done have their lists joined. */
  ghost predicate PublisherUpTo(d: Entries, rule: Rule, e: Entries, pub: Publisher, todo: set<string>, d': Entries) {
    && NoEmpty(d')
    && forall p: Publisher, s: string :: ListAt(d', p, s)
                                      == ListAt(d, p, s) + if p == pub && s !in todo
                                        then Chosen(rule, p, s, ListAt(e, p, s)) else []
  }

  lemma PublisherNext(d: Entries, rule: Rule, e: Entries, pub: Publisher, todo: set<string>, stem: string,
                      d': Entries, d'': Entries)
    requires PublisherUpTo(d, rule, e, pub, todo, d') && stem in todo
    requires Longer(d', pub, stem, Chosen(rule, pub, stem, ListAt(e, pub, stem)), d'')
    ensures PublisherUpTo(d, rule, e, pub, todo - {stem}, d'')
  {
    StemBefore(d, rule, e, pub, todo, stem, d');
    forall p: Publisher, s: string | !(p == pub && s == stem)
      ensures ListAt(d'', p, s) == ListAt(d', p, s)
    {
      assert ListAt(d', p, s) + [] == ListAt(d', p, s);
    }
  }

  lemma StemBefore(d: Entries, rule: Rule, e: Entries, pub: Publisher, todo: set<string>, stem: string, d': Entries)
    requires PublisherUpTo(d, rule, e, pub, todo, d') && stem in todo
    ensures ListAt(d', pub, stem) == ListAt(d, pub, stem)
  {
    assert ListAt(d, pub, stem) + [] == ListAt(d, pub, stem);
  }

  /** The packages refused of the stems done. */
  ghost predicate PublisherDrops(rule: Rule, e: Entries, pub: Publisher, todo: set<string>, dropped: set<Fmri>) {
    forall f :: f in dropped <==> f.pub == pub && f.stem !in todo && Refuses(rule, e, f)
  }

  lemma PublisherDropsNext(rule: Rule, e: Entries, pub: Publisher, todo: set<string>, stem: string,
                           dropped: set<Fmri>, more: set<Fmri>)
    requires PublisherDrops(rule, e, pub, todo, dropped) && stem in todo
             && DropsOf(rule, pub, stem, ListAt(e, pub, stem), more)
    ensures PublisherDrops(rule, e, pub, todo - {stem}, dropped + more)
  {
  }

  /** The lists of the stems that are done can be joined. */
  ghost predicate PublisherJoinableUpTo(d: Entries, rule: Rule, e: Entries, pub: Publisher, todo: set<string>) {
    forall s: string :: s !in todo ==> CanJoin(ListAt(d, pub, s), Chosen(rule, pub, s, ListAt(e, pub, s)))
  }

  /** Where appending one publisher's lists has got to. */
  ghost predicate PublisherAt(d: Entries, rule: Rule, e: Entries, pub: Publisher, todo: set<string>, d': Entries,
                              dropped: set<Fmri>)
  {
    && PublisherJoinableUpTo(d, rule, e, pub, todo)
    && PublisherUpTo(d, rule, e, pub, todo, d') && PublisherDrops(rule, e, pub, todo, dropped)
  }

  lemma NoStems(d: Entries, rule: Rule, e: Entries, pub: Publisher, pubs: set<Publisher>)
    requires NoEmpty(d) && pub in e
    ensures PublisherAt(d, rule, e, pub, e[pub].Keys, d, {}) && Grown(d, rule, e, pubs, d)
  {
    forall s: string | s !in e[pub].Keys
      ensures Chosen(rule, pub, s, ListAt(e, pub, s)) == []
    {
    }
    forall p: Publisher, s: string
      ensures ListAt(d, p, s) + [] == ListAt(d, p, s)
    {
    }
  }

  lemma StemDone(d: Entries, rule: Rule, e: Entries, pub: Publisher, todo: set<string>, stem: string, d': Entries,
                 dropped: set<Fmri>, l: seq<Entry>, d'': Entries, more: set<Fmri>)
    requires PublisherAt(d, rule, e, pub, todo, d', dropped) && stem in todo && l == ListAt(e, pub, stem)
    requires StemUpTo(d', rule, pub, stem, l, d'', more)
    ensures PublisherAt(d, rule, e, pub, todo - {stem}, d'', dropped + more)
  {
    StemBefore(d, rule, e, pub, todo, stem, d');
    PublisherNext(d, rule, e, pub, todo, stem, d', d'');
    PublisherDropsNext(rule, e, pub, todo, stem, dropped, more);
  }

  method AppendPublisher(part: CatalogPart, e: Entries, pub: Publisher, ghost pubs: set<Publisher>, rule: Rule,
                         opTime: int)
    returns (failure: Option<CatalogError>, dropped: set<Fmri>)
    requires NoEmpty(part.data) && !part.ordered && pub in e && (pubs == {} || pub in pubs)
    modifies part
    ensures NoEmpty(part.data) && part.ordered == old(part.ordered)
    ensures failure.None? <==> PublisherJoinableUpTo(old(part.data), rule, e, pub, {})
    ensures failure.None? ==>
              PublisherUpTo(old(part.data), rule, e, pub, {}, part.data) && PublisherDrops(rule, e, pub, {}, dropped)
    ensures Grown(old(part.data), rule, e, pubs, part.data)
    ensures Dated(old(part.data), old(part.lastModified), opTime, part.data, part.lastModified)
  {
    failure, dropped := None, {};
    ghost var d, time := part.data, part.lastModified;
    var todo := e[pub].Keys;
    NoStems(d, rule, e, pub, pubs);
    while todo != {}
      invariant todo <= e[pub].Keys && !part.ordered && failure.None?
      invariant PublisherAt(d, rule, e, pub, todo, part.data, dropped)
      invariant Grown(d, rule, e, pubs, part.data) && Dated(d, time, opTime, part.data, part.lastModified)
      decreases todo
    {
      var stem :| stem in todo;
      ghost var before, l := part.data, e[pub][stem];
      StemBefore(d, rule, e, pub, todo, stem, before);
      var more;
      ghost var done;
      failure, more, done := AppendStem(part, pub, stem, e[pub][stem], rule, opTime);
      StemGrows(before, rule, e, pubs, pub, stem, done, part.data, more);
      GrownMore(d, rule, e, pubs, before, part.data);
      if failure.Some? {
        return;
      }
      assert l[..done] == l;
      StemDone(d, rule, e, pub, todo, stem, before, dropped, l, part.data, more);
      todo, dropped := todo - {stem}, dropped + more;
    }
  }

  lemma StemGrows(d: Entries, rule: Rule, e: Entries, pubs: set<Publisher>, pub: Publisher, stem: string, done: nat,
                  d': Entries, dropped: set<Fmri>)
    requires NoEmpty(d) && (pubs == {} || pub in pubs) && done <= |ListAt(e, pub, stem)|
    requires StemUpTo(d, rule, pub, stem, ListAt(e, pub, stem)[..done], d', dropped)
    ensures Grown(d, rule, e, pubs, d')
  {
    ChosenPrefix(rule, pub, stem, ListAt(e, pub, stem), done);
    LongerGrows(d, rule, e, pubs, pub, stem, Chosen(rule, pub, stem, ListAt(e, pub, stem)[..done]), d');
  }

  // ----- One part

  /** The publishers that are done have their lists joined. */
  ghost predicate JoinedUpTo(d: Entries, rule: Rule, e: Entries, pubs: set<Publisher>, todo: set<Publisher>,
                             d': Entries)
  {
    && NoEmpty(d')
    && forall p: Publisher, s: string ::
         ListAt(d', p, s) == ListAt(d, p, s) + if p in todo then [] else Taken(rule, e, pubs, p, s)
  }

  lemma JoinedNext(d: Entries, rule: Rule, e: Entries, pubs: set<Publisher>, todo: set<Publisher>, pub: Publisher,
                   d': Entries, d'': Entries)
    requires JoinedUpTo(d, rule, e, pubs, todo, d') && pub in todo && (pubs == {} || pub in pubs)
    requires PublisherUpTo(d', rule, e, pub, {}, d'')
    ensures JoinedUpTo(d, rule, e, pubs, todo - {pub}, d'')
  {
    forall p: Publisher, s: string
      ensures ListAt(d'', p, s) == ListAt(d, p, s) + if p in todo - {pub} then [] else Taken(rule, e, pubs, p, s)
    {
      assert ListAt(d', p, s) + [] == ListAt(d', p, s);
      if p == pub {
        PublisherBefore(d, rule, e, pubs, todo, pub, s, d');
      }
    }
  }

  lemma PublisherBefore(d: Entries, rule: Rule, e: Entries, pubs: set<Publisher>, todo: set<Publisher>, pub: Publisher,
                        s: string, d': Entries)
    requires JoinedUpTo(d, rule, e, pubs, todo, d') && pub in todo
    ensures ListAt(d', pub, s) == ListAt(d, pub, s)
  {
    assert ListAt(d, pub, s) + [] == ListAt(d, pub, s);
  }

  /** The lists of the publishers that are done can be joined. */
  ghost predicate JoinableUpTo(d: Entries, rule: Rule, e: Entries, pubs: set<Publisher>, todo: set<Publisher>) {
    forall p: Publisher, s: string :: p !in todo ==> CanJoin(ListAt(d, p, s), Taken(rule, e, pubs, p, s))
  }

  lemma JoinableNext(d: Entries, rule: Rule, e: Entries, pubs: set<Publisher>, todo: set<Publisher>, pub: Publisher,
                     d': Entries)
    requires JoinedUpTo(d, rule, e, pubs, todo, d') && pub in todo && (pubs == {} || pub in pubs)
             && JoinableUpTo(d, rule, e, pubs, todo)
    ensures PublisherJoinableUpTo(d', rule, e, pub, {}) ==> JoinableUpTo(d, rule, e, pubs, todo - {pub})
    ensures !PublisherJoinableUpTo(d', rule, e, pub, {}) ==> !Joinable(d, rule, e, pubs)
  {
    forall s: string
      ensures ListAt(d', pub, s) == ListAt(d, pub, s)
      ensures Taken(rule, e, pubs, pub, s) == Chosen(rule, pub, s, ListAt(e, pub, s))
    {
      PublisherBefore(d, rule, e, pubs, todo, pub, s, d');
    }
  }

  ghost predicate DropsUpTo(rule: Rule, e: Entries, pubs: set<Publisher>, todo: set<Publisher>, dropped: set<Fmri>) {
    forall f :: f in dropped <==> (pubs == {} || f.pub in pubs) && f.pub !in todo && Refuses(rule, e, f)
  }

  lemma DropsMore(rule: Rule, e: Entries, pubs: set<Publisher>, todo: set<Publisher>, pub: Publisher,
                  dropped: set<Fmri>, more: set<Fmri>)
    requires DropsUpTo(rule, e, pubs, todo, dropped) && pub in todo && (pubs == {} || pub in pubs)
             && PublisherDrops(rule, e, pub, {}, more)
    ensures DropsUpTo(rule, e, pubs, todo - {pub}, dropped + more)
  {
  }

  lemma NothingElse(d: Entries, rule: Rule, e: Entries, pubs: set<Publisher>, todo: set<Publisher>, d': Entries)
    requires todo == if pubs == {} then e.Keys else e.Keys * pubs
    requires NoEmpty(d) && d' == d
    ensures JoinedUpTo(d, rule, e, pubs, todo, d') && JoinableUpTo(d, rule, e, pubs, todo)
            && DropsUpTo(rule, e, pubs, todo, {})
    ensures Grown(d, rule, e, pubs, d')
  {
    forall p: Publisher, s: string | p !in todo
      ensures Taken(rule, e, pubs, p, s) == []
    {
    }
    forall p: Publisher, s: string
      ensures ListAt(d, p, s) + [] == ListAt(d, p, s)
    {
    }
  }

  /** Add the entries of e, of the publishers given or of all of them, behind those of the part. */
  method AppendEntries(part: CatalogPart, e: Entries, pubs: set<Publisher>, rule: Rule, opTime: int)
    returns (failure: Option<CatalogError>, dropped: set<Fmri>)
    requires NoEmpty(part.data) && !part.ordered
    modifies part
    ensures NoEmpty(part.data) && part.ordered == old(part.ordered)
    ensures failure.None? <==> Joinable(old(part.data), rule, e, pubs)
    ensures failure.None? ==> Joined(old(part.data), rule, e, pubs, part.data) && Discards(rule, e, pubs, dropped)
    ensures Grown(old(part.data), rule, e, pubs, part.data)
    ensures Dated(old(part.data), old(part.lastModified), opTime, part.data, part.lastModified)
  {
    failure, dropped := None, {};
    ghost var d, time := part.data, part.lastModified;
    var todo := if pubs == {} then e.Keys else e.Keys * pubs;
    NothingElse(d, rule, e, pubs, todo, part.data);
    while todo != {}
      invariant todo <= e.Keys && (pubs == {} || todo <= pubs) && !part.ordered && failure.None?
      invariant JoinableUpTo(d, rule, e, pubs, todo) && JoinedUpTo(d, rule, e, pubs, todo, part.data)
      invariant DropsUpTo(rule, e, pubs, todo, dropped)
      invariant Grown(d, rule, e, pubs, part.data) && Dated(d, time, opTime, part.data, part.lastModified)
      decreases todo
    {
      var pub :| pub in todo;
      ghost var before := part.data;
      var more;
      failure, more := AppendPublisher(part, e, pub, pubs, rule, opTime);
      JoinableNext(d, rule, e, pubs, todo, pub, before);
      GrownMore(d, rule, e, pubs, before, part.data);
      if failure.Some? {
        return;
      }
      JoinedNext(d, rule, e, pubs, todo, pub, before, part.data);
      DropsMore(rule, e, pubs, todo, pub, dropped, more);
      todo, dropped := todo - {pub}, dropped + more;
    }
  }

  // ----- All parts

  /** Nothing but the part n of the target has changed, and it has the time of the operation if it has. */
  ghost predicate OnlyPart(was: PartFiles, n: PartName, opTime: int, ps: PartFiles) {
    && n in ps && ps == was[n := ps[n]]
    && (ps[n].lastModified == opTime || (n in was && ps[n] == was[n]))
  }

  method AppendTo(target: Catalog, n: PartName, e: Entries, pubs: set<Publisher>, rule: Rule, opTime: int)
    returns (failure: Option<CatalogError>, dropped: set<Fmri>)
    requires target.Valid() && target.batchMode && WellFormed(n)
    modifies target`parts, target`attrs
    ensures target.Valid() && target.attrs == Known(old(target.attrs), n, opTime)
    ensures OnlyPart(old(target.Current()), n, opTime, target.Current())
    ensures failure.None? <==> Joinable(DataOf(old(target.Current()), n), rule, e, pubs)
    ensures failure.None? ==> Joined(DataOf(old(target.Current()), n), rule, e, pubs, target.Current()[n].data)
                              && Discards(rule, e, pubs, dropped)
    ensures Grown(DataOf(old(target.Current()), n), rule, e, pubs, target.Current()[n].data)
  {
    ghost var was := target.Current();
    var npart := target.GetPart(n, false, opTime);
    failure, dropped := AppendEntries(npart, e, pubs, rule, opTime);
    target.KeepPart(npart);
    Overwrite(was, n, PartFile(map[], opTime), PartFile(npart.data, npart.lastModified));
  }

  /** The entries of a part to look at: none at all if it lacks the one package asked for. */
  method Offer(part: CatalogPart, single: Option<Fmri>) returns (e: Option<Entries>)
    ensures e.None? <==> single.Some? && !Contains(part.data, single.value)
    ensures e.Some? ==> e.value == Offered(part.data, single)
    ensures e.None? ==> Offered(part.data, single) == map[]
  {
    if single.None? {
      return Some(part.data);
    }
    var f := single.value;
    var entry := part.GetEntry(f);
    e := if entry.Some? then Some(map[f.pub := map[f.stem := [entry.value]]]) else None;
  }

  /** Append one part of one catalog to another. */
  method AppendPart(target: Catalog, src: Catalog, n: PartName, q: Request, discards: set<Fmri>, opTime: int,
                    ghost was: PartFiles, ghost all: PartFiles, ghost todo: set<PartName>)
    returns (failure: Option<CatalogError>)
    requires target != src && target.Valid() && src.Valid() && target.batchMode && n in src.attrs.parts && n != Base
             && n in todo
    requires src.Current() == all && AppendedUpTo(was, all, q, target.key, discards, todo, target.Current())
    modifies target`parts, target`attrs, src`parts, src`attrs
    ensures target.Valid() && src.Valid() && src.attrs == old(src.attrs) && src.Current() == all
    ensures failure.None? <==> PartJoinable(was, all, q, target.key, discards, n)
    ensures failure.None? ==> AppendedUpTo(was, all, q, target.key, discards, todo - {n}, target.Current())
    ensures AppendedBut(was, all, q, target.key, discards, todo, n, target.Current())
  {
    failure := None;
    ghost var before := target.Current();
    assert DataOf(before, n) == DataOf(was, n);
    var part := src.GetPart(n, true, opTime);
    if part == null {
      NoMore(was, all, q, target.key, discards, todo, n, before);
      return;
    }
    var e := Offer(part, q.single);
    if e.None? {
      NoMore(was, all, q, target.key, discards, todo, n, before);
      return;
    }
    var dropped;
    failure, dropped := AppendTo(target, n, e.value, q.pubs, OtherRule(target.key, discards), opTime);
    OneMore(was, all, q, target.key, discards, todo, n, before, target.Current(), failure.None?);
  }

  /** The parts of src that are done have been appended, and one other part has got some of what it should. */
  ghost predicate AppendedBut(was: PartFiles, src: PartFiles, q: Request, key: VersionKey, discards: set<Fmri>,
                              todo: set<PartName>, n: PartName, ps: PartFiles)
  {
    && (forall m :: m != n ==> if m in src && m !in todo then PartJoined(was, src, q, key, discards, m, ps)
                               else DataOf(ps, m) == DataOf(was, m))
    && (DataOf(ps, n) == DataOf(was, n) || PartGrown(was, src, q, key, discards, n, ps))
  }

  lemma JoinNothing(d: Entries, rule: Rule, pubs: set<Publisher>)
    requires NoEmpty(d)
    ensures Joinable(d, rule, map[], pubs) && Joined(d, rule, map[], pubs, d)
  {
    forall p: Publisher, s: string
      ensures Taken(rule, map[], pubs, p, s) == []
    {
    }
  }

  /** A part that has nothing to offer, or is not there. */
  lemma NoMore(was: PartFiles, src: PartFiles, q: Request, key: VersionKey, discards: set<Fmri>, todo: set<PartName>,
               n: PartName, ps: PartFiles)
    requires AppendedUpTo(was, src, q, key, discards, todo, ps) && n in todo
    requires n in src ==> Offered(src[n].data, q.single) == map[] && NoEmpty(DataOf(was, n))
    ensures AppendedUpTo(was, src, q, key, discards, todo - {n}, ps) && PartJoinable(was, src, q, key, discards, n)
    ensures AppendedBut(was, src, q, key, discards, todo, n, ps)
  {
    if n in src {
      JoinNothing(DataOf(was, n), RuleFor(q, key, discards, n), q.pubs);
    }
  }

  lemma OneMore(was: PartFiles, src: PartFiles, q: Request, key: VersionKey, discards: set<Fmri>, todo: set<PartName>,
                n: PartName, ps: PartFiles, qs: PartFiles, done: bool)
    requires AppendedUpTo(was, src, q, key, discards, todo, ps) && n in todo && n in src
    requires n in qs && qs == ps[n := qs[n]] && PartGrown(was, src, q, key, discards, n, qs)
    requires done ==> PartJoined(was, src, q, key, discards, n, qs)
    ensures done ==> AppendedUpTo(was, src, q, key, discards, todo - {n}, qs)
    ensures AppendedBut(was, src, q, key, discards, todo, n, qs)
  {
    forall m | m != n
      ensures if m in src && m !in todo then PartJoined(was, src, q, key, discards, m, qs)
              else DataOf(qs, m) == DataOf(was, m)
    {
      assert DataOf(qs, m) == DataOf(ps, m);
    }
  }

  /** The named parts of src can be appended. */
  ghost predicate AllJoinable(was: PartFiles, src: PartFiles, q: Request, key: VersionKey, discards: set<Fmri>,
                              names: set<PartName>)
  {
    forall n :: n in names ==> PartJoinable(was, src, q, key, discards, n)
  }

  lemma OtherGrows(was: PartFiles, src: PartFiles, q: Request, key: VersionKey, discards: set<Fmri>, m: PartName,
                   ps: PartFiles)
    requires m in src && PartJoinable(was, src, q, key, discards, m) && PartJoined(was, src, q, key, discards, m, ps)
    ensures PartGrown(was, src, q, key, discards, m, ps)
  {
    JoinedGrows(DataOf(was, m), RuleFor(q, key, discards, m), Offered(src[m].data, q.single), q.pubs, DataOf(ps, m));
  }

  lemma AppendedGrows(was: PartFiles, src: PartFiles, q: Request, key: VersionKey, discards: set<Fmri>,
                      names: set<PartName>, todo: set<PartName>, n: PartName, ps: PartFiles)
    requires Base in src && BaseDiscards(src, q, discards) && n != Base && Base !in todo && src.Keys <= names + {Base}
    requires AllJoinable(was, src, q, key, discards, names - todo) && PartJoinable(was, src, q, key, discards, Base)
    requires AppendedBut(was, src, q, key, discards, todo, n, ps)
    ensures Underway(was, src, q, key, discards, ps)
  {
    forall m
      ensures DataOf(ps, m) == DataOf(was, m) || PartGrown(was, src, q, key, discards, m, ps)
    {
      if m != n && m in src && m !in todo {
        assert m == Base || m in names - todo;
        OtherGrows(was, src, q, key, discards, m, ps);
      }
    }
  }

  lemma JoinableMore(was: PartFiles, src: PartFiles, q: Request, key: VersionKey, discards: set<Fmri>,
                     names: set<PartName>, todo: set<PartName>, n: PartName)
    requires n in todo && todo <= names && AllJoinable(was, src, q, key, discards, names - todo)
    ensures if PartJoinable(was, src, q, key, discards, n)
            then AllJoinable(was, src, q, key, discards, names - (todo - {n}))
            else !AllJoinable(was, src, q, key, discards, names)
  {
    assert names - (todo - {n}) == names - todo + {n};
  }

  ghost predicate OthersUpTo(was: PartFiles, src: PartFiles, q: Request, key: VersionKey, discards: set<Fmri>,
                             names: set<PartName>, todo: set<PartName>, ps: PartFiles)
  {
    AppendedUpTo(was, src, q, key, discards, todo, ps) && AllJoinable(was, src, q, key, discards, names - todo)
  }

  /** Append the parts of src but for the base part. */
  method AppendOthers(target: Catalog, src: Catalog, names: set<PartName>, q: Request, discards: set<Fmri>, opTime: int,
                      ghost was: PartFiles, ghost all: PartFiles) returns (failure: Option<CatalogError>)
    requires target != src && target.Valid() && src.Valid() && target.batchMode && Base !in names
             && names <= src.attrs.parts.Keys
    requires src.Current() == all && all.Keys <= names + {Base} && Base in all && BaseDiscards(all, q, discards)
    requires AppendedUpTo(was, all, q, target.key, discards, names, target.Current())
    requires PartJoinable(was, all, q, target.key, discards, Base)
    modifies target`parts, target`attrs, src`parts, src`attrs
    ensures target.Valid() && src.Valid() && src.attrs == old(src.attrs) && src.Current() == all
    ensures failure.None? <==> AllJoinable(was, all, q, target.key, discards, names)
    ensures failure.None? ==> AppendedUpTo(was, all, q, target.key, discards, {}, target.Current())
    ensures Underway(was, all, q, target.key, discards, target.Current())
  {
    failure := None;
    var todo := names;
    while todo != {}
      invariant target.Valid() && src.Valid() && target.batchMode && failure.None?
      invariant todo <= names && src.attrs == old(src.attrs) && src.Current() == all
      invariant OthersUpTo(was, all, q, target.key, discards, names, todo, target.Current())
      decreases todo
    {
      var n :| n in todo;
      failure := AppendPart(target, src, n, q, discards, opTime, was, all, todo);
      JoinableMore(was, all, q, target.key, discards, names, todo, n);
      if failure.Some? {
        AppendedGrows(was, all, q, target.key, discards, names, todo, n, target.Current());
        return;
      }
      todo := todo - {n};
    }
    AppendedAll(was, all, q, target.key, discards, names, target.Current());
  }

  lemma AppendedAll(was: PartFiles, src: PartFiles, q: Request, key: VersionKey, discards: set<Fmri>,
                    names: set<PartName>, ps: PartFiles)
    requires Base in src && BaseDiscards(src, q, discards) && src.Keys <= names + {Base}
    requires OthersUpTo(was, src, q, key, discards, names, {}, ps) && PartJoinable(was, src, q, key, discards, Base)
    ensures AllJoinable(was, src, q, key, discards, names) && Underway(was, src, q, key, discards, ps)
  {
    assert names - {} == names;
    forall m
      ensures DataOf(ps, m) == DataOf(was, m) || PartGrown(was, src, q, key, discards, m, ps)
    {
      if m in src {
        assert m == Base || m in names;
        OtherGrows(was, src, q, key, discards, m, ps);
      }
    }
  }

  ghost predicate SameParts(ps: PartFiles, was: PartFiles) {
    forall n :: DataOf(ps, n) == DataOf(was, n)
  }

  /** The base part has been appended, or some of it. */
  lemma BaseAppended(was: PartFiles, src: PartFiles, q: Request, key: VersionKey, discards: set<Fmri>, ps: PartFiles,
                     opTime: int, qs: PartFiles, done: bool)
    requires Base in src && SameParts(ps, was) && OnlyPart(ps, Base, opTime, qs)
    requires PartGrown(was, src, q, key, discards, Base, qs)
             && (done ==> PartJoined(was, src, q, key, discards, Base, qs))
    ensures done ==> AppendedUpTo(was, src, q, key, discards, src.Keys - {Base}, qs)
    ensures Underway(was, src, q, key, discards, qs)
  {
    forall n | n != Base
      ensures DataOf(qs, n) == DataOf(was, n)
    {
      assert DataOf(qs, n) == DataOf(ps, n);
    }
  }

  /** The base part, and with it what the callback discards. */
  method AppendBase(target: Catalog, srcBase: CatalogPart, q: Request, opTime: int, ghost was: PartFiles,
                    ghost all: PartFiles)
    returns (failure: Option<CatalogError>, discards: set<Fmri>)
    requires target.Valid() && target.batchMode && Base in all && srcBase.data == all[Base].data
    requires SameParts(target.Current(), was)
    modifies target`parts, target`attrs
    ensures target.Valid()
    ensures failure.None? <==> (q.single.Some? ==> Contains(all[Base].data, q.single.value))
                               && PartJoinable(was, all, q, target.key, discards, Base)
    ensures q.single.Some? && !Contains(all[Base].data, q.single.value) ==>
              failure == Some(UnknownCatalogEntry(q.single.value))
    ensures failure.None? ==>
              AppendedUpTo(was, all, q, target.key, discards, all.Keys - {Base}, target.Current())
              && BaseDiscards(all, q, discards)
    ensures Underway(was, all, q, target.key, discards, target.Current())
  {
    var e := Offer(srcBase, q.single);
    ghost var before := target.Current();
    assert DataOf(before, Base) == DataOf(was, Base);
    if e.None? {
      NothingAppended(was, all, q, target.key, {}, before);
      return Some(UnknownCatalogEntry(q.single.value)), {};
    }
    failure, discards := AppendTo(target, Base, e.value, q.pubs, BaseRule(q), opTime);
    BaseAppended(was, all, q, target.key, discards, before, opTime, target.Current(), failure.None?);
  }

  lemma RefusedIsThere(rule: Rule, e: Entries, f: Fmri)
    requires Refuses(rule, e, f)
    ensures Contains(e, f)
  {
    var x :| x in ListAt(e, f.pub, f.stem) && x.version == f.version;
    var i :| 0 <= i < |ListAt(e, f.pub, f.stem)| && ListAt(e, f.pub, f.stem)[i] == x;
  }

  lemma SingleDiscarded(src: PartFiles, q: Request, key: VersionKey, discards: set<Fmri>)
    requires Base in src && BaseDiscards(src, q, discards) && q.single.Some? && discards != {}
    ensures Member(key, q.single.value, discards)
  {
    var f :| f in discards;
    OfferedContains(src[Base].data, q.single, f);
    RefusedIsThere(BaseRule(q), Offered(src[Base].data, q.single), f);
    assert Tied(key, f, f);
  }

  lemma ChosenOne(rule: Rule, p: Publisher, s: string, x: Entry)
    ensures Chosen(rule, p, s, [x]) == Added(rule, Fmri(p, s, x.version), x)
  {
    assert [x][..0] == [];
  }

  lemma NoneTaken(d: Entries, q: Request, key: VersionKey, discards: set<Fmri>, e: Entries)
    requires NoEmpty(d) && q.single.Some? && Member(key, q.single.value, discards)
    ensures Joinable(d, OtherRule(key, discards), Offered(e, q.single), q.pubs)
    ensures Joined(d, OtherRule(key, discards), Offered(e, q.single), q.pubs, d)
  {
    var f, rule := q.single.value, OtherRule(key, discards);
    var entry := EntryOf(ListAt(e, f.pub, f.stem), f.version);
    EntryOfIs(ListAt(e, f.pub, f.stem), f.version);
    forall p: Publisher, s: string
      ensures Taken(rule, Offered(e, q.single), q.pubs, p, s) == []
    {
      if entry.Some? && p == f.pub && s == f.stem {
        ChosenOne(rule, p, s, entry.value);
        assert ListAt(Offered(e, q.single), p, s) == [entry.value];
      } else {
        assert ListAt(Offered(e, q.single), p, s) == [];
      }
    }
  }

  /** The one package asked for has been discarded: the other parts have nothing to take over. */
  lemma NothingLeft(was: PartFiles, src: PartFiles, q: Request, key: VersionKey, discards: set<Fmri>, ps: PartFiles)
    requires Base in src && q.single.Some? && Member(key, q.single.value, discards)
    requires AppendedUpTo(was, src, q, key, discards, src.Keys - {Base}, ps) && forall n :: NoEmpty(DataOf(was, n))
    ensures AppendedUpTo(was, src, q, key, discards, {}, ps)
    ensures forall n :: n in src && n != Base ==> PartJoinable(was, src, q, key, discards, n)
  {
    forall n | n in src && n != Base
      ensures PartJoined(was, src, q, key, discards, n, ps) && PartJoinable(was, src, q, key, discards, n)
    {
      assert DataOf(ps, n) == DataOf(was, n);
      NoneTaken(DataOf(was, n), q, key, discards, src[n].data);
    }
  }

  lemma AppendableParts(was: PartFiles, src: PartFiles, q: Request, key: VersionKey, discards: set<Fmri>,
                        names: set<PartName>)
    requires Base in src && src.Keys <= names + {Base}
    ensures Appendable(was, src, q, key, discards) <==>
              (q.single.Some? ==> Contains(src[Base].data, q.single.value))
              && PartJoinable(was, src, q, key, discards, Base) && AllJoinable(was, src, q, key, discards, names)
  {
  }

  lemma CleanData(a: Attrs, ps: PartFiles, was: PartFiles)
    requires CleanParts(a, ps) && SameParts(ps, was)
    ensures forall n :: NoEmpty(DataOf(was, n))
  {
    forall n
      ensures NoEmpty(DataOf(was, n))
    {
      assert DataOf(ps, n) == DataOf(was, n);
    }
  }

  /** Append the parts of a catalog that has a base part. */
  method AppendParts(target: Catalog, src: Catalog, srcBase: CatalogPart, q: Request, opTime: int, ghost was: PartFiles,
                     ghost all: PartFiles)
    returns (failure: Option<CatalogError>, discards: set<Fmri>)
    requires target != src && target.Valid() && src.Valid() && target.batchMode
    requires src.Current() == all && Base in all && srcBase.data == all[Base].data
    requires SameParts(target.Current(), was)
    modifies target`parts, target`attrs, src`parts, src`attrs
    ensures target.Valid() && src.Valid() && src.attrs == old(src.attrs) && src.Current() == all
    ensures failure.None? <==> Appendable(was, all, q, target.key, discards)
    ensures failure.None? ==> Appended(was, all, q, target.key, discards, target.Current())
    ensures q.single.Some? && !Contains(all[Base].data, q.single.value) ==>
              failure == Some(UnknownCatalogEntry(q.single.value))
    ensures Underway(was, all, q, target.key, discards, target.Current())
  {
    CleanData(target.attrs, target.Current(), was);
    failure, discards := AppendBase(target, srcBase, q, opTime, was, all);
    AppendableParts(was, all, q, target.key, discards, src.attrs.parts.Keys - {Base});
    if failure.None? {
      failure := AppendRest(target, src, q, discards, opTime, was, all);
    }
  }

  /** Once the base part is done, the others, unless the one package asked for has been discarded. */
  method AppendRest(target: Catalog, src: Catalog, q: Request, discards: set<Fmri>, opTime: int, ghost was: PartFiles,
                    ghost all: PartFiles)
    returns (failure: Option<CatalogError>)
    requires target != src && target.Valid() && src.Valid() && target.batchMode && forall n :: NoEmpty(DataOf(was, n))
    requires src.Current() == all && Base in all && BaseDiscards(all, q, discards)
    requires AppendedUpTo(was, all, q, target.key, discards, all.Keys - {Base}, target.Current())
    requires PartJoinable(was, all, q, target.key, discards, Base)
             && Underway(was, all, q, target.key, discards, target.Current())
    modifies target`parts, target`attrs, src`parts, src`attrs
    ensures target.Valid() && src.Valid() && src.attrs == old(src.attrs) && src.Current() == all
    ensures failure.None? <==> AllJoinable(was, all, q, target.key, discards, src.attrs.parts.Keys - {Base})
    ensures failure.None? ==> AppendedUpTo(was, all, q, target.key, discards, {}, target.Current())
    ensures Underway(was, all, q, target.key, discards, target.Current())
  {
    var names := src.attrs.parts.Keys - {Base};
    if discards != {} && q.single.Some? {
      SingleDiscarded(all, q, target.key, discards);
      NothingLeft(was, all, q, target.key, discards, target.Current());
      return None;
    }
    NamesLeft(was, all, q, target.key, discards, names, target.Current());
    failure := AppendOthers(target, src, names, q, discards, opTime, was, all);
  }

  lemma NamesLeft(was: PartFiles, src: PartFiles, q: Request, key: VersionKey, discards: set<Fmri>,
                  names: set<PartName>, ps: PartFiles)
    requires AppendedUpTo(was, src, q, key, discards, src.Keys - {Base}, ps) && src.Keys <= names + {Base}
             && Base !in names
    ensures AppendedUpTo(was, src, q, key, discards, names, ps)
  {
    forall n
      ensures n in src && n !in names <==> n in src && n !in src.Keys - {Base}
    {
    }
  }

  lemma NothingAppended(was: PartFiles, src: PartFiles, q: Request, key: VersionKey, discards: set<Fmri>, ps: PartFiles)
    requires SameParts(ps, was)
    ensures Underway(was, src, q, key, discards, ps)
  {
  }

  method AppendAll(target: Catalog, src: Catalog, q: Request, opTime: int)
    returns (failure: Option<CatalogError>, discards: set<Fmri>)
    requires target != src && target.Valid() && src.Valid() && target.batchMode
    modifies target`parts, target`attrs, src`parts, src`attrs
    ensures target.Valid() && src.Valid() && src.attrs == old(src.attrs) && src.Current() == old(src.Current())
    ensures failure.None? <==> Appendable(old(target.Current()), src.Current(), q, target.key, discards)
    ensures failure.None? ==> Appended(old(target.Current()), src.Current(), q, target.key, discards, target.Current())
    ensures q.single.Some? && !Contains(DataOf(src.Current(), Base), q.single.value) ==>
              failure == Some(UnknownCatalogEntry(q.single.value))
    ensures Underway(old(target.Current()), src.Current(), q, target.key, discards, target.Current())
  {
    discards := {};
    ghost var was, all := target.Current(), src.Current();
    var base := target.GetPart(Base, false, opTime);
    NothingAppended(was, all, q, target.key, discards, target.Current());
    var srcBase := src.GetPart(Base, true, opTime);
    if srcBase == null {
      failure := if q.single.Some? then Some(UnknownCatalogEntry(q.single.value)) else None;
      return;
    }
    failure, discards := AppendParts(target, src, srcBase, q, opTime, was, all);
  }

  /** Append what is asked for of one catalog to another.  Whether it succeeds or not, the target stays
      coherent if both catalogs were. */
  method Append(target: Catalog, src: Catalog, q: Request, opTime: int)
    returns (failure: Option<CatalogError>, ghost discards: set<Fmri>)
    requires target != src && target.Valid() && src.Valid() && !target.logUpdates
    modifies target`parts, target`attrs, target`batchMode, src`parts, src`attrs
    ensures target.Valid() && src.Valid() && target.batchMode == old(target.batchMode)
    ensures src.attrs == old(src.attrs) && src.Current() == old(src.Current())
    ensures failure.None? <==> Appendable(old(target.Current()), src.Current(), q, target.key, discards)
    ensures failure.None? ==> Appended(old(target.Current()), src.Current(), q, target.key, discards, target.Current())
    ensures failure.None? && Base in src.Current() ==>
              TakesOver(target.key, old(target.Current()), src.Current(), q, target.Current())
    ensures q.single.Some? && !Contains(DataOf(src.Current(), Base), q.single.value) ==>
              failure == Some(UnknownCatalogEntry(q.single.value))
    ensures old(Coherent(target.Current())) && Coherent(src.Current()) ==> Coherent(target.Current())
  {
    ghost var was := target.Current();
    var oldBatchMode := target.batchMode;
    target.batchMode := true;
    failure, discards := AppendAll(target, src, q, opTime);
    if failure.None? && Base in src.Current() {
      AppendedTakesOver(was, src.Current(), q, target.key, discards, target.Current());
    }
    if Coherent(was) && Coherent(src.Current()) {
      AppendCoheres(was, src.Current(), q, target.key, discards, target.Current());
    }
    target.batchMode := oldBatchMode;
  }
}
