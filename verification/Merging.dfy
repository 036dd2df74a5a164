/** Appending one catalog to another, as a relation between their parts: which entries are taken over, in
    what form, and what that does to the lists. */
module Merging {
  import opened CatalogParts
  import opened Coverage
  import opened NestedLists
  import opened Protocol
  import opened VersionLists
  import opened Wrappers

  /** What is asked for: the publishers (all of them when there are none), one package or every one, and the
      callback, which discards a package or gives metadata to add.  To have none is to accept everything
      and add nothing. */
  datatype Request = Request(pubs: set<Publisher>, single: Option<Fmri>,
                             judge: (Fmri, Entry) -> Option<map<string, string>>)

  /** What is added for an entry, if anything. */
  type Rule = (Fmri, Entry) -> Option<Entry>

  function BaseRule(q: Request): Rule {
    (f: Fmri, e: Entry) =>
      match q.judge(f, e)
      case None => None
      case Some(metadata) => Some(e.(metadata := e.metadata + metadata))
  }

  /** In the other parts, packages are left out that equal a discarded one. */
  function OtherRule(key: VersionKey, discards: set<Fmri>): Rule {
    (f: Fmri, e: Entry) => if Member(key, f, discards) then None else Some(e)
  }

  /** The entries of a part that are looked at. */
  function Offered(e: Entries, single: Option<Fmri>): Entries {
    if single.None? then e
    else
      var f := single.value;
      var entry := EntryOf(ListAt(e, f.pub, f.stem), f.version);
      if entry.None? then map[] else map[f.pub := map[f.stem := [entry.value]]]
  }

  /** What is added for the entries of one list. */
  function Chosen(rule: Rule, p: Publisher, s: string, l: seq<Entry>): seq<Entry> {
    if l == [] then []
    else Chosen(rule, p, s, l[..|l| - 1]) + Added(rule, Fmri(p, s, l[|l| - 1].version), l[|l| - 1])
  }

  function Added(rule: Rule, f: Fmri, e: Entry): seq<Entry> {
    if rule(f, e).Some? then [rule(f, e).value.(version := f.version)] else []
  }

  function Taken(rule: Rule, e: Entries, pubs: set<Publisher>, p: Publisher, s: string): seq<Entry> {
    if pubs == {} || p in pubs then Chosen(rule, p, s, ListAt(e, p, s)) else []
  }

  ghost predicate Takes(rule: Rule, e: Entries, pubs: set<Publisher>, f: Fmri) {
    Has(Taken(rule, e, pubs, f.pub, f.stem), f.version)
  }

  /** The rule adds nothing for an entry of f. */
  ghost predicate Refuses(rule: Rule, e: Entries, f: Fmri) {
    exists x :: x in ListAt(e, f.pub, f.stem) && x.version == f.version && rule(f, x).None?
  }

  ghost predicate Discards(rule: Rule, e: Entries, pubs: set<Publisher>, discards: set<Fmri>) {
    forall f :: f in discards <==> (pubs == {} || f.pub in pubs) && Refuses(rule, e, f)
  }

  function RuleFor(q: Request, key: VersionKey, discards: set<Fmri>, n: PartName): Rule {
    if n == Base then BaseRule(q) else OtherRule(key, discards)
  }

  ghost predicate CanJoin(own: seq<Entry>, l: seq<Entry>) {
    Distinct(l) && forall i :: 0 <= i < |l| ==> !Has(own, l[i].version)
  }

  /** No version that is taken over is there already, or twice. */
  ghost predicate Joinable(d: Entries, rule: Rule, e: Entries, pubs: set<Publisher>) {
    forall p: Publisher, s: string :: CanJoin(ListAt(d, p, s), Taken(rule, e, pubs, p, s))
  }

  ghost predicate Joined(d: Entries, rule: Rule, e: Entries, pubs: set<Publisher>, d': Entries) {
    NoEmpty(d') && forall p: Publisher, s: string :: ListAt(d', p, s) == ListAt(d, p, s) + Taken(rule, e, pubs, p, s)
  }

  ghost predicate PartJoined(was: PartFiles, src: PartFiles, q: Request, key: VersionKey, discards: set<Fmri>,
                             n: PartName, ps: PartFiles)
    requires n in src
  {
    Joined(DataOf(was, n), RuleFor(q, key, discards, n), Offered(src[n].data, q.single), q.pubs, DataOf(ps, n))
  }

  /** The parts of src that are done have been appended; no other data has changed. */
  ghost predicate AppendedUpTo(was: PartFiles, src: PartFiles, q: Request, key: VersionKey, discards: set<Fmri>,
                               todo: set<PartName>, ps: PartFiles)
  {
    forall n :: if n in src && n !in todo then PartJoined(was, src, q, key, discards, n, ps)
                else DataOf(ps, n) == DataOf(was, n)
  }

  ghost predicate PartJoinable(was: PartFiles, src: PartFiles, q: Request, key: VersionKey, discards: set<Fmri>,
                               n: PartName)
  {
    n in src ==> Joinable(DataOf(was, n), RuleFor(q, key, discards, n), Offered(src[n].data, q.single), q.pubs)
  }

  /** When appending succeeds. */
  ghost predicate Appendable(was: PartFiles, src: PartFiles, q: Request, key: VersionKey, discards: set<Fmri>) {
    && (q.single.Some? ==> Base in src && Contains(src[Base].data, q.single.value))
    && (Base in src ==> forall n :: n in src ==> PartJoinable(was, src, q, key, discards, n))
  }

  /** What appending comes to when it succeeds.  A catalog without a base part has nothing to append. */
  ghost predicate Appended(was: PartFiles, src: PartFiles, q: Request, key: VersionKey, discards: set<Fmri>,
                           ps: PartFiles)
  {
    if Base in src then AppendedUpTo(was, src, q, key, discards, {}, ps) && BaseDiscards(src, q, discards)
    else forall n :: DataOf(ps, n) == DataOf(was, n)
  }

  ghost predicate BaseDiscards(src: PartFiles, q: Request, discards: set<Fmri>)
    requires Base in src
  {
    Discards(BaseRule(q), Offered(src[Base].data, q.single), q.pubs, discards)
  }

  // ----- One list

  lemma {:induction false} ChosenPrefix(rule: Rule, p: Publisher, s: string, l: seq<Entry>, i: nat)
    requires i <= |l|
    ensures Chosen(rule, p, s, l[..i]) <= Chosen(rule, p, s, l)
  {
    if i == |l| {
      assert l[..i] == l;
    } else {
      ChosenPrefix(rule, p, s, l[..|l| - 1], i);
      assert l[..|l| - 1][..i] == l[..i];
    }
  }

  /** The rule adds something for an entry of the version. */
  ghost predicate Yields(rule: Rule, f: Fmri, l: seq<Entry>) {
    exists x :: x in l && x.version == f.version && rule(f, x).Some?
  }

  lemma {:induction false} ChosenHas(rule: Rule, f: Fmri, l: seq<Entry>)
    ensures Has(Chosen(rule, f.pub, f.stem, l), f.version) <==> Yields(rule, f, l)
  {
    if l != [] {
      var init, last := l[..|l| - 1], l[|l| - 1];
      assert l == init + [last];
      ChosenHas(rule, f, init);
      var added := Added(rule, Fmri(f.pub, f.stem, last.version), last);
      HasConcat(Chosen(rule, f.pub, f.stem, init), added, f.version);
      assert Has(added, f.version) <==> added != [] && last.version == f.version by {
        assert added != [] ==> added[0].version == last.version;
      }
      assert Yields(rule, f, l) <==> Yields(rule, f, init) || (last.version == f.version && rule(f, last).Some?) by {
        assert last in l;
      }
    }
  }

  lemma JoinNext(own: seq<Entry>, l: seq<Entry>, e: Entry)
    requires CanJoin(own, l)
    ensures CanJoin(own, l + [e]) <==> !Has(own + l, e.version)
  {
    HasConcat(own, l, e.version);
    var m := l + [e];
    assert m[|l|] == e;
    if Has(l, e.version) {
      var j :| 0 <= j < |l| && l[j].version == e.version;
      assert m[j].version == m[|l|].version;
    }
  }

  lemma JoinPrefix(own: seq<Entry>, l: seq<Entry>, m: seq<Entry>)
    requires l <= m && CanJoin(own, m)
    ensures CanJoin(own, l)
  {
    forall i | 0 <= i < |l|
      ensures l[i] == m[i]
    {
    }
  }

  lemma HasConcat(s: seq<Entry>, t: seq<Entry>, version: string)
    ensures Has(s + t, version) <==> Has(s, version) || Has(t, version)
  {
    if Has(s, version) {
      var i :| 0 <= i < |s| && s[i].version == version;
      assert (s + t)[i].version == version;
    }
    if Has(t, version) {
      var i :| 0 <= i < |t| && t[i].version == version;
      assert (s + t)[|s| + i].version == version;
    }
  }

  // ----- What a package becomes

  lemma OfferedContains(e: Entries, single: Option<Fmri>, f: Fmri)
    ensures Contains(Offered(e, single), f) <==> Contains(e, f) && (single.None? || f == single.value)
    ensures forall x :: x in ListAt(Offered(e, single), f.pub, f.stem) ==> x in ListAt(e, f.pub, f.stem)
  {
    if single.Some? {
      var g := single.value;
      var l := ListAt(e, g.pub, g.stem);
      EntryOfIs(l, g.version);
      var entry := EntryOf(l, g.version);
      if entry.Some? {
        assert ListAt(Offered(e, single), g.pub, g.stem) == [entry.value];
        assert [entry.value][0].version == g.version;
      }
    }
  }

  // ----- What is on the lists afterwards

  /** The entry is asked for: of the publishers, and the one of the single package, if one is named. */
  ghost predicate AsksFor(q: Request, d: Entries, p: Publisher, s: string, x: Entry) {
    && x in ListAt(d, p, s) && (q.pubs == {} || p in q.pubs)
    && (q.single.Some? ==> q.single.value == Fmri(p, s, x.version) && EntryOf(ListAt(d, p, s), x.version) == Some(x))
  }

  /** e is the entry x with the metadata added: its keys as given, all others as they were. */
  ghost predicate WithMetadata(x: Entry, metadata: map<string, string>, e: Entry) {
    && e.version == x.version && e.signatures == x.signatures && e.actions == x.actions
    && (forall k :: k in metadata ==> k in e.metadata && e.metadata[k] == metadata[k])
    && forall k :: k !in metadata ==>
         (k in e.metadata <==> k in x.metadata) && (k in x.metadata ==> e.metadata[k] == x.metadata[k])
  }

  /** The callback has discarded a package of the publisher and the stem with an equal version. */
  ghost predicate Discarded(key: VersionKey, q: Request, base: Entries, p: Publisher, s: string, version: string) {
    exists x :: AsksFor(q, base, p, s, x) && q.judge(Fmri(p, s, x.version), x).None? && key(x.version) == key(version)
  }

  /** The entries that one list gets from the base part of the other catalog. */
  ghost predicate BaseGets(q: Request, base: Entries, p: Publisher, s: string, more: seq<Entry>) {
    && (forall x, metadata :: AsksFor(q, base, p, s, x) && q.judge(Fmri(p, s, x.version), x) == Some(metadata) ==>
          exists e :: e in more && WithMetadata(x, metadata, e))
    && forall e :: e in more ==>
         exists x, metadata :: AsksFor(q, base, p, s, x) && q.judge(Fmri(p, s, x.version), x) == Some(metadata)
                               && WithMetadata(x, metadata, e)
  }

  /** The entries that one list gets from another part: those asked for as they are, but for packages
      that have been discarded. */
  ghost predicate OtherGets(key: VersionKey, q: Request, base: Entries, d: Entries, p: Publisher, s: string,
                            more: seq<Entry>)
  {
    forall e :: e in more <==> AsksFor(q, d, p, s, e) && !Discarded(key, q, base, p, s, e.version)
  }

  ghost predicate Gets(key: VersionKey, q: Request, src: PartFiles, n: PartName, p: Publisher, s: string,
                       more: seq<Entry>)
    requires n in src && Base in src
  {
    if n == Base then BaseGets(q, src[Base].data, p, s, more)
    else OtherGets(key, q, src[Base].data, src[n].data, p, s, more)
  }

  /** Every list is what it was, followed by what it gets; each version it gets is new to it. */
  ghost predicate TakesOver(key: VersionKey, was: PartFiles, src: PartFiles, q: Request, ps: PartFiles)
    requires Base in src
  {
    forall n, p: Publisher, s: string :: n in src ==>
      var own, l := ListAt(DataOf(was, n), p, s), ListAt(DataOf(ps, n), p, s);
      && own <= l && Gets(key, q, src, n, p, s, l[|own|..])
      && forall i, j :: 0 <= i < j < |l| && |own| <= j ==> l[i].version != l[j].version
  }

  lemma OfferedAsked(q: Request, d: Entries, p: Publisher, s: string, x: Entry)
    ensures AsksFor(q, d, p, s, x) <==> (q.pubs == {} || p in q.pubs) && x in ListAt(Offered(d, q.single), p, s)
  {
    if q.single.Some? {
      var g := q.single.value;
      var entry := EntryOf(ListAt(d, g.pub, g.stem), g.version);
      EntryOfIs(ListAt(d, g.pub, g.stem), g.version);
      if entry.Some? {
        assert ListAt(Offered(d, q.single), g.pub, g.stem) == [entry.value];
      }
    }
  }

  /** What a list gets is what the rule makes of the entries looked at, one by one. */
  lemma {:induction false} ChosenFrom(rule: Rule, p: Publisher, s: string, l: seq<Entry>, e: Entry)
    ensures e in Chosen(rule, p, s, l) <==>
              exists x :: x in l && rule(Fmri(p, s, x.version), x).Some?
                          && e == rule(Fmri(p, s, x.version), x).value.(version := x.version)
  {
    if l != [] {
      var init, last := l[..|l| - 1], l[|l| - 1];
      assert l == init + [last];
      ChosenFrom(rule, p, s, init, e);
    }
  }

  lemma TakenFrom(rule: Rule, q: Request, d: Entries, p: Publisher, s: string, e: Entry)
    ensures e in Taken(rule, Offered(d, q.single), q.pubs, p, s) <==>
              exists x :: AsksFor(q, d, p, s, x) && rule(Fmri(p, s, x.version), x).Some?
                          && e == rule(Fmri(p, s, x.version), x).value.(version := x.version)
  {
    ChosenFrom(rule, p, s, ListAt(Offered(d, q.single), p, s), e);
    forall x {
      OfferedAsked(q, d, p, s, x);
    }
  }

  lemma BaseGetsTaken(q: Request, base: Entries, p: Publisher, s: string)
    ensures BaseGets(q, base, p, s, Taken(BaseRule(q), Offered(base, q.single), q.pubs, p, s))
  {
    var more := Taken(BaseRule(q), Offered(base, q.single), q.pubs, p, s);
    forall x, metadata | AsksFor(q, base, p, s, x) && q.judge(Fmri(p, s, x.version), x) == Some(metadata)
      ensures exists e :: e in more && WithMetadata(x, metadata, e)
    {
      var e := BaseRule(q)(Fmri(p, s, x.version), x).value.(version := x.version);
      TakenFrom(BaseRule(q), q, base, p, s, e);
      assert WithMetadata(x, metadata, e);
    }
    forall e | e in more
      ensures exists x, metadata :: AsksFor(q, base, p, s, x) && q.judge(Fmri(p, s, x.version), x) == Some(metadata)
                                    && WithMetadata(x, metadata, e)
    {
      TakenFrom(BaseRule(q), q, base, p, s, e);
      var x :| AsksFor(q, base, p, s, x) && BaseRule(q)(Fmri(p, s, x.version), x).Some?
               && e == BaseRule(q)(Fmri(p, s, x.version), x).value.(version := x.version);
      assert WithMetadata(x, q.judge(Fmri(p, s, x.version), x).value, e);
    }
  }

  lemma DiscardsExactly(key: VersionKey, q: Request, base: Entries, discards: set<Fmri>, f: Fmri)
    requires Discards(BaseRule(q), Offered(base, q.single), q.pubs, discards)
    ensures Member(key, f, discards) <==> Discarded(key, q, base, f.pub, f.stem, f.version)
  {
    forall x {
      OfferedAsked(q, base, f.pub, f.stem, x);
    }
    if Member(key, f, discards) {
      var g :| g in discards && Tied(key, f, g);
      var x :| x in ListAt(Offered(base, q.single), g.pub, g.stem) && x.version == g.version && BaseRule(q)(g, x).None?;
      assert AsksFor(q, base, f.pub, f.stem, x);
    }
    if Discarded(key, q, base, f.pub, f.stem, f.version) {
      var x :| AsksFor(q, base, f.pub, f.stem, x) && q.judge(Fmri(f.pub, f.stem, x.version), x).None?
               && key(x.version) == key(f.version);
      var g := Fmri(f.pub, f.stem, x.version);
      assert Refuses(BaseRule(q), Offered(base, q.single), g);
      assert g in discards && Tied(key, f, g);
    }
  }

  lemma OtherGetsTaken(key: VersionKey, q: Request, base: Entries, d: Entries, discards: set<Fmri>, p: Publisher,
                       s: string)
    requires Discards(BaseRule(q), Offered(base, q.single), q.pubs, discards)
    ensures OtherGets(key, q, base, d, p, s, Taken(OtherRule(key, discards), Offered(d, q.single), q.pubs, p, s))
  {
    forall e {
      TakenFrom(OtherRule(key, discards), q, d, p, s, e);
    }
    forall version: string {
      DiscardsExactly(key, q, base, discards, Fmri(p, s, version));
    }
  }

  lemma NewAfterOwn(own: seq<Entry>, more: seq<Entry>)
    requires CanJoin(own, more)
    ensures var l := own + more;
            forall i, j :: 0 <= i < j < |l| && |own| <= j ==> l[i].version != l[j].version
  {
  }

  /** What a successful append comes to, list by list. */
  lemma AppendedTakesOver(was: PartFiles, src: PartFiles, q: Request, key: VersionKey, discards: set<Fmri>,
                          ps: PartFiles)
    requires Base in src && Appendable(was, src, q, key, discards) && Appended(was, src, q, key, discards, ps)
    ensures TakesOver(key, was, src, q, ps)
  {
    forall n, p: Publisher, s: string | n in src
      ensures var own, l := ListAt(DataOf(was, n), p, s), ListAt(DataOf(ps, n), p, s);
              && own <= l && Gets(key, q, src, n, p, s, l[|own|..])
              && forall i, j :: 0 <= i < j < |l| && |own| <= j ==> l[i].version != l[j].version
    {
      var own, l := ListAt(DataOf(was, n), p, s), ListAt(DataOf(ps, n), p, s);
      var more := Taken(RuleFor(q, key, discards, n), Offered(src[n].data, q.single), q.pubs, p, s);
      assert PartJoined(was, src, q, key, discards, n, ps) && PartJoinable(was, src, q, key, discards, n);
      assert l == own + more && l[|own|..] == more;
      NewAfterOwn(own, more);
      if n == Base {
        BaseGetsTaken(q, src[Base].data, p, s);
      } else {
        OtherGetsTaken(key, q, src[Base].data, src[n].data, discards, p, s);
      }
    }
  }

  /** The callback accepts the package's base entry. */
  ghost predicate Accepted(q: Request, base: Entries, f: Fmri) {
    exists x :: x in ListAt(base, f.pub, f.stem) && x.version == f.version && q.judge(f, x).Some?
  }

  ghost predicate Wanted(q: Request, f: Fmri) {
    (q.pubs == {} || f.pub in q.pubs) && (q.single.None? || f == q.single.value)
  }

  /** The base part takes over the packages asked for that the callback accepts... */
  lemma BaseTakes(q: Request, base: Entries, f: Fmri)
    requires AllDistinct(base)
    ensures Takes(BaseRule(q), Offered(base, q.single), q.pubs, f) <==> Wanted(q, f) && Accepted(q, base, f)
  {
    var e := Offered(base, q.single);
    OfferedContains(base, q.single, f);
    ChosenHas(BaseRule(q), f, ListAt(e, f.pub, f.stem));
    OneEntry(ListAt(base, f.pub, f.stem), f.version);
    if Wanted(q, f) && Accepted(q, base, f) {
      var x :| x in ListAt(base, f.pub, f.stem) && x.version == f.version && q.judge(f, x).Some?;
      assert Contains(base, f);
      assert Has(ListAt(e, f.pub, f.stem), f.version);
      var i :| 0 <= i < |ListAt(e, f.pub, f.stem)| && ListAt(e, f.pub, f.stem)[i].version == f.version;
      assert ListAt(e, f.pub, f.stem)[i] == x;
    }
    if Takes(BaseRule(q), e, q.pubs, f) {
      var x :| x in ListAt(e, f.pub, f.stem) && x.version == f.version && BaseRule(q)(f, x).Some?;
      assert Contains(e, f);
    }
  }

  lemma OneEntry(l: seq<Entry>, version: string)
    requires Distinct(l)
    ensures forall x, y :: x in l && y in l && x.version == version == y.version ==> x == y
  {
  }

  /** ... and the other parts those that no discarded package equals. */
  lemma OtherTakes(q: Request, key: VersionKey, discards: set<Fmri>, d: Entries, f: Fmri)
    ensures Takes(OtherRule(key, discards), Offered(d, q.single), q.pubs, f)
            <==> Wanted(q, f) && Contains(d, f) && !Member(key, f, discards)
  {
    var e := Offered(d, q.single);
    OfferedContains(d, q.single, f);
    ChosenHas(OtherRule(key, discards), f, ListAt(e, f.pub, f.stem));
  }

  lemma DiscardedExactly(q: Request, base: Entries, discards: set<Fmri>, f: Fmri)
    requires AllDistinct(base) && Discards(BaseRule(q), Offered(base, q.single), q.pubs, discards)
    ensures f in discards <==> Wanted(q, f) && Contains(base, f) && !Accepted(q, base, f)
  {
    var e := Offered(base, q.single);
    OfferedContains(base, q.single, f);
    OneEntry(ListAt(base, f.pub, f.stem), f.version);
    if f in discards {
      var x :| x in ListAt(e, f.pub, f.stem) && x.version == f.version && BaseRule(q)(f, x).None?;
      assert Contains(e, f);
    }
    if Wanted(q, f) && Contains(base, f) && !Accepted(q, base, f) {
      assert Has(ListAt(e, f.pub, f.stem), f.version);
      var i :| 0 <= i < |ListAt(e, f.pub, f.stem)| && ListAt(e, f.pub, f.stem)[i].version == f.version;
      assert q.judge(f, ListAt(e, f.pub, f.stem)[i]).None?;
    }
  }

  /** The package is taken over by part n. */
  ghost predicate TakenBy(src: PartFiles, q: Request, key: VersionKey, discards: set<Fmri>, n: PartName, f: Fmri) {
    n in src && Takes(RuleFor(q, key, discards, n), Offered(src[n].data, q.single), q.pubs, f)
  }

  /** A package that the callback accepts has entries in other parts, and equals one that it discards. */
  ghost predicate VerdictsClash(src: PartFiles, q: Request, key: VersionKey, n: PartName, f: Fmri, g: Fmri) {
    && n != Base && n in src && Contains(src[n].data, f) && Wanted(q, f) && Wanted(q, g) && Tied(key, f, g)
    && Accepted(q, DataOf(src, Base), f) && Contains(DataOf(src, Base), g) && !Accepted(q, DataOf(src, Base), g)
  }

  ghost predicate Together(src: PartFiles, q: Request, key: VersionKey, discards: set<Fmri>, n: PartName, f: Fmri) {
    TakenBy(src, q, key, discards, n, f) <==> TakenBy(src, q, key, discards, Base, f)
  }

  lemma TogetherExactly(src: PartFiles, q: Request, key: VersionKey, discards: set<Fmri>, n: PartName, f: Fmri)
    requires Coherent(src) && Base in src && n != Base && n in src && Contains(src[n].data, f)
    requires BaseDiscards(src, q, discards)
    ensures Together(src, q, key, discards, n, f) <==> !exists g :: VerdictsClash(src, q, key, n, f, g)
  {
    var base := src[Base].data;
    BaseTakes(q, base, f);
    OtherTakes(q, key, discards, src[n].data, f);
    DiscardedExactly(q, base, discards, f);
    assert Contains(DataOf(src, Base), f);
    assert Tied(key, f, f);
    if g :| VerdictsClash(src, q, key, n, f, g) {
      DiscardedExactly(q, base, discards, g);
      assert g in discards;
    }
    if Wanted(q, f) && Accepted(q, base, f) && Member(key, f, discards) {
      var g :| g in discards && Tied(key, f, g);
      DiscardedExactly(q, base, discards, g);
      assert VerdictsClash(src, q, key, n, f, g);
    }
  }

  /** A package is taken over by every part that lists it or by none, exactly when no two versions between
      which the callback tells differ in the build release alone. */
  lemma TakenTogetherExactly(src: PartFiles, q: Request, key: VersionKey, discards: set<Fmri>)
    requires Coherent(src) && Base in src
    requires BaseDiscards(src, q, discards)
    ensures (forall n, f :: n != Base && n in src && Contains(src[n].data, f) ==> Together(src, q, key, discards, n, f))
            <==> !exists n, f, g :: VerdictsClash(src, q, key, n, f, g)
  {
    forall n, f | n != Base && n in src && Contains(src[n].data, f)
      ensures Together(src, q, key, discards, n, f) <==> !exists g :: VerdictsClash(src, q, key, n, f, g)
    {
      TogetherExactly(src, q, key, discards, n, f);
    }
  }

  // ----- Coverage

  /** Some of the packages, each at most once. */
  ghost predicate Grown(d: Entries, rule: Rule, e: Entries, pubs: set<Publisher>, d': Entries) {
    && NoEmpty(d') && (AllDistinct(d) ==> AllDistinct(d'))
    && (forall f :: Contains(d, f) ==> Contains(d', f))
    && forall f :: Contains(d', f) ==> Contains(d, f) || Takes(rule, e, pubs, f)
  }

  lemma JoinedGrows(d: Entries, rule: Rule, e: Entries, pubs: set<Publisher>, d': Entries)
    requires Joinable(d, rule, e, pubs) && Joined(d, rule, e, pubs, d')
    ensures Grown(d, rule, e, pubs, d')
  {
    forall f
      ensures Contains(d', f) <==> Contains(d, f) || Takes(rule, e, pubs, f)
    {
      HasConcat(ListAt(d, f.pub, f.stem), Taken(rule, e, pubs, f.pub, f.stem), f.version);
    }
    if AllDistinct(d) {
      forall p: Publisher, s: string
        ensures Distinct(ListAt(d', p, s))
      {
        JoinDistinct(ListAt(d, p, s), Taken(rule, e, pubs, p, s));
      }
    }
  }

  lemma JoinDistinct(own: seq<Entry>, l: seq<Entry>)
    requires Distinct(own) && CanJoin(own, l)
    ensures Distinct(own + l)
  {
  }

  ghost predicate PartGrown(was: PartFiles, src: PartFiles, q: Request, key: VersionKey, discards: set<Fmri>,
                            n: PartName, ps: PartFiles)
  {
    n in src && Grown(DataOf(was, n), RuleFor(q, key, discards, n), Offered(src[n].data, q.single), q.pubs,
                      DataOf(ps, n))
  }

  /** At any point of appending: no part has got anything but what it should, and none anything at all
      before the base part has got everything. */
  ghost predicate Underway(was: PartFiles, src: PartFiles, q: Request, key: VersionKey, discards: set<Fmri>,
                           ps: PartFiles)
  {
    && (forall n :: DataOf(ps, n) == DataOf(was, n) || PartGrown(was, src, q, key, discards, n, ps))
    && ((forall n :: n != Base ==> DataOf(ps, n) == DataOf(was, n))
        || (Base in src && PartJoined(was, src, q, key, discards, Base, ps)
            && BaseDiscards(src, q, discards)))
  }

  /** So at any point, also when appending fails, the catalog is coherent if both were. */
  lemma AppendCoheres(was: PartFiles, src: PartFiles, q: Request, key: VersionKey, discards: set<Fmri>, ps: PartFiles)
    requires Coherent(was) && Coherent(src) && Underway(was, src, q, key, discards, ps)
    ensures Coherent(ps)
  {
    forall n | n in ps
      ensures NoEmpty(ps[n].data) && AllDistinct(ps[n].data)
    {
      EmptyIsFine(was, n);
      assert DataOf(ps, n) == DataOf(was, n) || PartGrown(was, src, q, key, discards, n, ps);
    }
    forall n, f | n in ps && Contains(ps[n].data, f)
      ensures Contains(DataOf(ps, Base), f)
    {
      AppendCovers(was, src, q, key, discards, ps, n, f);
    }
  }

  lemma EmptyIsFine(ps: PartFiles, n: PartName)
    requires Coherent(ps)
    ensures NoEmpty(DataOf(ps, n)) && AllDistinct(DataOf(ps, n))
  {
    if n !in ps {
      assert forall p: Publisher, s: string :: ListAt(DataOf(ps, n), p, s) == [];
    }
  }

  lemma BaseTakesToo(src: PartFiles, q: Request, key: VersionKey, discards: set<Fmri>, n: PartName, f: Fmri)
    requires Coherent(src) && n in src && Base in src
    requires BaseDiscards(src, q, discards)
    requires Takes(OtherRule(key, discards), Offered(src[n].data, q.single), q.pubs, f)
    ensures Takes(BaseRule(q), Offered(src[Base].data, q.single), q.pubs, f)
  {
    OtherTakes(q, key, discards, src[n].data, f);
    assert Contains(DataOf(src, Base), f);
    assert Tied(key, f, f);
    DiscardedExactly(q, src[Base].data, discards, f);
    BaseTakes(q, src[Base].data, f);
  }

  lemma JoinedHas(d: Entries, rule: Rule, e: Entries, pubs: set<Publisher>, d': Entries, f: Fmri)
    requires Joined(d, rule, e, pubs, d') && (Contains(d, f) || Takes(rule, e, pubs, f))
    ensures Contains(d', f)
  {
    HasConcat(ListAt(d, f.pub, f.stem), Taken(rule, e, pubs, f.pub, f.stem), f.version);
  }

  lemma AppendCovers(was: PartFiles, src: PartFiles, q: Request, key: VersionKey, discards: set<Fmri>, ps: PartFiles,
                     n: PartName, f: Fmri)
    requires Coherent(was) && Coherent(src) && Underway(was, src, q, key, discards, ps) && Contains(DataOf(ps, n), f)
    ensures Contains(DataOf(ps, Base), f)
  {
    if Contains(DataOf(was, n), f) {
      assert Contains(DataOf(was, Base), f);
      assert DataOf(ps, Base) == DataOf(was, Base) || PartGrown(was, src, q, key, discards, Base, ps);
    } else if n != Base {
      assert PartGrown(was, src, q, key, discards, n, ps);
      BaseTakesToo(src, q, key, discards, n, f);
      JoinedHas(DataOf(was, Base), BaseRule(q), Offered(src[Base].data, q.single), q.pubs, DataOf(ps, Base), f);
    }
  }

  // ----- After finalizing

  /** A rule that takes everything as it is. */
  ghost predicate Plain(rule: Rule) {
    forall f, e :: rule(f, e) == Some(e)
  }

  lemma {:induction false} PlainTakesAll(rule: Rule, p: Publisher, s: string, l: seq<Entry>)
    requires Plain(rule)
    ensures Chosen(rule, p, s, l) == l
  {
    if l != [] {
      var last := l[|l| - 1];
      PlainTakesAll(rule, p, s, l[..|l| - 1]);
      assert rule(Fmri(p, s, last.version), last) == Some(last);
      assert last.(version := last.version) == last;
    }
  }

  lemma CopiedLists(rule: Rule, e: Entries, pubs: set<Publisher>, d': Entries)
    requires Plain(rule) && Joined(map[], rule, e, pubs, d')
    ensures forall p: Publisher, s: string ::
              ListAt(d', p, s) == if pubs == {} || p in pubs then ListAt(e, p, s) else []
  {
    forall p: Publisher, s: string
      ensures ListAt(d', p, s) == if pubs == {} || p in pubs then ListAt(e, p, s) else []
    {
      assert ListAt(map[], p, s) + Taken(rule, e, pubs, p, s) == Taken(rule, e, pubs, p, s);
      PlainTakesAll(rule, p, s, ListAt(e, p, s));
    }
  }

  /** Without a callback, appending to nothing and sorting makes a copy of a sorted part, of the publishers
      asked for. */
  lemma AppendCopies(key: VersionKey, rule: Rule, e: Entries, pubs: set<Publisher>, d': Entries)
    requires NoEmpty(e) && AllSorted(key, e) && Plain(rule) && Joined(map[], rule, e, pubs, d')
    ensures SortAll(key, d') == d'
    ensures pubs == {} ==> d' == e
    ensures forall f :: Contains(d', f) <==> Contains(e, f) && (pubs == {} || f.pub in pubs)
  {
    CopiedLists(rule, e, pubs, d');
    forall p: Publisher, s: string
      ensures Sorted(key, ListAt(d', p, s))
    {
      assert Sorted(key, ListAt(e, p, s));
    }
    SortedStays(key, d');
    if pubs == {} {
      Extensional(d', e);
    }
  }

  /** Appending to sorted parts and finalizing merges the lists: the entries of both, in order, and of
      entries that tie the part's own come first. */
  lemma {:induction false} AppendMerges(key: VersionKey, d: Entries, rule: Rule, e: Entries, pubs: set<Publisher>,
                                        d': Entries, p: Publisher, s: string)
    requires NoEmpty(d) && AllSorted(key, d) && Joined(d, rule, e, pubs, d')
    ensures var l, taken := ListAt(SortAll(key, d'), p, s), Taken(rule, e, pubs, p, s);
            && Sorted(key, l) && multiset(l) == multiset(ListAt(d, p, s)) + multiset(taken)
            && forall k: real :: WithKey(key, l, k) == WithKey(key, ListAt(d, p, s), k) + WithKey(key, taken, k)
  {
    SortAllLists(key, d');
    StableSortCorrect(key, ListAt(d', p, s));
    forall k: real
      ensures WithKey(key, ListAt(d', p, s), k)
           == WithKey(key, ListAt(d, p, s), k) + WithKey(key, Taken(rule, e, pubs, p, s), k)
    {
      WithKeyConcat(key, ListAt(d, p, s), Taken(rule, e, pubs, p, s), k);
    }
  }

  lemma {:induction false} WithKeyConcat(key: VersionKey, s: seq<Entry>, t: seq<Entry>, k: real)
    ensures WithKey(key, s + t, k) == WithKey(key, s, k) + WithKey(key, t, k)
  {
    if t == [] {
      assert s + t == s;
    } else {
      assert (s + t)[..|s + t| - 1] == s + t[..|t| - 1];
      WithKeyConcat(key, s, t[..|t| - 1], k);
    }
  }
}
