/** Selecting packages by patterns: one pass over the packages of a catalog, testing patterns in no
    particular order and, unless the caller wants to know which patterns matched, only up to the
    first that accepts. */
module Selection {
  import opened CatalogParts
  import opened NestedLists
  import opened PackageNames
  import opened VersionLists
  import opened Wrappers

  /** How a pattern's stem is compared: as a whole, as the last components, or with wildcards. */
  datatype Matcher = Exact | Suffix | Glob

  datatype Pattern = Pattern(pub: Option<string>, stem: string, version: Option<string>, latest: bool, matcher: Matcher)

  /** What parsing a pattern gives, and its canonical text, which does not tell the matcher. */
  datatype Parsed = Illegal | Legal(pattern: Pattern, text: string)

  /** Parsing, the comparison of versions and wildcard matching are not part of this model. */
  datatype Rules = Rules(parse: string -> Parsed, isSuccessor: (string, string) -> bool, glob: (string, string) -> bool)

  predicate EndsWith(s: string, t: string) {
    |t| <= |s| && s[|s| - |t|..] == t
  }

  predicate StemMatches(rules: Rules, p: Pattern, stem: string) {
    match p.matcher
    case Exact => p.stem == stem
    case Suffix => EndsWith("/" + stem, "/" + p.stem)
    case Glob => rules.glob(stem, p.stem)
  }

  /** The pattern accepts a package version; first says whether it is the first listed of its stem. */
  predicate Accepts(rules: Rules, p: Pattern, f: Fmri, first: bool) {
    && (p.pub.Some? ==> p.pub.value == f.pub)
    && StemMatches(rules, p, f.stem)
    && (p.version.Some? ==> rules.isSuccessor(f.version, p.version.value))
    && (p.latest ==> first)
  }

  /** What a pattern asks for, field by field. */
  lemma AcceptsExactly(rules: Rules, p: Pattern, f: Fmri, first: bool)
    ensures Accepts(rules, p, f, first) <==>
            && (p.pub == None || p.pub == Some(f.pub))
            && (p.matcher == Exact ==> f.stem == p.stem)
            && (p.matcher == Suffix ==> f.stem == p.stem || exists x: string :: f.stem == x + "/" + p.stem)
            && (p.matcher == Glob ==> rules.glob(f.stem, p.stem))
            && (p.version == None || rules.isSuccessor(f.version, p.version.value))
            && (!p.latest || first)
  {
    if p.matcher == Suffix {
      TailExactly(f.stem, p.stem);
    }
  }

  lemma TailExactly(s: string, t: string)
    ensures EndsWith("/" + s, "/" + t) <==> s == t || exists x: string :: s == x + "/" + t
  {
    var n := |s| - |t|;
    if EndsWith("/" + s, "/" + t) && n > 0 {
      assert ("/" + s)[n..] == s[n - 1..];
      assert s == s[..n - 1] + "/" + t;
    } else if EndsWith("/" + s, "/" + t) {
      assert ("/" + s)[0..] == "/" + s;
      assert s == ("/" + s)[1..] && t == ("/" + t)[1..];
    }
    forall x: string | s == x + "/" + t
      ensures EndsWith("/" + s, "/" + t)
    {
      assert "/" + s == "/" + x + ("/" + t);
    }
    if s == t {
      assert ("/" + s)[0..] == "/" + t;
    }
  }

  // ----- Reading the patterns

  /** Pattern number i is legal, and the first of its canonical text. */
  ghost predicate Counts(rules: Rules, patterns: seq<string>, i: int) {
    && 0 <= i < |patterns| && rules.parse(patterns[i]).Legal?
    && forall j ::
         0 <= j < i && rules.parse(patterns[j]).Legal? ==>
           rules.parse(patterns[j]).text != rules.parse(patterns[i]).text
  }

  ghost predicate IsKept(rules: Rules, patterns: seq<string>, pat: string) {
    exists i :: Counts(rules, patterns, i) && patterns[i] == pat
  }

  /** Drop patterns that say again what an earlier one says; all must be legal. */
  method ReadPatterns(rules: Rules, patterns: seq<string>) returns (r: Option<set<string>>)
    ensures r.Some? <==> forall i :: 0 <= i < |patterns| ==> rules.parse(patterns[i]).Legal?
    ensures r.Some? ==> forall pat :: pat in r.value <==> IsKept(rules, patterns, pat)
    ensures r.Some? ==> AllLegal(rules, r.value)
  {
    var kept: set<string>, seen: set<string>, legal := {}, {}, true;
    for i := 0 to |patterns|
      invariant legal <==> forall j :: 0 <= j < i ==> rules.parse(patterns[j]).Legal?
      invariant SeenIn(rules, patterns, i, seen) && KeptIn(rules, patterns, i, kept)
    {
      var parsed := rules.parse(patterns[i]);
      NextCounts(rules, patterns, i, seen, kept);
      if parsed.Illegal? {
        legal := false;
        continue;
      }
      if parsed.text in seen {
        continue;
      }
      seen := seen + {parsed.text};
      kept := kept + {patterns[i]};
    }
    r := if legal then Some(kept) else None;
  }

  ghost predicate SeenIn(rules: Rules, patterns: seq<string>, n: int, seen: set<string>)
    requires 0 <= n <= |patterns|
  {
    forall text :: text in seen <==> exists j :: 0 <= j < n && SaysText(rules, patterns[j], text)
  }

  ghost predicate KeptIn(rules: Rules, patterns: seq<string>, n: int, kept: set<string>)
    requires 0 <= n <= |patterns|
  {
    forall pat :: pat in kept <==> exists j :: 0 <= j < n && Counts(rules, patterns, j) && patterns[j] == pat
  }

  lemma NextCounts(rules: Rules, patterns: seq<string>, n: int, seen: set<string>, kept: set<string>)
    requires 0 <= n < |patterns| && SeenIn(rules, patterns, n, seen) && KeptIn(rules, patterns, n, kept)
    ensures var p := rules.parse(patterns[n]);
            && (p.Illegal? ==> SeenIn(rules, patterns, n + 1, seen) && KeptIn(rules, patterns, n + 1, kept))
            && (p.Legal? && p.text in seen ==>
                SeenIn(rules, patterns, n + 1, seen) && KeptIn(rules, patterns, n + 1, kept))
            && (p.Legal? && p.text !in seen ==>
                  SeenIn(rules, patterns, n + 1, seen + {p.text})
                  && KeptIn(rules, patterns, n + 1, kept + {patterns[n]}))
  {
    forall j | 0 <= j < n && rules.parse(patterns[j]).Legal?
      ensures SaysText(rules, patterns[j], rules.parse(patterns[j]).text)
    {
    }
    assert Counts(rules, patterns, n) <==> rules.parse(patterns[n]).Legal? && rules.parse(patterns[n]).text !in seen;
    forall text
      ensures (exists j :: 0 <= j < n + 1 && SaysText(rules, patterns[j], text)) <==>
                (exists j :: 0 <= j < n && SaysText(rules, patterns[j], text)) || SaysText(rules, patterns[n], text)
    {
    }
  }

  predicate SaysText(rules: Rules, pat: string, text: string) {
    rules.parse(pat).Legal? && rules.parse(pat).text == text
  }

  // ----- Testing

  ghost predicate AllLegal(rules: Rules, kept: set<string>) {
    forall pat :: pat in kept ==> rules.parse(pat).Legal?
  }

  predicate PatAccepts(rules: Rules, pat: string, f: Fmri, first: bool) {
    rules.parse(pat).Legal? && Accepts(rules, rules.parse(pat).pattern, f, first)
  }

  /** The order-free rule: without patterns every package is selected, else those that some pattern
      accepts. */
  ghost predicate Selected(rules: Rules, kept: set<string>, f: Fmri, first: bool) {
    kept == {} || exists pat :: pat in kept && PatAccepts(rules, pat, f, first)
  }

  ghost predicate IsFirst(listing: seq<Fmri>, i: int)
    requires 0 <= i < |listing|
  {
    forall j :: 0 <= j < i ==> !SameStem(listing[j], listing[i])
  }

  predicate SameStem(f: Fmri, g: Fmri) {
    f.pub == g.pub && f.stem == g.stem
  }

  /** Test one package: whether to omit it, and the patterns that accept it, all of them if collecting. */
  method TestPatterns(rules: Rules, kept: set<string>, f: Fmri, first: bool, collect: bool)
    returns (omit: bool, accepting: set<string>)
    requires AllLegal(rules, kept)
    ensures omit <==> !Selected(rules, kept, f, first)
    ensures collect ==> forall pat :: pat in accepting <==> pat in kept && PatAccepts(rules, pat, f, first)
  {
    var omitPackage: Option<bool> := None;
    accepting := {};
    var todo := kept;
    while todo != {}
      invariant todo <= kept
      invariant omitPackage.None? <==> todo == kept
      invariant omitPackage.Some? ==>
                  if omitPackage.value then forall pat :: pat in kept - todo ==> !PatAccepts(rules, pat, f, first)
                  else exists pat :: pat in kept && PatAccepts(rules, pat, f, first)
      invariant collect ==> forall pat :: pat in accepting <==> pat in kept - todo && PatAccepts(rules, pat, f, first)
      decreases todo
    {
      var pat :| pat in todo;
      todo := todo - {pat};
      var p := rules.parse(pat).pattern;
      if p.pub.Some? && f.pub != p.pub.value {
        omitPackage := if omitPackage.None? then Some(true) else omitPackage;
        continue;
      }
      if !StemMatches(rules, p, f.stem) {
        omitPackage := if omitPackage.None? then Some(true) else omitPackage;
        continue;
      }
      if p.version.Some? && !rules.isSuccessor(f.version, p.version.value) {
        omitPackage := if omitPackage.None? then Some(true) else omitPackage;
        continue;
      }
      if p.latest && !first {
        omitPackage := if omitPackage.None? then Some(true) else omitPackage;
        continue;
      }
      omitPackage := Some(false);
      if !collect {
        break;
      }
      accepting := accepting + {pat};
    }
    omit := omitPackage.Some? && omitPackage.value;
  }

  // ----- The pass

  /** The selected packages among the first n listed. */
  ghost function SelectedOf(rules: Rules, kept: set<string>, listing: seq<Fmri>, n: nat): seq<Fmri>
    requires n <= |listing|
  {
    if n == 0 then []
    else
      SelectedOf(rules, kept, listing, n - 1)
      + if Selected(rules, kept, listing[n - 1], IsFirst(listing, n - 1)) then [listing[n - 1]] else []
  }

  ghost predicate MatchesSome(rules: Rules, listing: seq<Fmri>, n: int, pat: string)
    requires n <= |listing|
  {
    exists i :: 0 <= i < n && PatAccepts(rules, pat, listing[i], IsFirst(listing, i))
  }

  ghost predicate CountsStems(nlist: map<(Publisher, string), nat>, listing: seq<Fmri>, n: int)
    requires 0 <= n <= |listing|
  {
    && (forall j :: 0 <= j < n ==> (listing[j].pub, listing[j].stem) in nlist)
    && (forall k :: k in nlist ==> nlist[k] > 0 && exists j :: 0 <= j < n && (listing[j].pub, listing[j].stem) == k)
  }

  /** Count one more package of a stem, and say whether it is the first. */
  method CountStem(nlist: map<(Publisher, string), nat>, ghost listing: seq<Fmri>, ghost i: int, f: Fmri)
    returns (more: map<(Publisher, string), nat>, first: bool)
    requires 0 <= i < |listing| && f == listing[i] && CountsStems(nlist, listing, i)
    ensures first <==> IsFirst(listing, i)
    ensures CountsStems(more, listing, i + 1)
  {
    var pkgStem := (f.pub, f.stem);
    if pkgStem in nlist {
      ghost var j :| 0 <= j < i && (listing[j].pub, listing[j].stem) == pkgStem;
      assert SameStem(listing[j], listing[i]);
    }
    more := nlist[pkgStem := (if pkgStem in nlist then nlist[pkgStem] else 0) + 1];
    first := more[pkgStem] <= 1;
  }

  ghost predicate MatchedAre(rules: Rules, kept: set<string>, listing: seq<Fmri>, n: int, matched: set<string>)
    requires n <= |listing|
  {
    forall pat :: pat in matched <==> pat in kept && MatchesSome(rules, listing, n, pat)
  }

  /** Test the next package, and note the patterns that have accepted some package by now. */
  method TestNext(rules: Rules, kept: set<string>, ghost listing: seq<Fmri>, ghost i: int, f: Fmri, first: bool,
                  collect: bool, was: set<string>) returns (omit: bool, matched: set<string>)
    requires AllLegal(rules, kept) && 0 <= i < |listing| && f == listing[i] && (first <==> IsFirst(listing, i))
    requires collect ==> MatchedAre(rules, kept, listing, i, was)
    ensures omit <==> !Selected(rules, kept, f, first)
    ensures collect ==> MatchedAre(rules, kept, listing, i + 1, matched)
  {
    var accepting;
    omit, accepting := TestPatterns(rules, kept, f, first, collect);
    matched := if omit then was else was + accepting;
    if collect {
      MatchesMore(rules, kept, listing, i, was, accepting, omit, matched);
    }
  }

  /** The packages that the patterns select, in the order listed, and, if the caller wants to know, which
      patterns accepted some package and which did not; None when a pattern is illegal. */
  method GenPackages(rules: Rules, listing: seq<Fmri>, patterns: seq<string>, collect: bool)
    returns (r: Option<seq<Fmri>>, matched: set<string>, unmatched: set<string>, ghost kept: set<string>)
    ensures r.Some? <==> forall i :: 0 <= i < |patterns| ==> rules.parse(patterns[i]).Legal?
    ensures r.Some? ==> forall pat :: pat in kept <==> IsKept(rules, patterns, pat)
    ensures r.Some? ==> r.value == SelectedOf(rules, kept, listing, |listing|)
    ensures r.Some? && collect ==>
              && matched !! unmatched && matched + unmatched == kept
              && forall pat :: pat in matched <==> pat in kept && MatchesSome(rules, listing, |listing|, pat)
  {
    matched, unmatched, kept := {}, {}, {};
    var read := ReadPatterns(rules, patterns);
    if read.None? {
      return None, matched, unmatched, kept;
    }
    var pats := read.value;
    kept := pats;
    var out: seq<Fmri> := [];
    var nlist: map<(Publisher, string), nat> := map[];
    for i := 0 to |listing|
      invariant out == SelectedOf(rules, pats, listing, i)
      invariant CountsStems(nlist, listing, i)
      invariant collect ==> MatchedAre(rules, pats, listing, i, matched)
    {
      var f := listing[i];
      var first;
      nlist, first := CountStem(nlist, listing, i, f);
      var omit;
      omit, matched := TestNext(rules, pats, listing, i, f, first, collect, matched);
      SelectedNext(rules, pats, listing, i, omit);
      if !omit {
        out := out + [f];
      }
    }
    unmatched := pats - matched;
    if collect {
      MatchedSplit(rules, pats, listing, matched);
    }
    r := Some(out);
  }

  lemma MatchedSplit(rules: Rules, kept: set<string>, listing: seq<Fmri>, matched: set<string>)
    requires MatchedAre(rules, kept, listing, |listing|, matched)
    ensures matched + (kept - matched) == kept
  {
  }

  lemma SelectedNext(rules: Rules, kept: set<string>, listing: seq<Fmri>, i: int, omit: bool)
    requires 0 <= i < |listing| && (omit <==> !Selected(rules, kept, listing[i], IsFirst(listing, i)))
    ensures SelectedOf(rules, kept, listing, i + 1)
         == if omit then SelectedOf(rules, kept, listing, i) else SelectedOf(rules, kept, listing, i) + [listing[i]]
  {
  }

  lemma MatchesMore(rules: Rules, kept: set<string>, listing: seq<Fmri>, i: int, was: set<string>,
                    accepting: set<string>, omit: bool, matched: set<string>)
    requires 0 <= i < |listing|
    requires MatchedAre(rules, kept, listing, i, was)
    requires forall pat :: pat in accepting <==> pat in kept && PatAccepts(rules, pat, listing[i], IsFirst(listing, i))
    requires omit <==> !Selected(rules, kept, listing[i], IsFirst(listing, i))
    requires matched == if omit then was else was + accepting
    ensures MatchedAre(rules, kept, listing, i + 1, matched)
  {
    forall pat
      ensures MatchesSome(rules, listing, i + 1, pat) <==>
                MatchesSome(rules, listing, i, pat) || PatAccepts(rules, pat, listing[i], IsFirst(listing, i))
    {
      MatchesNext(rules, listing, i, pat);
    }
  }

  lemma MatchesNext(rules: Rules, listing: seq<Fmri>, i: int, pat: string)
    requires 0 <= i < |listing|
    ensures MatchesSome(rules, listing, i + 1, pat) <==>
              MatchesSome(rules, listing, i, pat) || PatAccepts(rules, pat, listing[i], IsFirst(listing, i))
  {
    if MatchesSome(rules, listing, i, pat) {
      var j :| 0 <= j < i && PatAccepts(rules, pat, listing[j], IsFirst(listing, j));
      assert 0 <= j < i + 1 && PatAccepts(rules, pat, listing[j], IsFirst(listing, j));
    }
  }

  // ----- The packages of a catalog

  ghost predicate Descending(key: VersionKey, listing: seq<Fmri>) {
    forall i, j :: 0 <= i < j < |listing| && SameStem(listing[i], listing[j]) ==>
      key(listing[i].version) >= key(listing[j].version)
  }

  /** The versions of one list, the last one first. */
  function Reversed(pub: Publisher, stem: string, l: seq<Entry>): seq<Fmri> {
    if l == [] then [] else [Fmri(pub, stem, l[|l| - 1].version)] + Reversed(pub, stem, l[..|l| - 1])
  }

  lemma {:induction false} ReversedIs(pub: Publisher, stem: string, l: seq<Entry>)
    ensures |Reversed(pub, stem, l)| == |l|
    ensures forall k :: 0 <= k < |l| ==> Reversed(pub, stem, l)[k] == Fmri(pub, stem, l[|l| - 1 - k].version)
  {
    if l != [] {
      ReversedIs(pub, stem, l[..|l| - 1]);
    }
  }

  /** One stem's list, descending, behind listings of other stems. */
  lemma AppendStem(key: VersionKey, listing: seq<Fmri>, pub: Publisher, stem: string, l: seq<Entry>)
    requires Descending(key, listing) && Sorted(key, l)
    requires forall f :: f in listing ==> !SameStem(f, Fmri(pub, stem, ""))
    ensures Descending(key, listing + Reversed(pub, stem, l))
  {
    ReversedIs(pub, stem, l);
    var all := listing + Reversed(pub, stem, l);
    forall i | 0 <= i < |listing|
      ensures !SameStem(all[i], Fmri(pub, stem, ""))
    {
      assert all[i] in listing;
    }
    forall i | |listing| <= i < |all|
      ensures all[i] == Fmri(pub, stem, l[|all| - 1 - i].version)
    {
      assert all[i] == Reversed(pub, stem, l)[i - |listing|];
    }
  }

  lemma ReversedHas(pub: Publisher, stem: string, l: seq<Entry>, f: Fmri)
    ensures f in Reversed(pub, stem, l) <==> f.pub == pub && f.stem == stem && Has(l, f.version)
  {
    ReversedIs(pub, stem, l);
    if f.pub == pub && f.stem == stem && Has(l, f.version) {
      var i :| 0 <= i < |l| && l[i].version == f.version;
      assert Reversed(pub, stem, l)[|l| - 1 - i] == f;
    }
  }

  /** All package versions of a part, by stem and publisher, newest first: from sorted lists. */
  method OrderedEntries(key: VersionKey, d: Entries, pubs: seq<string>) returns (listing: seq<Fmri>)
    requires PlainStems(d)
    ensures forall f :: f in listing <==> Contains(d, f) && (pubs == [] || f.pub in pubs)
    ensures AllSorted(key, d) ==> Descending(key, listing)
    ensures FirstsAreLast(d, listing) && (AllDistinct(d) ==> NoRepeats(listing))
  {
    var names := PkgNames(d, pubs);
    listing := [];
    for i := 0 to |names|
      invariant forall f :: f in listing <==> Contains(d, f) && (f.pub, f.stem) in names[..i]
      invariant AllSorted(key, d) ==> Descending(key, listing)
      invariant FirstsAreLast(d, listing) && (AllDistinct(d) ==> NoRepeats(listing))
    {
      var (pub, stem) := names[i];
      var l := ListAt(d, pub, stem);
      assert names[..i + 1] == names[..i] + [names[i]] && names[i] !in names[..i];
      if AllSorted(key, d) {
        AppendStem(key, listing, pub, stem, l);
      }
      AppendFirsts(d, listing, pub, stem);
      forall f
        ensures f in Reversed(pub, stem, l) <==> f.pub == pub && f.stem == stem && Contains(d, f)
      {
        ReversedHas(pub, stem, l, f);
      }
      listing := listing + Reversed(pub, stem, l);
    }
    assert names[..|names|] == names;
    forall f
      ensures f in listing <==> Contains(d, f) && (pubs == [] || f.pub in pubs)
    {
      if Contains(d, f) {
        FmrisContains(d, f);
        assert (f.pub, f.stem) in Packages(d);
      }
    }
  }

  // ----- Listing the packages of a catalog

  /** The last entry of a version list; in a sorted list, the newest. */
  ghost predicate IsLast(d: Entries, f: Fmri) {
    var l := ListAt(d, f.pub, f.stem);
    l != [] && l[|l| - 1].version == f.version
  }

  lemma LastIsNewest(key: VersionKey, d: Entries, f: Fmri, g: Fmri)
    requires AllSorted(key, d) && IsLast(d, f) && Contains(d, g) && SameStem(f, g)
    ensures key(g.version) <= key(f.version)
  {
    assert Sorted(key, ListAt(d, f.pub, f.stem));
  }

  ghost predicate FirstsAreLast(d: Entries, listing: seq<Fmri>) {
    forall i :: 0 <= i < |listing| && IsFirst(listing, i) ==> IsLast(d, listing[i])
  }

  ghost predicate NoRepeats(listing: seq<Fmri>) {
    forall i, j :: 0 <= i < j < |listing| ==> listing[i] != listing[j]
  }

  lemma AppendFirsts(d: Entries, listing: seq<Fmri>, pub: Publisher, stem: string)
    requires FirstsAreLast(d, listing) && forall f :: f in listing ==> !SameStem(f, Fmri(pub, stem, ""))
    ensures var all := listing + Reversed(pub, stem, ListAt(d, pub, stem));
            FirstsAreLast(d, all) && (AllDistinct(d) && NoRepeats(listing) ==> NoRepeats(all))
  {
    var l := ListAt(d, pub, stem);
    ReversedIs(pub, stem, l);
    var all := listing + Reversed(pub, stem, l);
    forall i | 0 <= i < |listing|
      ensures all[i] == listing[i] && !SameStem(all[i], Fmri(pub, stem, ""))
    {
      assert all[i] in listing;
    }
    forall i | |listing| <= i < |all|
      ensures all[i] == Fmri(pub, stem, l[|all| - 1 - i].version)
    {
      assert all[i] == Reversed(pub, stem, l)[i - |listing|];
    }
    forall i | 0 <= i < |all| && IsFirst(all, i)
      ensures IsLast(d, all[i])
    {
      if i < |listing| {
        assert IsFirst(listing, i);
      } else {
        assert SameStem(all[|listing|], all[i]);
      }
    }
    if AllDistinct(d) {
      assert Distinct(l);
    }
  }

  lemma {:induction false} FirstOfStem(listing: seq<Fmri>, i: nat) returns (j: nat)
    requires i < |listing|
    ensures j <= i && IsFirst(listing, j) && SameStem(listing[j], listing[i])
  {
    if IsFirst(listing, i) {
      j := i;
    } else {
      var k :| 0 <= k < i && SameStem(listing[k], listing[i]);
      j := FirstOfStem(listing, k);
    }
  }

  /** Of a part without repeated versions, what is listed first of a stem is what comes last in its list. */
  lemma FirstExactly(d: Entries, listing: seq<Fmri>, i: nat)
    requires FirstsAreLast(d, listing) && NoRepeats(listing) && i < |listing|
    ensures IsFirst(listing, i) <==> IsLast(d, listing[i])
  {
    if IsLast(d, listing[i]) {
      var j := FirstOfStem(listing, i);
      assert listing[j] == listing[i];
    }
  }

  lemma {:induction false} SelectedOfHas(rules: Rules, kept: set<string>, listing: seq<Fmri>, n: nat, f: Fmri)
    requires n <= |listing|
    ensures f in SelectedOf(rules, kept, listing, n) <==>
              exists i :: 0 <= i < n && listing[i] == f && Selected(rules, kept, f, IsFirst(listing, i))
  {
    if n > 0 {
      SelectedOfHas(rules, kept, listing, n - 1, f);
    }
  }

  /** The packages of a part that the patterns select: a pattern for the latest accepts the newest version
      of a stem and no other, and what is listed is what the order-free rule says. */
  method ListPackages(rules: Rules, key: VersionKey, d: Entries, pubs: seq<string>, patterns: seq<string>,
                      collect: bool)
    returns (r: Option<seq<Fmri>>, matched: set<string>, unmatched: set<string>, ghost kept: set<string>)
    requires PlainStems(d) && AllDistinct(d)
    ensures r.Some? <==> AllParsed(rules, patterns)
    ensures r.Some? ==> forall pat :: pat in kept <==> IsKept(rules, patterns, pat)
    ensures r.Some? ==>
              forall pat :: pat in kept <==>
                              exists i :: 0 <= i < |patterns| && patterns[i] == pat
                                          && forall j :: 0 <= j < i ==>
                                               rules.parse(patterns[j]).text != rules.parse(patterns[i]).text
    ensures r.Some? ==>
              forall f :: f in r.value <==>
                            Contains(d, f) && (pubs == [] || f.pub in pubs)
                            && SelectedBy(rules, patterns, f, IsLast(d, f))
    ensures r.Some? && patterns == [] ==>
              forall f :: f in r.value <==> Contains(d, f) && (pubs == [] || f.pub in pubs)
    ensures r.Some? && patterns != [] ==>
              forall f :: f in r.value <==>
                && Contains(d, f) && (pubs == [] || f.pub in pubs)
                && exists pat :: pat in kept &&
                     var p, l := rules.parse(pat).pattern, ListAt(d, f.pub, f.stem);
                     && (p.pub == None || p.pub == Some(f.pub))
                     && (p.matcher == Exact ==> f.stem == p.stem)
                     && (p.matcher == Suffix ==> f.stem == p.stem || exists x: string :: f.stem == x + "/" + p.stem)
                     && (p.matcher == Glob ==> rules.glob(f.stem, p.stem))
                     && (p.version == None || rules.isSuccessor(f.version, p.version.value))
                     && (p.latest ==> l != [] && l[|l| - 1].version == f.version)
    ensures r.Some? && AllSorted(key, d) ==> Descending(key, r.value)
    ensures AllSorted(key, d) ==>
              forall f, g :: IsLast(d, f) && Contains(d, g) && SameStem(f, g) ==> key(g.version) <= key(f.version)
    ensures r.Some? && collect ==>
              && matched !! unmatched && matched + unmatched == kept
              && forall pat :: pat in matched <==>
                   pat in kept
                   && exists f ::
                        Contains(d, f) && (pubs == [] || f.pub in pubs) && PatAccepts(rules, pat, f, IsLast(d, f))
  {
    if AllSorted(key, d) {
      forall f, g | IsLast(d, f) && Contains(d, g) && SameStem(f, g)
        ensures key(g.version) <= key(f.version)
      {
        LastIsNewest(key, d, f, g);
      }
    }
    var listing := OrderedEntries(key, d, pubs);
    r, matched, unmatched, kept := GenPackages(rules, listing, patterns, collect);
    if r.Some? {
      forall f
        ensures f in r.value <==>
                  Contains(d, f) && (pubs == [] || f.pub in pubs) && SelectedBy(rules, patterns, f, IsLast(d, f))
      {
        ListedExactly(rules, d, listing, patterns, kept, f);
      }
      KeptExactly(rules, patterns, kept);
      forall f {
        SelectedByKept(rules, patterns, kept, f, IsLast(d, f));
      }
      forall p, f {
        AcceptsExactly(rules, p, f, IsLast(d, f));
      }
      forall pat {
        MatchedExactly(rules, d, pubs, listing, pat);
      }
      if AllSorted(key, d) {
        SelectedDescending(rules, kept, key, listing, |listing|);
      }
    }
  }

  lemma MatchedExactly(rules: Rules, d: Entries, pubs: seq<string>, listing: seq<Fmri>, pat: string)
    requires FirstsAreLast(d, listing) && NoRepeats(listing)
    requires forall f :: f in listing <==> Contains(d, f) && (pubs == [] || f.pub in pubs)
    ensures MatchesSome(rules, listing, |listing|, pat) <==>
              exists f :: Contains(d, f) && (pubs == [] || f.pub in pubs) && PatAccepts(rules, pat, f, IsLast(d, f))
  {
    forall i | 0 <= i < |listing|
      ensures listing[i] in listing && IsFirst(listing, i) == IsLast(d, listing[i])
    {
      FirstExactly(d, listing, i);
    }
  }

  lemma KeptExactly(rules: Rules, patterns: seq<string>, kept: set<string>)
    requires AllParsed(rules, patterns) && forall pat :: pat in kept <==> IsKept(rules, patterns, pat)
    ensures patterns != [] ==> kept != {}
    ensures forall pat :: pat in kept <==>
                            exists i :: 0 <= i < |patterns| && patterns[i] == pat
                                        && forall j :: 0 <= j < i ==>
                                             rules.parse(patterns[j]).text != rules.parse(patterns[i]).text
  {
    forall i | 0 <= i < |patterns|
      ensures Counts(rules, patterns, i) <==>
                forall j :: 0 <= j < i ==> rules.parse(patterns[j]).text != rules.parse(patterns[i]).text
    {
    }
    if patterns != [] {
      assert Counts(rules, patterns, 0);
      assert patterns[0] in kept;
    }
  }

  lemma ListedExactly(rules: Rules, d: Entries, listing: seq<Fmri>, patterns: seq<string>, kept: set<string>, f: Fmri)
    requires FirstsAreLast(d, listing) && NoRepeats(listing) && AllParsed(rules, patterns)
    requires forall pat :: pat in kept <==> IsKept(rules, patterns, pat)
    ensures f in SelectedOf(rules, kept, listing, |listing|) <==>
            f in listing && SelectedBy(rules, patterns, f, IsLast(d, f))
  {
    SelectedOfHas(rules, kept, listing, |listing|, f);
    SelectedByKept(rules, patterns, kept, f, IsLast(d, f));
    forall i | 0 <= i < |listing| && listing[i] == f
      ensures IsFirst(listing, i) == IsLast(d, f)
    {
      FirstExactly(d, listing, i);
    }
  }

  lemma {:induction false} SelectedDescending(rules: Rules, kept: set<string>, key: VersionKey, listing: seq<Fmri>,
                                              n: nat)
    requires n <= |listing| && Descending(key, listing)
    ensures Descending(key, SelectedOf(rules, kept, listing, n))
  {
    if n > 0 {
      SelectedDescending(rules, kept, key, listing, n - 1);
      var r := SelectedOf(rules, kept, listing, n - 1);
      forall i | 0 <= i < |r|
        ensures SameStem(r[i], listing[n - 1]) ==> key(r[i].version) >= key(listing[n - 1].version)
      {
        SelectedOfHas(rules, kept, listing, n - 1, r[i]);
      }
    }
  }

  // ----- What the order of the patterns does

  ghost predicate AllParsed(rules: Rules, patterns: seq<string>) {
    forall i :: 0 <= i < |patterns| ==> rules.parse(patterns[i]).Legal?
  }

  /** The package is selected with the patterns in this order. */
  ghost predicate SelectedBy(rules: Rules, patterns: seq<string>, f: Fmri, first: bool) {
    patterns == [] || exists i :: Counts(rules, patterns, i) && PatAccepts(rules, patterns[i], f, first)
  }

  /** So says the set of patterns that is kept. */
  lemma SelectedByKept(rules: Rules, patterns: seq<string>, kept: set<string>, f: Fmri, first: bool)
    requires AllParsed(rules, patterns) && forall pat :: pat in kept <==> IsKept(rules, patterns, pat)
    ensures Selected(rules, kept, f, first) <==> SelectedBy(rules, patterns, f, first)
  {
    if patterns != [] {
      var j := FirstOfText(rules, patterns, 0);
      assert IsKept(rules, patterns, patterns[j]);
    }
    if Selected(rules, kept, f, first) && kept != {} {
      var pat :| pat in kept && PatAccepts(rules, pat, f, first);
      var i :| Counts(rules, patterns, i) && patterns[i] == pat;
    }
    if SelectedBy(rules, patterns, f, first) && patterns != [] {
      var i :| Counts(rules, patterns, i) && PatAccepts(rules, patterns[i], f, first);
      assert IsKept(rules, patterns, patterns[i]);
    }
  }

  predicate SameText(rules: Rules, pat: string, other: string) {
    rules.parse(pat).Legal? && rules.parse(other).Legal? && rules.parse(pat).text == rules.parse(other).text
  }

  /** Every pattern of the list with the text of this one accepts the package. */
  ghost predicate TextAccepts(rules: Rules, patterns: seq<string>, pat: string, f: Fmri, first: bool) {
    forall other :: other in patterns && SameText(rules, pat, other) ==> PatAccepts(rules, other, f, first)
  }

  lemma {:induction false} FirstOfText(rules: Rules, patterns: seq<string>, i: nat) returns (j: nat)
    requires i < |patterns| && rules.parse(patterns[i]).Legal?
    ensures j <= i && Counts(rules, patterns, j) && rules.parse(patterns[j]).text == rules.parse(patterns[i]).text
  {
    if Counts(rules, patterns, i) {
      j := i;
    } else {
      var k :| 0 <= k < i && rules.parse(patterns[k]).Legal?
               && rules.parse(patterns[k]).text == rules.parse(patterns[i]).text;
      j := FirstOfText(rules, patterns, k);
    }
  }

  /** The patterns that accept the package, or those that do not. */
  function Those(rules: Rules, patterns: seq<string>, f: Fmri, first: bool, accepting: bool): seq<string> {
    if patterns == [] then []
    else
      Those(rules, patterns[..|patterns| - 1], f, first, accepting)
      + if PatAccepts(rules, patterns[|patterns| - 1], f, first) == accepting then [patterns[|patterns| - 1]] else []
  }

  lemma {:induction false} ThoseAre(rules: Rules, patterns: seq<string>, f: Fmri, first: bool, accepting: bool)
    ensures forall pat :: pat in Those(rules, patterns, f, first, accepting) <==>
                            pat in patterns && PatAccepts(rules, pat, f, first) == accepting
    ensures multiset(Those(rules, patterns, f, first, accepting) + Those(rules, patterns, f, first, !accepting))
         == multiset(patterns)
  {
    if patterns != [] {
      ThoseAre(rules, patterns[..|patterns| - 1], f, first, accepting);
      assert patterns == patterns[..|patterns| - 1] + [patterns[|patterns| - 1]];
    }
  }

  /** The same patterns, those that accept the package in front, or those that do not. */
  function InFront(rules: Rules, patterns: seq<string>, f: Fmri, first: bool, accepting: bool): seq<string> {
    Those(rules, patterns, f, first, accepting) + Those(rules, patterns, f, first, !accepting)
  }

  lemma Reordered(patterns: seq<string>, order: seq<string>)
    requires multiset(order) == multiset(patterns)
    ensures forall pat :: pat in order <==> pat in patterns
    ensures order == [] <==> patterns == []
  {
    forall pat
      ensures pat in order <==> pat in patterns
    {
      assert pat in multiset(order) <==> pat in multiset(patterns);
    }
    assert |multiset(order)| == |order| && |multiset(patterns)| == |patterns|;
  }

  /** With the accepting patterns in front the package is selected. */
  lemma AcceptingInFront(rules: Rules, patterns: seq<string>, pat: string, f: Fmri, first: bool)
    requires AllParsed(rules, patterns) && pat in patterns && PatAccepts(rules, pat, f, first)
    ensures SelectedBy(rules, InFront(rules, patterns, f, first, true), f, first)
  {
    var order := InFront(rules, patterns, f, first, true);
    ThoseAre(rules, patterns, f, first, true);
    var front := Those(rules, patterns, f, first, true);
    assert order[0] == front[0] && front[0] in front;
    assert Counts(rules, order, 0);
  }

  /** With the others in front it is not, unless some text accepts it as a whole. */
  lemma RejectingInFront(rules: Rules, patterns: seq<string>, f: Fmri, first: bool)
    requires AllParsed(rules, patterns) && patterns != []
    requires forall pat :: pat in patterns ==> !TextAccepts(rules, patterns, pat, f, first)
    ensures !SelectedBy(rules, InFront(rules, patterns, f, first, false), f, first)
  {
    var order := InFront(rules, patterns, f, first, false);
    ThoseAre(rules, patterns, f, first, false);
    Reordered(patterns, order);
    forall i | Counts(rules, order, i)
      ensures !PatAccepts(rules, order[i], f, first)
    {
      RejectedInFront(rules, patterns, order, Those(rules, patterns, f, first, false), f, first, i);
    }
  }

  lemma RejectedInFront(rules: Rules, patterns: seq<string>, order: seq<string>, front: seq<string>, f: Fmri,
                        first: bool, i: int)
    requires Counts(rules, order, i) && order[i] in patterns && !TextAccepts(rules, patterns, order[i], f, first)
    requires front <= order && forall pat :: pat in patterns ==> (pat in front <==> !PatAccepts(rules, pat, f, first))
    ensures !PatAccepts(rules, order[i], f, first)
  {
    var other :| other in patterns && SameText(rules, order[i], other) && !PatAccepts(rules, other, f, first);
    CountsInFront(rules, order, front, i, other);
  }

  /** If a pattern counts, and one of its text is among those in front, it is in front itself. */
  lemma CountsInFront(rules: Rules, order: seq<string>, front: seq<string>, i: int, other: string)
    requires front <= order && Counts(rules, order, i) && other in front && SameText(rules, order[i], other)
    ensures order[i] in front
  {
    var j :| 0 <= j < |front| && front[j] == other;
    assert order[j] == other;
    if i < |front| {
      assert front[i] == order[i];
    }
  }

  /** In every order the package is selected: exactly when there are no patterns, or some text accepts it
      as a whole. */
  lemma SelectedInEveryOrder(rules: Rules, patterns: seq<string>, f: Fmri, first: bool)
    requires AllParsed(rules, patterns)
    ensures (forall order :: multiset(order) == multiset(patterns) ==> SelectedBy(rules, order, f, first))
       <==> (patterns == [] || exists pat :: pat in patterns && TextAccepts(rules, patterns, pat, f, first))
  {
    if pat :| pat in patterns && TextAccepts(rules, patterns, pat, f, first) {
      forall order | multiset(order) == multiset(patterns)
        ensures SelectedBy(rules, order, f, first)
      {
        Reordered(patterns, order);
        var i :| 0 <= i < |order| && order[i] == pat;
        var k :| 0 <= k < |patterns| && patterns[k] == pat;
        var j := FirstOfText(rules, order, i);
        assert order[j] in patterns && SameText(rules, pat, order[j]);
      }
    } else if patterns == [] {
      forall order | multiset(order) == multiset(patterns)
        ensures SelectedBy(rules, order, f, first)
      {
        Reordered(patterns, order);
      }
    } else {
      ThoseAre(rules, patterns, f, first, false);
      RejectingInFront(rules, patterns, f, first);
      assert multiset(InFront(rules, patterns, f, first, false)) == multiset(patterns);
    }
  }

  /** In no order it is selected: exactly when there are patterns and none accepts it. */
  lemma SelectedInNoOrder(rules: Rules, patterns: seq<string>, f: Fmri, first: bool)
    requires AllParsed(rules, patterns)
    ensures (forall order :: multiset(order) == multiset(patterns) ==> !SelectedBy(rules, order, f, first))
       <==> (patterns != [] && forall pat :: pat in patterns ==> !PatAccepts(rules, pat, f, first))
  {
    if pat :| pat in patterns && PatAccepts(rules, pat, f, first) {
      ThoseAre(rules, patterns, f, first, true);
      AcceptingInFront(rules, patterns, pat, f, first);
      assert multiset(InFront(rules, patterns, f, first, true)) == multiset(patterns);
    } else if patterns == [] {
      assert SelectedBy(rules, patterns, f, first);
    } else {
      forall order | multiset(order) == multiset(patterns)
        ensures !SelectedBy(rules, order, f, first)
      {
        Reordered(patterns, order);
        assert forall i :: 0 <= i < |order| ==> order[i] in patterns;
      }
    }
  }

  /** The order decides whether the package is listed. */
  ghost predicate OrderDecides(rules: Rules, patterns: seq<string>, f: Fmri, first: bool) {
    && (exists order :: multiset(order) == multiset(patterns) && SelectedBy(rules, order, f, first))
    && (exists order :: multiset(order) == multiset(patterns) && !SelectedBy(rules, order, f, first))
  }

  /** The order decides in exactly the remaining case: some pattern accepts the package, and for every text
      some pattern of that text does not. */
  lemma OrderDecidesExactly(rules: Rules, patterns: seq<string>, f: Fmri, first: bool)
    requires AllParsed(rules, patterns)
    ensures OrderDecides(rules, patterns, f, first)
       <==> && (exists pat :: pat in patterns && PatAccepts(rules, pat, f, first))
            && (forall pat :: pat in patterns ==> !TextAccepts(rules, patterns, pat, f, first))
  {
    SelectedInEveryOrder(rules, patterns, f, first);
    SelectedInNoOrder(rules, patterns, f, first);
  }

  /** No two patterns of one text are read differently: their matchers are the same, if texts tell
      everything else. */
  ghost predicate OneReading(rules: Rules, patterns: seq<string>) {
    forall pat, other :: pat in patterns && other in patterns && SameText(rules, pat, other) ==>
      rules.parse(pat).pattern == rules.parse(other).pattern
  }

  /** Then the order decides about no package at all. */
  lemma OneReadingIsOrderFree(rules: Rules, patterns: seq<string>, f: Fmri, first: bool)
    requires AllParsed(rules, patterns) && OneReading(rules, patterns)
    ensures !OrderDecides(rules, patterns, f, first)
    ensures SelectedBy(rules, patterns, f, first) <==>
            patterns == [] || exists pat :: pat in patterns && PatAccepts(rules, pat, f, first)
  {
    OrderDecidesExactly(rules, patterns, f, first);
    if pat :| pat in patterns && PatAccepts(rules, pat, f, first) {
      assert TextAccepts(rules, patterns, pat, f, first);
      SelectedInEveryOrder(rules, patterns, f, first);
    }
  }

  /** The patterns have one text, which tells everything but whether the stem is meant as a whole. */
  ghost predicate OneText(rules: Rules, patterns: seq<string>, p: Pattern) {
    forall pat :: pat in patterns ==>
      && (forall other :: other in patterns ==> SameText(rules, pat, other))
      && rules.parse(pat).pattern in {p.(matcher := Exact), p.(matcher := Suffix)}
  }

  ghost predicate ReadAs(rules: Rules, patterns: seq<string>, m: Matcher) {
    exists pat :: pat in patterns && rules.parse(pat).Legal? && rules.parse(pat).pattern.matcher == m
  }

  /** For patterns of one text that some package g fits, the order decides about some package exactly when the
      text occurs in both readings, as in "pkg:/ping" and "ping". */
  lemma OneTextDecides(rules: Rules, patterns: seq<string>, p: Pattern, g: Fmri)
    requires AllParsed(rules, patterns) && OneText(rules, patterns, p) && Accepts(rules, p.(matcher := Exact), g, true)
    ensures (exists f :: OrderDecides(rules, patterns, f, true)) <==>
            ReadAs(rules, patterns, Exact) && ReadAs(rules, patterns, Suffix)
  {
    if ReadAs(rules, patterns, Exact) && ReadAs(rules, patterns, Suffix) {
      BothReadings(rules, patterns, p, g);
    } else {
      OneOfTheReadings(rules, patterns, p);
      forall f
        ensures !OrderDecides(rules, patterns, f, true)
      {
        OneReadingIsOrderFree(rules, patterns, f, true);
      }
    }
  }

  lemma OneOfTheReadings(rules: Rules, patterns: seq<string>, p: Pattern)
    requires AllParsed(rules, patterns) && OneText(rules, patterns, p)
    requires !ReadAs(rules, patterns, Exact) || !ReadAs(rules, patterns, Suffix)
    ensures OneReading(rules, patterns)
  {
  }

  lemma BothReadings(rules: Rules, patterns: seq<string>, p: Pattern, g: Fmri)
    requires AllParsed(rules, patterns) && OneText(rules, patterns, p) && Accepts(rules, p.(matcher := Exact), g, true)
    requires ReadAs(rules, patterns, Exact) && ReadAs(rules, patterns, Suffix)
    ensures OrderDecides(rules, patterns, g.(stem := "x/" + g.stem), true)
  {
    var f := g.(stem := "x/" + g.stem);
    LongerStem(rules, p, g);
    var e :| e in patterns && rules.parse(e).Legal? && rules.parse(e).pattern.matcher == Exact;
    var s :| s in patterns && rules.parse(s).Legal? && rules.parse(s).pattern.matcher == Suffix;
    assert rules.parse(e).pattern == p.(matcher := Exact) && rules.parse(s).pattern == p.(matcher := Suffix);
    DisagreementDecides(rules, patterns, e, s, f, true);
  }

  lemma DisagreementDecides(rules: Rules, patterns: seq<string>, e: string, s: string, f: Fmri, first: bool)
    requires AllParsed(rules, patterns) && e in patterns && s in patterns
    requires forall pat :: pat in patterns ==> SameText(rules, pat, e)
    requires PatAccepts(rules, s, f, first) && !PatAccepts(rules, e, f, first)
    ensures OrderDecides(rules, patterns, f, first)
  {
    OrderDecidesExactly(rules, patterns, f, first);
  }

  /** A longer stem that ends in the pattern's. */
  lemma LongerStem(rules: Rules, p: Pattern, g: Fmri)
    requires Accepts(rules, p.(matcher := Exact), g, true)
    ensures var f := g.(stem := "x/" + g.stem);
            Accepts(rules, p.(matcher := Suffix), f, true) && !Accepts(rules, p.(matcher := Exact), f, true)
  {
    var whole := "/" + ("x/" + g.stem);
    assert whole[2..] == "/" + g.stem;
    assert |"x/" + g.stem| == |g.stem| + 2;
  }
}
