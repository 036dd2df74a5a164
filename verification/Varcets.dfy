/** Whether an image's facets and variants allow an action, decided in one pass over the action's
    attributes, against a rule that knows no order. */
module Varcets {
  import opened Wrappers

  /** An attribute value: a string, a string that has no UTF-8 form, or a list of strings.  A list is
      shown with brackets around it, so its text is never "all". */
  datatype Value = Text(s: string) | Unencodable | Items(l: seq<string>)

  /** The facets set in an image.  Patterns are tried in the order of the key list; whether a name
      matches a key's pattern is not part of this model. */
  datatype Facets = Facets(values: map<string, bool>, keylist: seq<string>, matches: (string, string) -> bool)

  /** What comparing C strings sees. */
  function UpToNul(s: string): string {
    if s == "" || s[0] == '\0' then "" else [s[0]] + UpToNul(s[1..])
  }

  predicate IsFacet(name: string) { "facet." <= name }

  predicate IsVariant(name: string) { "variant." <= name }

  predicate IsAll(v: Value) { v.Text? && UpToNul(v.s) == "all" }

  /** Debug and optional facets are off unless they are set. */
  predicate DefaultOn(name: string) {
    !("facet.debug." <= name) && !("facet.optional." <= name)
  }

  // ----- The rule for facets

  /** Key i is the first one whose pattern the name matches. */
  ghost predicate FirstMatch(f: Facets, name: string, i: int) {
    && 0 <= i < |f.keylist| && f.matches(f.keylist[i], name)
    && forall j :: 0 <= j < i ==> !f.matches(f.keylist[j], name)
  }

  /** A facet is on or off: as set by name, else by the first matching pattern, else by default. */
  ghost predicate IsOn(f: Facets, name: string, on: bool) {
    if name in f.values then on == f.values[name]
    else if exists i :: FirstMatch(f, name, i) then
      exists i :: FirstMatch(f, name, i) && f.keylist[i] in f.values && on == f.values[f.keylist[i]]
    else on == DefaultOn(name)
  }

  ghost predicate WellFormed(f: Facets) {
    forall i :: 0 <= i < |f.keylist| ==> f.keylist[i] in f.values
  }

  /** An action is allowed when every facet it lists as "all" is on and, if it lists others,
      at least one of those is on. */
  ghost predicate FacetsAllow(f: Facets, attrs: map<string, Value>) {
    && (forall a :: a in attrs && IsFacet(a) ==> !attrs[a].Unencodable?)
    && (forall a :: a in attrs && IsFacet(a) && IsAll(attrs[a]) ==> IsOn(f, a, true))
    && ((exists a :: Other(attrs, a)) ==> exists a :: Other(attrs, a) && IsOn(f, a, true))
  }

  ghost predicate Other(attrs: map<string, Value>, a: string) {
    a in attrs && IsFacet(a) && !IsAll(attrs[a])
  }

  /** The order in which a dictionary lists its keys. */
  ghost predicate Lists(order: seq<string>, attrs: map<string, Value>) {
    forall a :: a in order <==> a in attrs
  }

  /** Look a facet up; None when the pattern it matches has no value. */
  method Lookup(f: Facets, name: string) returns (r: Option<bool>)
    ensures r.Some? <==> IsOn(f, name, true) || IsOn(f, name, false)
    ensures r.Some? ==> forall on :: IsOn(f, name, on) <==> on == r.value
    ensures WellFormed(f) ==> r.Some?
    ensures name !in f.values && (forall key :: key in f.keylist ==> !f.matches(key, name)) ==>
              r == Some(!("facet.debug." <= name || "facet.optional." <= name))
  {
    if name in f.values {
      return Some(f.values[name]);
    }
    for idx := 0 to |f.keylist|
      invariant forall j :: 0 <= j < idx ==> !f.matches(f.keylist[j], name)
    {
      var key := f.keylist[idx];
      if f.matches(key, name) {
        assert FirstMatch(f, name, idx);
        if key in f.values {
          return Some(f.values[key]);
        }
        return None;
      }
    }
    if "facet.debug." <= name || "facet.optional." <= name {
      r := Some(false);
    } else {
      r := Some(true);
    }
  }

  /** What the pass knows after the attributes in order[..i]. */
  ghost predicate PassedFacets(f: Facets, attrs: map<string, Value>, order: seq<string>, i: int, anyRet: Option<bool>) {
    && 0 <= i <= |order|
    && (forall j :: 0 <= j < i && order[j] in attrs && IsFacet(order[j]) ==>
          !attrs[order[j]].Unencodable? && (IsAll(attrs[order[j]]) ==> IsOn(f, order[j], true)))
    && (anyRet.None? <==> forall j :: 0 <= j < i ==> !Other(attrs, order[j]))
    && (anyRet == Some(true) <==> exists j :: 0 <= j < i && Other(attrs, order[j]) && IsOn(f, order[j], true))
  }

  /** Decide about an action's facets.  With every pattern's value there, the answer is the rule's,
      whatever the order of the attributes; a pattern without a value is an error unless the answer
      is found before it. */
  method AllowFacet(f: Facets, attrs: map<string, Value>, order: seq<string>) returns (r: Option<bool>)
    requires Lists(order, attrs)
    ensures WellFormed(f) ==> r.Some?
    ensures r.Some? ==> (r.value <==> FacetsAllow(f, attrs))
    ensures r.None? ==> exists a :: a in attrs && IsFacet(a) && !IsOn(f, a, true) && !IsOn(f, a, false)
  {
    var allRet, anyRet: Option<bool> := true, None;
    var i := 0;
    while i < |order|
      invariant PassedFacets(f, attrs, order, i, anyRet) && allRet
    {
      var name := order[i];
      var value := attrs[name];
      i := i + 1;
      if !IsFacet(name) {
        continue;
      }
      var facetRet := Lookup(f, name);
      if facetRet.None? {
        return None;
      }
      if value.Unencodable? {
        allRet := false;
        break;
      }
      if IsAll(value) {
        if !facetRet.value {
          allRet := false;
          break;
        }
      } else if facetRet.value {
        assert Other(attrs, order[i - 1]);
        anyRet := Some(true);
      } else if anyRet.None? {
        assert Other(attrs, order[i - 1]);
        anyRet := Some(false);
      }
    }
    if allRet {
      Passed(f, attrs, order, anyRet);
    }
    r := Some(allRet && anyRet != Some(false));
  }

  lemma Passed(f: Facets, attrs: map<string, Value>, order: seq<string>, anyRet: Option<bool>)
    requires Lists(order, attrs) && PassedFacets(f, attrs, order, |order|, anyRet)
    ensures FacetsAllow(f, attrs) <==> anyRet != Some(false)
  {
    forall a | a in attrs && IsFacet(a)
      ensures !attrs[a].Unencodable? && (IsAll(attrs[a]) ==> IsOn(f, a, true))
      ensures anyRet.None? ==> !Other(attrs, a)
      ensures anyRet == Some(false) ==> !(Other(attrs, a) && IsOn(f, a, true))
    {
      var j :| 0 <= j < |order| && order[j] == a;
    }
    if anyRet == Some(true) {
      var j :| 0 <= j < |order| && Other(attrs, order[j]) && IsOn(f, order[j], true);
    } else if anyRet.Some? {
      var j :| 0 <= j < |order| && Other(attrs, order[j]);
      assert Other(attrs, order[j]) && anyRet.value == false;
    }
  }

  /** The text of a value as C compares it is "all": with nothing behind it, or a NUL. */
  lemma AllExactly(v: Value)
    ensures IsAll(v) <==> v.Text? && (v.s == "all" || "all\0" <= v.s)
  {
    if v.Text? {
      UpToNulIs(v.s, "all");
    }
  }

  /** Comparing up to the first NUL. */
  lemma {:induction false} UpToNulIs(s: string, t: string)
    requires '\0' !in t
    ensures UpToNul(s) == t <==> s == t || t + "\0" <= s
  {
    if t == "" {
      assert t + "\0" == "\0";
      assert s != "" ==> ("\0" <= s <==> s[0] == '\0');
    } else if s != "" && s[0] == t[0] {
      UpToNulIs(s[1..], t[1..]);
      assert s == [s[0]] + s[1..] && t == [t[0]] + t[1..] && t + "\0" == [t[0]] + (t[1..] + "\0");
    }
  }

  /** The rule by the names and values of the attributes: of those whose name starts with "facet.", each has a
      text, each whose text is "all" is on, and if there are others, one of these is on. */
  lemma FacetsExactly(f: Facets, attrs: map<string, Value>)
    ensures FacetsAllow(f, attrs) <==>
            && (forall a :: a in attrs && "facet." <= a ==> attrs[a] != Unencodable)
            && (forall a ::
                  a in attrs && "facet." <= a && attrs[a].Text? && (attrs[a].s == "all" || "all\0" <= attrs[a].s) ==>
                    IsOn(f, a, true))
            && ((exists a :: a in attrs && "facet." <= a
                             && !(attrs[a].Text? && (attrs[a].s == "all" || "all\0" <= attrs[a].s))) ==>
                  exists a :: a in attrs && "facet." <= a && IsOn(f, a, true)
                              && !(attrs[a].Text? && (attrs[a].s == "all" || "all\0" <= attrs[a].s)))
  {
    forall a | a in attrs
      ensures IsAll(attrs[a]) <==> attrs[a].Text? && (attrs[a].s == "all" || "all\0" <= attrs[a].s)
    {
      AllExactly(attrs[a]);
    }
    forall a
      ensures Other(attrs, a) <==>
                a in attrs && "facet." <= a && !(attrs[a].Text? && (attrs[a].s == "all" || "all\0" <= attrs[a].s))
    {
    }
  }

  /** A list never counts as "all", so it is refused only when the others are: it does not
      keep the action from being allowed by itself. */
  lemma ListsAreNotRefused(f: Facets, name: string, l: seq<string>)
    requires IsFacet(name)
    ensures FacetsAllow(f, map[name := Items(l)]) <==> IsOn(f, name, true)
  {
    assert Other(map[name := Items(l)], name);
  }

  // ----- Variants

  /** An action is allowed when each of its variants is the image's, or is one that the image does not
      have and starts with "false". */
  ghost predicate VariantsAllow(vars: map<string, string>, attrs: map<string, Value>) {
    forall a :: a in attrs && IsVariant(a) ==> VariantAllows(vars, a, attrs[a])
  }

  ghost predicate VariantAllows(vars: map<string, string>, a: string, v: Value) {
    v.Text? && if a in vars then UpToNul(v.s) == UpToNul(vars[a]) else "false" <= v.s
  }

  method AllowVariant(vars: map<string, string>, attrs: map<string, Value>, order: seq<string>) returns (r: bool)
    requires Lists(order, attrs)
    ensures r <==> VariantsAllow(vars, attrs)
    ensures r <==> forall a :: a in attrs && "variant." <= a ==>
                     && attrs[a].Text?
                     && if a in vars then UpToNul(attrs[a].s) == UpToNul(vars[a]) else "false" <= attrs[a].s
  {
    for i := 0 to |order|
      invariant forall j :: 0 <= j < i && order[j] in attrs && IsVariant(order[j]) ==>
                  VariantAllows(vars, order[j], attrs[order[j]])
    {
      var name := order[i];
      var value := attrs[name];
      if IsVariant(name) {
        if !value.Text? {
          return false;
        }
        if name !in vars {
          if !("false" <= value.s) {
            return false;
          }
          continue;
        }
        if UpToNul(value.s) != UpToNul(vars[name]) {
          return false;
        }
      }
    }
    r := true;
    forall a | a in attrs && IsVariant(a)
      ensures VariantAllows(vars, a, attrs[a])
    {
      var j :| 0 <= j < |order| && order[j] == a;
    }
  }
}
