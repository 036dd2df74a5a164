/** The two-level dictionary that catalog parts and update logs are made of:
    publisher -> package stem -> list. */
module NestedLists {

  /** Keys that start with "_" are reserved, and publisher prefixes never do. */
  type Publisher = s: string | s != "" && s[0] != '_' witness "p"

  type Nested<T> = map<Publisher, map<string, seq<T>>>

  /** A package version: publisher prefix, package stem and version string. */
  datatype Fmri = Fmri(pub: Publisher, stem: string, version: string)

  function Stems<T>(d: Nested<T>, pub: Publisher): map<string, seq<T>> {
    if pub in d then d[pub] else map[]
  }

  /** The list of a stem; a stem that is not there has the empty list. */
  function ListAt<T>(d: Nested<T>, pub: Publisher, stem: string): seq<T> {
    if stem in Stems(d, pub) then Stems(d, pub)[stem] else []
  }

  /** No list and no publisher is left empty. */
  ghost predicate NoEmpty<T>(d: Nested<T>) {
    forall pub :: pub in d ==> d[pub] != map[] && forall stem :: stem in d[pub] ==> d[pub][stem] != []
  }

  /** Replace one list; an empty list takes its stem with it, and the last stem its publisher. */
  function Put<T>(d: Nested<T>, pub: Publisher, stem: string, l: seq<T>): Nested<T> {
    if l != [] then d[pub := Stems(d, pub)[stem := l]]
    else if Stems(d, pub) - {stem} == map[] then d - {pub}
    else d[pub := Stems(d, pub) - {stem}]
  }

  lemma PutListAt<T>(d: Nested<T>, pub: Publisher, stem: string, l: seq<T>)
    requires NoEmpty(d)
    ensures NoEmpty(Put(d, pub, stem, l))
    ensures forall p: Publisher, s: string ::
              ListAt(Put(d, pub, stem, l), p, s) == if p == pub && s == stem then l else ListAt(d, p, s)
  {
    var d' := Put(d, pub, stem, l);
    assert l != [] ==> stem in d'[pub];
    forall p: Publisher, s: string
      ensures ListAt(d', p, s) == if p == pub && s == stem then l else ListAt(d, p, s)
    {
      if l == [] && p == pub && Stems(d, pub) - {stem} == map[] && s != stem {
        assert s !in Stems(d, pub) - {stem};
      }
    }
  }

  lemma PutNoEmpty<T>(d: Nested<T>, pub: Publisher, stem: string, l: seq<T>)
    requires NoEmpty(d)
    ensures NoEmpty(Put(d, pub, stem, l))
  {
    PutListAt(d, pub, stem, l);
  }

  /** Nested lists without empty leftovers are known by their lists. */
  lemma Extensional<T>(d: Nested<T>, e: Nested<T>)
    requires NoEmpty(d) && NoEmpty(e)
    requires forall p: Publisher, s: string :: ListAt(d, p, s) == ListAt(e, p, s)
    ensures d == e
  {
    KeysFromLists(d, e);
    KeysFromLists(e, d);
    forall p | p in d
      ensures d[p] == e[p]
    {
      assert d[p].Keys == e[p].Keys;
      forall s | s in d[p]
        ensures d[p][s] == e[p][s]
      {
        assert ListAt(d, p, s) == ListAt(e, p, s);
      }
    }
  }

  lemma KeysFromLists<T>(d: Nested<T>, e: Nested<T>)
    requires NoEmpty(d)
    requires forall p: Publisher, s: string :: ListAt(d, p, s) == ListAt(e, p, s)
    ensures forall p :: p in d ==> p in e && d[p].Keys <= e[p].Keys
  {
    forall p | p in d
      ensures p in e && d[p].Keys <= e[p].Keys
    {
      assert d[p].Keys != {};
      forall s | s in d[p]
        ensures p in e && s in e[p]
      {
        assert ListAt(d, p, s) != [];
        assert ListAt(e, p, s) != [];
      }
      var s :| s in d[p].Keys;
    }
  }

  /** Two edits of different stems can be done in either order. */
  lemma PutsCommute<T>(d: Nested<T>, p: Publisher, s: string, l: seq<T>, q: Publisher, t: string, m: seq<T>)
    requires NoEmpty(d) && (p, s) != (q, t)
    ensures Put(Put(d, p, s, l), q, t, m) == Put(Put(d, q, t, m), p, s, l)
  {
    PutListAt(d, p, s, l);
    PutListAt(d, q, t, m);
    PutListAt(Put(d, p, s, l), q, t, m);
    PutListAt(Put(d, q, t, m), p, s, l);
    Extensional(Put(Put(d, p, s, l), q, t, m), Put(Put(d, q, t, m), p, s, l));
  }
}
