/** Update logs: for one hour and one locale, the operations on every package stem. */
module CatalogUpdates {
  import opened CatalogParts
  import opened NestedLists
  import opened VersionLists

  /** Times are counts of microseconds; a log collects the operations of one hour. */
  const MICROSECONDS_PER_HOUR := 3_600_000_000

  function Hour(time: int): int {
    time / MICROSECONDS_PER_HOUR
  }

  /** The file update.<hour>.<locale>. */
  datatype LogName = LogName(hour: int, locale: string)

  /** One logged operation: the entries it added to, or took from, the parts of the log's locale. */
  datatype LogEntry = LogEntry(kind: Kind, time: int, version: string, parts: map<PartName, Entry>)

  /** One item produced by reading a log. */
  datatype Update = Update(fmri: Fmri, kind: Kind, time: int, parts: map<PartName, Entry>)

  /** What a log says about one stem, out of a run of updates in any order of stems. */
  ghost function ForStem(us: seq<Update>, pub: Publisher, stem: string): seq<LogEntry> {
    if us == [] then []
    else
      var u := us[|us| - 1];
      ForStem(us[..|us| - 1], pub, stem)
      + if u.fmri.pub == pub && u.fmri.stem == stem
        then [LogEntry(u.kind, u.time, u.fmri.version, u.parts)] else []
  }

  lemma {:induction false} ForStemConcat(us: seq<Update>, vs: seq<Update>, pub: Publisher, stem: string)
    ensures ForStem(us + vs, pub, stem) == ForStem(us, pub, stem) + ForStem(vs, pub, stem)
  {
    if vs == [] {
      assert us + vs == us;
    } else {
      assert (us + vs)[..|us + vs| - 1] == us + vs[..|vs| - 1];
      ForStemConcat(us, vs[..|vs| - 1], pub, stem);
    }
  }

  class CatalogUpdate {
    const name: LogName
    var data: Nested<LogEntry>
    var lastModified: int

    constructor (name: LogName, data: Nested<LogEntry>, lastModified: int)
      ensures this.name == name && this.data == data && this.lastModified == lastModified
    {
      this.name, this.data, this.lastModified := name, data, lastModified;
    }

    method Add(f: Fmri, operation: Kind, opTime: int, metadata: map<PartName, Entry>)
      requires NoEmpty(data)
      modifies this`data, this`lastModified
      ensures NoEmpty(data) && lastModified == opTime
      ensures data == Put(old(data), f.pub, f.stem,
                          old(ListAt(data, f.pub, f.stem)) + [LogEntry(operation, opTime, f.version, metadata)])
    {
      var verList := ListAt(data, f.pub, f.stem);
      verList := verList + [LogEntry(operation, opTime, f.version, metadata)];
      PutListAt(data, f.pub, f.stem, verList);
      data := data[f.pub := Stems(data, f.pub)[f.stem := verList]];
      lastModified := opTime;
    }

    /** All updates, publisher by publisher and stem by stem, in whatever order the
        dictionaries list them; the operations on one stem keep their order. */
    method Updates() returns (us: seq<Update>)
      requires NoEmpty(data)
      ensures forall p: Publisher, s: string :: ForStem(us, p, s) == ListAt(data, p, s)
    {
      us := [];
      var todo := data.Keys;
      while todo != {}
        invariant todo <= data.Keys
        invariant forall p: Publisher, s: string ::
                    ForStem(us, p, s) == if p in todo then [] else ListAt(data, p, s)
        decreases todo
      {
        var pub :| pub in todo;
        todo := todo - {pub};
        var vs := PublisherUpdates(pub);
        forall p: Publisher, s: string
          ensures ForStem(us + vs, p, s) == ForStem(us, p, s) + if p == pub then ListAt(data, p, s) else []
        {
          ForStemConcat(us, vs, p, s);
        }
        us := us + vs;
      }
    }

    method PublisherUpdates(pub: Publisher) returns (us: seq<Update>)
      requires pub in data
      ensures forall p: Publisher, s: string ::
                ForStem(us, p, s) == if p == pub then ListAt(data, p, s) else []
    {
      us := [];
      var todo := data[pub].Keys;
      while todo != {}
        invariant todo <= data[pub].Keys
        invariant forall p: Publisher, s: string ::
                    ForStem(us, p, s) == if p != pub || s in todo then [] else ListAt(data, p, s)
        decreases todo
      {
        var stem :| stem in todo;
        todo := todo - {stem};
        var vs := StemUpdates(pub, stem, data[pub][stem]);
        forall p: Publisher, s: string
          ensures ForStem(us + vs, p, s)
               == ForStem(us, p, s) + if p == pub && s == stem then data[pub][stem] else []
        {
          ForStemConcat(us, vs, p, s);
        }
        us := us + vs;
      }
    }
  }

  method StemUpdates(pub: Publisher, stem: string, verList: seq<LogEntry>) returns (us: seq<Update>)
    ensures forall p: Publisher, s: string :: ForStem(us, p, s) == if p == pub && s == stem then verList else []
  {
    us := [];
    for i := 0 to |verList|
      invariant forall p: Publisher, s: string ::
                  ForStem(us, p, s) == if p == pub && s == stem then verList[..i] else []
    {
      var e := verList[i];
      var u := Update(Fmri(pub, stem, e.version), e.kind, e.time, e.parts);
      assert (us + [u])[..|us|] == us && verList[..i + 1] == verList[..i] + [e];
      us := us + [u];
    }
    assert verList[..|verList|] == verList;
  }
}
