/** The operations a catalog server has performed, and what they say about one stem of one
    part: all of it, what came after a given time, and what the update logs of some hours hold. */
module History {
  import opened CatalogParts
  import opened CatalogUpdates
  import opened NestedLists
  import opened VersionLists

  /** One successful add_package or remove_package and the entry it handled in each part. */
  datatype Op = Op(time: int, kind: Kind, fmri: Fmri, parts: map<PartName, Entry>)

  /** Operations happen one after another. */
  ghost predicate Increasing(h: seq<Op>) {
    forall i, j :: 0 <= i < j < |h| ==> h[i].time < h[j].time
  }

  ghost predicate InOrder(es: seq<LogEntry>) {
    forall i, j :: 0 <= i < j < |es| ==> es[i].time < es[j].time
  }

  /** The operations on one stem, in time order. */
  ghost function StemOps(h: seq<Op>, pub: Publisher, stem: string): seq<LogEntry> {
    if h == [] then []
    else
      var op := h[|h| - 1];
      StemOps(h[..|h| - 1], pub, stem)
      + if op.fmri.pub == pub && op.fmri.stem == stem
        then [LogEntry(op.kind, op.time, op.fmri.version, op.parts)] else []
  }

  /** The changes of part p among es that are newer than the given time. */
  ghost function PartChanges(es: seq<LogEntry>, p: PartName, after: int): seq<Change> {
    if es == [] then []
    else PartChanges(es[..|es| - 1], p, after) + OneChange(es[|es| - 1], p, after)
  }

  ghost function OneChange(e: LogEntry, p: PartName, after: int): seq<Change> {
    if p in e.parts && e.time > after then [Change(e.kind, e.parts[p].(version := e.version))] else []
  }

  function Restrict(parts: map<PartName, Entry>, locale: string): map<PartName, Entry> {
    map p | p in parts && LocaleOf(p) == locale :: parts[p]
  }

  /** What the log of one hour and locale holds out of es. */
  ghost function Logged(es: seq<LogEntry>, n: LogName): seq<LogEntry> {
    if es == [] then []
    else
      var e := es[|es| - 1];
      Logged(es[..|es| - 1], n)
      + if Hour(e.time) == n.hour && Restrict(e.parts, n.locale) != map[]
        then [e.(parts := Restrict(e.parts, n.locale))] else []
  }

  /** PartChanges, of certain hours only. */
  ghost function HourChanges(es: seq<LogEntry>, p: PartName, after: int, hours: set<int>): seq<Change> {
    if es == [] then []
    else
      HourChanges(es[..|es| - 1], p, after, hours)
      + if Hour(es[|es| - 1].time) in hours then OneChange(es[|es| - 1], p, after) else []
  }

  /** The changes of part p found by reading the given logs one after another. */
  ghost function LogsChanges(logs: seq<seq<LogEntry>>, p: PartName, after: int): seq<Change> {
    if logs == [] then []
    else LogsChanges(logs[..|logs| - 1], p, after) + PartChanges(logs[|logs| - 1], p, after)
  }

  ghost function LoggedAll(es: seq<LogEntry>, names: seq<LogName>): seq<seq<LogEntry>> {
    if names == [] then [] else LoggedAll(es, names[..|names| - 1]) + [Logged(es, names[|names| - 1])]
  }

  /** Ascending hours; among logs of one hour, ascending locales do not matter here. */
  ghost predicate Chronological(names: seq<LogName>) {
    forall i, j :: 0 <= i < j < |names| ==>
      names[i].hour < names[j].hour || (names[i].hour == names[j].hour && names[i].locale != names[j].locale)
  }

  // ----- Splitting a history

  lemma {:induction false} StemOpsConcat(g: seq<Op>, h: seq<Op>, pub: Publisher, stem: string)
    ensures StemOps(g + h, pub, stem) == StemOps(g, pub, stem) + StemOps(h, pub, stem)
  {
    if h == [] {
      assert g + h == g;
    } else {
      assert (g + h)[..|g + h| - 1] == g + h[..|h| - 1];
      StemOpsConcat(g, h[..|h| - 1], pub, stem);
    }
  }

  lemma {:induction false} PartChangesConcat(es: seq<LogEntry>, fs: seq<LogEntry>, p: PartName, after: int)
    ensures PartChanges(es + fs, p, after) == PartChanges(es, p, after) + PartChanges(fs, p, after)
  {
    if fs == [] {
      assert es + fs == es;
    } else {
      assert (es + fs)[..|es + fs| - 1] == es + fs[..|fs| - 1];
      PartChangesConcat(es, fs[..|fs| - 1], p, after);
    }
  }

  /** Every operation on a stem comes from the history. */
  lemma {:induction false} StemOpsFrom(h: seq<Op>, pub: Publisher, stem: string)
    ensures forall e :: e in StemOps(h, pub, stem) ==>
              exists i :: 0 <= i < |h| && h[i] == Op(e.time, e.kind, Fmri(pub, stem, e.version), e.parts)
    ensures Increasing(h) ==> InOrder(StemOps(h, pub, stem))
  {
    if h != [] {
      var init, op := h[..|h| - 1], h[|h| - 1];
      StemOpsFrom(init, pub, stem);
      var es := StemOps(init, pub, stem);
      forall e | e in StemOps(h, pub, stem)
        ensures exists i :: 0 <= i < |h| && h[i] == Op(e.time, e.kind, Fmri(pub, stem, e.version), e.parts)
      {
        if e in es {
          var i :| 0 <= i < |init| && init[i] == Op(e.time, e.kind, Fmri(pub, stem, e.version), e.parts);
          assert h[i] == init[i];
        } else {
          assert h[|h| - 1] == Op(e.time, e.kind, Fmri(pub, stem, e.version), e.parts);
        }
      }
      if Increasing(h) {
        forall i | 0 <= i < |es|
          ensures es[i].time < op.time
        {
          assert es[i] in es;
        }
      }
    }
  }

  lemma {:induction false} NoChangesBefore(es: seq<LogEntry>, p: PartName, after: int)
    requires forall e :: e in es && p in e.parts ==> e.time <= after
    ensures PartChanges(es, p, after) == []
  {
    if es != [] {
      NoChangesBefore(es[..|es| - 1], p, after);
      assert es[|es| - 1] in es;
    }
  }

  lemma {:induction false} AllChangesAfter(es: seq<LogEntry>, p: PartName, after: int, earlier: int)
    requires forall e :: e in es && p in e.parts ==> e.time > after && e.time > earlier
    ensures PartChanges(es, p, after) == PartChanges(es, p, earlier)
  {
    if es != [] {
      AllChangesAfter(es[..|es| - 1], p, after, earlier);
      assert es[|es| - 1] in es;
    }
  }

  // ----- Logs

  lemma PartChangesAppend(es: seq<LogEntry>, e: LogEntry, p: PartName, after: int)
    ensures PartChanges(es + [e], p, after) == PartChanges(es, p, after) + OneChange(e, p, after)
  {
    assert (es + [e])[..|es|] == es;
  }

  lemma LoggedChange(log: seq<LogEntry>, e: LogEntry, n: LogName, p: PartName, after: int)
    ensures PartChanges(log + if Hour(e.time) == n.hour && Restrict(e.parts, n.locale) != map[]
                              then [e.(parts := Restrict(e.parts, n.locale))] else [], p, after)
         == PartChanges(log, p, after)
            + if LocaleOf(p) == n.locale && Hour(e.time) in {n.hour} then OneChange(e, p, after) else []
  {
    var e' := e.(parts := Restrict(e.parts, n.locale));
    PartChangesAppend(log, e', p, after);
    assert p in e'.parts <==> p in e.parts && LocaleOf(p) == n.locale;
    assert log + [] == log;
  }

  lemma {:induction false} PartChangesOfLogged(es: seq<LogEntry>, n: LogName, p: PartName, after: int)
    ensures LocaleOf(p) == n.locale ==> PartChanges(Logged(es, n), p, after) == HourChanges(es, p, after, {n.hour})
    ensures LocaleOf(p) != n.locale ==> PartChanges(Logged(es, n), p, after) == []
  {
    if es != [] {
      PartChangesOfLogged(es[..|es| - 1], n, p, after);
      LoggedChange(Logged(es[..|es| - 1], n), es[|es| - 1], n, p, after);
    }
  }

  lemma {:induction false} HourChangesNone(es: seq<LogEntry>, p: PartName, after: int, hours: set<int>)
    requires forall e :: e in es ==> Hour(e.time) !in hours
    ensures HourChanges(es, p, after, hours) == []
  {
    if es != [] {
      HourChangesNone(es[..|es| - 1], p, after, hours);
      assert es[|es| - 1] in es;
    }
  }

  /** Later hours come behind: reading hour k after the earlier ones keeps the time order. */
  lemma {:induction false} HourChangesGrow(es: seq<LogEntry>, p: PartName, after: int, hours: set<int>, k: int)
    requires InOrder(es)
    requires forall h :: h in hours ==> h < k
    ensures HourChanges(es, p, after, hours + {k}) == HourChanges(es, p, after, hours) + HourChanges(es, p, after, {k})
  {
    if es != [] {
      var init, e := es[..|es| - 1], es[|es| - 1];
      HourChangesGrow(init, p, after, hours, k);
      var one := OneChange(e, p, after);
      var a, b := HourChanges(init, p, after, hours), HourChanges(init, p, after, {k});
      assert (a + b) + one == a + (b + one) && (a + b) + [] == a + (b + []) && a + [] == a;
      if Hour(e.time) in hours {
        forall f | f in init
          ensures Hour(f.time) !in {k}
        {
          var i :| 0 <= i < |init| && init[i] == f;
          assert es[i].time < es[|es| - 1].time;
          HourMonotone(f.time, e.time);
        }
        HourChangesNone(init, p, after, {k});
      }
    }
  }

  lemma HourMonotone(s: int, t: int)
    requires s <= t
    ensures Hour(s) <= Hour(t)
  {
  }

  lemma {:induction false} HourChangesAll(es: seq<LogEntry>, p: PartName, after: int, hours: set<int>)
    requires forall e :: e in es && p in e.parts && e.time > after ==> Hour(e.time) in hours
    ensures HourChanges(es, p, after, hours) == PartChanges(es, p, after)
  {
    if es != [] {
      HourChangesAll(es[..|es| - 1], p, after, hours);
      assert es[|es| - 1] in es;
    }
  }

  ghost function Hours(names: seq<LogName>, locale: string): set<int> {
    set i | 0 <= i < |names| && names[i].locale == locale :: names[i].hour
  }

  lemma LogsChangesAppend(logs: seq<seq<LogEntry>>, log: seq<LogEntry>, p: PartName, after: int)
    ensures LogsChanges(logs + [log], p, after) == LogsChanges(logs, p, after) + PartChanges(log, p, after)
  {
    assert (logs + [log])[..|logs|] == logs;
  }

  lemma {:induction false} LogsChangesAre(es: seq<LogEntry>, names: seq<LogName>, p: PartName, after: int)
    requires InOrder(es) && Chronological(names)
    ensures LogsChanges(LoggedAll(es, names), p, after) == HourChanges(es, p, after, Hours(names, LocaleOf(p)))
  {
    if names == [] {
      HourChangesNone(es, p, after, {});
      assert Hours(names, LocaleOf(p)) == {};
    } else {
      var init, n := names[..|names| - 1], names[|names| - 1];
      assert names == init + [n];
      LogsChangesAre(es, init, p, after);
      LogsChangesStep(es, init, n, LoggedAll(es, init), p, after);
    }
  }

  lemma LogsChangesStep(es: seq<LogEntry>, names: seq<LogName>, n: LogName, logs: seq<seq<LogEntry>>,
                        p: PartName, after: int)
    requires InOrder(es)
    requires n.locale == LocaleOf(p) ==> forall h :: h in Hours(names, n.locale) ==> h < n.hour
    requires LogsChanges(logs, p, after) == HourChanges(es, p, after, Hours(names, LocaleOf(p)))
    ensures LogsChanges(logs + [Logged(es, n)], p, after)
         == HourChanges(es, p, after, Hours(names + [n], LocaleOf(p)))
  {
    PartChangesOfLogged(es, n, p, after);
    LogsChangesAppend(logs, Logged(es, n), p, after);
    HoursAppend(names, n, LocaleOf(p));
    if n.locale == LocaleOf(p) {
      HourChangesGrow(es, p, after, Hours(names, n.locale), n.hour);
    } else {
      assert Hours(names + [n], LocaleOf(p)) == Hours(names, LocaleOf(p));
      assert LogsChanges(logs + [Logged(es, n)], p, after) == LogsChanges(logs, p, after);
    }
  }

  lemma HoursAppend(names: seq<LogName>, n: LogName, locale: string)
    ensures Hours(names + [n], locale) == Hours(names, locale) + if n.locale == locale then {n.hour} else {}
  {
    forall h | h in Hours(names, locale)
      ensures h in Hours(names + [n], locale)
    {
      var i :| 0 <= i < |names| && names[i].locale == locale && names[i].hour == h;
      assert (names + [n])[i] == names[i];
    }
    assert (names + [n])[|names|] == n;
  }

  /** The regrouping theorem: reading chronologically named logs that cover every change of p newer
      than the given time finds exactly those changes, once each and in time order. */
  lemma {:induction false} ReplayFindsAll(es: seq<LogEntry>, names: seq<LogName>, p: PartName, after: int)
    requires InOrder(es) && Chronological(names)
    requires forall e :: e in es && p in e.parts && e.time > after ==> LogName(Hour(e.time), LocaleOf(p)) in names
    ensures LogsChanges(LoggedAll(es, names), p, after) == PartChanges(es, p, after)
  {
    LogsChangesAre(es, names, p, after);
    HourChangesAll(es, p, after, Hours(names, LocaleOf(p)));
  }
}
