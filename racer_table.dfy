/**
 * The decoders' `racersMap` (a JavaScript `Map` keyed by bib, which keeps insertion order)
 * together with the `racerId` counter: the bibs in insertion order, the record stored under
 * each bib, and the next id to hand out.
 */
module RacerTable {
  import opened Records
  import opened Merging

  datatype Table = Table(bibs: seq<int>, entries: map<int, Racer>, nextId: int)

  /** What a decoder returns: `{ raceName, racers }`. */
  datatype Decoded = Decoded(raceName: string, racers: seq<Racer>)

  /** `new Map()` with `racerId = 1`. */
  function Empty(): Table {
    Table([], map[], 1)
  }

  /**
   * What the map and the counter satisfy between records: bibs are distinct and are exactly
   * the map's keys, the record at position `i` has id `i + 1` and carries its own bib, every
   * record satisfies the record invariant, and the counter is one past the last id.
   */
  predicate Valid(d: Dialect, t: Table) {
    && t.nextId == |t.bibs| + 1
    && (forall i, j :: 0 <= i < j < |t.bibs| ==> t.bibs[i] != t.bibs[j])
    && (forall i :: 0 <= i < |t.bibs| ==> t.bibs[i] in t.entries)
    && (forall b :: b in t.entries ==> b in t.bibs)
    && (forall i :: 0 <= i < |t.bibs| ==>
          t.entries[t.bibs[i]].id == i + 1 && t.entries[t.bibs[i]].bibNumber == t.bibs[i]
          && Inv(d, t.entries[t.bibs[i]]))
  }

  /**
   * One record arriving: a bib already in the map merges into the stored record; a new bib is
   * appended, and the counter advances.
   */
  function Insert(d: Dialect, t: Table, rec: Racer): Table {
    var bib := rec.bibNumber;
    if bib in t.entries then t.(entries := t.entries[bib := Merge(d, t.entries[bib], rec)])
    else Table(t.bibs + [bib], t.entries[bib := rec], t.nextId + 1)
  }

  /** One raw record, read with the counter's value as the id it would take. */
  function Step(d: Dialect, t: Table, section: string): Table {
    Insert(d, t, RecordOf(d, section, t.nextId))
  }

  /** Every raw record in order, starting from `t`. */
  function Fold(d: Dialect, t: Table, sections: seq<string>): Table
  {
    if |sections| == 0 then t
    else Step(d, Fold(d, t, sections[..|sections| - 1]), sections[|sections| - 1])
  }

  /** `Array.from(racersMap.values())`: the stored records in insertion order. */
  function Racers(t: Table): (rs: seq<Racer>)
    requires forall i :: 0 <= i < |t.bibs| ==> t.bibs[i] in t.entries
    ensures |rs| == |t.bibs|
    ensures forall i :: 0 <= i < |rs| ==> rs[i] == t.entries[t.bibs[i]]
  {
    seq(|t.bibs|, i requires 0 <= i < |t.bibs| => t.entries[t.bibs[i]])
  }

  /** Inserting a record that satisfies the record invariant and carries the next id keeps the table valid. */
  lemma InsertValid(d: Dialect, t: Table, rec: Racer)
    requires Valid(d, t) && Inv(d, rec) && rec.id == t.nextId
    ensures Valid(d, Insert(d, t, rec))
  {
    var bib := rec.bibNumber;
    if bib in t.entries {
      MergeInv(d, t.entries[bib], rec);
    } else {
      var u := Insert(d, t, rec);
      assert u.bibs == t.bibs + [bib];
      forall i | 0 <= i < |u.bibs|
        ensures u.entries[u.bibs[i]].id == i + 1 && u.entries[u.bibs[i]].bibNumber == u.bibs[i]
      {
        if i < |t.bibs| { assert u.bibs[i] == t.bibs[i] != bib; }
      }
    }
  }

  /** A step keeps the table valid. */
  lemma StepValid(d: Dialect, t: Table, section: string)
    requires Valid(d, t)
    ensures Valid(d, Step(d, t, section))
  {
    RecordOfInv(d, section, t.nextId);
    InsertValid(d, t, RecordOf(d, section, t.nextId));
  }

  /**
   * An insertion keeps what is already there: the bib order is only extended, at most by the
   * record's bib, and each stored record keeps its id, name, bib, club and class.
   */
  lemma InsertExtends(d: Dialect, t: Table, rec: Racer)
    ensures var u := Insert(d, t, rec);
      && t.bibs <= u.bibs && |u.bibs| <= |t.bibs| + 1
      && forall b :: b in t.entries ==> b in u.entries && SameIdentity(t.entries[b], u.entries[b])
  {
  }

  /**
   * Where the record goes: under its bib, merged into the stored record when the bib is known
   * (order and counter unchanged), otherwise as is, with the bib appended and the counter
   * advanced; every other bib keeps its record.
   */
  lemma InsertStores(d: Dialect, t: Table, rec: Racer)
    ensures var u := Insert(d, t, rec); var bib := rec.bibNumber;
      && u.entries.Keys == t.entries.Keys + {bib}
      && u.entries[bib] == (if bib in t.entries then Merge(d, t.entries[bib], rec) else rec)
      && (bib in t.entries ==> u.bibs == t.bibs && u.nextId == t.nextId)
      && (bib !in t.entries ==> u.bibs == t.bibs + [bib] && u.nextId == t.nextId + 1)
      && forall b :: b in t.entries && b != bib ==> u.entries[b] == t.entries[b]
  {
  }

  /** Identity fields, which no merge changes. */
  predicate SameIdentity(a: Racer, b: Racer) {
    a.id == b.id && a.name == b.name && a.bibNumber == b.bibNumber && a.club == b.club && a.raceClass == b.raceClass
  }

  /** Folding one more record is one more step. */
  lemma FoldPrefix(d: Dialect, sections: seq<string>, i: nat)
    requires 1 <= i <= |sections|
    ensures Fold(d, Empty(), sections[..i]) == Step(d, Fold(d, Empty(), sections[..i - 1]), sections[i - 1])
  {
    assert sections[..i][..i - 1] == sections[..i - 1];
  }

  /** Folding any records from the empty table gives a valid table. */
  lemma {:induction false} FoldValid(d: Dialect, sections: seq<string>)
    ensures Valid(d, Fold(d, Empty(), sections))
  {
    if |sections| > 0 {
      FoldValid(d, sections[..|sections| - 1]);
      StepValid(d, Fold(d, Empty(), sections[..|sections| - 1]), sections[|sections| - 1]);
    }
  }

  /**
   * Later records never undo earlier ones: after more records, the earlier bib order is a
   * prefix of the new one and every earlier racer keeps its id, name, bib, club and class.
   */
  lemma {:induction false} FoldExtends(d: Dialect, sections: seq<string>, n: nat)
    requires n <= |sections|
    ensures var t := Fold(d, Empty(), sections[..n]);
            var u := Fold(d, Empty(), sections);
      && t.bibs <= u.bibs
      && forall b :: b in t.entries ==> b in u.entries && SameIdentity(t.entries[b], u.entries[b])
    decreases |sections|
  {
    if n < |sections| {
      var pre := sections[..|sections| - 1];
      assert pre[..n] == sections[..n];
      FoldExtends(d, pre, n);
      var t := Fold(d, Empty(), pre);
      InsertExtends(d, t, RecordOf(d, sections[|sections| - 1], t.nextId));
      assert Fold(d, Empty(), sections) == Step(d, t, sections[|sections| - 1]);
    } else {
      assert sections[..n] == sections;
    }
  }

  /** Every record read ends up in the output: its bib (read with the counter it met) is among the bibs. */
  lemma FoldStores(d: Dialect, sections: seq<string>, i: nat)
    requires i < |sections|
    ensures RecordOf(d, sections[i], Fold(d, Empty(), sections[..i]).nextId).bibNumber
            in Fold(d, Empty(), sections).bibs
  {
    FoldPrefix(d, sections, i + 1);
    FoldExtends(d, sections, i + 1);
    FoldValid(d, sections);
  }

  /**
   * There are never more racers than records, and at least one record gives at least one
   * racer.
   */
  lemma {:induction false} FoldCount(d: Dialect, sections: seq<string>)
    ensures |Fold(d, Empty(), sections).bibs| <= |sections|
    ensures |sections| > 0 ==> |Fold(d, Empty(), sections).bibs| > 0
  {
    if |sections| > 0 {
      var pre := sections[..|sections| - 1];
      FoldCount(d, pre);
      FoldValid(d, pre);
    }
  }

  /**
   * The shape of every decoder's output: ids are 1..n in order, bibs are pairwise distinct, and
   * every racer satisfies the record invariant.
   */
  predicate WellFormed(d: Dialect, rs: seq<Racer>) {
    && (forall i :: 0 <= i < |rs| ==> rs[i].id == i + 1 && Inv(d, rs[i]))
    && (forall i, j :: 0 <= i < j < |rs| ==> rs[i].bibNumber != rs[j].bibNumber)
  }

  /** Whatever the records, the racers a decoder returns are well formed. */
  lemma DecodedRacers(d: Dialect, sections: seq<string>)
    ensures var t := Fold(d, Empty(), sections);
      && (forall i :: 0 <= i < |t.bibs| ==> t.bibs[i] in t.entries)
      && WellFormed(d, Racers(t))
  {
    FoldValid(d, sections);
  }

  /** The section loop's body: read the record, then merge it in or append it. */
  method Upsert(d: Dialect, bibs: seq<int>, entries: map<int, Racer>, racerId: int, section: string)
    returns (bibs': seq<int>, entries': map<int, Racer>, racerId': int)
    ensures Table(bibs', entries', racerId') == Step(d, Table(bibs, entries, racerId), section)
  {
    var rec := ReadRecord(d, section, racerId);
    var bib := rec.bibNumber;
    if bib in entries {
      var merged := MergeRecord(d, entries[bib], rec);
      bibs', entries', racerId' := bibs, entries[bib := merged], racerId;
    } else {
      bibs', entries', racerId' := bibs + [bib], entries[bib := rec], racerId + 1;
    }
  }

  /** `Array.from(racersMap.values())`, as a copy loop. */
  method Values(t: Table) returns (racers: seq<Racer>)
    requires forall i :: 0 <= i < |t.bibs| ==> t.bibs[i] in t.entries
    ensures racers == Racers(t)
  {
    racers := [];
    for i := 0 to |t.bibs|
      invariant |racers| == i
      invariant forall k :: 0 <= k < i ==> racers[k] == t.entries[t.bibs[k]]
    {
      racers := racers + [t.entries[t.bibs[i]]];
    }
  }
}
