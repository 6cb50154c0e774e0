/**
 * What happens when a record arrives for a bib that is already in the map: each run slot is
 * taken from the incoming record only under the precedence rule, a present timestamp replaces
 * the stored one, and the total is recomputed. Identity fields never change.
 */
module Merging {
  import opened Wrappers
  import opened JsNumbers
  import opened TimeStrings
  import opened Records

  /**
   * The incoming time replaces the stored one when it is a number (`NaN` included), or when it
   * is "on course" and the stored time is null.
   */
  predicate Overwrites(incoming: RunTime, existing: RunTime) {
    incoming.Num? || (incoming.OnCourse? && existing.Null?)
  }

  /** One slot of the merge: time, status and raw token move together, then the `NaN` guard. */
  function MergeSlot(d: Dialect, existing: Slot, incoming: Slot): (s: Slot)
    ensures !Overwrites(incoming.time, existing.time) ==> s == existing
    ensures Overwrites(incoming.time, existing.time) && (d.Fallback? || !IsNaNTime(incoming.time))
            ==> s == incoming
  {
    if Overwrites(incoming.time, existing.time) then GuardNaN(d, incoming) else existing
  }

  /** The whole merge of `incoming` into `existing`, in the order of utils/direct-parser.ts:101-141. */
  function Merge(d: Dialect, existing: Racer, incoming: Racer): (r: Racer)
    ensures r.id == existing.id && r.name == existing.name && r.bibNumber == existing.bibNumber
    ensures r.club == existing.club && r.raceClass == existing.raceClass
    ensures r.timestamp == if incoming.timestamp.Some? then incoming.timestamp else existing.timestamp
  {
    var runs := WithRun2(WithRun1(existing, MergeSlot(d, Run1(existing), Run1(incoming))),
                         MergeSlot(d, Run2(existing), Run2(incoming)));
    var stamped := if incoming.timestamp.Some? then runs.(timestamp := incoming.timestamp) else runs;
    Recalc(d, stamped)
  }

  /** Null ranks below "on course", which ranks below a number. */
  function Rank(t: RunTime): nat {
    match t
    case Null => 0
    case OnCourse => 1
    case Num(_) => 2
  }

  /**
   * The slot rule as the stored record sees it: when the records satisfy the record invariant,
   * each run's time, status and raw token are the incoming ones exactly when the rule says so,
   * and the stored ones otherwise. Nothing else can reset a status.
   */
  lemma MergeSlots(d: Dialect, existing: Racer, incoming: Racer)
    requires Inv(d, existing) && Inv(d, incoming)
    ensures Run1(Merge(d, existing, incoming))
         == if Overwrites(incoming.run1Time, existing.run1Time) then Run1(incoming) else Run1(existing)
    ensures Run2(Merge(d, existing, incoming))
         == if Overwrites(incoming.run2Time, existing.run2Time) then Run2(incoming) else Run2(existing)
  {
    var s1 := MergeSlot(d, Run1(existing), Run1(incoming));
    var s2 := MergeSlot(d, Run2(existing), Run2(incoming));
    var runs := WithRun2(WithRun1(existing, s1), s2);
    if runs.run1Time.Num? && runs.run2Time.Num? && d.Direct? {
      assert runs.run1Time.n.Finite? && runs.run2Time.n.Finite?;
    }
  }

  /**
   * A merge never moves a run down the order null < "on course" < number; in particular a
   * null-time status (DNS, DNF, DSQ or empty) never replaces what is stored.
   */
  lemma MergeNeverDowngrades(d: Dialect, existing: Racer, incoming: Racer)
    requires Inv(d, existing) && Inv(d, incoming)
    ensures Rank(Merge(d, existing, incoming).run1Time) >= Rank(existing.run1Time)
    ensures Rank(Merge(d, existing, incoming).run2Time) >= Rank(existing.run2Time)
    ensures incoming.run1Time.Null? ==> Run1(Merge(d, existing, incoming)) == Run1(existing)
    ensures incoming.run2Time.Null? ==> Run2(Merge(d, existing, incoming)) == Run2(existing)
  {
    MergeSlots(d, existing, incoming);
  }

  /** A merge keeps the record invariant: the total stays derived from the two runs. */
  lemma MergeInv(d: Dialect, existing: Racer, incoming: Racer)
    requires Inv(d, existing) && Inv(d, incoming)
    ensures Inv(d, Merge(d, existing, incoming))
  {
    var s1 := MergeSlot(d, Run1(existing), Run1(incoming));
    var s2 := MergeSlot(d, Run2(existing), Run2(incoming));
    var runs := WithRun2(WithRun1(existing, s1), s2);
    var stamped := if incoming.timestamp.Some? then runs.(timestamp := incoming.timestamp) else runs;
    if existing.run1Time.Num? { assert s1.time.Num?; }
    if existing.run2Time.Num? { assert s2.time.Num?; }
    if stamped.run1Time.Num? && stamped.run2Time.Num? && d.Direct? {
      assert stamped.run1Time.n.Finite? && stamped.run2Time.n.Finite?;
    }
  }

  /**
   * The in-place merge of `parseRaceData`/`parseFallbackRaceData`: the stored record's fields are
   * reassigned one after another.
   */
  method MergeRecord(d: Dialect, existing: Racer, incoming: Racer) returns (r: Racer)
    ensures r == Merge(d, existing, incoming)
  {
    r := existing;
    if incoming.run1Time.Num? || (incoming.run1Time.OnCourse? && r.run1Time.Null?) {
      r := r.(run1Time := incoming.run1Time, run1Status := incoming.run1Status, rawR1 := incoming.rawR1);
      if d.Direct? && IsNaNTime(r.run1Time) {
        r := r.(run1Time := Null, run1Status := "DNS");
      }
    }
    assert r == WithRun1(existing, MergeSlot(d, Run1(existing), Run1(incoming)));
    ghost var afterRun1 := r;
    if incoming.run2Time.Num? || (incoming.run2Time.OnCourse? && r.run2Time.Null?) {
      r := r.(run2Time := incoming.run2Time, run2Status := incoming.run2Status, rawR2 := incoming.rawR2);
      if d.Direct? && IsNaNTime(r.run2Time) {
        r := r.(run2Time := Null, run2Status := "DNS");
      }
    }
    assert r == WithRun2(afterRun1, MergeSlot(d, Run2(existing), Run2(incoming)));
    if incoming.timestamp.Some? {
      r := r.(timestamp := incoming.timestamp);
    }
    ghost var stamped := r;
    if r.run1Time.Num? && r.run2Time.Num? {
      r := r.(totalTime := Some(Plus(r.run1Time.n, r.run2Time.n)));
      if d.Direct? && r.totalTime.value.NaN? {
        r := r.(totalTime := None, run1Status := "DNS", run2Status := "DNS");
      }
    }
    assert r == Recalc(d, stamped);
  }
}
