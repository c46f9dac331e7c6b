/**
 * Two places where AlignedSequence, as written, leaves the buffers out of line:
 *
 * - applyDeletion returns early on the buffer of the isoform that declares
 *   the deletion and splices the dashes into every other buffer. The
 *   declaring isoform is the one that lacks the deleted residues, so the
 *   canonical buffer grows and the two no longer line up.
 * - applyInsertion, for net growth, splices getEnd() - begin + |substitution| - 1
 *   dashes into the other buffers, while the declaring isoform has only
 *   |substitution| - (getEnd() - begin) extra residues; and the gapI feature
 *   is built but never added, so the same insertion pads again every time.
 *
 * Each is stated both ways: the code as written, on a small input and, for
 * the insertion, for all inputs; and CorrectedStep, with what it is meant
 * to achieve proved for all inputs.
 */
module Findings {
  import opened Wrappers
  import opened SequenceFeatures
  import opened IsoformRecords
  import opened Alignment
  import opened Replay

  // ---------------------------------------------------------------- the corrected step

  /** The deletion as intended: only the declaring isoform's buffer takes the gap. */
  function CorrectedDeletionStep(st: BufferState, selfId: Option<string>, m: Modification,
                                 isoformId: Option<string>): Step
    requires IsDeletion(m)
  {
    if selfId.None? then Step(st, true)  // getId() is null: equals throws
    else if selfId != isoformId then Step(st, false)
    else DeletionInOther(st, m, MovedStart(st.features, m.begin))
  }

  /**
   * The net-growth insertion as intended on another isoform's buffer: as many
   * dashes, at begin - 1, as the declaring isoform has extra residues, and the
   * gapI feature recorded, so that the covering check finds the insertion
   * already represented the next time.
   */
  function CorrectedInsertionInOther(st: BufferState, own: Option<seq<Modification>>, m: Modification): Step
    requires !IsDeletion(m)
  {
    var sub := |m.substitution|;
    var span := m.GetEnd() - m.begin;
    var features := st.features + EndOverlapGap(own, m).Elements();
    if sub > span then
      var ms := MovedStart(st.features, m.begin);
      var k := m.begin - 1;
      var gap := Feature(m.begin + ms, m.GetEnd() + ms + sub, Some(GapInsertion), 0);
      if k < 0 || k > |st.sequence| then Step(BufferState(st.sequence, features), true)  // substring throws
      else Step(BufferState(Splice(st.sequence, k, sub - span), features + [gap]), false)
    else Step(BufferState(st.sequence, features), false)
  }

  /**
   * The covering test as intended: a gap-typed feature contains the edit
   * either where the code looks, at the unshifted begin, or where the edit
   * sits in this buffer, at begin + movedStart (the "consider moved start"
   * note on the loop). The gapI feature is recorded at the shifted place.
   */
  predicate CorrectedCovered(features: seq<Feature>, m: Modification)
  {
    CoveredByGap(features, m) || CoveredByGap(features, m.(begin := m.begin + MovedStart(features, m.begin)))
  }

  /** applyInsertion with the corrected covering test and net growth; the declaring buffer as written. */
  function CorrectedInsertionStep(st: BufferState, selfId: Option<string>, own: Option<seq<Modification>>,
                                  m: Modification, isoformId: Option<string>): Step
    requires !IsDeletion(m)
  {
    if selfId.None? || selfId == isoformId then InsertionStep(st, selfId, own, m, isoformId)
    else if CorrectedCovered(st.features, m) then Step(st, false)
    else CorrectedInsertionInOther(st, own, m)
  }

  /** applyModification with both corrections. */
  function CorrectedStep(st: BufferState, selfId: Option<string>, own: Option<seq<Modification>>,
                         m: Modification, isoformId: Option<string>): Step
  {
    if IsDeletion(m) then CorrectedDeletionStep(st, selfId, m, isoformId)
    else CorrectedInsertionStep(st, selfId, own, m, isoformId)
  }

  const Corrected: Stepper :=
    (st: BufferState, owner: IsoformRecord, m: Modification, isoformId: Option<string>) =>
      CorrectedStep(st, owner.id, owner.modifications, m, isoformId)

  /**
   * The intended alignment of a deletion: an isoform whose sequence is the
   * canonical `c` with residues begin .. end (1-based, inclusive) replaced by
   * a shorter substitution gets dashes for the residues it lacks, right after
   * the substitution, and ends exactly as long as `c`; every other isoform's
   * buffer is left as it was.
   */
  lemma CorrectedDeletionLinesUp(c: string, st: BufferState, selfId: Option<string>, own: Option<seq<Modification>>,
                                 m: Modification, other: BufferState, otherId: Option<string>,
                                 otherOwn: Option<seq<Modification>>)
    requires selfId.Some? && otherId.Some? && otherId != selfId
    requires 1 <= m.begin <= m.end <= |c| && |m.substitution| <= m.end - m.begin
    requires st.sequence == c[..m.begin - 1] + m.substitution + c[m.end..]
    ensures IsDeletion(m)
    ensures var r := CorrectedStep(st, selfId, own, m, selfId);
            && !r.thrown
            && r.state.sequence == c[..m.begin - 1] + m.substitution + Dashes(m.end - m.begin + 1 - |m.substitution|) + c[m.end..]
            && |r.state.sequence| == |c|
    ensures CorrectedStep(other, otherId, otherOwn, m, selfId) == Step(other, false)
  {
    var sub := |m.substitution|;
    var k := m.begin + sub - 1;
    var head := c[..m.begin - 1] + m.substitution;
    assert |head| == k;
    assert st.sequence == head + c[m.end..];
    assert st.sequence[..k] == head;
    assert st.sequence[k..] == c[m.end..];
    assert |c[..m.begin - 1]| + (m.end - m.begin + 1) + |c[m.end..]| == |c|;
  }

  /**
   * As written, a net-growth insertion gives another isoform's buffer, here
   * holding the canonical `c`, 2 * (end - begin + 1) - 1 more characters than
   * the declaring isoform's sequence c[..begin - 1] + substitution + c[end..]
   * has: the two never end the same length.
   */
  lemma AsWrittenInsertionOverpads(c: string, st: BufferState, selfId: Option<string>, own: Option<seq<Modification>>,
                                   m: Modification, isoformId: Option<string>)
    requires selfId.Some? && selfId != isoformId
    requires st.sequence == c && !CoveredByGap(st.features, m)
    requires 1 <= m.begin <= m.end <= |c| && |m.substitution| > m.end - m.begin + 1
    ensures var r := ApplyStep(st, selfId, own, m, isoformId);
            var iso := c[..m.begin - 1] + m.substitution + c[m.end..];
            && !r.thrown
            && |r.state.sequence| == |iso| + 2 * (m.end - m.begin + 1) - 1
            && |r.state.sequence| != |iso|
  {
    InsertionNetGrowth(st, selfId, own, m, isoformId);
    assert |c[..m.begin - 1] + m.substitution + c[m.end..]| == m.begin - 1 + |m.substitution| + |c| - m.end;
  }

  /**
   * As written, nothing records a net-growth insertion on another isoform's
   * buffer (no gapI feature, and here no end overlap either), so applying it
   * a second time pads the buffer a second time.
   */
  lemma AsWrittenInsertionRepeats(st: BufferState, selfId: Option<string>, own: Option<seq<Modification>>,
                                  m: Modification, isoformId: Option<string>)
    requires selfId.Some? && selfId != isoformId && !CoveredByGap(st.features, m)
    requires EndOverlapGap(own, m).None?
    requires m.begin <= m.end && |m.substitution| > m.end - m.begin + 1
    requires 1 <= m.begin <= |st.sequence| + 1
    ensures var n := m.GetEnd() - m.begin + |m.substitution| - 1;
            var r1 := ApplyStep(st, selfId, own, m, isoformId);
            var r2 := ApplyStep(r1.state, selfId, own, m, isoformId);
            && !r1.thrown && !r2.thrown
            && r1.state.features == st.features && r2.state.features == st.features
            && |r1.state.sequence| == |st.sequence| + n
            && |r2.state.sequence| == |st.sequence| + 2 * n
  {
    var r1 := ApplyStep(st, selfId, own, m, isoformId);
    assert st.features + EndOverlapGap(own, m).Elements() == st.features;
    assert r1.state.features == st.features;
    InsertionNetGrowth(st, selfId, own, m, isoformId);
    InsertionNetGrowth(r1.state, selfId, own, m, isoformId);
  }

  /**
   * The intended alignment of a net-growth insertion: another isoform's
   * buffer holding the canonical `c`, not yet covered by a gap, takes
   * |substitution| - (end - begin + 1) dashes at begin - 1 and ends exactly
   * as long as the declaring isoform's sequence c[..begin - 1] +
   * substitution + c[end..], with the same residues before begin and after
   * end; the declaring isoform's own buffer keeps its sequence.
   */
  lemma CorrectedInsertionLinesUp(c: string, st: BufferState, selfId: Option<string>, own: Option<seq<Modification>>,
                                  m: Modification, isoformId: Option<string>, decl: BufferState,
                                  declOwn: Option<seq<Modification>>)
    requires selfId.Some? && isoformId.Some? && selfId != isoformId
    requires st.sequence == c && !CorrectedCovered(st.features, m)
    requires 1 <= m.begin <= m.end <= |c| && |m.substitution| > m.end - m.begin + 1
    ensures !IsDeletion(m)
    ensures var r := CorrectedStep(st, selfId, own, m, isoformId);
            var iso := c[..m.begin - 1] + m.substitution + c[m.end..];
            var d := |m.substitution| - (m.end - m.begin + 1);
            && !r.thrown
            && r.state.sequence == c[..m.begin - 1] + Dashes(d) + c[m.begin - 1..]
            && |r.state.sequence| == |iso|
            && r.state.sequence[..m.begin - 1] == iso[..m.begin - 1]
            && r.state.sequence[|iso| - (|c| - m.end)..] == iso[|iso| - (|c| - m.end)..]
    ensures CorrectedStep(decl, isoformId, declOwn, m, isoformId).state.sequence == decl.sequence
  {
    var b := m.begin - 1;
    var d := |m.substitution| - (m.end - m.begin + 1);
    var iso := c[..b] + m.substitution + c[m.end..];
    var r := c[..b] + Dashes(d) + c[b..];
    assert |iso| == b + |m.substitution| + (|c| - m.end);
    assert |r| == |iso|;
    assert iso[|iso| - (|c| - m.end)..] == c[m.end..];
    assert c[b..][m.end - b..] == c[m.end..];
    assert r[|iso| - (|c| - m.end)..] == c[b..][m.end - b..];
    assert r[..b] == c[..b] == iso[..b];
  }

  /**
   * The corrected net growth is idempotent: applied once, its gapI feature,
   * recorded at begin + movedStart, covers the insertion where the corrected
   * covering test looks; and neither that feature nor an end-overlap "gap"
   * changes movedStart. So applying it again changes nothing.
   */
  lemma CorrectedInsertionIdempotent(st: BufferState, selfId: Option<string>, own: Option<seq<Modification>>,
                                     m: Modification, isoformId: Option<string>)
    requires selfId.Some?
    requires m.begin <= m.end && |m.substitution| > m.end - m.begin + 1
    requires 1 <= m.begin <= |st.sequence| + 1
    ensures var r := CorrectedStep(st, selfId, own, m, isoformId);
            && !r.thrown
            && CorrectedStep(r.state, selfId, own, m, isoformId) == Step(r.state, false)
  {
    var r := CorrectedStep(st, selfId, own, m, isoformId);
    if selfId != isoformId && !CorrectedCovered(st.features, m) {
      var ms := MovedStart(st.features, m.begin);
      var gap := Feature(m.begin + ms, m.GetEnd() + ms + |m.substitution|, Some(GapInsertion), 0);
      var added := EndOverlapGap(own, m).Elements() + [gap];
      assert r.state.features == st.features + added;
      assert forall i :: 0 <= i < |added| ==> added[i].kind != Some(Gap) || added[i].start >= m.begin;
      MovedStartOnlyCountsGaps(added, m.begin);
      MovedStartAppend(st.features, added, m.begin);
      var shifted := m.(begin := m.begin + ms);
      assert r.state.features[|r.state.features| - 1] == gap;
      assert Gap <= GapInsertion;
      assert Covers(gap, shifted);
      assert CorrectedCovered(r.state.features, m);
    }
  }

  /** The corrected net growth, too, only splices in dashes and appends features. */
  lemma CorrectedInsertionInOtherExtends(st: BufferState, own: Option<seq<Modification>>, m: Modification)
    requires !IsDeletion(m)
    ensures Extends(st, CorrectedInsertionInOther(st, own, m).state)
  {
    var r := CorrectedInsertionInOther(st, own, m).state;
    var sub := |m.substitution|;
    var span := m.GetEnd() - m.begin;
    var features := st.features + EndOverlapGap(own, m).Elements();
    var k := m.begin - 1;
    if sub > span && 0 <= k <= |st.sequence| {
      SpliceKeepsResidues(st.sequence, k, sub - span);
      assert r.sequence == Splice(st.sequence, k, sub - span);
      assert st.features <= features <= r.features;
    } else {
      assert r == BufferState(st.sequence, features);
    }
  }

  /** The corrected step, too, only splices in dashes and appends features. */
  lemma CorrectedExtends()
    ensures StepExtends(Corrected)
  {
    forall st, owner: IsoformRecord, m, isoformId
      ensures Extends(st, Corrected(st, owner, m, isoformId).state)
    {
      if IsDeletion(m) {
        if owner.id.Some? && owner.id == isoformId {
          DeletionInOtherExtends(st, m, MovedStart(st.features, m.begin));
        }
      } else if owner.id.None? || owner.id == isoformId {
        InsertionStepExtends(st, owner.id, owner.modifications, m, isoformId);
      } else if !CorrectedCovered(st.features, m) {
        CorrectedInsertionInOtherExtends(st, owner.modifications, m);
      }
    }
  }

  /** The whole corrected alignment keeps every isoform's residues and seed feature. */
  lemma CorrectedKeepsEveryIsoform(recs: seq<IsoformRecord>)
    requires HasSequences(recs)
    ensures var r := AlignWith(Corrected, recs);
            forall b :: 0 <= b < |recs| ==>
              var s := recs[b].sequence.value;
              && |r.states[b].sequence| >= |s|
              && Residues(r.states[b].sequence) == Residues(s)
              && |r.states[b].features| >= 1
              && r.states[b].features[0] == SeedFeature(s)
  {
    CorrectedExtends();
    ReplayIsoformsExtends(Corrected, Seeds(recs), recs, |recs|);
  }

  // ---------------------------------------------------------------- a small input

  /** A canonical isoform and one isoform that lacks residues 6 .. 10. */
  function Example(): (recs: seq<IsoformRecord>)
    ensures HasSequences(recs)
  {
    [ IsoformRecord(Some("P1-1"), Some("ABCDEFGHIJ"), None),
      IsoformRecord(Some("P1-2"), Some("ABCDE"), Some([Modification("", 6, 10, "VSP_1")])) ]
  }

  /**
   * As written: the canonical buffer takes the five dashes and the gapD
   * feature, the isoform takes neither, and the lengths differ.
   */
  lemma AsWrittenPadsCanonical()
    ensures var r := Align(Example());
            && !r.thrown
            && r.states[0].sequence == "ABCDE-----FGHIJ"
            && r.states[1].sequence == "ABCDE"
            && |r.states[0].sequence| != |r.states[1].sequence|
            && |r.states[0].features| == 2 && |r.states[1].features| == 1
  {
    var recs := Example();
    var m := Modification("", 6, 10, "VSP_1");
    var seeds := Seeds(recs);
    assert IsDeletion(m);
    assert ReplayIsoforms(AsWritten, seeds, recs, 1) == Replayed(seeds, false);
    var s0 := AsWritten(seeds[0], recs[0], m, Some("P1-2"));
    assert MovedStart(seeds[0].features, 6) == 0;
    assert s0.state.sequence == Splice("ABCDEFGHIJ", 5, 5);
    assert s0.state.sequence == "ABCDE-----FGHIJ";
    var s1 := AsWritten(seeds[1], recs[1], m, Some("P1-2"));
    assert s1 == Step(seeds[1], false);
    assert ApplyToBuffers(AsWritten, seeds, recs, m, Some("P1-2"), 1) == Replayed(seeds[0 := s0.state], false);
    assert ApplyToBuffers(AsWritten, seeds, recs, m, Some("P1-2"), 2) == Replayed(seeds[0 := s0.state], false);
  }

  /**
   * Corrected: the canonical buffer keeps its one feature, the isoform takes
   * the dashes and the gapD feature, and the lengths agree.
   */
  lemma CorrectedLinesUpExample()
    ensures var r := AlignWith(Corrected, Example());
            && !r.thrown
            && r.states[0].sequence == "ABCDEFGHIJ"
            && r.states[1].sequence == "ABCDE-----"
            && |r.states[0].sequence| == |r.states[1].sequence|
            && |r.states[0].features| == 1 && |r.states[1].features| == 2
  {
    var recs := Example();
    var m := Modification("", 6, 10, "VSP_1");
    var seeds := Seeds(recs);
    assert IsDeletion(m);
    assert ReplayIsoforms(Corrected, seeds, recs, 1) == Replayed(seeds, false);
    var s0 := Corrected(seeds[0], recs[0], m, Some("P1-2"));
    assert s0 == Step(seeds[0], false);
    var s1 := Corrected(seeds[1], recs[1], m, Some("P1-2"));
    assert MovedStart(seeds[1].features, 6) == 0;
    assert s1.state.sequence == Splice("ABCDE", 5, 5);
    assert s1.state.sequence == "ABCDE-----";
    assert ApplyToBuffers(Corrected, seeds, recs, m, Some("P1-2"), 1) == Replayed(seeds, false);
    assert ApplyToBuffers(Corrected, seeds, recs, m, Some("P1-2"), 2) == Replayed(seeds[1 := s1.state], false);
  }

  /** A canonical isoform and one that replaces residue 5 by four residues. */
  function InsertionExample(): (recs: seq<IsoformRecord>)
    ensures HasSequences(recs)
  {
    [ IsoformRecord(Some("P1-1"), Some("ABCDEFGHIJ"), None),
      IsoformRecord(Some("P1-3"), Some("ABCDEXYZFGHIJ"), Some([Modification("EXYZ", 5, 5, "VSP_2")])) ]
  }

  /** As written: four dashes in the canonical buffer for three extra residues, lengths 14 and 13. */
  lemma AsWrittenInsertionExample()
    ensures var r := Align(InsertionExample());
            && !r.thrown
            && r.states[0].sequence == "ABCD----EFGHIJ"
            && r.states[1].sequence == "ABCDEXYZFGHIJ"
            && |r.states[0].sequence| != |r.states[1].sequence|
  {
    var recs := InsertionExample();
    var m := Modification("EXYZ", 5, 5, "VSP_2");
    var seeds := Seeds(recs);
    assert !IsDeletion(m);
    assert ReplayIsoforms(AsWritten, seeds, recs, 1) == Replayed(seeds, false);
    var s0 := AsWritten(seeds[0], recs[0], m, Some("P1-3"));
    assert !CoveredByGap(seeds[0].features, m);
    assert s0.state.sequence == Splice("ABCDEFGHIJ", 4, 4);
    assert s0.state.sequence == "ABCD----EFGHIJ";
    var s1 := AsWritten(seeds[1], recs[1], m, Some("P1-3"));
    assert s1 == Step(seeds[1], false);
    assert ApplyToBuffers(AsWritten, seeds, recs, m, Some("P1-3"), 1) == Replayed(seeds[0 := s0.state], false);
    assert ApplyToBuffers(AsWritten, seeds, recs, m, Some("P1-3"), 2) == Replayed(seeds[0 := s0.state], false);
  }

  /** Corrected: three dashes and the gapI feature in the canonical buffer, lengths 13 and 13. */
  lemma CorrectedInsertionExample()
    ensures var r := AlignWith(Corrected, InsertionExample());
            && !r.thrown
            && r.states[0].sequence == "ABCD---EFGHIJ"
            && r.states[1].sequence == "ABCDEXYZFGHIJ"
            && |r.states[0].sequence| == |r.states[1].sequence|
            && |r.states[0].features| == 2 && |r.states[1].features| == 1
  {
    var recs := InsertionExample();
    var m := Modification("EXYZ", 5, 5, "VSP_2");
    var seeds := Seeds(recs);
    assert !IsDeletion(m);
    assert ReplayIsoforms(Corrected, seeds, recs, 1) == Replayed(seeds, false);
    var s0 := Corrected(seeds[0], recs[0], m, Some("P1-3"));
    assert !CoveredByGap(seeds[0].features, m);
    assert MovedStart(seeds[0].features, 5) == 0;
    assert s0.state.sequence == Splice("ABCDEFGHIJ", 4, 3);
    assert s0.state.sequence == "ABCD---EFGHIJ";
    var s1 := Corrected(seeds[1], recs[1], m, Some("P1-3"));
    assert s1 == Step(seeds[1], false);
    assert ApplyToBuffers(Corrected, seeds, recs, m, Some("P1-3"), 1) == Replayed(seeds[0 := s0.state], false);
    assert ApplyToBuffers(Corrected, seeds, recs, m, Some("P1-3"), 2) == Replayed(seeds[0 := s0.state], false);
  }
}
