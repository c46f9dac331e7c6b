/**
 * AlignedSequence.java: one isoform's buffer during the alignment. The
 * sequence is reassigned by splicing in gap characters and the feature list
 * only grows; each method is proved to compute the step given in Alignment.
 */
module AlignedSequences {
  import opened Wrappers
  import opened SequenceFeatures
  import opened IsoformRecords
  import opened Alignment

  class AlignedSequence {
    var sequence: string
    var features: seq<Feature>
    /** parentIsoform.getId(). */
    const id: Option<string>
    /** parentIsoform.getModifications(): the owning isoform's own edits, read only. */
    const ownModifications: Option<seq<Modification>>

    function State(): BufferState
      reads this
    {
      BufferState(sequence, features)
    }

    /** The isoform's sequence with the single feature [1, |sequence|] of type null. */
    constructor (sequence: string, parent: IsoformRecord)
      ensures State() == Seed(sequence)
      ensures id == parent.id && ownModifications == parent.modifications
    {
      this.sequence := sequence;
      id := parent.id;
      ownModifications := parent.modifications;
      features := [];
      new;
      var sf := NewFeature(1, |sequence|, None);
      AddFeature(sf);
    }

    /** `new SequenceFeature()` followed by its setters. */
    static method NewFeature(start: int, end: int, kind: Option<string>) returns (f: Feature)
      ensures f == Feature(start, end, kind, 0)
    {
      var sf := new SequenceFeature();
      sf.SetStart(start);
      sf.SetEnd(end);
      sf.SetType(kind);
      f := sf.Value();
    }

    /** Appends at the end; the sequence is untouched. */
    method AddFeature(feature: Feature)
      modifies this
      ensures features == old(features) + [feature]
      ensures sequence == old(sequence)
    {
      features := features + [feature];
    }

    /** The loop that sums end - start over the "gap" features starting before `begin`. */
    method MovedStartBefore(begin: int) returns (movedStart: int)
      ensures movedStart == MovedStart(features, begin)
    {
      movedStart := 0;
      for i := 0 to |features|
        invariant movedStart == MovedStart(features[..i], begin)
      {
        var sf := features[i];
        if sf.kind == Some(Gap) && sf.start < begin {
          movedStart := movedStart + sf.end - sf.start;
        }
        assert features[..i + 1][..i] == features[..i];
      }
      assert features[..|features|] == features;
    }

    /**
     * Applies a modification declared by isoform `isoformId` to this buffer;
     * `thrown` says that the Java code throws instead of returning.
     */
    method ApplyModification(m: Modification, isoformId: Option<string>) returns (thrown: bool)
      modifies this
      ensures Step(State(), thrown) == ApplyStep(old(State()), id, ownModifications, m, isoformId)
      ensures Extends(old(State()), State())
    {
      if m.GetEnd() - m.GetBegin() > |m.substitution| {
        thrown := ApplyDeletion(m, isoformId);
      } else {
        thrown := ApplyInsertion(m, isoformId);
      }
      ApplyStepExtends(old(State()), id, ownModifications, m, isoformId);
    }

    method ApplyDeletion(m: Modification, isoformId: Option<string>) returns (thrown: bool)
      requires IsDeletion(m)
      modifies this
      ensures Step(State(), thrown) == DeletionStep(old(State()), id, m, isoformId)
    {
      if id.None? {
        return true;  // getId().equals(...) on null
      }
      if id == isoformId {
        return false;
      }
      var movedStart := MovedStartBefore(m.GetBegin());
      thrown := DeleteInThisSequence(m, movedStart);
    }

    /** The rest of applyDeletion, on another isoform's buffer, once movedStart is known. */
    method DeleteInThisSequence(m: Modification, movedStart: int) returns (thrown: bool)
      requires IsDeletion(m)
      modifies this
      ensures Step(State(), thrown) == DeletionInOther(old(State()), m, movedStart)
    {
      if |m.substitution| > 0 {
        var substitution := NewFeature(m.GetBegin() + movedStart, m.GetBegin() + movedStart + |m.substitution|, Some(Mismatch));
        AddFeature(substitution);
      }
      var sub := |m.substitution|;
      if m.GetBegin() + sub - 1 > |sequence| {
        return false;
      }
      var gap := NewFeature(m.GetBegin() + movedStart + sub, m.GetEnd() + movedStart, Some(GapDeletion));
      var cut := m.GetBegin() + sub - 1;
      if cut < 0 {
        return true;  // substring(0, cut) throws
      }
      sequence := sequence[..cut] + Dashes(gap.end - gap.start) + sequence[gap.start - 1 - movedStart..];
      AddFeature(gap);
      thrown := false;
    }

    method ApplyInsertion(m: Modification, isoformId: Option<string>) returns (thrown: bool)
      requires !IsDeletion(m)
      modifies this
      ensures Step(State(), thrown) == InsertionStep(old(State()), id, ownModifications, m, isoformId)
    {
      var movedStart := MovedStartBefore(m.GetBegin());
      if id.None? {
        return true;  // getId().equals(...) on null
      }
      var owning := InsertMismatchInOwningSequence(m, isoformId, movedStart);
      if owning {
        return false;
      }
      var covered := CheckForSameModificationInCanonicalSequence(m);
      if covered {
        return false;
      }
      thrown := InsertInThisSequence(m, movedStart);
    }

    /** The rest of applyInsertion, on another isoform's buffer that no gap covers yet. */
    method InsertInThisSequence(m: Modification, movedStart: int) returns (thrown: bool)
      requires !IsDeletion(m)
      modifies this
      ensures Step(State(), thrown) == InsertionInOther(old(State()), ownModifications, m)
    {
      // computed and ignored, as in the source
      var same := CheckForSameModificationInThisSequence(m);
      var overlapped := CheckForEndOverlapsInThisSequence(m);
      var sub := |m.substitution|;
      if sub > m.GetEnd() - m.GetBegin() {
        // built but never added to the features
        var gap := NewFeature(m.GetBegin() + movedStart, m.GetEnd() + movedStart + sub, Some(GapInsertion));
        var cut := m.GetBegin() - 1;
        var count := gap.end - gap.start - 1;
        if cut < 0 || cut > |sequence| || count < 0 {
          return true;  // substring or nCopies throws
        }
        sequence := sequence[..cut] + Dashes(count) + sequence[gap.start - 1 - movedStart..];
      }
      thrown := false;
    }

    /**
     * On the declaring isoform's own buffer: a mismatch feature when the
     * substitution is no longer than getEnd() - begin, and `true` (stop).
     */
    method InsertMismatchInOwningSequence(m: Modification, isoformId: Option<string>, movedStart: int) returns (owning: bool)
      requires id.Some?
      modifies this
      ensures owning == (id == isoformId)
      ensures sequence == old(sequence)
      ensures !owning ==> features == old(features)
      ensures features == old(features)
        + (if owning && |m.substitution| <= m.GetEnd() - m.GetBegin()
           then [Feature(m.GetBegin() + movedStart, m.GetBegin() + |m.substitution| + movedStart, Some(Mismatch), 0)]
           else [])
    {
      if id == isoformId {
        if |m.substitution| <= m.GetEnd() - m.GetBegin() {
          var mismatch := NewFeature(m.GetBegin() + movedStart, m.GetBegin() + |m.substitution| + movedStart, Some(Mismatch));
          AddFeature(mismatch);
        } else {
          assert features + [] == features;
        }
        return true;
      }
      assert features + [] == features;
      return false;
    }

    /** Whether a gap-typed feature already contains [begin, begin + |substitution|]. */
    method CheckForSameModificationInCanonicalSequence(m: Modification) returns (covered: bool)
      ensures covered == CoveredByGap(features, m)
    {
      for i := 0 to |features|
        invariant forall j :: 0 <= j < i ==> !Covers(features[j], m)
      {
        var sf := features[i];
        if sf.kind.Some? && Gap <= sf.kind.value
           && m.GetBegin() >= sf.start
           && m.GetBegin() + |m.substitution| <= sf.end {
          assert Covers(features[i], m);
          return true;
        }
      }
      return false;
    }

    /** Whether the owning isoform declares the same begin, end and substitution. */
    method CheckForSameModificationInThisSequence(m: Modification) returns (same: bool)
      ensures same == SameModificationIn(ownModifications, m)
    {
      if ownModifications.None? {
        return false;
      }
      var own := ownModifications.value;
      for j := 0 to |own|
        invariant forall j' :: 0 <= j' < j ==> !SameModification(own[j'], m)
      {
        if m.GetBegin() == own[j].GetBegin() && m.GetEnd() == own[j].GetEnd()
           && m.substitution == own[j].substitution {
          return true;
        }
      }
      return false;
    }

    /**
     * For the first own modification that m overlaps at the end, appends the
     * "gap" feature [begin + |own substitution|, realEnd] and answers `true`.
     */
    method CheckForEndOverlapsInThisSequence(m: Modification) returns (found: bool)
      modifies this
      ensures found == EndOverlapGap(ownModifications, m).Some?
      ensures features == old(features) + EndOverlapGap(ownModifications, m).Elements()
      ensures sequence == old(sequence)
    {
      if ownModifications.None? {
        assert features + [] == features;
        return false;
      }
      var own := ownModifications.value;
      for j := 0 to |own|
        invariant forall j' :: 0 <= j' < j ==> !EndOverlaps(own[j'], m)
        invariant features == old(features) && sequence == old(sequence)
      {
        var modSub := m.substitution;
        var modRealEnd := if m.GetBegin() + |modSub| > m.GetEnd() then m.GetBegin() + |modSub| else m.GetEnd();
        var ownSub := own[j].substitution;
        var ownRealEnd := if own[j].GetBegin() + |ownSub| > own[j].GetEnd() then own[j].GetBegin() + |ownSub| else own[j].GetEnd();
        if m.GetBegin() <= own[j].GetEnd() && modRealEnd >= ownRealEnd {
          assert EndOverlaps(own[j], m);
          var first := FirstEndOverlap(own, m);
          assert first == Some(j) by {
            assert first.Some?;
            assert !(first.value < j) && !(j < first.value);
          }
          var gap := NewFeature(m.GetBegin() + |ownSub|, modRealEnd, Some(Gap));
          AddFeature(gap);
          return true;
        }
      }
      assert features + [] == features;
      return false;
    }
  }
}
