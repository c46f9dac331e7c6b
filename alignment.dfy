/**
 * What one AlignedSequence.applyModification call does to one buffer, as
 * functions of the buffer's state. The class in aligned_sequence.dfy is
 * proved to compute exactly these; the lemmas below state what they promise.
 */
module Alignment {
  import opened Wrappers
  import opened SequenceFeatures
  import opened IsoformRecords

  const Gap: string := "gap"
  const GapDeletion: string := "gapD"
  const GapInsertion: string := "gapI"
  const Mismatch: string := "mismatch"

  /** One buffer: its gapped sequence and its feature list. */
  datatype BufferState = BufferState(sequence: string, features: seq<Feature>)

  /** The state after one call, and whether the call throws instead of returning. */
  datatype Step = Step(state: BufferState, thrown: bool)

  /** The feature every buffer starts with: [1, |sequence|], type null. */
  function SeedFeature(sequence: string): Feature
  {
    Feature(1, |sequence|, None, 0)
  }

  /** A fresh buffer for an isoform's sequence. */
  function Seed(sequence: string): BufferState
  {
    BufferState(sequence, [SeedFeature(sequence)])
  }

  // ---------------------------------------------------------------- strings

  /** `n` gap characters. */
  function Dashes(n: nat): (d: string)
    ensures |d| == n
    ensures forall i :: 0 <= i < n ==> d[i] == '-'
  {
    if n == 0 then [] else Dashes(n - 1) + ['-']
  }

  /** `n` gap characters put in at index `k`, replacing nothing. */
  function Splice(s: string, k: nat, n: nat): (r: string)
    requires k <= |s|
    ensures |r| == |s| + n
    ensures r[..k] == s[..k] && r[k + n..] == s[k..]
    ensures r[..k] + r[k + n..] == s
    ensures forall i :: k <= i < k + n ==> r[i] == '-'
  {
    assert s[..k] + s[k..] == s;
    s[..k] + Dashes(n) + s[k..]
  }

  /** The residues of a sequence: everything but the gap characters. */
  function Residues(s: string): (r: string)
    ensures |r| <= |s|
    ensures forall i :: 0 <= i < |r| ==> r[i] != '-'
  {
    if s == [] then []
    else Residues(s[..|s| - 1]) + (if s[|s| - 1] == '-' then [] else [s[|s| - 1]])
  }

  lemma {:induction false} ResiduesAppend(a: string, b: string)
    ensures Residues(a + b) == Residues(a) + Residues(b)
    decreases |b|
  {
    if b == [] {
      assert a + b == a;
    } else {
      var b' := b[..|b| - 1];
      assert (a + b)[..|a + b| - 1] == a + b';
      ResiduesAppend(a, b');
    }
  }

  lemma {:induction false} ResiduesOfDashes(n: nat)
    ensures Residues(Dashes(n)) == []
  {
    if n > 0 {
      ResiduesOfDashes(n - 1);
      assert Dashes(n)[..n - 1] == Dashes(n - 1);
    }
  }

  /** Splicing gaps in keeps every residue, in order. */
  lemma SpliceKeepsResidues(s: string, k: nat, n: nat)
    requires k <= |s|
    ensures Residues(Splice(s, k, n)) == Residues(s)
  {
    var left, dashes, right := s[..k], Dashes(n), s[k..];
    assert Splice(s, k, n) == (left + dashes) + right;
    assert left + right == s;
    calc {
      Residues((left + dashes) + right);
      { ResiduesAppend(left + dashes, right); }
      Residues(left + dashes) + Residues(right);
      { ResiduesAppend(left, dashes); ResiduesOfDashes(n); assert Residues(left) + [] == Residues(left); }
      Residues(left) + Residues(right);
      { ResiduesAppend(left, right); }
      Residues(s);
    }
  }

  // ---------------------------------------------------------------- movedStart

  /** What one feature adds to movedStart: only type exactly "gap" starting before `begin`. */
  function GapShift(f: Feature, begin: int): int
  {
    if f.kind == Some(Gap) && f.start < begin then f.end - f.start else 0
  }

  /** movedStart: the shifts of all features, in list order. */
  function MovedStart(features: seq<Feature>, begin: int): int
  {
    if features == [] then 0
    else MovedStart(features[..|features| - 1], begin) + GapShift(features[|features| - 1], begin)
  }

  /** movedStart distributes over a split of the feature list. */
  lemma {:induction false} MovedStartAppend(a: seq<Feature>, b: seq<Feature>, begin: int)
    ensures MovedStart(a + b, begin) == MovedStart(a, begin) + MovedStart(b, begin)
    decreases |b|
  {
    if b == [] {
      assert a + b == a;
    } else {
      var b' := b[..|b| - 1];
      assert (a + b)[..|a + b| - 1] == a + b';
      MovedStartAppend(a, b', begin);
    }
  }

  /**
   * Features that are not typed exactly "gap" (gapD, mismatch, null), or that
   * start at or after `begin`, never contribute.
   */
  lemma {:induction false} MovedStartOnlyCountsGaps(features: seq<Feature>, begin: int)
    requires forall i :: 0 <= i < |features| ==> features[i].kind != Some(Gap) || features[i].start >= begin
    ensures MovedStart(features, begin) == 0
  {
    if features != [] {
      MovedStartOnlyCountsGaps(features[..|features| - 1], begin);
    }
  }

  // ---------------------------------------------------------------- classification

  /** The deletion path: the exclusive span is longer than the substitution. */
  predicate IsDeletion(m: Modification)
  {
    m.GetEnd() - m.GetBegin() > |m.substitution|
  }

  /** In terms of the stored coordinates: the declared span end - begin + 1 is longer. */
  lemma DispatchBySpan(m: Modification)
    ensures IsDeletion(m) <==> m.end - m.begin + 1 > |m.substitution|
    ensures !IsDeletion(m) <==> |m.substitution| >= m.end - m.begin + 1
  {
  }

  /** The larger of begin + |substitution| and getEnd(). */
  function RealEnd(m: Modification): (e: int)
    ensures e >= m.GetEnd() && e >= m.begin + |m.substitution|
    ensures e == m.GetEnd() || e == m.begin + |m.substitution|
  {
    if m.begin + |m.substitution| > m.GetEnd() then m.begin + |m.substitution| else m.GetEnd()
  }

  // ---------------------------------------------------------------- insertion scans

  /** startsWith("gap"): gap, gapD, gapI. */
  predicate IsGapType(kind: Option<string>)
  {
    kind.Some? && Gap <= kind.value
  }

  /** A gap-typed feature that contains [begin, begin + |substitution|]. */
  predicate Covers(f: Feature, m: Modification)
  {
    IsGapType(f.kind) && m.begin >= f.start && m.begin + |m.substitution| <= f.end
  }

  predicate CoveredByGap(features: seq<Feature>, m: Modification)
  {
    exists i :: 0 <= i < |features| && Covers(features[i], m)
  }

  /** The same begin, getEnd() and substitution (the id is not compared). */
  predicate SameModificationIn(own: Option<seq<Modification>>, m: Modification)
  {
    own.Some? && exists j :: 0 <= j < |own.value| && SameModification(own.value[j], m)
  }

  predicate SameModification(own: Modification, m: Modification)
  {
    m.begin == own.begin && m.GetEnd() == own.GetEnd() && m.substitution == own.substitution
  }

  /** `own` starts no later than m and m reaches at least as far. */
  predicate EndOverlaps(own: Modification, m: Modification)
  {
    m.begin <= own.GetEnd() && RealEnd(m) >= RealEnd(own)
  }

  /** The index of the first own modification that m overlaps at the end. */
  function FirstEndOverlap(own: seq<Modification>, m: Modification): (r: Option<nat>)
    ensures r.Some? ==> r.value < |own| && EndOverlaps(own[r.value], m)
    ensures r.Some? ==> forall j :: 0 <= j < r.value ==> !EndOverlaps(own[j], m)
    ensures r.None? <==> forall j :: 0 <= j < |own| ==> !EndOverlaps(own[j], m)
  {
    if own == [] then None
    else if EndOverlaps(own[0], m) then Some(0)
    else
      match FirstEndOverlap(own[1..], m)
      case None => None
      case Some(j) => Some(j + 1)
  }

  /** The "gap" feature [begin + |own substitution|, realEnd] for the first end overlap, if any. */
  function EndOverlapGap(own: Option<seq<Modification>>, m: Modification): Option<Feature>
  {
    if own.None? then None
    else
      match FirstEndOverlap(own.value, m)
      case None => None
      case Some(j) => Some(Feature(m.begin + |own.value[j].substitution|, RealEnd(m), Some(Gap), 0))
  }

  // ---------------------------------------------------------------- one call

  /**
   * applyModification(m, isoform) on the buffer of isoform `selfId`, whose own
   * modifications are `own`, for a modification declared by `isoformId`.
   */
  function ApplyStep(st: BufferState, selfId: Option<string>, own: Option<seq<Modification>>,
                     m: Modification, isoformId: Option<string>): Step
  {
    if IsDeletion(m) then DeletionStep(st, selfId, m, isoformId)
    else InsertionStep(st, selfId, own, m, isoformId)
  }

  function DeletionStep(st: BufferState, selfId: Option<string>, m: Modification, isoformId: Option<string>): Step
    requires IsDeletion(m)
  {
    if selfId.None? then Step(st, true)  // getId() is null: equals throws
    else if selfId == isoformId then Step(st, false)
    else DeletionInOther(st, m, MovedStart(st.features, m.begin))
  }

  /**
   * The deletion on another isoform's buffer, once movedStart is known: the
   * mismatch for a non-empty substitution, then the gap characters and the
   * gapD feature unless begin + |substitution| - 1 is past the end.
   */
  function DeletionInOther(st: BufferState, m: Modification, ms: int): Step
    requires IsDeletion(m)
  {
    var sub := |m.substitution|;
    var features := if sub > 0
      then st.features + [Feature(m.begin + ms, m.begin + ms + sub, Some(Mismatch), 0)]
      else st.features;
    var k := m.begin + sub - 1;
    if k > |st.sequence| then Step(BufferState(st.sequence, features), false)
    else if k < 0 then Step(BufferState(st.sequence, features), true)  // substring(0, k) throws
    else
      var gap := Feature(m.begin + ms + sub, m.GetEnd() + ms, Some(GapDeletion), 0);
      Step(BufferState(Splice(st.sequence, k, m.GetEnd() - m.begin - sub), features + [gap]), false)
  }

  function InsertionStep(st: BufferState, selfId: Option<string>, own: Option<seq<Modification>>,
                         m: Modification, isoformId: Option<string>): Step
    requires !IsDeletion(m)
  {
    var ms := MovedStart(st.features, m.begin);
    var sub := |m.substitution|;
    if selfId.None? then Step(st, true)  // getId() is null: equals throws
    else if selfId == isoformId then
      var features := if sub <= m.GetEnd() - m.begin
        then st.features + [Feature(m.begin + ms, m.begin + sub + ms, Some(Mismatch), 0)]
        else st.features;
      Step(BufferState(st.sequence, features), false)
    else if CoveredByGap(st.features, m) then Step(st, false)
    else InsertionInOther(st, own, m)
  }

  /**
   * The insertion on another isoform's buffer that no gap covers yet: the
   * end-overlap "gap" feature, if any, then for net growth
   * getEnd() - begin + |substitution| - 1 gap characters at begin - 1.
   */
  function InsertionInOther(st: BufferState, own: Option<seq<Modification>>, m: Modification): Step
    requires !IsDeletion(m)
  {
    var sub := |m.substitution|;
    var features := st.features + EndOverlapGap(own, m).Elements();
    if sub > m.GetEnd() - m.begin then
      var k := m.begin - 1;
      var n := m.GetEnd() - m.begin + sub - 1;
      if k < 0 || k > |st.sequence| || n < 0 then Step(BufferState(st.sequence, features), true)
      else Step(BufferState(Splice(st.sequence, k, n), features), false)
    else Step(BufferState(st.sequence, features), false)
  }

  // ---------------------------------------------------------------- properties

  /** `b` extends `a`: no shorter, the same residues, and a's features as a prefix. */
  predicate Extends(a: BufferState, b: BufferState)
  {
    |a.sequence| <= |b.sequence| && Residues(b.sequence) == Residues(a.sequence) && a.features <= b.features
  }

  lemma ExtendsTransitive(a: BufferState, b: BufferState, c: BufferState)
    requires Extends(a, b) && Extends(b, c)
    ensures Extends(a, c)
  {
  }

  /**
   * Every call, thrown or not, only splices in gap characters and appends
   * features: sequences never shrink, residues are kept, features only grow.
   */
  lemma ApplyStepExtends(st: BufferState, selfId: Option<string>, own: Option<seq<Modification>>,
                         m: Modification, isoformId: Option<string>)
    ensures Extends(st, ApplyStep(st, selfId, own, m, isoformId).state)
  {
    if IsDeletion(m) {
      DeletionStepExtends(st, selfId, m, isoformId);
    } else {
      InsertionStepExtends(st, selfId, own, m, isoformId);
    }
  }

  lemma DeletionStepExtends(st: BufferState, selfId: Option<string>, m: Modification, isoformId: Option<string>)
    requires IsDeletion(m)
    ensures Extends(st, DeletionStep(st, selfId, m, isoformId).state)
  {
    if selfId.Some? && selfId != isoformId {
      DeletionInOtherExtends(st, m, MovedStart(st.features, m.begin));
    }
  }

  /** The deletion body, whatever movedStart is, only splices in dashes and appends features. */
  lemma DeletionInOtherExtends(st: BufferState, m: Modification, ms: int)
    requires IsDeletion(m)
    ensures Extends(st, DeletionInOther(st, m, ms).state)
  {
    var r := DeletionInOther(st, m, ms).state;
    var sub := |m.substitution|;
    var k := m.begin + sub - 1;
    var features := if sub > 0
      then st.features + [Feature(m.begin + ms, m.begin + ms + sub, Some(Mismatch), 0)]
      else st.features;
    assert st.features <= features;
    if 0 <= k <= |st.sequence| {
      var gap := Feature(m.begin + ms + sub, m.GetEnd() + ms, Some(GapDeletion), 0);
      var n := m.GetEnd() - m.begin - sub;
      assert r == BufferState(Splice(st.sequence, k, n), features + [gap]);
      SpliceKeepsResidues(st.sequence, k, n);
    } else {
      assert r == BufferState(st.sequence, features);
    }
  }

  lemma InsertionStepExtends(st: BufferState, selfId: Option<string>, own: Option<seq<Modification>>,
                             m: Modification, isoformId: Option<string>)
    requires !IsDeletion(m)
    ensures Extends(st, InsertionStep(st, selfId, own, m, isoformId).state)
  {
    var r := InsertionStep(st, selfId, own, m, isoformId).state;
    var sub := |m.substitution|;
    var k := m.begin - 1;
    var n := m.GetEnd() - m.begin + sub - 1;
    if selfId.Some? && selfId != isoformId && !CoveredByGap(st.features, m)
       && sub > m.GetEnd() - m.begin && 0 <= k <= |st.sequence| && n >= 0 {
      SpliceKeepsResidues(st.sequence, k, n);
      assert r.sequence == Splice(st.sequence, k, n);
    }
  }

  /** A buffer whose isoform id is null throws on every call and is left as it was. */
  lemma NullIdThrows(st: BufferState, own: Option<seq<Modification>>, m: Modification, isoformId: Option<string>)
    ensures ApplyStep(st, None, own, m, isoformId) == Step(st, true)
  {
  }

  /** A deletion leaves the buffer of the isoform that declared it exactly as it was. */
  lemma DeletionSkipsDeclaringBuffer(st: BufferState, selfId: Option<string>, own: Option<seq<Modification>>,
                                     m: Modification)
    requires IsDeletion(m) && selfId.Some?
    ensures ApplyStep(st, selfId, own, m, selfId) == Step(st, false)
  {
  }

  /**
   * An in-range deletion on another isoform's buffer: n >= 1 dashes go in at
   * k = begin + |substitution| - 1, removing them gives the old sequence back,
   * and the mismatch (for a non-empty substitution) then the gapD feature are
   * appended, in that order.
   */
  lemma DeletionInRange(st: BufferState, selfId: Option<string>, own: Option<seq<Modification>>,
                        m: Modification, isoformId: Option<string>)
    requires IsDeletion(m) && selfId.Some? && selfId != isoformId
    requires 0 <= m.begin + |m.substitution| - 1 <= |st.sequence|
    ensures var r := ApplyStep(st, selfId, own, m, isoformId);
            var k := m.begin + |m.substitution| - 1;
            var n := m.GetEnd() - m.begin - |m.substitution|;
            var ms := MovedStart(st.features, m.begin);
            && !r.thrown
            && n >= 1
            && r.state.sequence == st.sequence[..k] + Dashes(n) + st.sequence[k..]
            && |r.state.sequence| == |st.sequence| + n
            && r.state.sequence[..k] + r.state.sequence[k + n..] == st.sequence
            && r.state.features == st.features
               + (if |m.substitution| > 0
                  then [Feature(m.begin + ms, m.begin + ms + |m.substitution|, Some(Mismatch), 0)]
                  else [])
               + [Feature(m.begin + ms + |m.substitution|, m.GetEnd() + ms, Some(GapDeletion), 0)]
  {
    var sub := |m.substitution|;
    var ms := MovedStart(st.features, m.begin);
    if sub == 0 {
      assert st.features + [] == st.features;
    }
  }

  /**
   * Out of range: the sequence is untouched, but the mismatch feature (for a
   * non-empty substitution) has already been appended.
   */
  lemma DeletionOutOfRange(st: BufferState, selfId: Option<string>, own: Option<seq<Modification>>,
                           m: Modification, isoformId: Option<string>)
    requires IsDeletion(m) && selfId.Some? && selfId != isoformId
    requires m.begin + |m.substitution| - 1 > |st.sequence|
    ensures var r := ApplyStep(st, selfId, own, m, isoformId);
            var ms := MovedStart(st.features, m.begin);
            && r == Step(BufferState(st.sequence, st.features
                 + (if |m.substitution| > 0
                    then [Feature(m.begin + ms, m.begin + ms + |m.substitution|, Some(Mismatch), 0)]
                    else [])), false)
  {
    if |m.substitution| == 0 {
      assert st.features + [] == st.features;
    }
  }

  /** Where the deletion's dashes go depends on the sequence only, not on movedStart. */
  lemma DeletionSpliceIgnoresMovedStart(st1: BufferState, st2: BufferState, selfId: Option<string>,
                                        own: Option<seq<Modification>>, m: Modification, isoformId: Option<string>)
    requires IsDeletion(m) && st1.sequence == st2.sequence
    ensures ApplyStep(st1, selfId, own, m, isoformId).state.sequence == ApplyStep(st2, selfId, own, m, isoformId).state.sequence
    ensures ApplyStep(st1, selfId, own, m, isoformId).thrown == ApplyStep(st2, selfId, own, m, isoformId).thrown
  {
  }

  /**
   * On the insertion path the declaring buffer's sequence never changes, and
   * a mismatch is appended exactly when the substitution is as long as the
   * declared span.
   */
  lemma InsertionOnDeclaringBuffer(st: BufferState, selfId: Option<string>, own: Option<seq<Modification>>,
                                   m: Modification)
    requires !IsDeletion(m) && selfId.Some?
    ensures var r := ApplyStep(st, selfId, own, m, selfId);
            var ms := MovedStart(st.features, m.begin);
            && r.state.sequence == st.sequence
            && !r.thrown
            && r.state.features == st.features
               + (if |m.substitution| == m.end - m.begin + 1
                  then [Feature(m.begin + ms, m.begin + |m.substitution| + ms, Some(Mismatch), 0)]
                  else [])
  {
    if |m.substitution| != m.end - m.begin + 1 {
      assert st.features + [] == st.features;
    }
  }

  /** A gap already containing the insertion on another buffer: nothing changes. */
  lemma InsertionAlreadyCovered(st: BufferState, selfId: Option<string>, own: Option<seq<Modification>>,
                                m: Modification, isoformId: Option<string>, i: nat)
    requires !IsDeletion(m) && selfId.Some? && selfId != isoformId
    requires i < |st.features| && IsGapType(st.features[i].kind)
    requires m.begin >= st.features[i].start && m.begin + |m.substitution| <= st.features[i].end
    ensures ApplyStep(st, selfId, own, m, isoformId) == Step(st, false)
  {
    assert Covers(st.features[i], m);
  }

  /**
   * Otherwise at most one feature is appended, typed "gap": the one for the
   * first own modification that the insertion overlaps at the end.
   */
  lemma InsertionAppendsEndOverlapGap(st: BufferState, selfId: Option<string>, own: seq<Modification>,
                                      m: Modification, isoformId: Option<string>)
    requires !IsDeletion(m) && selfId.Some? && selfId != isoformId && !CoveredByGap(st.features, m)
    ensures var r := ApplyStep(st, selfId, Some(own), m, isoformId);
            && |st.features| <= |r.state.features| <= |st.features| + 1
            && r.state.features[..|st.features|] == st.features
            && (|r.state.features| == |st.features| + 1 <==> exists j :: 0 <= j < |own| && EndOverlaps(own[j], m))
            && forall j :: 0 <= j < |own| && EndOverlaps(own[j], m)
                 && (forall j' :: 0 <= j' < j ==> !EndOverlaps(own[j'], m))
                 ==> r.state.features == st.features + [Feature(m.begin + |own[j].substitution|, RealEnd(m), Some(Gap), 0)]
  {
    var r := ApplyStep(st, selfId, Some(own), m, isoformId);
    match FirstEndOverlap(own, m)
    case None =>
    case Some(f) =>
      forall j | 0 <= j < |own| && EndOverlaps(own[j], m) && (forall j' :: 0 <= j' < j ==> !EndOverlaps(own[j'], m))
        ensures r.state.features == st.features + [Feature(m.begin + |own[j].substitution|, RealEnd(m), Some(Gap), 0)]
      {
        assert !(f < j) && !(j < f);
      }
  }

  /** No "gapI" feature is ever recorded (the net-growth gap is built but not added). */
  lemma NoInsertionGapRecorded(st: BufferState, selfId: Option<string>, own: Option<seq<Modification>>,
                               m: Modification, isoformId: Option<string>)
    ensures var r := ApplyStep(st, selfId, own, m, isoformId);
            && st.features <= r.state.features
            && (forall i :: |st.features| <= i < |r.state.features| ==>
                  r.state.features[i].kind in {Some(Mismatch), Some(GapDeletion), Some(Gap)})
            && forall i :: |st.features| <= i < |r.state.features| ==> r.state.features[i].kind != Some(GapInsertion)
  {
    if selfId.Some? && selfId != isoformId {
      if IsDeletion(m) {
        DeletionInOtherAppends(st, m, MovedStart(st.features, m.begin));
      } else if !CoveredByGap(st.features, m) {
        InsertionInOtherAppends(st, own, m);
      }
    }
  }

  /** On another isoform's buffer a deletion appends a mismatch and a gapD feature at most. */
  lemma DeletionInOtherAppends(st: BufferState, m: Modification, ms: int)
    requires IsDeletion(m)
    ensures var f := DeletionInOther(st, m, ms).state.features;
            && st.features <= f
            && forall i :: |st.features| <= i < |f| ==> f[i].kind == Some(Mismatch) || f[i].kind == Some(GapDeletion)
  {
    var sub := |m.substitution|;
    var mismatch := if sub > 0 then [Feature(m.begin + ms, m.begin + ms + sub, Some(Mismatch), 0)] else [];
    var k := m.begin + sub - 1;
    var f := DeletionInOther(st, m, ms).state.features;
    if 0 <= k <= |st.sequence| {
      assert f == st.features + (mismatch + [Feature(m.begin + ms + sub, m.GetEnd() + ms, Some(GapDeletion), 0)]);
    } else {
      assert f == st.features + mismatch;
    }
  }

  /** On another isoform's buffer an insertion appends one "gap" feature at most. */
  lemma InsertionInOtherAppends(st: BufferState, own: Option<seq<Modification>>, m: Modification)
    requires !IsDeletion(m)
    ensures var f := InsertionInOther(st, own, m).state.features;
            && st.features <= f
            && forall i :: |st.features| <= i < |f| ==> f[i].kind == Some(Gap)
  {
    var f := InsertionInOther(st, own, m).state.features;
    assert f == st.features + EndOverlapGap(own, m).Elements();
  }

  /**
   * Net growth on another isoform's buffer: getEnd() - begin + |substitution| - 1
   * dashes go in at begin - 1 and the rest of the sequence is kept; for a
   * well-formed edit (end >= begin) that is at least two dashes.
   */
  lemma InsertionNetGrowth(st: BufferState, selfId: Option<string>, own: Option<seq<Modification>>,
                           m: Modification, isoformId: Option<string>)
    requires selfId.Some? && selfId != isoformId && !CoveredByGap(st.features, m)
    requires |m.substitution| > m.GetEnd() - m.begin
    requires 1 <= m.begin && m.begin - 1 <= |st.sequence|
    requires m.end >= m.begin
    ensures var r := ApplyStep(st, selfId, own, m, isoformId);
            var n := m.GetEnd() - m.begin + |m.substitution| - 1;
            && !r.thrown
            && n >= 2
            && r.state.sequence == st.sequence[..m.begin - 1] + Dashes(n) + st.sequence[m.begin - 1..]
            && r.state.sequence[..m.begin - 1] + r.state.sequence[m.begin - 1 + n..] == st.sequence
  {
  }

  /** An equal-length substitution never changes another isoform's sequence. */
  lemma EqualLengthKeepsSequence(st: BufferState, selfId: Option<string>, own: Option<seq<Modification>>,
                                 m: Modification, isoformId: Option<string>)
    requires selfId.Some? && selfId != isoformId
    requires |m.substitution| == m.end - m.begin + 1
    ensures var r := ApplyStep(st, selfId, own, m, isoformId);
            r.state.sequence == st.sequence && !r.thrown
  {
  }
}
