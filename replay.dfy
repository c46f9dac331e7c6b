/**
 * The order in which Isoforms.getAlignmentPos replays modifications: for
 * every isoform in list order, for every one of its modifications in list
 * order, every buffer in list order (the declaring isoform's own included).
 * An exception ends the whole replay. The order is stated once, for any
 * per-buffer step; AsWritten is the step of AlignedSequence.applyModification.
 */
module Replay {
  import opened Wrappers
  import opened SequenceFeatures
  import opened IsoformRecords
  import opened Alignment

  /** The buffers' states, and whether an exception ended the replay. */
  datatype Replayed = Replayed(states: seq<BufferState>, thrown: bool)

  /** What one buffer, owned by the given isoform, does with one modification declared by the given id. */
  type Stepper = (BufferState, IsoformRecord, Modification, Option<string>) -> Step

  /** AlignedSequence.applyModification as written. */
  const AsWritten: Stepper :=
    (st: BufferState, owner: IsoformRecord, m: Modification, isoformId: Option<string>) =>
      ApplyStep(st, owner.id, owner.modifications, m, isoformId)

  /**
   * `step` agrees with applyModification as written on every input; stated
   * for a step passed around as a ghost, so that it is expanded only where a
   * buffer's applyModification is called.
   */
  ghost predicate IsAsWritten(step: Stepper)
  {
    forall st, owner: IsoformRecord, m, isoformId {:trigger ApplyStep(st, owner.id, owner.modifications, m, isoformId)} ::
      step(st, owner, m, isoformId) == ApplyStep(st, owner.id, owner.modifications, m, isoformId)
  }

  lemma AsWrittenIsAsWritten()
    ensures IsAsWritten(AsWritten)
  {
  }

  /** Every isoform has a sequence (a null one makes the AlignedSequence constructor throw). */
  predicate HasSequences(recs: seq<IsoformRecord>)
  {
    forall b :: 0 <= b < |recs| ==> recs[b].sequence.Some?
  }

  /** One fresh buffer per isoform, in list order. */
  function Seeds(recs: seq<IsoformRecord>): (s: seq<BufferState>)
    requires HasSequences(recs)
    ensures |s| == |recs|
    ensures forall b :: 0 <= b < |recs| ==> s[b] == Seed(recs[b].sequence.value)
  {
    seq(|recs|, b requires 0 <= b < |recs| => Seed(recs[b].sequence.value))
  }

  /** Buffer b belongs to isoform b: apply m, declared by `isoformId`, to buffers 0 .. j-1. */
  function ApplyToBuffers(step: Stepper, states: seq<BufferState>, recs: seq<IsoformRecord>, m: Modification,
                          isoformId: Option<string>, j: nat): (r: Replayed)
    requires |states| == |recs| && j <= |states|
    ensures |r.states| == |states|
    ensures forall b :: j <= b < |states| ==> r.states[b] == states[b]
  {
    if j == 0 then Replayed(states, false)
    else
      var r := ApplyToBuffers(step, states, recs, m, isoformId, j - 1);
      if r.thrown then r
      else
        var s := step(r.states[j - 1], recs[j - 1], m, isoformId);
        Replayed(r.states[j - 1 := s.state], s.thrown)
  }

  /** The first t modifications of one isoform, each applied to every buffer. */
  function ReplayModifications(step: Stepper, states: seq<BufferState>, recs: seq<IsoformRecord>,
                               mods: seq<Modification>, isoformId: Option<string>, t: nat): (r: Replayed)
    requires |states| == |recs| && t <= |mods|
    ensures |r.states| == |states|
  {
    if t == 0 then Replayed(states, false)
    else
      var r := ReplayModifications(step, states, recs, mods, isoformId, t - 1);
      if r.thrown then r
      else ApplyToBuffers(step, r.states, recs, mods[t - 1], isoformId, |r.states|)
  }

  /** The first i isoforms' modifications; an isoform whose list is null is skipped. */
  function ReplayIsoforms(step: Stepper, states: seq<BufferState>, recs: seq<IsoformRecord>, i: nat): (r: Replayed)
    requires |states| == |recs| && i <= |recs|
    ensures |r.states| == |states|
  {
    if i == 0 then Replayed(states, false)
    else
      var r := ReplayIsoforms(step, states, recs, i - 1);
      if r.thrown || recs[i - 1].modifications.None? then r
      else
        var mods := recs[i - 1].modifications.value;
        ReplayModifications(step, r.states, recs, mods, recs[i - 1].id, |mods|)
  }

  /** The whole alignment with a given step: seed every buffer, then replay every isoform. */
  function AlignWith(step: Stepper, recs: seq<IsoformRecord>): (r: Replayed)
    requires HasSequences(recs)
    ensures |r.states| == |recs|
  {
    ReplayIsoforms(step, Seeds(recs), recs, |recs|)
  }

  /** getAlignmentPos as written. */
  function Align(recs: seq<IsoformRecord>): (r: Replayed)
    requires HasSequences(recs)
    ensures |r.states| == |recs|
  {
    AlignWith(AsWritten, recs)
  }

  // ---------------------------------------------------------------- one more step

  /** One more buffer of ApplyToBuffers, once the earlier ones have not thrown. */
  lemma ApplyToBuffersNext(step: Stepper, states: seq<BufferState>, recs: seq<IsoformRecord>, m: Modification,
                           isoformId: Option<string>, j: nat)
    requires |states| == |recs| && j < |states|
    requires !ApplyToBuffers(step, states, recs, m, isoformId, j).thrown
    ensures var r := ApplyToBuffers(step, states, recs, m, isoformId, j);
            var s := step(r.states[j], recs[j], m, isoformId);
            ApplyToBuffers(step, states, recs, m, isoformId, j + 1) == Replayed(r.states[j := s.state], s.thrown)
  {
  }

  /** One more isoform of the replay, once the earlier ones have not thrown. */
  lemma ReplayIsoformsNext(step: Stepper, states: seq<BufferState>, recs: seq<IsoformRecord>, i: nat)
    requires |states| == |recs| && i < |recs|
    requires !ReplayIsoforms(step, states, recs, i).thrown
    ensures recs[i].modifications.None? ==> ReplayIsoforms(step, states, recs, i + 1) == ReplayIsoforms(step, states, recs, i)
    ensures recs[i].modifications.Some? ==>
              var mods := recs[i].modifications.value;
              ReplayIsoforms(step, states, recs, i + 1)
              == ReplayModifications(step, ReplayIsoforms(step, states, recs, i).states, recs, mods, recs[i].id, |mods|)
  {
  }

  // ---------------------------------------------------------------- exceptions end the replay

  lemma {:induction false} ApplyToBuffersThrownPersists(step: Stepper, states: seq<BufferState>, recs: seq<IsoformRecord>,
                                                        m: Modification, isoformId: Option<string>, j: nat, j': nat)
    requires |states| == |recs| && j <= j' <= |states|
    requires ApplyToBuffers(step, states, recs, m, isoformId, j).thrown
    ensures ApplyToBuffers(step, states, recs, m, isoformId, j') == ApplyToBuffers(step, states, recs, m, isoformId, j)
    decreases j' - j
  {
    if j < j' {
      ApplyToBuffersThrownPersists(step, states, recs, m, isoformId, j, j' - 1);
    }
  }

  lemma {:induction false} ReplayModificationsThrownPersists(step: Stepper, states: seq<BufferState>, recs: seq<IsoformRecord>,
                                                             mods: seq<Modification>, isoformId: Option<string>, t: nat, t': nat)
    requires |states| == |recs| && t <= t' <= |mods|
    requires ReplayModifications(step, states, recs, mods, isoformId, t).thrown
    ensures ReplayModifications(step, states, recs, mods, isoformId, t') == ReplayModifications(step, states, recs, mods, isoformId, t)
    decreases t' - t
  {
    if t < t' {
      ReplayModificationsThrownPersists(step, states, recs, mods, isoformId, t, t' - 1);
    }
  }

  lemma {:induction false} ReplayIsoformsThrownPersists(step: Stepper, states: seq<BufferState>, recs: seq<IsoformRecord>,
                                                        i: nat, i': nat)
    requires |states| == |recs| && i <= i' <= |recs|
    requires ReplayIsoforms(step, states, recs, i).thrown
    ensures ReplayIsoforms(step, states, recs, i') == ReplayIsoforms(step, states, recs, i)
    decreases i' - i
  {
    if i < i' {
      ReplayIsoformsThrownPersists(step, states, recs, i, i' - 1);
    }
  }

  // ---------------------------------------------------------------- what the replay keeps

  /** Every buffer of `after` extends the same buffer of `before`. */
  predicate AllExtend(before: seq<BufferState>, after: seq<BufferState>)
  {
    |before| == |after| && forall b :: 0 <= b < |before| ==> Extends(before[b], after[b])
  }

  lemma AllExtendTransitive(a: seq<BufferState>, b: seq<BufferState>, c: seq<BufferState>)
    requires AllExtend(a, b) && AllExtend(b, c)
    ensures AllExtend(a, c)
  {
    forall k | 0 <= k < |a|
      ensures Extends(a[k], c[k])
    {
      ExtendsTransitive(a[k], b[k], c[k]);
    }
  }

  /** A step that only splices in gaps and appends features, whatever it is given. */
  ghost predicate StepExtends(step: Stepper)
  {
    forall st, owner, m, isoformId :: Extends(st, step(st, owner, m, isoformId).state)
  }

  /** The step as written is one (ApplyStepExtends). */
  lemma AsWrittenExtends()
    ensures StepExtends(AsWritten)
  {
    forall st, owner, m, isoformId
      ensures Extends(st, AsWritten(st, owner, m, isoformId).state)
    {
      ApplyStepExtends(st, owner.id, owner.modifications, m, isoformId);
    }
  }

  lemma {:induction false} ApplyToBuffersExtends(step: Stepper, states: seq<BufferState>, recs: seq<IsoformRecord>,
                                                 m: Modification, isoformId: Option<string>, j: nat)
    requires StepExtends(step)
    requires |states| == |recs| && j <= |states|
    ensures AllExtend(states, ApplyToBuffers(step, states, recs, m, isoformId, j).states)
  {
    if j == 0 {
      AllExtendTransitive(states, states, states);
    } else {
      var r := ApplyToBuffers(step, states, recs, m, isoformId, j - 1);
      ApplyToBuffersExtends(step, states, recs, m, isoformId, j - 1);
      if !r.thrown {
        var s := step(r.states[j - 1], recs[j - 1], m, isoformId);
        assert Extends(r.states[j - 1], s.state);
        AllExtendTransitive(states, r.states, r.states[j - 1 := s.state]);
      }
    }
  }

  lemma {:induction false} ReplayModificationsExtends(step: Stepper, states: seq<BufferState>, recs: seq<IsoformRecord>,
                                                      mods: seq<Modification>, isoformId: Option<string>, t: nat)
    requires StepExtends(step)
    requires |states| == |recs| && t <= |mods|
    ensures AllExtend(states, ReplayModifications(step, states, recs, mods, isoformId, t).states)
  {
    if t == 0 {
      AllExtendTransitive(states, states, states);
    } else {
      var r := ReplayModifications(step, states, recs, mods, isoformId, t - 1);
      ReplayModificationsExtends(step, states, recs, mods, isoformId, t - 1);
      if !r.thrown {
        ApplyToBuffersExtends(step, r.states, recs, mods[t - 1], isoformId, |r.states|);
        AllExtendTransitive(states, r.states, ApplyToBuffers(step, r.states, recs, mods[t - 1], isoformId, |r.states|).states);
      }
    }
  }

  lemma {:induction false} ReplayIsoformsExtends(step: Stepper, states: seq<BufferState>, recs: seq<IsoformRecord>, i: nat)
    requires StepExtends(step)
    requires |states| == |recs| && i <= |recs|
    ensures AllExtend(states, ReplayIsoforms(step, states, recs, i).states)
  {
    if i == 0 {
      AllExtendTransitive(states, states, states);
    } else {
      var r := ReplayIsoforms(step, states, recs, i - 1);
      ReplayIsoformsExtends(step, states, recs, i - 1);
      if !r.thrown && recs[i - 1].modifications.Some? {
        var mods := recs[i - 1].modifications.value;
        ReplayModificationsExtends(step, r.states, recs, mods, recs[i - 1].id, |mods|);
        AllExtendTransitive(states, r.states, ReplayModifications(step, r.states, recs, mods, recs[i - 1].id, |mods|).states);
      }
    }
  }

  /**
   * One buffer per isoform, in input order; each starts with the feature
   * [1, |sequence|] of type null, is at least as long as its isoform's
   * sequence, and holds exactly that sequence's residues once the gaps are
   * removed.
   */
  lemma AlignKeepsEveryIsoform(recs: seq<IsoformRecord>)
    requires HasSequences(recs)
    ensures var r := Align(recs);
            && |r.states| == |recs|
            && forall b :: 0 <= b < |recs| ==>
                 var s := recs[b].sequence.value;
                 && |r.states[b].sequence| >= |s|
                 && Residues(r.states[b].sequence) == Residues(s)
                 && |r.states[b].features| >= 1
                 && r.states[b].features[0] == SeedFeature(s)
  {
    AsWrittenExtends();
    ReplayIsoformsExtends(AsWritten, Seeds(recs), recs, |recs|);
  }

  /** With no modification lists at all, the result is the seeds themselves. */
  lemma {:induction false} NoModificationsNoChange(step: Stepper, states: seq<BufferState>, recs: seq<IsoformRecord>, i: nat)
    requires |states| == |recs| && i <= |recs|
    requires forall b :: 0 <= b < |recs| ==> recs[b].modifications.None?
    ensures ReplayIsoforms(step, states, recs, i) == Replayed(states, false)
  {
    if i > 0 {
      NoModificationsNoChange(step, states, recs, i - 1);
    }
  }
}
