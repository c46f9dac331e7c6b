/**
 * Isoforms.java: the alignment driver and the small helpers around it.
 * Fetching and parsing the RDF document are not part of this model: the
 * parsed isoform records are the driver's inputs.
 */
module Isoforms {
  import opened Wrappers
  import opened IsoformRecords
  import opened Alignment
  import opened AlignedSequences
  import opened Replay

  /** What the driver reads of each isoform object. */
  function Records(isoforms: seq<Isoform>): (recs: seq<IsoformRecord>)
    reads isoforms
    ensures |recs| == |isoforms|
    ensures forall b :: 0 <= b < |isoforms| ==> recs[b] == isoforms[b].Record()
  {
    if isoforms == [] then [] else Records(isoforms[..|isoforms| - 1]) + [isoforms[|isoforms| - 1].Record()]
  }

  predicate Distinct(sequences: seq<AlignedSequence>)
  {
    forall a, b :: 0 <= a < b < |sequences| ==> sequences[a] != sequences[b]
  }

  /** getIsoforms: the canonical isoform first, then the modified ones. */
  function IsoformList(canonical: Isoform, modified: seq<Isoform>): (isoforms: seq<Isoform>)
    ensures |isoforms| == 1 + |modified|
    ensures isoforms[0] == canonical && isoforms[1..] == modified
  {
    [canonical] + modified
  }

  /** The buffers of getAlignmentPos: buffer k belongs to isoform k. */
  predicate Owned(sequences: seq<AlignedSequence>, recs: seq<IsoformRecord>)
  {
    && |sequences| == |recs|
    && Distinct(sequences)
    && forall k :: 0 <= k < |recs| ==> sequences[k].id == recs[k].id && sequences[k].ownModifications == recs[k].modifications
  }

  /** Buffer k is in state k. */
  predicate Holds(sequences: seq<AlignedSequence>, states: seq<BufferState>)
    reads sequences
  {
    |sequences| == |states| && forall k :: 0 <= k < |sequences| ==> sequences[k].State() == states[k]
  }

  /**
   * getAlignmentPos: one buffer per isoform, seeded in list order, then every
   * isoform's modifications replayed against every buffer in the order of
   * Replay.Align. `thrown` says that the Java code throws instead.
   */
  method GetAlignmentPos(canonical: Isoform, modified: seq<Isoform>) returns (sequences: seq<AlignedSequence>, thrown: bool)
    ensures var recs := Records(IsoformList(canonical, modified));
            && (!HasSequences(recs) ==> thrown)
            && (HasSequences(recs) ==> thrown == Align(recs).thrown)
            && (!thrown ==> && Owned(sequences, recs)
                            && Holds(sequences, Align(recs).states)
                            && forall b :: 0 <= b < |sequences| ==> fresh(sequences[b]))
  {
    var isoforms := IsoformList(canonical, modified);
    var recs := Records(isoforms);
    sequences, thrown := SeedBuffers(isoforms);
    if thrown {
      assert Records(IsoformList(canonical, modified)) == recs;
      return;
    }
    AsWrittenIsAsWritten();
    thrown := ReplayIsoformsOf(sequences, recs, Seeds(recs), AsWritten);
    assert Records(IsoformList(canonical, modified)) == recs;
  }

  /** The first loop of getAlignmentPos: a fresh buffer per isoform, or a throw at the first null sequence. */
  method SeedBuffers(isoforms: seq<Isoform>) returns (sequences: seq<AlignedSequence>, thrown: bool)
    ensures thrown <==> !HasSequences(Records(isoforms))
    ensures !thrown ==> && Owned(sequences, Records(isoforms))
                        && Holds(sequences, Seeds(Records(isoforms)))
                        && forall k :: 0 <= k < |sequences| ==> fresh(sequences[k])
  {
    ghost var recs := Records(isoforms);
    sequences := [];
    for b := 0 to |isoforms|
      invariant |sequences| == b
      invariant forall k :: 0 <= k < b ==> recs[k].sequence.Some?
      invariant forall k :: 0 <= k < b ==> fresh(sequences[k])
      invariant forall k :: 0 <= k < b ==> sequences[k].id == recs[k].id && sequences[k].ownModifications == recs[k].modifications
      invariant forall k :: 0 <= k < b ==> sequences[k].State() == Seed(recs[k].sequence.value)
      invariant Distinct(sequences)
    {
      if isoforms[b].sequence.None? {
        return [], true;  // sequence.length() on null in the constructor
      }
      var aligned := new AlignedSequence(isoforms[b].sequence.value, isoforms[b].Record());
      sequences := sequences + [aligned];
    }
    thrown := false;
  }

  /** The outer loop of getAlignmentPos: every isoform's modifications, in list order. */
  method ReplayIsoformsOf(sequences: seq<AlignedSequence>, recs: seq<IsoformRecord>, ghost seeds: seq<BufferState>,
                          ghost step: Stepper) returns (thrown: bool)
    requires IsAsWritten(step) && Owned(sequences, recs) && Holds(sequences, seeds)
    modifies sequences
    ensures var r := ReplayIsoforms(step, seeds, recs, |recs|);
            thrown == r.thrown && Holds(sequences, r.states)
  {
    thrown := false;
    for i := 0 to |recs|
      invariant !ReplayIsoforms(step, seeds, recs, i).thrown
      invariant Holds(sequences, ReplayIsoforms(step, seeds, recs, i).states)
    {
      thrown := ReplayIsoform(sequences, recs[i].modifications, recs[i].id, recs, seeds, i, step);
      if thrown {
        // the exception leaves getAlignmentPos
        ReplayIsoformsThrownPersists(step, seeds, recs, i + 1, |recs|);
        return;
      }
    }
  }

  /** The body of the outer loop: isoform i's modifications, none when its list is null. */
  method ReplayIsoform(sequences: seq<AlignedSequence>, modifications: Option<seq<Modification>>, isoformId: Option<string>,
                       ghost recs: seq<IsoformRecord>, ghost seeds: seq<BufferState>, ghost i: nat, ghost step: Stepper)
    returns (thrown: bool)
    requires IsAsWritten(step) && Owned(sequences, recs) && |seeds| == |recs| && i < |recs|
    requires recs[i].modifications == modifications && recs[i].id == isoformId
    requires !ReplayIsoforms(step, seeds, recs, i).thrown
    requires Holds(sequences, ReplayIsoforms(step, seeds, recs, i).states)
    modifies sequences
    ensures var r := ReplayIsoforms(step, seeds, recs, i + 1);
            thrown == r.thrown && Holds(sequences, r.states)
  {
    ReplayIsoformsNext(step, seeds, recs, i);
    thrown := false;
    if modifications.Some? {
      thrown := ReplayModificationsOf(sequences, modifications.value, isoformId, recs,
                                      ReplayIsoforms(step, seeds, recs, i).states, step);
    }
  }

  /** The middle loop of getAlignmentPos: one isoform's modifications, in list order. */
  method ReplayModificationsOf(sequences: seq<AlignedSequence>, mods: seq<Modification>, isoformId: Option<string>,
                               ghost recs: seq<IsoformRecord>, ghost before: seq<BufferState>, ghost step: Stepper)
    returns (thrown: bool)
    requires IsAsWritten(step) && Owned(sequences, recs) && Holds(sequences, before)
    modifies sequences
    ensures var r := ReplayModifications(step, before, recs, mods, isoformId, |mods|);
            thrown == r.thrown && Holds(sequences, r.states)
  {
    thrown := false;
    for t := 0 to |mods|
      invariant !ReplayModifications(step, before, recs, mods, isoformId, t).thrown
      invariant Holds(sequences, ReplayModifications(step, before, recs, mods, isoformId, t).states)
    {
      thrown := ApplyToEveryBuffer(sequences, mods[t], isoformId, recs,
                                   ReplayModifications(step, before, recs, mods, isoformId, t).states, step);
      if thrown {
        ReplayModificationsThrownPersists(step, before, recs, mods, isoformId, t + 1, |mods|);
        return;
      }
    }
  }

  /** The innermost loop of getAlignmentPos: one modification, every buffer in list order. */
  method ApplyToEveryBuffer(sequences: seq<AlignedSequence>, m: Modification, isoformId: Option<string>,
                            ghost recs: seq<IsoformRecord>, ghost before: seq<BufferState>, ghost step: Stepper)
    returns (thrown: bool)
    requires IsAsWritten(step) && Owned(sequences, recs) && Holds(sequences, before)
    modifies sequences
    ensures var r := ApplyToBuffers(step, before, recs, m, isoformId, |sequences|);
            thrown == r.thrown && Holds(sequences, r.states)
  {
    thrown := false;
    for j := 0 to |sequences|
      invariant !ApplyToBuffers(step, before, recs, m, isoformId, j).thrown
      invariant Holds(sequences, ApplyToBuffers(step, before, recs, m, isoformId, j).states)
    {
      thrown := ApplyToBuffer(sequences, j, m, isoformId, recs, before, step);
      if thrown {
        ApplyToBuffersThrownPersists(step, before, recs, m, isoformId, j + 1, |sequences|);
        return;
      }
    }
  }

  /** The body of the innermost loop: buffer j takes the modification, the others are untouched. */
  method ApplyToBuffer(sequences: seq<AlignedSequence>, j: nat, m: Modification, isoformId: Option<string>,
                       ghost recs: seq<IsoformRecord>, ghost before: seq<BufferState>, ghost step: Stepper)
    returns (thrown: bool)
    requires IsAsWritten(step) && Owned(sequences, recs) && |before| == |recs| && j < |sequences|
    requires !ApplyToBuffers(step, before, recs, m, isoformId, j).thrown
    requires Holds(sequences, ApplyToBuffers(step, before, recs, m, isoformId, j).states)
    modifies sequences[j]
    ensures var r := ApplyToBuffers(step, before, recs, m, isoformId, j + 1);
            thrown == r.thrown && Holds(sequences, r.states)
  {
    ghost var was := ApplyToBuffers(step, before, recs, m, isoformId, j).states;
    var aligned := sequences[j];
    ApplyToBuffersNext(step, before, recs, m, isoformId, j);
    assert step(was[j], recs[j], m, isoformId) == ApplyStep(was[j], recs[j].id, recs[j].modifications, m, isoformId);
    thrown := aligned.ApplyModification(m, isoformId);
  }

  /** getMaxSequenceLength: 0 for no sequences, otherwise the longest length. */
  method GetMaxSequenceLength(alignment: seq<AlignedSequence>) returns (maxLength: int)
    ensures |alignment| == 0 ==> maxLength == 0
    ensures forall b :: 0 <= b < |alignment| ==> |alignment[b].sequence| <= maxLength
    ensures |alignment| > 0 ==> exists b :: 0 <= b < |alignment| && maxLength == |alignment[b].sequence|
  {
    maxLength := 0;
    for i := 0 to |alignment|
      invariant maxLength >= 0
      invariant forall b :: 0 <= b < i ==> |alignment[b].sequence| <= maxLength
      invariant i > 0 ==> exists b :: 0 <= b < i && maxLength == |alignment[b].sequence|
      invariant i == 0 ==> maxLength == 0
    {
      maxLength := if |alignment[i].sequence| > maxLength then |alignment[i].sequence| else maxLength;
    }
  }

  /** lastIndexOf: the last index holding `c`, or -1. */
  function LastIndexOf(s: string, c: char): (r: int)
    ensures -1 <= r < |s|
    ensures r >= 0 ==> s[r] == c
    ensures forall i :: r < i < |s| ==> s[i] != c
  {
    if s == [] then -1
    else if s[|s| - 1] == c then |s| - 1
    else LastIndexOf(s[..|s| - 1], c)
  }

  /** An isoform's or modification's id: what follows the last '/' of its URI. */
  function IdFromUri(uri: string): (id: string)
    ensures forall i :: 0 <= i < |id| ==> id[i] != '/'
    ensures |id| <= |uri| && uri[|uri| - |id|..] == id
    ensures |id| < |uri| ==> uri[|uri| - |id| - 1] == '/'
    ensures (forall i :: 0 <= i < |uri| ==> uri[i] != '/') ==> id == uri
  {
    uri[LastIndexOf(uri, '/') + 1..]
  }
}
