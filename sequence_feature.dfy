/** SequenceFeature.java: a typed interval stamped onto an aligned sequence. */
module SequenceFeatures {
  import opened Wrappers
  import Modifications

  const Int32Modulus: int := 0x1_0000_0000
  const Int32Min: int := -0x8000_0000

  /** Java `int` arithmetic: the value reduced into [-2^31, 2^31). */
  function Wrap32(x: int): (r: int)
    ensures Int32Min <= r < Int32Min + Int32Modulus
    ensures (x - r) % Int32Modulus == 0
  {
    (x - Int32Min) % Int32Modulus + Int32Min
  }

  /** `String.hashCode`: h = 31 * h + c over the characters, in `int` arithmetic. */
  function StringHash(s: string): (h: int)
    ensures Int32Min <= h < Int32Min + Int32Modulus
  {
    if s == [] then 0 else Wrap32(31 * StringHash(s[..|s| - 1]) + s[|s| - 1] as int)
  }

  /** `Objects.hashCode`: 0 for null. */
  function TypeHash(kind: Option<string>): int
  {
    match kind
    case None => 0
    case Some(s) => StringHash(s)
  }

  /**
   * The value of a feature: start and end are buffer positions, `kind` is the
   * `type` field (null for the initial whole-sequence feature).
   */
  datatype Feature = Feature(start: int, end: int, kind: Option<string>, movedStart: int) {

    /** Inclusive length. */
    function Length(): int
    {
      end - start + 1
    }

    /** Structural equality on start, end and type; movedStart is not compared. */
    predicate Equals(other: Option<Feature>)
    {
      other.Some? && start == other.value.start && end == other.value.end && kind == other.value.kind
    }

    /** 7, then 29 * hash + field for start, end and the type's hash, in `int` arithmetic. */
    function HashCode(): (h: int)
      ensures Int32Min <= h < Int32Min + Int32Modulus
    {
      var h0 := 7;
      var h1 := Wrap32(29 * h0 + start);
      var h2 := Wrap32(29 * h1 + end);
      Wrap32(29 * h2 + TypeHash(kind))
    }
  }

  /** `equals` is an equivalence relation and never equal to null. */
  lemma EqualsIsEquivalence(a: Feature, b: Feature, c: Feature)
    ensures a.Equals(Some(a))
    ensures a.Equals(Some(b)) ==> b.Equals(Some(a))
    ensures a.Equals(Some(b)) && b.Equals(Some(c)) ==> a.Equals(Some(c))
    ensures !a.Equals(None)
  {
  }

  /** movedStart plays no part in equality. */
  lemma EqualsIgnoresMovedStart(f: Feature, movedStart: int)
    ensures f.Equals(Some(f.(movedStart := movedStart)))
    ensures f.(movedStart := movedStart).HashCode() == f.HashCode()
  {
  }

  /** Features that are equal have equal hash codes. */
  lemma EqualFeaturesHashEqually(a: Feature, b: Feature)
    requires a.Equals(Some(b))
    ensures a.HashCode() == b.HashCode()
  {
  }

  /** The mutable bean behind a feature. */
  class SequenceFeature {
    var start: int
    var end: int
    var kind: Option<string>
    var movedStart: int

    function Value(): Feature
      reads this
    {
      Feature(start, end, kind, movedStart)
    }

    constructor ()
      ensures Value() == Feature(0, 0, None, 0)
    {
      start := 0;
      end := 0;
      kind := None;
      movedStart := 0;
    }

    /**
     * Shifts both ends of a modification by movedStart. The parameter shadows
     * the field, which therefore stays 0; the length is the modification's.
     */
    constructor FromModification(modToApply: Modifications.Modification, movedStart: int)
      ensures start == modToApply.begin + movedStart
      ensures end == modToApply.GetEnd() + movedStart
      ensures kind == None && this.movedStart == 0
      ensures GetLength() == modToApply.GetLength()
    {
      start := modToApply.begin + movedStart;
      end := modToApply.GetEnd() + movedStart;
      kind := None;
      this.movedStart := 0;
    }

    function GetLength(): int
      reads this
    {
      Value().Length()
    }

    predicate Equals(other: SequenceFeature?)
      reads this, other
    {
      Value().Equals(if other == null then None else Some(other.Value()))
    }

    function HashCode(): int
      reads this
    {
      Value().HashCode()
    }

    method SetStart(start: int)
      modifies this
      ensures Value() == old(Value()).(start := start)
    {
      this.start := start;
    }

    method SetEnd(end: int)
      modifies this
      ensures Value() == old(Value()).(end := end)
    {
      this.end := end;
    }

    method SetType(kind: Option<string>)
      modifies this
      ensures Value() == old(Value()).(kind := kind)
    {
      this.kind := kind;
    }

    method SetMovedStart(movedStart: int)
      modifies this
      ensures Value() == old(Value()).(movedStart := movedStart)
    {
      this.movedStart := movedStart;
    }
  }
}
