/**
 * The inner classes Isoforms.Isoform and Isoforms.Modification, which the
 * alignment engine reads.
 */
module IsoformRecords {
  import opened Wrappers
  import Modifications

  /**
   * Isoforms.Modification. `end` is the stored (inclusive) end; GetEnd() is
   * exclusive, so every span the engine computes is half-open. The
   * substitution is a string, never null.
   */
  datatype Modification = Modification(substitution: string, begin: int, end: int, id: string) {

    function GetBegin(): int
    {
      begin
    }

    /** One past the stored end. */
    function GetEnd(): (e: int)
      ensures e > end && e - 1 == end
    {
      end + 1
    }
  }

  /**
   * For the same coordinates the inner record's exclusive span equals the
   * top-level record's inclusive length, and the two getEnd()s differ by one.
   */
  lemma ExclusiveSpanIsInclusiveLength(inner: Modification, outer: Modifications.Modification)
    requires inner.begin == outer.begin && inner.end == outer.end
    ensures inner.GetEnd() - inner.GetBegin() == outer.GetLength()
    ensures inner.GetEnd() == outer.GetEnd() + 1
  {
  }

  /** What the alignment reads of an isoform. */
  datatype IsoformRecord = IsoformRecord(id: Option<string>, sequence: Option<string>, modifications: Option<seq<Modification>>)

  /** Isoforms.Isoform. */
  class Isoform {
    var id: Option<string>
    var url: Option<string>
    var names: Option<seq<string>>
    var sequence: Option<string>
    var modifications: Option<seq<Modification>>

    function Record(): IsoformRecord
      reads this
    {
      IsoformRecord(id, sequence, modifications)
    }

    constructor ()
      ensures id == None && url == None && names == None
      ensures sequence == None && modifications == None
    {
      id := None;
      url := None;
      names := None;
      sequence := None;
      modifications := None;
    }

    /** Creates the list when it is null, then appends; nothing else changes. */
    method AddName(name: string)
      modifies this
      ensures names == Some(Entries(old(names)) + [name])
      ensures id == old(id) && url == old(url) && sequence == old(sequence)
      ensures modifications == old(modifications)
    {
      if names.None? {
        names := Some([]);
      }
      names := Some(names.value + [name]);
    }

    /** Creates the list when it is null, then appends; nothing else changes. */
    method AddModification(modification: Modification)
      modifies this
      ensures modifications == Some(Entries(old(modifications)) + [modification])
      ensures id == old(id) && url == old(url) && names == old(names)
      ensures sequence == old(sequence)
    {
      if modifications.None? {
        modifications := Some([]);
      }
      modifications := Some(modifications.value + [modification]);
    }

    method SetId(id: Option<string>)
      modifies this
      ensures this.id == id
      ensures url == old(url) && names == old(names) && sequence == old(sequence)
      ensures modifications == old(modifications)
    {
      this.id := id;
    }

    method SetUrl(url: Option<string>)
      modifies this
      ensures this.url == url
      ensures id == old(id) && names == old(names) && sequence == old(sequence)
      ensures modifications == old(modifications)
    {
      this.url := url;
    }

    method SetNames(names: Option<seq<string>>)
      modifies this
      ensures this.names == names
      ensures id == old(id) && url == old(url) && sequence == old(sequence)
      ensures modifications == old(modifications)
    {
      this.names := names;
    }

    method SetModifications(modifications: Option<seq<Modification>>)
      modifies this
      ensures this.modifications == modifications
      ensures id == old(id) && url == old(url) && names == old(names)
      ensures sequence == old(sequence)
    {
      this.modifications := modifications;
    }

    method SetSequence(sequence: Option<string>)
      modifies this
      ensures this.sequence == sequence
      ensures id == old(id) && url == old(url) && names == old(names)
      ensures modifications == old(modifications)
    {
      this.sequence := sequence;
    }
  }
}
