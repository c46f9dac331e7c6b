/** Modification.java: the top-level edit record, whose end is inclusive. */
module Modifications {
  import opened Wrappers

  class Modification {
    var substitution: Option<string>
    var begin: int
    var end: int
    var id: Option<string>

    /** Java's field defaults: null strings and zero coordinates. */
    constructor ()
      ensures substitution == None && id == None
      ensures begin == 0 && end == 0
    {
      substitution := None;
      begin := 0;
      end := 0;
      id := None;
    }

    /** Number of positions in the inclusive range [begin, end]. */
    function GetLength(): int
      reads this
    {
      end - begin + 1
    }

    /** The stored end, unchanged (unlike the inner Isoforms.Modification). */
    function GetEnd(): int
      reads this
    {
      end
    }

    method SetSubstitution(substitution: Option<string>)
      modifies this
      ensures this.substitution == substitution
      ensures begin == old(begin) && end == old(end) && id == old(id)
    {
      this.substitution := substitution;
    }

    method SetBegin(begin: int)
      modifies this
      ensures this.begin == begin
      ensures substitution == old(substitution) && end == old(end) && id == old(id)
      ensures GetLength() == old(GetLength()) - (begin - old(this.begin))
    {
      this.begin := begin;
    }

    method SetEnd(end: int)
      modifies this
      ensures GetEnd() == end
      ensures substitution == old(substitution) && begin == old(begin) && id == old(id)
      ensures GetLength() == end - begin + 1
    {
      this.end := end;
    }

    method SetId(id: Option<string>)
      modifies this
      ensures this.id == id
      ensures substitution == old(substitution) && begin == old(begin) && end == old(end)
    {
      this.id := id;
    }
  }
}
