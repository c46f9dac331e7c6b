/** Range.java: an interval whose ends start out unset. */
module Ranges {

  class Range {
    var begin: int
    var end: int

    /** Both ends start at -1, so a fresh range is not valid. */
    constructor ()
      ensures begin == -1 && end == -1
      ensures !IsValid()
    {
      begin := -1;
      end := -1;
    }

    method SetBegin(begin: int)
      modifies this
      ensures this.begin == begin && end == old(end)
      ensures GetLength() == end - begin
    {
      this.begin := begin;
    }

    method SetEnd(end: int)
      modifies this
      ensures this.end == end && begin == old(begin)
      ensures GetLength() == end - begin
      ensures IsValid() <==> begin > 0 && end > 0
    {
      this.end := end;
    }

    /** Valid exactly when both ends are positions (positive). */
    predicate IsValid()
      reads this
    {
      begin > 0 && end > 0
    }

    /** The length is exclusive of the end: no +1. */
    function GetLength(): int
      reads this
    {
      end - begin
    }
  }
}
