/** Rounding up to an alignment. */
module Alignment {
  import opened Powers

  /** x rounded up to a multiple of align. */
  function AlignUp(x: nat, align: nat): (start: nat)
    requires align > 0
    ensures x <= start < x + align && start % align == 0
  {
    var last := x + align - 1;
    DivMod(last, align);
    DivUnique(last - last % align, align, last / align, 0);
    last - last % align
  }
}
