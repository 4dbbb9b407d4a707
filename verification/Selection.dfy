/** The mouse selection of st.c, in coordinates relative to the rows shown (row y of TLINE). */
module Selection {

  datatype Sel = Sel(obx: int, oby: int, oex: int, oey: int, nbx: int, nby: int, nex: int, ney: int,
                     empty: bool, rectangular: bool, alt: bool) {

    predicate Active() {
      obx != -1
    }

    function Remove(): Sel {
      this.(obx := -1)
    }

    /** selmove */
    function Move(n: int): Sel {
      this.(oby := oby + n, oey := oey + n, nby := nby + n, ney := ney + n)
    }

    /** selscroll, with the scrolled region [top, bot] already made relative to the rows shown */
    function Scroll(top: int, bot: int, n: int): Sel {
      if (top <= nby <= bot) != (top <= ney <= bot) then (if Active() then Remove() else this)
      else if top <= nby <= bot then
        var s := Move(n);
        if s.nby < top || s.ney > bot then (if s.Active() then s.Remove() else s) else s
      else this
    }

    /** regionselected, on the main screen */
    predicate Touches(x1: int, y1: int, x2: int, y2: int) {
      && Active() && !empty && !alt && nby <= y2 && ney >= y1
      && if rectangular then nbx <= x2 && nex >= x1
         else (nby != y2 || nbx <= x2) && (ney != y1 || nex >= x1)
    }
  }
}
