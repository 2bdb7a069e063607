/** The frame splitter: one captured frame is cut at its integer midline into a
    left half and a right half, which are then handed to the detector separately. */
module FrameSplit {

  /** One pixel as the camera delivers it: three 8-bit channels in BGR order. */
  datatype Pixel = Bgr(blue: bv8, green: bv8, red: bv8)

  /** One column of pixels, top to bottom. */
  type Column = seq<Pixel>

  /** A captured frame, held as its columns from left to right, so that the
      image column `c` (`frame[:, c]`) is `columns[c]`.  The frame's height plays
      no part in the split and is not tracked. */
  datatype Frame = Frame(columns: seq<Column>) {
    function Width(): nat { |columns| }
  }

  /** A half-open range `[lo, hi)` of column indices. */
  datatype Span = Span(lo: nat, hi: nat) {
    predicate Contains(c: int) { lo <= c < hi }
    function Width(): int { hi - lo }
  }

  /** `mid = w // 2`: the column where the right half starts. */
  function Midline(w: nat): (mid: nat)
    ensures mid <= w
    ensures mid <= w - mid <= mid + 1
  {
    w / 2
  }

  /** The two column ranges of a frame of width `w`: `[0, mid)` and `[mid, w)`.
      They are disjoint, together they cover `[0, w)`, and the right one is
      never narrower than the left one and at most one column wider. */
  function SplitSpans(w: nat): (halves: (Span, Span))
    ensures halves.0.lo == 0 && halves.0.hi == halves.1.lo && halves.1.hi == w
    ensures halves.0.Width() <= halves.1.Width() <= halves.0.Width() + 1
    ensures forall c :: 0 <= c < w <==> halves.0.Contains(c) || halves.1.Contains(c)
    ensures forall c :: !(halves.0.Contains(c) && halves.1.Contains(c))
  {
    var mid := Midline(w);
    (Span(0, mid), Span(mid, w))
  }

  /** The sub-image made of the columns in `s` (`frame[:, s.lo:s.hi]`). */
  function Columns(f: Frame, s: Span): (part: Frame)
    requires s.lo <= s.hi <= f.Width()
    ensures part.Width() == s.Width()
    ensures forall c :: 0 <= c < part.Width() ==> part.columns[c] == f.columns[s.lo + c]
  {
    Frame(f.columns[s.lo..s.hi])
  }

  /** `(frame[:, :mid], frame[:, mid:])`: putting the left half's columns
      before the right half's gives back the whole frame, and the right half
      is the same width as the left one or one column wider. */
  function SplitFrame(f: Frame): (halves: (Frame, Frame))
    ensures halves.0.columns + halves.1.columns == f.columns
    ensures halves.0.Width() <= halves.1.Width() <= halves.0.Width() + 1
  {
    var (left, right) := SplitSpans(f.Width());
    (Columns(f, left), Columns(f, right))
  }
}
