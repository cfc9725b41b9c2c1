/** The enumerations and value types shared by every part of the polygon clipper. */
module ClipTypes {

  datatype ClipType = CtIntersection | CtUnion | CtDifference | CtXor

  datatype PolyType = PtSubject | PtClip {
    function Other(): PolyType {
      if this == PtSubject then PtClip else PtSubject
    }
  }

  datatype PolyFillType = PftEvenOdd | PftNonZero | PftPositive | PftNegative

  datatype EdgeSide = EsLeft | EsRight {
    function Opposite(): EdgeSide {
      if this == EsLeft then EsRight else EsLeft
    }
  }

  /** Coordinates are exact integers; `Int128.dfy` bounds them where their width matters. */
  datatype IntPoint = IntPoint(X: int, Y: int)

  /** An edge that does not currently own a solution polygon. */
  const UNASSIGNED := -1

  function Abs(val: int): (r: int) {
    if val < 0 then -val else val
  }
}
