/** Small shared vocabulary: optional values, success-or-error results, the
    editor's integer point type, and integer division as C# performs it. */
module Common {

  /** A value that may be absent; stands in for a C# null reference. */
  datatype Option<+T> = None | Some(value: T)

  /** Either a value or the error (a C# exception) that aborted the computation. */
  datatype Result<+T, +E> = Success(value: T) | Failure(error: E)

  /** The .NET exceptions the modelled code can raise by dereferencing a
      null reference or indexing an array out of its bounds. */
  datatype Exception = NullReference | IndexOutOfRange

  /** BridgeDirection; `NoDirection` is the source's BridgeDirection.None. */
  datatype BridgeDirection = NoDirection | EastWest | NorthSouth

  /** The fields of an overlay type that the renderer and the sidebar read;
      `editorCategory` is None when unset (null). */
  datatype OverlayType = OverlayType(name: string, iniName: string, editorCategory: Option<string>,
                                     highBridgeDirection: BridgeDirection)

  /** A pair of integer coordinates (cell coordinates or screen pixels), as Point2D. */
  datatype Point = Point(x: int, y: int) {
    /** Component-wise addition, Point2D's `+` operator. */
    function Plus(other: Point): Point {
      Point(x + other.x, y + other.y)
    }
  }

  /** C# integer division: the quotient is truncated toward zero, so for a
      negative dividend it differs from Dafny's Euclidean `/`. */
  function CsDiv(a: int, b: int): (q: int)
    requires b > 0
    ensures a >= 0 ==> 0 <= a - q * b < b
    ensures a < 0 ==> -b < a - q * b <= 0
  {
    if a >= 0 then a / b else -((-a) / b)
  }

  /** C# `%`: the remainder left by the truncating quotient; it carries the sign of the dividend. */
  function CsRem(a: int, b: int): (r: int)
    requires b > 0
    ensures a == CsDiv(a, b) * b + r
    ensures -b < r < b
    ensures a >= 0 ==> r >= 0
    ensures a <= 0 ==> r <= 0
  {
    a - CsDiv(a, b) * b
  }

  /** A positive multiple of a positive number is at least that number. */
  lemma MulAtLeast(k: int, b: int)
    requires k >= 1 && b > 0
    ensures k * b >= b
  {
  }

  /** Euclidean division of naturals is monotone in the dividend. */
  lemma NatDivMonotone(x: int, x': int, b: int)
    requires b > 0
    requires 0 <= x <= x'
    ensures x / b <= x' / b
  {
    var k := x / b - x' / b;
    if k >= 1 {
      MulAtLeast(k, b);
      assert false;
    }
  }

  /** Truncating division never decreases when the dividend grows. */
  lemma CsDivMonotone(a: int, a': int, b: int)
    requires b > 0
    requires a <= a'
    ensures CsDiv(a, b) <= CsDiv(a', b)
  {
    if a >= 0 {
      NatDivMonotone(a, a', b);
    } else if a' < 0 {
      NatDivMonotone(-a', -a, b);
      assert CsDiv(a, b) == -((-a) / b) && CsDiv(a', b) == -((-a') / b);
    } else {
      NatDivMonotone(0, -a, b);
      NatDivMonotone(0, a', b);
      assert CsDiv(a, b) == -((-a) / b) && CsDiv(a', b) == a' / b;
    }
  }
}
