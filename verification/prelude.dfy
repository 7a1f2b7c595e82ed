/** Small shared vocabulary: optional values, integer vectors and the C++ integer operators. */
module Prelude {

  /** Stands in for a nullable pointer or an absent map entry. */
  datatype Option<T> = None | Some(value: T)

  /** The result of an operation that may write an error line to the log instead of failing. */
  datatype Logged<T> = Logged(value: T, errorLogged: bool)

  /** A world-space point or offset; the engine's float vectors are modelled on integer coordinates. */
  datatype Vec = Vec(x: int, y: int, z: int)

  const Origin: Vec := Vec(0, 0, 0)

  function Plus(a: Vec, b: Vec): Vec {
    Vec(a.x + b.x, a.y + b.y, a.z + b.z)
  }

  lemma SquareZero(d: int)
    ensures d * d >= 0
    ensures d * d == 0 <==> d == 0
  {
    if d < 0 {
      assert d * d == (-d) * (-d);
    }
  }

  /** Squared euclidean distance, as FVector::DistSquared computes it; zero exactly on the same point. */
  function DistSquared(a: Vec, b: Vec): (r: nat)
    ensures r == 0 <==> a == b
  {
    var dx, dy, dz := a.x - b.x, a.y - b.y, a.z - b.z;
    SquareZero(dx);
    SquareZero(dy);
    SquareZero(dz);
    dx * dx + dy * dy + dz * dz
  }

  /** C++ `/` on int: truncates toward zero. */
  function CppDiv(a: int, b: int): int
    requires b > 0
  {
    if a >= 0 then a / b else -((-a) / b)
  }

  /** C++ `%` on int: the remainder takes the sign of the dividend. */
  function CppRem(a: int, b: int): int
    requires b > 0
  {
    a - CppDiv(a, b) * b
  }
}
