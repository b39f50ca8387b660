/** encode_normal: a direction vector to the (latitude, longitude) byte pair of a
    lightgrid record. */
module NormalCodec {
  import opened Numerics

  datatype Vec3 = Vec3(x: real, y: real, z: real)

  /** The squared length of a vector other than the zero vector is positive. */
  lemma PositiveSquaredLength(v: Vec3)
    requires v != Vec3(0.0, 0.0, 0.0)
    ensures 0.0 < v.x * v.x + v.y * v.y + v.z * v.z
  {
  }

  /** The length encode_normal computes is zero for the zero vector and positive otherwise. */
  lemma LengthSign(v: Vec3, m: Maths)
    requires SqrtExact(m)
    ensures v == Vec3(0.0, 0.0, 0.0) ==> m.sqrt(v.x * v.x + v.y * v.y + v.z * v.z) == 0.0
    ensures v != Vec3(0.0, 0.0, 0.0) ==> 0.0 < m.sqrt(v.x * v.x + v.y * v.y + v.z * v.z)
  {
    if v != Vec3(0.0, 0.0, 0.0) {
      PositiveSquaredLength(v);
    }
  }

  /** Dividing by a positive length keeps each component's sign. */
  lemma QuotientSigns(v: Vec3, l: real)
    requires 0.0 < l
    ensures v.x / l == 0.0 <==> v.x == 0.0
    ensures v.y / l == 0.0 <==> v.y == 0.0
    ensures v.z / l > 0.0 <==> v.z > 0.0
  {
  }

  /** The (latitude, longitude) pair of a unit vector. */
  function LatLong(x: real, y: real, z: real, m: Maths): (code: seq<int>)
    ensures |code| == 2 && 0 <= code[0] <= 255 && 0 <= code[1] <= 255
  {
    [AngleByte(m.acos(z)), AngleByte(m.atan2(y, x))]
  }

  /** An angle in radians to 1/256ths of a turn, wrapped to a byte. */
  function AngleByte(angle: real): int {
    LowByte(RoundHalfEven(angle * 255.0 / (2.0 * Pi)))
  }

  /** encode_normal as written. The result is the Python sequence it returns:
      `bytes((0, 0))` for a zero-length vector; for a vector along the z axis the
      expression `0, 0 if z > 0 else 128, 0`, which is the three-element tuple
      `(0, 0 or 128, 0)`; otherwise `(lat, long)`. */
  function EncodeNormal(v: Vec3, m: Maths): seq<int> {
    var l := m.sqrt(v.x * v.x + v.y * v.y + v.z * v.z);
    if l == 0.0 then [0, 0]
    else
      var x, y, z := v.x / l, v.y / l, v.z / l;
      if x == 0.0 && y == 0.0 then [0, if z > 0.0 then 0 else 128, 0]
      else LatLong(x, y, z, m)
  }

  /** The caller's `lat, lon = encode_normal(...)` succeeds only on a two-element result. */
  predicate Unpacks(code: seq<int>) {
    |code| == 2
  }

  /** Whatever it returns, encode_normal returns bytes: two of them, or the
      three of the axis case. */
  lemma EncodeNormalBytes(v: Vec3, m: Maths)
    ensures |EncodeNormal(v, m)| == 2 || |EncodeNormal(v, m)| == 3
    ensures forall i :: 0 <= i < |EncodeNormal(v, m)| ==> 0 <= EncodeNormal(v, m)[i] <= 255
  {
  }

  /** The zero vector encodes as the sentinel (0, 0). */
  lemma EncodeZero(m: Maths)
    requires SqrtExact(m)
    ensures EncodeNormal(Vec3(0.0, 0.0, 0.0), m) == [0, 0]
  {
  }

  /** The result unpacks into (lat, lon) exactly when the vector is not a non-zero
      multiple of the z axis. */
  lemma UnpacksExactlyOffAxis(v: Vec3, m: Maths)
    requires SqrtExact(m)
    ensures Unpacks(EncodeNormal(v, m)) <==> !(v.x == 0.0 && v.y == 0.0 && v.z != 0.0)
  {
    LengthSign(v, m);
    if v != Vec3(0.0, 0.0, 0.0) {
      QuotientSigns(v, m.sqrt(v.x * v.x + v.y * v.y + v.z * v.z));
    }
  }

  /** The vector (0, 0, 1), which a lightgrid texel lit straight from above produces,
      does not unpack: storing it raises. */
  lemma PoleDoesNotUnpack(m: Maths)
    requires SqrtExact(m)
    ensures EncodeNormal(Vec3(0.0, 0.0, 1.0), m) == [0, 0, 0]
    ensures !Unpacks(EncodeNormal(Vec3(0.0, 0.0, 1.0), m))
  {
    var v := Vec3(0.0, 0.0, 1.0);
    LengthSign(v, m);
    QuotientSigns(v, m.sqrt(v.x * v.x + v.y * v.y + v.z * v.z));
  }

  /** encode_normal as its pole branch was evidently meant to read,
      `return (0, 0) if z > 0 else (128, 0)`: latitude 0 for +z and 128 (half a turn,
      as acos(-1) gives) for -z, longitude 0. Everything else is unchanged. */
  function EncodeNormalIntended(v: Vec3, m: Maths): (code: seq<int>)
    ensures Unpacks(code)
    ensures 0 <= code[0] <= 255 && 0 <= code[1] <= 255
  {
    var l := m.sqrt(v.x * v.x + v.y * v.y + v.z * v.z);
    if l == 0.0 then [0, 0]
    else
      var x, y, z := v.x / l, v.y / l, v.z / l;
      if x == 0.0 && y == 0.0 then (if z > 0.0 then [0, 0] else [128, 0])
      else LatLong(x, y, z, m)
  }

  /** The intended encoder agrees with the written one wherever the written one unpacks,
      and on the axis gives the pole code. */
  lemma IntendedAgreesOffAxis(v: Vec3, m: Maths)
    requires SqrtExact(m)
    ensures Unpacks(EncodeNormal(v, m)) ==> EncodeNormalIntended(v, m) == EncodeNormal(v, m)
    ensures v.x == 0.0 && v.y == 0.0 && v.z > 0.0 ==> EncodeNormalIntended(v, m) == [0, 0]
    ensures v.x == 0.0 && v.y == 0.0 && v.z < 0.0 ==> EncodeNormalIntended(v, m) == [128, 0]
  {
    LengthSign(v, m);
    if v != Vec3(0.0, 0.0, 0.0) {
      QuotientSigns(v, m.sqrt(v.x * v.x + v.y * v.y + v.z * v.z));
    }
  }
}
