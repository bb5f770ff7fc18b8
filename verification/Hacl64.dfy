/** X25519 as the 64-bit implementation computes it, end to end over byte arrays. */
module Hacl64 {
  import opened Bits
  import opened Field
  import opened Rfc7748
  import opened Radix51
  import opened Hacl64Field
  import opened Hacl64Ladder
  import opened Hacl64Format

  /** The function the 64-bit code computes: all 256 bits of the clamped scalar, swaps undone at once. */
  function Generic(secret: seq<u8>, basepoint: seq<u8>): (r: seq<u8>)
    requires |secret| == 32 && |basepoint| == 32
  {
    var x1 := DecodeU(basepoint);
    Encode(Affine(Immediate(x1, DecodeScalar(secret), 256, Quad(1, 0, x1, 1))), 32)
  }

  method ClampSecret(secret: array<u8>)
    requires secret.Length == 32
    modifies secret
    ensures secret[..] == Clamp(old(secret[..]))
  {
    secret[0] := And(secret[0], 248);
    OrTop(secret[31]);
    secret[31] := Or(And(secret[31], 127), 64);
  }

  /** scalar := the affine x-coordinate of a point, canonically encoded. */
  method ScalarOfPoint(scalar: array<u8>, point: Point)
    requires scalar.Length == 32 && point.Shaped() && point.Ready()
    modifies scalar
    ensures scalar[..] == Encode(Mul(Value(At(point.x)), Pow(Value(At(point.z)), PRIME - 2)), 32)
  {
    hide Reduced, Loose, Value, At, Pow, Mul, Encode;
    var zmone, sc := new u64[5], new u64[5];
    ReducedFits(At(point.z));
    ReducedFits(At(point.x));
    Crecip(zmone, point.z);
    ReducedFits(At(zmone));
    Fmul(sc, point.x, zmone);
    Fcontract(scalar, sc);
  }

  method Curve25519Generic(mypublic: array<u8>, secret: array<u8>, basepoint: array<u8>)
    requires mypublic.Length == 32 && secret.Length == 32 && basepoint.Length == 32
    modifies mypublic
    ensures mypublic[..] == Generic(old(secret[..]), old(basepoint[..]))
  {
    hide Reduced, Loose, Value, At, Pow, Mul, Encode, Clamp, Immediate, LittleEndian, DecodeU, F;
    var q := OneAtZ();
    Fexpand(q.x, basepoint);
    var e := new u8[32];
    forall i | 0 <= i < 32 {
      e[i] := secret[i];
    }
    assert e[..] == old(secret[..]);
    ClampSecret(e);
    var nq := PointAtInfinity();
    LadderCmult(nq, e, q);
    ScalarOfPoint(mypublic, nq);
  }

  /** A fresh point whose Z is 1. */
  method OneAtZ() returns (p: Point)
    ensures p.Shaped() && fresh(p.x) && fresh(p.z)
    ensures Reduced(At(p.z)) && Value(At(p.z)) == 1
  {
    hide F, Eval, Value;
    var x, z := new u64[5] [0, 0, 0, 0, 0], new u64[5] [1, 0, 0, 0, 0];
    p := Point(x, z);
    assert At(p.z) == Limbs(1, 0, 0, 0, 0);
    OneAndZero();
  }
}
