/** DirectXMath values used by the scene and the transform component. The
    floating-point matrix operations are uninterpreted: a matrix is an
    abstract value, and products, inverses and decompositions are fixed but
    unknown functions. */
module XMath {

  /** `XMMATRIX` */
  type Mat(==, 0, !new)

  /** `XMFLOAT3`, with the lanes as reals (rounding is not modelled). */
  datatype Vec3 = Vec3(x: real, y: real, z: real) {
    /** `XMVectorAdd` on the three lanes. */
    function Add(d: Vec3): Vec3 {
      Vec3(x + d.x, y + d.y, z + d.z)
    }
  }

  const Zero := Vec3(0.0, 0.0, 0.0)
  const One := Vec3(1.0, 1.0, 1.0)

  /** Lane-wise addition groups either way and has `Zero` as its unit on
      both sides, so successive deltas can be summed first. */
  lemma AddMonoid(u: Vec3, v: Vec3, w: Vec3)
    ensures u.Add(v).Add(w) == u.Add(v.Add(w))
    ensures u.Add(Zero) == u && Zero.Add(u) == u
  {
  }

  /** What `XMMatrixDecompose` followed by the quaternion-to-Euler
      conversion extracts from a world matrix: position, rotation as Euler
      angles in degrees, and scale. */
  datatype Pose = Pose(position: Vec3, rotation: Vec3, scale: Vec3)

  const identity: Mat
  const product: (Mat, Mat) -> Mat
  const inverse: Mat -> Mat
  const translationOf: Vec3 -> Mat
  const rotationOf: Vec3 -> Mat
  const scalingOf: Vec3 -> Mat
  const decomposition: Mat -> Pose

  /** `XMMatrixIdentity()` */
  function Identity(): Mat {
    identity
  }

  /** `XMMatrixMultiply(a, b)`, also written `a * b`. */
  function Mul(a: Mat, b: Mat): Mat {
    product(a, b)
  }

  /** `XMMatrixInverse(nullptr, m)` */
  function Inv(m: Mat): Mat {
    inverse(m)
  }

  /** `XMMatrixTranslation(v.x, v.y, v.z)` */
  function MatrixTranslation(v: Vec3): Mat {
    translationOf(v)
  }

  /** `XMMatrixRotationRollPitchYawFromVector` of the angles converted from
      degrees to radians. */
  function MatrixRotation(degrees: Vec3): Mat {
    rotationOf(degrees)
  }

  /** `XMMatrixScaling(v.x, v.y, v.z)` */
  function MatrixScale(v: Vec3): Mat {
    scalingOf(v)
  }

  /** The decomposition of a world matrix into a pose. */
  function Decompose(m: Mat): Pose {
    decomposition(m)
  }

  /** The matrix product is associative. */
  ghost predicate Associative() {
    forall a, b, c :: Mul(Mul(a, b), c) == Mul(a, Mul(b, c))
  }

  /** The identity matrix is neutral on the left. */
  ghost predicate LeftNeutral() {
    forall a :: Mul(Identity(), a) == a
  }

  /** The identity matrix is neutral on the right. */
  ghost predicate RightNeutral() {
    forall a :: Mul(a, Identity()) == a
  }

  /** `p` has `Inv(p)` as its right inverse. */
  ghost predicate RightInverse(p: Mat) {
    Mul(p, Inv(p)) == Identity()
  }

  /** Re-expressing a world matrix `w` relative to a parent `p` and composing
      it back gives `w` again, when the product is associative, the identity
      is left-neutral, and `p` is invertible. */
  lemma Reparent(p: Mat, w: Mat)
    requires Associative() && LeftNeutral() && RightInverse(p)
    ensures Mul(p, Mul(Inv(p), w)) == w
  {
    calc {
      Mul(p, Mul(Inv(p), w));
      Mul(Mul(p, Inv(p)), w);
      Mul(Identity(), w);
    }
  }
}
