/** `x::TransformComponent`: position, rotation (Euler degrees) and scale,
    with a cached matrix and a dirty flag. */
module Transforms {
  import opened XMath

  /** The matrix `UpdateTransformMatrix` builds: scale, then rotation, then
      translation. */
  function Compose(position: Vec3, rotation: Vec3, scale: Vec3): Mat {
    Mul(Mul(MatrixScale(scale), MatrixRotation(rotation)), MatrixTranslation(position))
  }

  /** The state of one `TransformComponent` object. The component store
      keeps these by value. */
  datatype Transform = Transform(position: Vec3, rotation: Vec3, scale: Vec3, matrix: Mat, needsUpdate: bool) {

    /** `SetPosition`: replaces the position only; the dirty flag is not set. */
    function SetPosition(p: Vec3): (r: Transform)
      ensures r.position == p
      ensures r.rotation == rotation && r.scale == scale
      ensures r.matrix == matrix && r.needsUpdate == needsUpdate
    {
      this.(position := p)
    }

    /** `SetRotation`: replaces the rotation only; the dirty flag is not set. */
    function SetRotation(e: Vec3): (r: Transform)
      ensures r.rotation == e
      ensures r.position == position && r.scale == scale
      ensures r.matrix == matrix && r.needsUpdate == needsUpdate
    {
      this.(rotation := e)
    }

    /** `SetScale`: replaces the scale only; the dirty flag is not set. */
    function SetScale(s: Vec3): (r: Transform)
      ensures r.scale == s
      ensures r.position == position && r.rotation == rotation
      ensures r.matrix == matrix && r.needsUpdate == needsUpdate
    {
      this.(scale := s)
    }

    /** `GetInverseTransformMatrix` */
    function InverseMatrix(): Mat {
      Inv(matrix)
    }

    /** `Translate(delta)`: moves the position by `delta` and marks the
        matrix stale. */
    function Translate(delta: Vec3): (r: Transform)
      ensures r.position == position.Add(delta)
      ensures r.rotation == rotation && r.scale == scale && r.matrix == matrix
      ensures r.needsUpdate
    {
      this.(position := position.Add(delta), needsUpdate := true)
    }

    /** `Rotate(delta)` as written: the rotated angles are stored into the
        position, the rotation itself is left as it was. */
    function Rotate(delta: Vec3): (r: Transform)
      ensures r.position == rotation.Add(delta)
      ensures r.rotation == rotation && r.scale == scale && r.matrix == matrix
      ensures r.needsUpdate
    {
      this.(position := rotation.Add(delta), needsUpdate := true)
    }

    /** `Scale(delta)` as written: the grown scale is stored into the
        position, the scale itself is left as it was. */
    function Scale(delta: Vec3): (r: Transform)
      ensures r.position == scale.Add(delta)
      ensures r.rotation == rotation && r.scale == scale && r.matrix == matrix
      ensures r.needsUpdate
    {
      this.(position := scale.Add(delta), needsUpdate := true)
    }

    /** `Rotate(delta)` as evidently intended: the rotation grows by `delta`. */
    function RotateIntended(delta: Vec3): (r: Transform)
      ensures r.rotation == rotation.Add(delta)
      ensures r.position == position && r.scale == scale && r.matrix == matrix
      ensures r.needsUpdate
    {
      this.(rotation := rotation.Add(delta), needsUpdate := true)
    }

    /** `Scale(delta)` as evidently intended: the scale grows by `delta`. */
    function ScaleIntended(delta: Vec3): (r: Transform)
      ensures r.scale == scale.Add(delta)
      ensures r.position == position && r.rotation == rotation && r.matrix == matrix
      ensures r.needsUpdate
    {
      this.(scale := scale.Add(delta), needsUpdate := true)
    }

    /** `UpdateTransformMatrix`: rebuilds the matrix from the three fields
        and clears the dirty flag. */
    function UpdateTransformMatrix(): (r: Transform)
      ensures r.matrix == Compose(position, rotation, scale)
      ensures r.position == position && r.rotation == rotation && r.scale == scale
      ensures !r.needsUpdate
    {
      this.(matrix := Compose(position, rotation, scale), needsUpdate := false)
    }

    /** `Update`: rebuilds the matrix only when it is stale. */
    function Update(): (r: Transform)
      ensures !needsUpdate ==> r == this
      ensures needsUpdate ==> r == UpdateTransformMatrix()
      ensures !r.needsUpdate
    {
      if needsUpdate then UpdateTransformMatrix() else this
    }

    /** Writes a decomposed world pose through the three setters, as the
        scene's propagation does. */
    function WithPose(pose: Pose): (r: Transform)
      ensures r.position == pose.position && r.rotation == pose.rotation && r.scale == pose.scale
      ensures r.matrix == matrix && r.needsUpdate == needsUpdate
    {
      SetPosition(pose.position).SetRotation(pose.rotation).SetScale(pose.scale)
    }
  }

  /** The default-constructed component. */
  function New(): (r: Transform)
    ensures r.position == Zero && r.rotation == Zero && r.scale == One
    ensures r.matrix == Identity() && r.needsUpdate
  {
    Transform(Zero, Zero, One, Identity(), true)
  }

  /** A second `Update` changes nothing. */
  lemma UpdateIdempotent(t: Transform)
    ensures t.Update().Update() == t.Update()
  {
  }

  /** `Translate` marks the matrix stale, so the next `Update` rebuilds it
      from the moved position. */
  lemma UpdateAfterTranslate(t: Transform, delta: Vec3)
    ensures t.Translate(delta).Update().matrix == Compose(t.position.Add(delta), t.rotation, t.scale)
  {
  }

  /** The setters do not set the flag, so on a clean component `Update`
      keeps the old, now stale, matrix. */
  lemma SettersLeaveMatrixStale(t: Transform, p: Vec3, e: Vec3, s: Vec3)
    requires !t.needsUpdate
    ensures t.SetPosition(p).SetRotation(e).SetScale(s).Update().matrix == t.matrix
  {
  }

  /** The newest pose written with `WithPose` wins. */
  lemma WithPoseOverwrites(t: Transform, a: Pose, b: Pose)
    ensures t.WithPose(a).WithPose(b) == t.WithPose(b)
  {
  }

  /** As written, rotating a fresh component by 90 degrees about x leaves
      its rotation at zero and moves its position instead. */
  lemma RotateWritesPosition()
    ensures New().Rotate(Vec3(90.0, 0.0, 0.0)).rotation == Zero
    ensures New().Rotate(Vec3(90.0, 0.0, 0.0)).position == Vec3(90.0, 0.0, 0.0)
    ensures New().RotateIntended(Vec3(90.0, 0.0, 0.0)).rotation == Vec3(90.0, 0.0, 0.0)
    ensures New().RotateIntended(Vec3(90.0, 0.0, 0.0)).position == Zero
  {
  }

  /** As written, scaling a fresh component by one leaves its scale at one
      and moves its position to (2, 2, 2). */
  lemma ScaleWritesPosition()
    ensures New().Scale(One).scale == One
    ensures New().Scale(One).position == Vec3(2.0, 2.0, 2.0)
    ensures New().ScaleIntended(One).scale == Vec3(2.0, 2.0, 2.0)
    ensures New().ScaleIntended(One).position == Zero
  {
  }

  /** Intended rotations accumulate: two rotations are one by the sum. */
  lemma RotateIntendedAccumulates(t: Transform, a: Vec3, b: Vec3)
    ensures t.RotateIntended(a).RotateIntended(b) == t.RotateIntended(a.Add(b))
  {
    AddMonoid(t.rotation, a, b);
  }

  /** Translations accumulate the same way. */
  lemma TranslateAccumulates(t: Transform, a: Vec3, b: Vec3)
    ensures t.Translate(a).Translate(b) == t.Translate(a.Add(b))
  {
    AddMonoid(t.position, a, b);
  }

  /** A `TransformComponent` object: the fields the source updates in place.
      Each method is specified by the value-level function of the same name. */
  class TransformComponent {
    var position: Vec3
    var rotation: Vec3
    var scale: Vec3
    var transform: Mat
    var needsUpdate: bool

    /** The object's state as a value. */
    function Value(): Transform
      reads this
    {
      Transform(position, rotation, scale, transform, needsUpdate)
    }

    /** Position zero, rotation zero, scale one, identity matrix, stale. */
    constructor ()
      ensures Value() == New()
    {
      position := Zero;
      rotation := Zero;
      scale := One;
      transform := Identity();
      needsUpdate := true;
    }

    method SetPosition(p: Vec3)
      modifies this
      ensures Value() == old(Value()).SetPosition(p)
    {
      position := p;
    }

    method SetRotation(e: Vec3)
      modifies this
      ensures Value() == old(Value()).SetRotation(e)
    {
      rotation := e;
    }

    method SetScale(s: Vec3)
      modifies this
      ensures Value() == old(Value()).SetScale(s)
    {
      scale := s;
    }

    function GetPosition(): (r: Vec3)
      reads this
      ensures r == Value().position
    {
      position
    }

    function GetRotation(): (r: Vec3)
      reads this
      ensures r == Value().rotation
    {
      rotation
    }

    function GetScale(): (r: Vec3)
      reads this
      ensures r == Value().scale
    {
      scale
    }

    function GetTransformMatrix(): (r: Mat)
      reads this
      ensures r == Value().matrix
    {
      transform
    }

    function GetInverseTransformMatrix(): (r: Mat)
      reads this
      ensures r == Value().InverseMatrix()
    {
      Inv(transform)
    }

    method Translate(delta: Vec3)
      modifies this
      ensures Value() == old(Value()).Translate(delta)
    {
      position := position.Add(delta);
      needsUpdate := true;
    }

    /** The rotated angles land in the position, as in the source. */
    method Rotate(delta: Vec3)
      modifies this
      ensures Value() == old(Value()).Rotate(delta)
    {
      position := rotation.Add(delta);
      needsUpdate := true;
    }

    /** The grown scale lands in the position, as in the source. */
    method Scale(delta: Vec3)
      modifies this
      ensures Value() == old(Value()).Scale(delta)
    {
      position := scale.Add(delta);
      needsUpdate := true;
    }

    method Update()
      modifies this
      ensures Value() == old(Value()).Update()
    {
      if needsUpdate {
        UpdateTransformMatrix();
      }
    }

    method UpdateTransformMatrix()
      modifies this
      ensures Value() == old(Value()).UpdateTransformMatrix()
    {
      var translation := MatrixTranslation(position);
      var rotationMatrix := MatrixRotation(rotation);
      var scaling := MatrixScale(scale);
      transform := Mul(Mul(scaling, rotationMatrix), translation);
      needsUpdate := false;
    }
  }
}
