/**
  The value types the transform code stores (XMFLOAT3, XMFLOAT4, XMFLOAT4X4) and
  the DirectXMath operations it calls. The operations are not modelled: they are
  the fields of a `MathLib` value that every operation needing them takes as a
  parameter, so every property proved below holds whatever they compute.
*/
module Math {

  /** A 3-component vector (XMFLOAT3). Floats are modelled as reals. */
  datatype Float3 = Float3(x: real, y: real, z: real)

  /** A 4-component vector (XMFLOAT4), used for quaternions. */
  datatype Float4 = Float4(x: real, y: real, z: real, w: real)

  /** A 4x4 matrix (XMFLOAT4X4), stored row by row. */
  datatype Float4x4 = Float4x4(r0: Float4, r1: Float4, r2: Float4, r3: Float4)

  /** What XMMatrixDecompose yields: its success flag and the scale, rotation and translation it wrote. */
  datatype Decomposition = Decomposition(ok: bool, scale: Float3, rotation: Float4, translation: Float3)

  /** The DirectXMath calls the transform code makes, as uninterpreted operations. */
  datatype MathLib = MathLib(
    multiply: (Float4x4, Float4x4) -> Float4x4,          // XMMatrixMultiply (operator*)
    inverse: Float4x4 -> Float4x4,                      // XMMatrixInverse
    decompose: Float4x4 -> Decomposition,               // XMMatrixDecompose
    scaling: Float3 -> Float4x4,                        // XMMatrixScalingFromVector
    rotationMatrix: Float4 -> Float4x4,                 // XMMatrixRotationQuaternion
    translationMatrix: Float3 -> Float4x4,              // XMMatrixTranslationFromVector
    quatMultiply: (Float4, Float4) -> Float4,           // XMQuaternionMultiply
    quatNormalize: Float4 -> Float4,                    // XMQuaternionNormalize
    rollPitchYaw: (real, real, real) -> Float4,         // XMQuaternionRotationRollPitchYaw
    lerp: (Float3, Float3, real) -> Float3,             // wiMath::Lerp
    slerp: (Float4, Float4, real) -> Float4,            // wiMath::Slerp
    catmullRom3: (Float3, Float3, Float3, Float3, real) -> Float3,  // XMVectorCatmullRom on 3-vectors
    catmullRom4: (Float4, Float4, Float4, Float4, real) -> Float4   // XMVectorCatmullRom on quaternions
  )

  const Zero3 := Float3(0.0, 0.0, 0.0)
  const One3 := Float3(1.0, 1.0, 1.0)
  const IdentityQuat := Float4(0.0, 0.0, 0.0, 1.0)
  const Identity4x4 := Float4x4(Float4(1.0, 0.0, 0.0, 0.0), Float4(0.0, 1.0, 0.0, 0.0),
                                Float4(0.0, 0.0, 1.0, 0.0), Float4(0.0, 0.0, 0.0, 1.0))

  /** Componentwise `+=` on a translation. */
  function Add3(a: Float3, b: Float3): Float3 {
    Float3(a.x + b.x, a.y + b.y, a.z + b.z)
  }

  /** Componentwise `*=` on a scale. */
  function Mul3(a: Float3, b: Float3): Float3 {
    Float3(a.x * b.x, a.y * b.y, a.z * b.z)
  }
}
