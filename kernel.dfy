/** The kernel derivative contract the estimator consumes. The kernel itself (its family,
    bandwidth and floating-point evaluation) is an external collaborator: each derivative
    is an arbitrary total function of point indices and dimension indices. The model
    passes each call the same point and dimension indices the estimator passes; which
    matrix each point slot is bound to is decided by the base class that installs the
    kernel, and is not part of this model. */
module Kernel {

  datatype Derivatives = Derivatives(
    /** dx_component(a, b, i) */
    dxComponent: (nat, nat, nat) -> real,
    /** dx_dy_component(a, b, i, j) */
    dxDyComponent: (nat, nat, nat, nat) -> real,
    /** dx_dy_dy_component(a, b, i, j) */
    dxDyDyComponent: (nat, nat, nat, nat) -> real,
    /** entry j of the D-vector dx_i_dx_j_component(a, b, i) */
    dxIdxJComponent: (nat, nat, nat, nat) -> real,
    /** dx_i_dx_j_dx_k_dot_vec_component(a, b, vec, i, j) */
    dxIdxJdxKDotVecComponent: (nat, nat, seq<real>, nat, nat) -> real)

  /** The mixed second derivative is symmetric under swapping its two (point, dimension)
      arguments, as it is for every symmetric kernel. */
  ghost predicate MixedSymmetric(k: Derivatives)
  {
    forall a, b, i, j :: k.dxDyComponent(a, b, i, j) == k.dxDyComponent(b, a, j, i)
  }
}
