module Wrappers {
  datatype Option<+T> = None | Some(value: T)

  /** Always true. A predicate whose body stands under `forall u :: Shown(u) ==>` means that body,
      but is only looked into by proofs that mention Shown(0); others pass it on as it is. */
  ghost predicate Shown(u: nat) { true }
}
