/** Limits of the C++ integer types the containers use. */
module Limits {
  /** Largest value of `std::size_t`, where unsigned arithmetic wraps. */
  const SIZE_MAX: nat := 0xFFFF_FFFF_FFFF_FFFF
}
