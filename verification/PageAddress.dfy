/** Addresses of whole pages, as in mm.h. */
module PageAddress {
  /** `PAGEDOWN`. */
  function PageDown(a: nat): (r: nat)
    ensures r % 4096 == 0 && r <= a < r + 4096
  {
    a / 4096 * 4096
  }
}
