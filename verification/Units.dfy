/** Machine sizes that the kernel's parts share. */
module Units {

  const U64_MAX: nat := 0xffff_ffff_ffff_ffff
  const USIZE_MAX: nat := U64_MAX
  const PAGE_SIZE: nat := 4096

  /** The start of the page that `x` lies in. */
  function PageOf(x: int): (page: int)
    ensures 0 <= x ==> 0 <= page
  {
    x - x % PAGE_SIZE
  }
}
