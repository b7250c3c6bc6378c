/** Powers of two. */
module Powers {

  const TWO_TO_16 := 0x1_0000
  const TWO_TO_31 := 0x8000_0000
  const TWO_TO_32 := 0x1_0000_0000
  const TWO_TO_63 := 0x8000_0000_0000_0000
  const TWO_TO_64 := 0x1_0000_0000_0000_0000

  function Pow2(h: nat): (r: nat)
    ensures r > 0
  {
    if h == 0 then 1 else 2 * Pow2(h - 1)
  }
}
