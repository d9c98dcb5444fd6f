/** Integer helpers shared by the shift arithmetic and the lag labels. */
module Numbers {

  function Abs(k: int): nat { if k < 0 then -k else k }
  function Min(a: int, b: int): int { if a <= b then a else b }
  function Max(a: int, b: int): int { if a <= b then b else a }

}
