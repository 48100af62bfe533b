/** System.Int32 as the operations see it: Convert.ToInt32 on a string and the wrap-around
    of unchecked multiplication. */
module Numbers {
  import opened Results

  const Int32Min: int := -0x8000_0000
  const Int32Max: int := 0x7fff_ffff
  const Modulus: int := 0x1_0000_0000

  predicate InInt32(x: int) {
    Int32Min <= x <= Int32Max
  }

  /** The int32 that unchecked arithmetic leaves for the mathematical value x. */
  function Wrap32(x: int): (r: int)
    ensures InInt32(r)
    ensures (x - r) % Modulus == 0
    ensures InInt32(x) ==> r == x
  {
    (x - Int32Min) % Modulus + Int32Min
  }

  /** Convert.ToInt32(string): `read` is the decimal reading of the text (None when the text is
      not a number); a number outside int32 throws OverflowException, a non-number
      FormatException. */
  function ToInt32(s: string, read: string -> Option<int>): (r: Result<int>)
    ensures r.Ok? <==> read(s).Some? && InInt32(read(s).value)
    ensures r.Ok? ==> r.value == read(s).value
    ensures r == Err(FormatError) <==> read(s).None?
    ensures read(s).Some? && !InInt32(read(s).value) ==> r == Err(Overflow)
  {
    match read(s)
    case None => Err(FormatError)
    case Some(v) => if InInt32(v) then Ok(v) else Err(Overflow)
  }

  /** The wrap-around is not an overflow check: 2^30 * 2 comes out as the smallest int32. */
  lemma ProductWrapsAround()
    ensures Wrap32(0x4000_0000 * 2) == Int32Min
  {
  }
}
