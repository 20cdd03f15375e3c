/** What several components share. */
module Common {

  datatype Option<T> = None | Some(some: T)

  const TWO_31: int := 0x8000_0000
  const TWO_32: nat := 0x1_0000_0000
  const TWO_64: nat := 0x1_0000_0000_0000_0000

  /** The conversion to a 32-bit signed integer. */
  function ToInt32(x: int): (r: int)
    ensures -TWO_31 <= x < TWO_31 ==> r == x
    ensures -TWO_31 <= r < TWO_31 && (r - x) % TWO_32 == 0
  {
    var u := x % TWO_32;
    if u < TWO_31 then u else u - TWO_32
  }

  lemma {:induction false} SubsetCount<T>(a: set<T>, b: set<T>)
    requires a <= b
    ensures |a| <= |b|
    decreases |a|
  {
    if a != {} {
      var x :| x in a;
      SubsetCount(a - {x}, b - {x});
    }
  }
}
