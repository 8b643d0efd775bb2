/** Small value types shared by the framing and session modules. */
module Base {

  /** One octet of a Node Buffer. */
  newtype byte = x: int | 0 <= x < 0x100

  /** An optional value, used for "no frame this time" and "no reply". */
  datatype Option<T> = None | Some(value: T)

  /** The sequence an optional frame contributes to a list of frames. */
  function OptionToSeq<T>(o: Option<T>): (r: seq<T>)
    ensures |r| <= 1
    ensures o.Some? ==> r == [o.value]
    ensures o.None? ==> r == []
  {
    match o
    case None => []
    case Some(v) => [v]
  }

  /** Concatenation of a list of byte strings, as Buffer.concat does. */
  function Flatten<T>(ss: seq<seq<T>>): seq<T>
  {
    if ss == [] then [] else ss[0] + Flatten(ss[1..])
  }

  lemma {:induction false} FlattenAppend<T>(a: seq<seq<T>>, b: seq<seq<T>>)
    ensures Flatten(a + b) == Flatten(a) + Flatten(b)
    decreases |a|
  {
    if a == [] {
      assert a + b == b;
    } else {
      assert (a + b)[1..] == a[1..] + b;
      FlattenAppend(a[1..], b);
    }
  }
}
