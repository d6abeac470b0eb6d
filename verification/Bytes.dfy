// Raw octets and the few sequence notions every component shares.
module Bytes {
  type byte = x: int | 0 <= x < 256

  datatype Option<+T> = None | Some(value: T)

  function Min(a: int, b: int): (n: int) {
    if a < b then a else b
  }

  /** The octets of a list of blocks, in order. */
  function Flatten<T>(blocks: seq<seq<T>>): (r: seq<T>) {
    if |blocks| == 0 then [] else blocks[0] + Flatten(blocks[1..])
  }

  lemma {:induction false} FlattenConcat<T>(a: seq<seq<T>>, b: seq<seq<T>>)
    ensures Flatten(a + b) == Flatten(a) + Flatten(b)
  {
    if |a| == 0 {
      assert a + b == b;
    } else {
      calc {
        Flatten(a + b);
        { assert (a + b)[0] == a[0] && (a + b)[1..] == a[1..] + b; }
        a[0] + Flatten(a[1..] + b);
        { FlattenConcat(a[1..], b); }
        a[0] + (Flatten(a[1..]) + Flatten(b));
        (a[0] + Flatten(a[1..])) + Flatten(b);
        Flatten(a) + Flatten(b);
      }
    }
  }

  lemma FlattenAppend<T>(a: seq<seq<T>>, block: seq<T>)
    ensures Flatten(a + [block]) == Flatten(a) + block
  {
    FlattenConcat(a, [block]);
    assert Flatten([block]) == block + Flatten<T>([]);
  }
}
