// The form-data read callback: it hands out a buffer piece by piece and rewinds at its end, so that a
// second request can send the same field again.
module FormReader {
  import opened Bytes

  /** How many bytes a request gets, and the index afterwards. */
  function Grant(len: nat, index: nat, size: int): (n: nat)
    requires index <= len
  {
    if size < 1 then 0 else Min(size, len - index)
  }

  function Rewound(len: nat, index: nat): (n: nat) {
    if index >= len then 0 else index
  }

  class Reader {
    const data: seq<byte>
    var index: nat

    constructor (data: seq<byte>)
      ensures this.data == data && index == 0 && Valid()
    {
      this.data, index := data, 0;
    }

    ghost predicate Valid()
      reads this
    {
      index < |data| || (index == 0 && data == [])
    }

    method Read(buf: array<byte>, size: int) returns (n: nat)
      requires Valid() && size <= buf.Length
      modifies this, buf
      ensures n == if size < 1 then 0 else Min(size, |data| - old(index))
      ensures Valid() && n <= buf.Length && buf[..n] == data[old(index)..old(index) + n]
      ensures index == if old(index) + n < |data| then old(index) + n else 0
      ensures n == Grant(|data|, old(index), size)
    {
      if size < 1 {
        return 0;
      }
      n := Min(size, |data| - index);
      var from := index;
      forall i | 0 <= i < n {
        buf[i] := data[from + i];
      }
      index := index + n;
      if index >= |data| {
        index := 0;
      }
    }
  }

  /** The bytes that a sequence of requests gets, and the index they leave. */
  function Run(data: seq<byte>, index: nat, sizes: seq<int>): (r: (seq<byte>, nat))
    requires index < |data|
    ensures r.1 < |data|
    decreases |sizes|
  {
    if |sizes| == 0 then ([], index)
    else
      var n := Grant(|data|, index, sizes[0]);
      var rest := Run(data, if sizes[0] < 1 then index else Rewound(|data|, index + n), sizes[1..]);
      (data[index..index + n] + rest.0, rest.1)
  }

  /** Position `x` of the buffer repeated for ever. */
  function Around(len: nat, x: nat): (i: nat)
    requires len > 0
    ensures i < len
  {
    if x < len then x else Around(len, x - len)
  }

  ghost predicate Repeats(data: seq<byte>, index: nat, out: seq<byte>)
    requires data != []
  {
    forall k :: 0 <= k < |out| ==> out[k] == data[Around(|data|, index + k)]
  }

  lemma RepeatsJoin(data: seq<byte>, index: nat, n: nat, rest: seq<byte>)
    requires index + n <= |data| && index < |data| && Repeats(data, Rewound(|data|, index + n), rest)
    ensures Repeats(data, index, data[index..index + n] + rest)
    ensures Around(|data|, Rewound(|data|, index + n) + |rest|) == Around(|data|, index + n + |rest|)
  {
    var out, len := data[index..index + n] + rest, |data|;
    forall k | 0 <= k < |out| ensures out[k] == data[Around(len, index + k)] {
      if k >= n {
        var j := k - n;
        assert out[k] == rest[j] == data[Around(len, Rewound(len, index + n) + j)];
        assert index + n == len ==> Around(len, len + j) == Around(len, j);
      }
    }
  }

  /** For every split, the bytes handed out repeat the buffer for ever, and the index is where the last
      of them stopped. */
  lemma {:induction false} ReadsRepeat(data: seq<byte>, index: nat, sizes: seq<int>)
    requires index < |data|
    ensures var (out, last) := Run(data, index, sizes);
      Repeats(data, index, out) && last == Around(|data|, index + |out|)
    decreases |sizes|
  {
    hide Repeats;
    if |sizes| == 0 {
      NothingRepeats(data, index);
    } else {
      var n := Grant(|data|, index, sizes[0]);
      var next := if sizes[0] < 1 then index else Rewound(|data|, index + n);
      ReadsRepeat(data, next, sizes[1..]);
      RepeatsJoin(data, index, n, Run(data, next, sizes[1..]).0);
    }
  }

  lemma NothingRepeats(data: seq<byte>, index: nat)
    requires data != []
    ensures Repeats(data, index, [])
  {
  }

  /** The sum of the sizes of requests that ask for something. */
  function Asked(sizes: seq<int>): (n: nat) {
    if |sizes| == 0 then 0 else (if sizes[0] < 1 then 0 else sizes[0]) + Asked(sizes[1..])
  }

  /** Requests for what is left of the buffer, in any split, get exactly that and leave the reader at its
      start; smaller ones get as much as they ask for. */
  lemma {:induction false} RequestsFetch(data: seq<byte>, index: nat, sizes: seq<int>)
    requires index < |data| && index + Asked(sizes) <= |data|
    ensures var end := index + Asked(sizes);
      Run(data, index, sizes) == (data[index..end], if end < |data| then end else 0)
    decreases |sizes|
  {
    if |sizes| == 0 {
      assert data[index..index] == [];
    } else {
      if sizes[0] < 1 {
        assert data[index..index] + Run(data, index, sizes[1..]).0 == Run(data, index, sizes[1..]).0;
        RequestsFetch(data, index, sizes[1..]);
      } else {
        var next: nat := index + sizes[0];
        assert data[index..next] + data[next..next + Asked(sizes[1..])] == data[index..index + Asked(sizes)];
        if next < |data| {
          RequestsFetch(data, next, sizes[1..]);
        } else {
          NoneAsked(data, 0, sizes[1..]);
        }
      }
    }
  }

  lemma {:induction false} NoneAsked(data: seq<byte>, index: nat, sizes: seq<int>)
    requires index < |data| && Asked(sizes) == 0
    ensures Run(data, index, sizes) == ([], index)
  {
    if |sizes| > 0 {
      assert data[index..index] + Run(data, index, sizes[1..]).0 == Run(data, index, sizes[1..]).0;
      NoneAsked(data, index, sizes[1..]);
    }
  }

  /** A request that fetched exactly the content length, in any split, got the content and left the
      reader at its start, so that the next such request gets the same. */
  lemma SecondRequestRepeats(data: seq<byte>, first: seq<int>, second: seq<int>)
    requires data != [] && |Run(data, 0, first).0| == |data|
    requires |Run(data, Run(data, 0, first).1, second).0| == |data|
    ensures Run(data, 0, first) == (data, 0)
    ensures Run(data, Run(data, 0, first).1, second) == (data, 0)
  {
    hide Run;
    ReadsRepeat(data, 0, first);
    WholeBuffer(data, Run(data, 0, first).0);
    ReadsRepeat(data, 0, second);
    WholeBuffer(data, Run(data, 0, second).0);
  }

  lemma WholeBuffer(data: seq<byte>, out: seq<byte>)
    requires data != [] && |out| == |data| && Repeats(data, 0, out)
    ensures out == data && Around(|data|, 0 + |out|) == 0
  {
    forall k | 0 <= k < |data| ensures out[k] == data[k] {
      assert out[k] == data[Around(|data|, 0 + k)];
    }
    assert Around(|data|, |data|) == Around(|data|, 0);
  }
}
