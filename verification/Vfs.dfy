// The virtual file system as the demos see it. A read may fail, may stop at the end of the file
// and may return fewer octets than asked; `answers` lists what the driver answers, call by call.
module Vfs {
  import opened Bytes

  /** The result of one read: an answer above zero is capped by the request and by the file's end. */
  function Granted(data: seq<byte>, pos: nat, want: nat, answer: int): (n: int)
    requires pos <= |data|
  {
    if answer <= 0 then answer else Min(answer, Min(want, |data| - pos))
  }

  datatype Outcome = Outcome(ok: bool, bytes: seq<byte>)

  /** Reading until `want` octets have arrived or a read brings none. */
  function ReadFully(data: seq<byte>, pos: nat, want: nat, answers: seq<int>): (r: Outcome)
    requires pos <= |data|
    decreases |answers|
  {
    if want == 0 then Outcome(true, [])
    else if |answers| == 0 then Outcome(false, [])
    else
      var got := Granted(data, pos, want, answers[0]);
      if got <= 0 then Outcome(false, [])
      else
        var rest := ReadFully(data, pos + got, want - got, answers[1..]);
        Outcome(rest.ok, data[pos..pos + got] + rest.bytes)
  }

  lemma Adjoin(data: seq<byte>, pos: nat, a: nat, b: nat)
    requires pos + a + b <= |data|
    ensures data[pos..pos + a] + data[pos + a..pos + a + b] == data[pos..pos + a + b]
  {
  }

  lemma ReadStep(data: seq<byte>, pos: nat, want: nat, answers: seq<int>, k: nat)
    requires pos <= |data| && want > 0 && k <= |answers|
    ensures var out := ReadFully(data, pos, want, answers[k..]);
      if k == |answers| || Granted(data, pos, want, answers[k]) <= 0 then out == Outcome(false, [])
      else
        var got := Granted(data, pos, want, answers[k]);
        var rest := ReadFully(data, pos + got, want - got, answers[k + 1..]);
        out == Outcome(rest.ok, data[pos..pos + got] + rest.bytes)
  {
    if k < |answers| {
      assert answers[k..][1..] == answers[k + 1..];
    }
  }

  lemma ReadNone(data: seq<byte>, pos: nat, answers: seq<int>)
    requires pos <= |data|
    ensures ReadFully(data, pos, 0, answers) == Outcome(true, [])
  {
  }

  /** Whatever the split into short reads, the octets are the file's next ones, all of them on success. */
  lemma {:induction false} ReadFullyExact(data: seq<byte>, pos: nat, want: nat, answers: seq<int>)
    requires pos <= |data|
    ensures var out := ReadFully(data, pos, want, answers);
      && |out.bytes| <= want && pos + |out.bytes| <= |data|
      && out.bytes == data[pos..pos + |out.bytes|]
      && (out.ok <==> |out.bytes| == want)
    decreases |answers|
  {
    hide ReadFully;
    assert answers[0..] == answers;
    if want == 0 {
      ReadNone(data, pos, answers);
    } else {
      ReadStep(data, pos, want, answers, 0);
      if |answers| > 0 && Granted(data, pos, want, answers[0]) > 0 {
        var got := Granted(data, pos, want, answers[0]);
        ReadFullyExact(data, pos + got, want - got, answers[1..]);
        Adjoin(data, pos, got, |ReadFully(data, pos + got, want - got, answers[1..]).bytes|);
      }
    }
  }

  /** What the driver brings before the first read that brings nothing. */
  function Brought(answers: seq<int>): (n: nat) {
    if |answers| == 0 || answers[0] <= 0 then 0 else answers[0] + Brought(answers[1..])
  }

  /** The reading succeeds exactly if the request lies inside the file and that is enough for it. */
  lemma {:induction false} ReadFullyOkExactly(data: seq<byte>, pos: nat, want: nat, answers: seq<int>)
    requires pos <= |data|
    ensures ReadFully(data, pos, want, answers).ok <==>
      want == 0 || (pos + want <= |data| && Brought(answers) >= want)
    decreases |answers|
  {
    if want > 0 && |answers| > 0 {
      var got := Granted(data, pos, want, answers[0]);
      if got > 0 {
        ReadFullyOkExactly(data, pos + got, want - got, answers[1..]);
      }
    }
  }

  /** Enough answers above zero always complete a read that lies inside the file. */
  lemma ReadFullySucceeds(data: seq<byte>, pos: nat, want: nat, answers: seq<int>)
    requires pos + want <= |data|
    requires want <= |answers| && forall k :: 0 <= k < |answers| ==> answers[k] > 0
    ensures ReadFully(data, pos, want, answers).ok
  {
    hide ReadFully;
    BroughtByEach(answers);
    ReadFullyOkExactly(data, pos, want, answers);
  }

  lemma {:induction false} BroughtByEach(answers: seq<int>)
    requires forall k :: 0 <= k < |answers| ==> answers[k] > 0
    ensures Brought(answers) >= |answers|
  {
    if |answers| > 0 {
      BroughtByEach(answers[1..]);
    }
  }

  class OpenFile {
    const data: seq<byte>
    var pos: nat
    var open: bool

    ghost predicate Valid()
      reads this
    {
      pos <= |data|
    }

    constructor (data: seq<byte>)
      ensures Valid() && this.data == data && pos == 0 && open
    {
      this.data, pos, open := data, 0, true;
    }

    method Read(buf: array<byte>, off: nat, want: nat, answer: int) returns (got: int)
      requires Valid() && off + want <= buf.Length
      modifies this`pos, buf
      ensures Valid()
      ensures got == Granted(data, old(pos), want, answer)
      ensures pos == if got > 0 then old(pos) + got else old(pos)
      ensures buf[..off] == old(buf[..off])
      ensures got > 0 ==> off + got <= buf.Length && buf[off..off + got] == data[old(pos)..pos]
    {
      got := Granted(data, pos, want, answer);
      if got > 0 {
        var from := pos;
        forall i | 0 <= i < got {
          buf[off + i] := data[from + i];
        }
        pos := pos + got;
      }
    }

    /** A read behind `have` octets that came from `from` on. */
    method ReadOn(buf: array<byte>, ghost from: nat, have: nat, want: nat, answer: int) returns (got: int)
      requires Valid() && have + want <= buf.Length && pos == from + have && buf[..have] == data[from..pos]
      modifies this`pos, buf
      ensures Valid() && got == Granted(data, old(pos), want, answer)
      ensures got > 0 ==> pos == from + have + got && have + got <= buf.Length && buf[..have + got] == data[from..pos]
      ensures got <= 0 ==> pos == old(pos) && buf[..have] == data[from..pos]
    {
      got := Read(buf, have, want, answer);
      if got > 0 {
        Adjoin(data, from, have, got);
        assert buf[..have + got] == buf[..have] + buf[have..have + got];
      }
    }
  }

  /** Fills `buf[..len]` from the file, or closes the file and fails at the first read that brings nothing. */
  method FileRead(buf: array<byte>, file: OpenFile, len: nat, answers: seq<int>) returns (ret: int)
    requires file.Valid() && len <= buf.Length
    modifies file, buf
    ensures file.Valid()
    ensures var out := ReadFully(file.data, old(file.pos), len, answers);
      && ret == (if out.ok then 0 else -1)
      && file.pos == old(file.pos) + |out.bytes|
      && (out.ok ==> buf[..len] == out.bytes && file.open == old(file.open))
      && (!out.ok ==> !file.open)
  {
    hide ReadFully;
    var have, k := 0, 0;
    ghost var from: nat := file.pos;
    ghost var all := ReadFully(file.data, file.pos, len, answers);
    ReadFullyExact(file.data, from, len, answers);
    assert answers[0..] == answers;
    while have < len
      invariant 0 <= have <= len && 0 <= k <= |answers| && file.Valid()
      invariant file.open == old(file.open)
      invariant file.pos == from + have && buf[..have] == file.data[from..file.pos]
      invariant var rest := ReadFully(file.data, file.pos, len - have, answers[k..]);
        all.ok == rest.ok && |all.bytes| == have + |rest.bytes|
    {
      ReadStep(file.data, file.pos, len - have, answers, k);
      var got := 0;
      if k < |answers| {
        got := file.ReadOn(buf, from, have, len - have, answers[k]);
      }
      if got <= 0 {
        file.open := false;
        return -1;
      }
      have, k := have + got, k + 1;
    }
    ReadNone(file.data, file.pos, answers[k..]);
    return 0;
  }

  /** Reading that gives up only on an error: a read of nothing is tried again. */
  function ReadPatiently(data: seq<byte>, pos: nat, want: nat, answers: seq<int>): (r: Outcome)
    requires pos <= |data|
    decreases |answers|
  {
    if want == 0 then Outcome(true, [])
    else if |answers| == 0 then Outcome(false, [])
    else
      var got := Granted(data, pos, want, answers[0]);
      if got < 0 then Outcome(false, [])
      else
        var rest := ReadPatiently(data, pos + got, want - got, answers[1..]);
        Outcome(rest.ok, data[pos..pos + got] + rest.bytes)
  }

  lemma PatientStep(data: seq<byte>, pos: nat, want: nat, answers: seq<int>, k: nat)
    requires pos <= |data| && want > 0 && k <= |answers|
    ensures var out := ReadPatiently(data, pos, want, answers[k..]);
      if k == |answers| || Granted(data, pos, want, answers[k]) < 0 then out == Outcome(false, [])
      else
        var got := Granted(data, pos, want, answers[k]);
        var rest := ReadPatiently(data, pos + got, want - got, answers[k + 1..]);
        out == Outcome(rest.ok, data[pos..pos + got] + rest.bytes)
  {
    if k < |answers| {
      assert answers[k..][1..] == answers[k + 1..];
    }
  }

  lemma PatientNone(data: seq<byte>, pos: nat, answers: seq<int>)
    requires pos <= |data|
    ensures ReadPatiently(data, pos, 0, answers) == Outcome(true, [])
  {
  }

  lemma {:induction false} ReadPatientlyExact(data: seq<byte>, pos: nat, want: nat, answers: seq<int>)
    requires pos <= |data|
    ensures var out := ReadPatiently(data, pos, want, answers);
      && |out.bytes| <= want && pos + |out.bytes| <= |data|
      && out.bytes == data[pos..pos + |out.bytes|]
      && (out.ok <==> |out.bytes| == want)
    decreases |answers|
  {
    hide ReadPatiently;
    assert answers[0..] == answers;
    if want == 0 {
      PatientNone(data, pos, answers);
    } else {
      PatientStep(data, pos, want, answers, 0);
      if |answers| > 0 && Granted(data, pos, want, answers[0]) >= 0 {
        var got := Granted(data, pos, want, answers[0]);
        ReadPatientlyExact(data, pos + got, want - got, answers[1..]);
        Adjoin(data, pos, got, |ReadPatiently(data, pos + got, want - got, answers[1..]).bytes|);
      }
    }
  }

  /** What the driver brings before the first error. */
  function BroughtInAll(answers: seq<int>): (n: nat) {
    if |answers| == 0 || answers[0] < 0 then 0 else answers[0] + BroughtInAll(answers[1..])
  }

  lemma {:induction false} ReadPatientlyOkExactly(data: seq<byte>, pos: nat, want: nat, answers: seq<int>)
    requires pos <= |data|
    ensures ReadPatiently(data, pos, want, answers).ok <==>
      want == 0 || (pos + want <= |data| && BroughtInAll(answers) >= want)
    decreases |answers|
  {
    if want > 0 && |answers| > 0 {
      var got := Granted(data, pos, want, answers[0]);
      if got >= 0 {
        ReadPatientlyOkExactly(data, pos + got, want - got, answers[1..]);
      }
    }
  }

  /** Fills `buf[..len]` from the file; only a read error stops it. */
  method FileReadPatiently(file: OpenFile, buf: array<byte>, len: nat, answers: seq<int>) returns (ret: int)
    requires file.Valid() && len <= buf.Length
    modifies file`pos, buf
    ensures file.Valid()
    ensures var out := ReadPatiently(file.data, old(file.pos), len, answers);
      && ret == (if out.ok then 0 else -1)
      && file.pos == old(file.pos) + |out.bytes|
      && (out.ok ==> buf[..len] == out.bytes)
  {
    hide ReadPatiently;
    var have, k := 0, 0;
    ghost var from: nat := file.pos;
    ghost var all := ReadPatiently(file.data, file.pos, len, answers);
    ReadPatientlyExact(file.data, from, len, answers);
    assert answers[0..] == answers;
    while have < len
      invariant 0 <= have <= len && 0 <= k <= |answers| && file.Valid()
      invariant file.pos == from + have && buf[..have] == file.data[from..file.pos]
      invariant var rest := ReadPatiently(file.data, file.pos, len - have, answers[k..]);
        all.ok == rest.ok && |all.bytes| == have + |rest.bytes|
      decreases |answers| - k
    {
      PatientStep(file.data, file.pos, len - have, answers, k);
      var got := -1;
      if k < |answers| {
        got := file.ReadOn(buf, from, have, len - have, answers[k]);
      }
      if got < 0 {
        return -1;
      }
      have, k := have + got, k + 1;
    }
    PatientNone(file.data, file.pos, answers[k..]);
    return 0;
  }
}
