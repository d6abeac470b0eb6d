// The FTP upload callback and the parsing of "257" replies that name the current directory.
module FtpPut {
  import opened Bytes
  import Vfs

  // ---------- upload ----------

  /** The upload's counters and the state of the descriptor. */
  datatype Upload = Upload(used: nat, pos: nat, isOpen: bool)

  const BEGIN := Upload(0, 0, true)

  /** A callback of some size with the driver's answers; a closed descriptor answers with errors only. */
  datatype Call = Call(size: nat, answers: seq<int>)

  function UploadStep(file: seq<byte>, total: nat, u: Upload, c: Call): (r: (Upload, seq<byte>))
    requires u.pos <= |file|
  {
    if c.size == 0 || u.used >= total then (u, [])
    else
      var n := Min(c.size, total - u.used);
      var got := Vfs.ReadFully(file, u.pos, n, if u.isOpen then c.answers else []);
      Vfs.ReadFullyExact(file, u.pos, n, if u.isOpen then c.answers else []);
      if got.ok then (u.(used := u.used + n, pos := u.pos + n), got.bytes)
      else (u.(pos := u.pos + |got.bytes|, isOpen := false), [])
  }

  /** The descriptor stands where the upload has got to, or is closed for good. */
  predicate InStep(file: seq<byte>, total: nat, u: Upload) {
    total <= |file| && u.used <= total && u.pos <= |file| && (u.isOpen ==> u.pos == u.used)
  }

  lemma UploadStepKeeps(file: seq<byte>, total: nat, u: Upload, c: Call)
    requires InStep(file, total, u)
    ensures var (v, out) := UploadStep(file, total, u, c);
      InStep(file, total, v) && u.used <= v.used && out == file[u.used..v.used]
  {
    hide Vfs.ReadFully;
    if c.size > 0 && u.used < total {
      var n := Min(c.size, total - u.used);
      Vfs.ReadFullyExact(file, u.pos, n, if u.isOpen then c.answers else []);
      Vfs.ReadStep(file, u.pos, n, [], 0);
    }
  }

  function UploadRun(file: seq<byte>, total: nat, u: Upload, calls: seq<Call>): (r: (Upload, seq<byte>))
    requires InStep(file, total, u)
    ensures InStep(file, total, r.0)
    decreases |calls|
  {
    if |calls| == 0 then (u, [])
    else
      UploadStepKeeps(file, total, u, calls[0]);
      var (v, out) := UploadStep(file, total, u, calls[0]);
      var rest := UploadRun(file, total, v, calls[1..]);
      (rest.0, out + rest.1)
  }

  /** For any sizes, short reads and failures the callbacks together hand out the file's bytes from where
      they started to where they have got, each once and in order, never beyond the total. */
  lemma {:induction false} UploadConserves(file: seq<byte>, total: nat, u: Upload, calls: seq<Call>)
    requires InStep(file, total, u)
    ensures var (v, out) := UploadRun(file, total, u, calls);
      InStep(file, total, v) && u.used <= v.used && out == file[u.used..v.used]
    decreases |calls|
  {
    hide UploadStep;
    if |calls| > 0 {
      UploadStepKeeps(file, total, u, calls[0]);
      var v := UploadStep(file, total, u, calls[0]).0;
      UploadConserves(file, total, v, calls[1..]);
      var w := UploadRun(file, total, v, calls[1..]).0;
      assert file[u.used..v.used] + file[v.used..w.used] == file[u.used..w.used];
    }
  }

  /** A callback that asks for something finds the file open and returns nothing exactly if all earlier
      output is the first `total` bytes of the file. */
  lemma UploadComplete(file: seq<byte>, total: nat, calls: seq<Call>, c: Call)
    requires total <= |file| && c.size > 0
    ensures var (v, out) := UploadRun(file, total, BEGIN, calls);
      var (w, last) := UploadStep(file, total, v, c);
      w.isOpen ==> (last == [] <==> out == file[..total])
  {
    hide Vfs.ReadFully, UploadRun;
    UploadConserves(file, total, BEGIN, calls);
    var v := UploadRun(file, total, BEGIN, calls).0;
    assert file[0..v.used] == file[..v.used];
    if v.used < total {
      var n := Min(c.size, total - v.used);
      Vfs.ReadFullyExact(file, v.pos, n, if v.isOpen then c.answers else []);
    }
  }

  /** Reads that all bring something, and enough of them for the callback. */
  predicate Works(c: Call) {
    |c.answers| >= c.size && forall k :: 0 <= k < |c.answers| ==> c.answers[k] > 0
  }

  function Asked(calls: seq<Call>): (n: nat) {
    if |calls| == 0 then 0 else calls[0].size + Asked(calls[1..])
  }

  lemma WorkingStep(file: seq<byte>, total: nat, u: Upload, c: Call)
    requires InStep(file, total, u) && u.isOpen && Works(c)
    ensures var v := UploadStep(file, total, u, c).0; v.isOpen && v.used == Min(total, u.used + c.size)
  {
    hide Vfs.ReadFully;
    if c.size > 0 && u.used < total {
      Vfs.ReadFullySucceeds(file, u.pos, Min(c.size, total - u.used), c.answers);
    }
  }

  lemma {:induction false} UsedIsAsked(file: seq<byte>, total: nat, u: Upload, calls: seq<Call>)
    requires InStep(file, total, u) && u.isOpen && forall k :: 0 <= k < |calls| ==> Works(calls[k])
    ensures var v := UploadRun(file, total, u, calls).0; v.isOpen && v.used == Min(total, u.used + Asked(calls))
    decreases |calls|
  {
    hide UploadStep, Works;
    if |calls| > 0 {
      UploadStepKeeps(file, total, u, calls[0]);
      WorkingStep(file, total, u, calls[0]);
      UsedIsAsked(file, total, UploadStep(file, total, u, calls[0]).0, calls[1..]);
    }
  }

  /** With working reads the output is as much of the first `total` bytes as was asked for: the upload is
      complete once the sizes add up to the total, and not before. */
  lemma UploadReaches(file: seq<byte>, total: nat, calls: seq<Call>)
    requires total <= |file| && forall k :: 0 <= k < |calls| ==> Works(calls[k])
    ensures var out := UploadRun(file, total, BEGIN, calls).1;
      out == file[..Min(total, Asked(calls))] && (out == file[..total] <==> Asked(calls) >= total)
  {
    hide Works, UploadRun, Asked;
    UploadConserves(file, total, BEGIN, calls);
    UsedIsAsked(file, total, BEGIN, calls);
  }

  /** Hence ceil(total / n) callbacks of n bytes or more are enough. */
  lemma UploadEnds(file: seq<byte>, total: nat, calls: seq<Call>, n: nat)
    requires total <= |file| && forall k :: 0 <= k < |calls| ==> Works(calls[k])
    requires (forall k :: 0 <= k < |calls| ==> calls[k].size >= n) && |calls| * n >= total
    ensures UploadRun(file, total, BEGIN, calls).1 == file[..total]
  {
    hide Works, UploadRun, Asked;
    UploadReaches(file, total, calls);
    SizesAddUp(calls, n);
  }

  lemma {:induction false} SizesAddUp(calls: seq<Call>, n: nat)
    requires forall k :: 0 <= k < |calls| ==> calls[k].size >= n
    ensures Asked(calls) >= |calls| * n
  {
    if |calls| > 0 {
      SizesAddUp(calls[1..], n);
      assert |calls| * n == n + |calls[1..]| * n;
    }
  }

  class Uploader {
    const file: Vfs.OpenFile
    const total: nat
    var used: nat

    constructor (data: seq<byte>, total: nat)
      requires total <= |data|
      ensures fresh(file) && file.data == data && this.total == total && View() == BEGIN && file.Valid()
    {
      file := new Vfs.OpenFile(data);
      this.total := total;
      used := 0;
    }

    ghost function View(): (r: Upload)
      reads this, file
    {
      Upload(used, file.pos, file.open)
    }

    method UploadData(buf: array<byte>, c: Call) returns (n: nat)
      requires file.Valid() && c.size <= buf.Length
      modifies this, file, buf
      ensures file.Valid() && n <= buf.Length
      ensures var r := UploadStep(file.data, total, old(View()), c); View() == r.0 && buf[..n] == r.1
    {
      hide Vfs.ReadFully;
      if c.size == 0 {
        return 0;
      }
      if used < total {
        var readLen := Min(c.size, total - used);
        var answers := if file.open then c.answers else [];
        Vfs.ReadFullyExact(file.data, file.pos, readLen, answers);
        var ret := Vfs.FileRead(buf, file, readLen, answers);
        if ret < 0 {
          return 0;
        }
        used := used + readLen;
        ClosedReadsFail(file.data, old(file.pos), readLen);
        return readLen;
      }
      return 0;
    }
  }

  lemma ClosedReadsFail(data: seq<byte>, pos: nat, want: nat)
    requires pos <= |data| && want > 0
    ensures !Vfs.ReadFully(data, pos, want, []).ok
  {
  }

  // ---------- 257 replies ----------

  const QUOTE := '\"'
  const PREFIX := "257 \""

  /** The remembered directories. */
  datatype Dirs = Dirs(lastReply: Option<string>, current: Option<string>)

  /** The position of the first quote from `i` on, or the length. */
  function QuoteFrom(s: string, i: nat): (k: nat)
    requires i <= |s|
    ensures i <= k <= |s| && (forall j :: i <= j < k ==> s[j] != QUOTE) && (k < |s| ==> s[k] == QUOTE)
    decreases |s| - i
  {
    if i == |s| || s[i] == QUOTE then i else QuoteFrom(s, i + 1)
  }

  /** A C string ends at its first NUL. */
  function CString(s: string): (text: string)
    ensures text <= s && '\0' !in text && (|text| < |s| ==> s[|text|] == '\0')
  {
    if s == "" || s[0] == '\0' then "" else [s[0]] + CString(s[1..])
  }

  predicate Is257(reply: string) {
    |reply| > 4 && reply[..3] == "257"
  }

  function LastDir(last: Option<string>, reply: string, mallocOk: bool): (r: Option<string>) {
    if |reply| > 5 && reply[..5] == PREFIX then
      var k := QuoteFrom(reply, 5);
      if k < |reply| && mallocOk then Some(CString(reply[5..k])) else last
    else last
  }

  /** A reply line: only 257 matters, and it copies the last named directory to the current one. */
  function HeaderStep(d: Dirs, reply: string, mallocOk: bool): (r: Dirs) {
    if !Is257(reply) then d
    else
      var last := LastDir(d.lastReply, reply, mallocOk);
      Dirs(last, if last.Some? then last else d.current)
  }

  lemma {:induction false} CStringWhole(s: string)
    requires '\0' !in s
    ensures CString(s) == s
  {
    if s != "" {
      CStringWhole(s[1..]);
    }
  }

  lemma FirstQuote(reply: string, path: string, tail: string)
    requires reply == PREFIX + path + [QUOTE] + tail && QUOTE !in path
    ensures QuoteFrom(reply, 5) == 5 + |path| && reply[5..5 + |path|] == path
  {
    assert |PREFIX| == 5;
    assert forall j :: 5 <= j < 5 + |path| ==> reply[j] == path[j - 5];
    assert reply[5 + |path|] == QUOTE;
  }

  /** A reply that names a quote-free path sets both remembered directories to it, whatever follows. */
  lemma ReplyNamesDirectory(d: Dirs, path: string, tail: string)
    requires QUOTE !in path && '\0' !in path
    ensures HeaderStep(d, PREFIX + path + [QUOTE] + tail, true) == Dirs(Some(path), Some(path))
  {
    hide QuoteFrom, CString;
    var reply := PREFIX + path + [QUOTE] + tail;
    FirstQuote(reply, path, tail);
    CStringWhole(path);
    assert reply[..5] == PREFIX && reply[..3] == "257";
  }

  /** A 257 reply without a closing quote leaves the last named directory alone. */
  lemma UnclosedReplyIgnored(d: Dirs, reply: string, mallocOk: bool)
    requires forall j :: 5 <= j < |reply| ==> reply[j] != QUOTE
    ensures HeaderStep(d, reply, mallocOk).lastReply == d.lastReply
  {
  }

  /** Every reply: one that is not 257 changes nothing; a 257 sets the last named directory if a quoted
      path is closed and can be kept, and in any case copies it, if there is one, to the current one. */
  lemma ReplyExactly(d: Dirs, reply: string, mallocOk: bool)
    ensures var e := HeaderStep(d, reply, mallocOk);
      && (!(|reply| > 4 && reply[0] == '2' && reply[1] == '5' && reply[2] == '7') ==> e == d)
      && (|reply| > 4 && reply[..3] == "257" ==>
            && e.current == (if e.lastReply.Some? then e.lastReply else d.current)
            && (e.lastReply == d.lastReply ||
                  (mallocOk && |reply| > 5 && reply[..5] == "257 \"" && QUOTE in reply[5..])))
  {
    hide CString;
    if |reply| > 5 {
      var k := QuoteFrom(reply, 5);
      if k < |reply| {
        assert reply[5..][k - 5] == QUOTE;
      }
    }
    if |reply| > 4 && reply[..3] == "257" {
      assert reply[0] == reply[..3][0] && reply[1] == reply[..3][1] && reply[2] == reply[..3][2];
    }
  }

  /** RFC 959, Appendix II: a quote inside the path is sent twice. */
  function Doubled(path: string): (s: string) {
    if path == "" then "" else (if path[0] == QUOTE then [QUOTE, QUOTE] else [path[0]]) + Doubled(path[1..])
  }

  function BeforeQuote(path: string): (s: string) {
    if path == "" || path[0] == QUOTE then "" else [path[0]] + BeforeQuote(path[1..])
  }

  lemma {:induction false} DoubledShape(path: string) returns (rest: string)
    ensures Doubled(path) == BeforeQuote(path) + rest
    ensures QUOTE !in BeforeQuote(path) && ('\0' !in path ==> '\0' !in BeforeQuote(path))
    ensures if QUOTE in path then rest != "" && rest[0] == QUOTE && |BeforeQuote(path)| < |path|
            else rest == "" && BeforeQuote(path) == path
  {
    if path == "" || path[0] == QUOTE {
      rest := Doubled(path);
    } else {
      rest := DoubledShape(path[1..]);
      assert path == [path[0]] + path[1..];
      assert [path[0]] + (BeforeQuote(path[1..]) + rest) == BeforeQuote(path) + rest;
    }
  }

  /** The parser does not undo the doubling: it recovers the path exactly if the path holds no quote. */
  lemma DoubledPathExactly(d: Dirs, path: string, tail: string)
    requires '\0' !in path
    ensures HeaderStep(d, PREFIX + Doubled(path) + [QUOTE] + tail, true).lastReply == Some(path) <==> QUOTE !in path
  {
    hide HeaderStep, Doubled, BeforeQuote;
    var rest := DoubledShape(path);
    var before := BeforeQuote(path);
    var reply := PREFIX + Doubled(path) + [QUOTE] + tail;
    if QUOTE in path {
      ReplyNamesDirectory(d, before, rest[1..] + [QUOTE] + tail);
      assert rest == [QUOTE] + rest[1..];
      assert reply == PREFIX + before + [QUOTE] + (rest[1..] + [QUOTE] + tail);
    } else {
      ReplyNamesDirectory(d, path, tail);
      assert Doubled(path) == path + "" == path;
    }
  }

  class Client {
    var lastReply: Option<string>
    var current: Option<string>

    constructor ()
      ensures View() == Dirs(None, None)
    {
      lastReply, current := None, None;
    }

    ghost function View(): (r: Dirs)
      reads this
    {
      Dirs(lastReply, current)
    }

    /** Scans for the closing quote and stores what stands before it. */
    method GetCurrentDir(reply: string, mallocOk: bool)
      modifies this`lastReply
      ensures lastReply == LastDir(old(lastReply), reply, mallocOk)
    {
      hide CString;
      if |reply| > 5 {
        if reply[..5] == PREFIX {
          var i := 5;
          while i < |reply|
            invariant 5 <= i <= |reply|
            invariant QuoteFrom(reply, 5) == QuoteFrom(reply, i)
          {
            if reply[i] == QUOTE {
              break;
            }
            i := i + 1;
          }
          if i < |reply| && mallocOk {
            lastReply := Some(CString(reply[5..i]));
          }
        }
      }
    }

    method OpenHeader(reply: string, mallocOk: bool)
      modifies this
      ensures View() == HeaderStep(old(View()), reply, mallocOk)
    {
      hide LastDir;
      if |reply| > 4 && reply[..3] == "257" {
        GetCurrentDir(reply, mallocOk);
        if lastReply.Some? {
          current := lastReply;
        }
      }
    }
  }
}
