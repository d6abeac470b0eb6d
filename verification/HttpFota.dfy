// The resumable firmware download: up to four HTTP attempts, each appending what the server sends
// from the stored length on, until the stored image is as long as the first response announced.
module HttpFota {
  import opened Bytes

  const MAX_RETRIES := 3

  /** Received body data, and whether the FOTA module stores it. */
  datatype Piece = Piece(data: seq<byte>, stored: bool)

  /** The SDK's and the server's part in one attempt. */
  datatype Attempt = Attempt(
    sizeKnown: bool, freeSize: int, code: int, contentLength: int, pieces: seq<Piece>,
    performOk: bool, sizeKnownAfter: bool)

  /** The download structure and the stored image. */
  datatype Fota = Fota(image: seq<byte>, wantSize: nat, firstDone: bool, received: nat)

  const CLEARED := Fota([], 0, false, 0)

  datatype Leave = Finished | GaveUp | Aborted

  predicate Success(code: int) {
    200 <= code < 300
  }

  function Body(pieces: seq<Piece>): (data: seq<byte>) {
    if |pieces| == 0 then [] else pieces[0].data + Body(pieces[1..])
  }

  /** The first callback of the whole download looks at the response; None if it refuses the body. */
  function Inspect(f: Fota, a: Attempt): (r: Option<Fota>) {
    if f.firstDone then Some(f)
    else if !Success(a.code) then None
    else if a.contentLength > 0 then
      if a.contentLength > a.freeSize then None else Some(f.(wantSize := a.contentLength, firstDone := true))
    else Some(f.(wantSize := 0, firstDone := true))
  }

  /** The body callback: the new state and the size it returns. */
  function BodyCallback(f: Fota, a: Attempt, p: Piece): (r: (Fota, nat)) {
    match Inspect(f, a)
    case None => (f, 0)
    case Some(g) =>
      if !p.stored then (g, 0)
      else (g.(image := g.image + p.data, received := g.received + |p.data|), |p.data|)
  }

  /** Callbacks until the body ends or one of them returns 0, which terminates the transfer. */
  function Deliver(f: Fota, a: Attempt, pieces: seq<Piece>): (g: Fota)
    decreases |pieces|
  {
    if |pieces| == 0 then f
    else
      var (g, ret) := BodyCallback(f, a, pieces[0]);
      if ret == 0 then g else Deliver(g, a, pieces[1..])
  }

  /** The retry loop from its `count`-th resume on: the final state, how it ended, the attempts made. */
  function Process(f: Fota, attempts: nat -> Attempt, count: nat): (r: (Fota, Leave, nat))
    decreases MAX_RETRIES + 1 - count
  {
    if count > MAX_RETRIES then (f, GaveUp, count)
    else
      var a := attempts(count);
      if !a.sizeKnown || a.freeSize < 0 then (f, Aborted, count)
      else
        var g := Deliver(f, a, a.pieces);
        if !a.performOk || !a.sizeKnownAfter then (g, Aborted, count + 1)
        else if g.wantSize > |g.image| then Process(g, attempts, count + 1)
        else (g, Finished, count + 1)
  }

  // ---------- what a server may answer ----------

  /** A response to a request from `start` on, as sections 14.2 and 15.3 of RFC 9110 have it: 206 carries
      the remote file from there, 200 ignores the range and carries the file from its beginning. Both may
      be cut short, and announce the length of the whole body if any. Other codes may carry anything. */
  predicate Conforms(remote: seq<byte>, start: nat, a: Attempt) {
    && (a.code == 206 ==>
          && start <= |remote| && Body(a.pieces) <= remote[start..]
          && (a.contentLength > 0 ==> a.contentLength == |remote| - start))
    && (a.code == 200 ==>
          && Body(a.pieces) <= remote
          && (a.contentLength > 0 ==> a.contentLength == |remote|))
  }

  /** The codes that continue the image: 206, 200 while nothing is stored, an error while no body was accepted. */
  predicate SafeCode(f: Fota, code: int) {
    code == 206 || (code == 200 && f.image == []) || (!Success(code) && !f.firstDone)
  }

  /** The stored image is a prefix of the remote file and counted; a recorded length is the whole file's. */
  predicate Inv(remote: seq<byte>, f: Fota) {
    && f.image <= remote && f.received == |f.image|
    && f.wantSize in {0, |remote|}
    && (!f.firstDone ==> f.image == [] && f.wantSize == 0)
  }

  lemma Continue(remote: seq<byte>, image: seq<byte>, data: seq<byte>, rest: seq<byte>)
    requires image <= remote && data + rest <= remote[|image|..]
    ensures image + data <= remote && rest <= remote[|image + data|..]
  {
    var tail := remote[|image|..];
    assert remote == image + tail;
    assert data == tail[..|data|];
    assert tail[|data|..] == remote[|image + data|..];
    assert rest == (data + rest)[|data|..];
  }

  lemma PieceKeeps(remote: seq<byte>, f: Fota, a: Attempt, p: Piece)
    requires Inv(remote, f) && Success(a.code) && f.image + p.data <= remote
    requires !f.firstDone && a.contentLength > 0 ==> a.contentLength == |remote|
    ensures var (g, ret) := BodyCallback(f, a, p);
      && Inv(remote, g) && (g.firstDone || g == f) && (f.firstDone ==> g.firstDone)
      && (ret != 0 ==> g.firstDone && g.image == f.image + p.data)
  {
  }

  lemma {:induction false} DeliverKeeps(remote: seq<byte>, f: Fota, a: Attempt, pieces: seq<Piece>)
    requires Inv(remote, f) && Success(a.code)
    requires Body(pieces) <= remote[|f.image|..]
    requires !f.firstDone && a.contentLength > 0 ==> a.contentLength == |remote|
    ensures Inv(remote, Deliver(f, a, pieces))
    decreases |pieces|
  {
    hide BodyCallback;
    if |pieces| > 0 {
      Continue(remote, f.image, pieces[0].data, Body(pieces[1..]));
      PieceKeeps(remote, f, a, pieces[0]);
      var g, ret := BodyCallback(f, a, pieces[0]).0, BodyCallback(f, a, pieces[0]).1;
      if ret != 0 {
        hide Inv;
        DeliverKeeps(remote, g, a, pieces[1..]);
      }
    }
  }

  /** An error response before anything was accepted stores nothing. */
  lemma RefusedBody(f: Fota, a: Attempt, pieces: seq<Piece>)
    requires !f.firstDone && !Success(a.code)
    ensures Deliver(f, a, pieces) == f
  {
  }

  /** One attempt, with however many callbacks and however it breaks off, keeps the image a prefix. */
  lemma AttemptKeeps(remote: seq<byte>, f: Fota, a: Attempt)
    requires Inv(remote, f) && Conforms(remote, |f.image|, a) && SafeCode(f, a.code)
    ensures Inv(remote, Deliver(f, a, a.pieces))
  {
    hide Deliver, Body;
    if Success(a.code) {
      assert remote[0..] == remote;
      DeliverKeeps(remote, f, a, a.pieces);
    } else {
      RefusedBody(f, a, a.pieces);
    }
  }

  /** The attempts that the loop makes get conforming answers with codes that continue the image. */
  predicate GoodServer(remote: seq<byte>, f: Fota, attempts: nat -> Attempt, count: nat)
    decreases MAX_RETRIES + 1 - count
  {
    var a := attempts(count);
    count <= MAX_RETRIES && a.sizeKnown && a.freeSize >= 0 ==>
      var g := Deliver(f, a, a.pieces);
      && Conforms(remote, |f.image|, a) && SafeCode(f, a.code)
      && (a.performOk && a.sizeKnownAfter && g.wantSize > |g.image| ==> GoodServer(remote, g, attempts, count + 1))
  }

  lemma {:induction false} ProcessKeeps(remote: seq<byte>, f: Fota, attempts: nat -> Attempt, count: nat)
    requires Inv(remote, f) && GoodServer(remote, f, attempts, count) && count <= MAX_RETRIES + 1
    ensures var (g, leave, used) := Process(f, attempts, count);
      && Inv(remote, g) && used <= MAX_RETRIES + 1
      && (leave.Finished? ==> g.wantSize <= |g.image|)
    decreases MAX_RETRIES + 1 - count
  {
    var a := attempts(count);
    if count <= MAX_RETRIES && a.sizeKnown && a.freeSize >= 0 {
      AttemptKeeps(remote, f, a);
      var g := Deliver(f, a, a.pieces);
      if a.performOk && a.sizeKnownAfter && g.wantSize > |g.image| {
        ProcessKeeps(remote, g, attempts, count + 1);
      }
    }
  }

  /** Starting from an empty image: at most four attempts, the image always a prefix of the remote file,
      and the whole of it if the loop finishes knowing the length. */
  lemma DownloadIsPrefix(remote: seq<byte>, attempts: nat -> Attempt)
    requires GoodServer(remote, CLEARED, attempts, 0)
    ensures var (g, leave, used) := Process(CLEARED, attempts, 0);
      && used <= 4 && g.image <= remote && g.received == |g.image|
      && (leave.Finished? && g.wantSize > 0 ==> g.image == remote)
  {
    ProcessKeeps(remote, CLEARED, attempts, 0);
  }

  // ---------- what is stored, and completion ----------

  /** The response is looked at once: a success whose announced length, if any, fits the free space. */
  predicate Accepts(f: Fota, a: Attempt) {
    f.firstDone || (Success(a.code) && a.contentLength <= a.freeSize)
  }

  /** The body up to the first piece that is empty or not stored, which ends the transfer. */
  function Leading(pieces: seq<Piece>): (data: seq<byte>) {
    if |pieces| == 0 || !pieces[0].stored || pieces[0].data == [] then []
    else pieces[0].data + Leading(pieces[1..])
  }

  /** The callback returns the length of a piece and appends it exactly if the body is accepted and the
      piece is stored; otherwise it returns 0 and the image stays. */
  lemma CallbackExactly(f: Fota, a: Attempt, p: Piece)
    requires a.freeSize >= 0
    ensures var (g, ret) := BodyCallback(f, a, p);
      if Accepts(f, a) && p.stored then
        ret == |p.data| && g.image == f.image + p.data && g.received == f.received + |p.data| && g.firstDone
      else
        ret == 0 && g.image == f.image && g.received == f.received
    ensures Accepts(f, a) ==> BodyCallback(f, a, p).0.firstDone
  {
  }

  /** One attempt, however its body is cut: the image grows by exactly the leading stored pieces. */
  lemma {:induction false} AttemptStores(f: Fota, a: Attempt, pieces: seq<Piece>)
    requires a.freeSize >= 0
    ensures Deliver(f, a, pieces).image == f.image + if Accepts(f, a) then Leading(pieces) else []
    decreases |pieces|
  {
    hide BodyCallback;
    assert f.image + [] == f.image;
    if |pieces| > 0 {
      CallbackExactly(f, a, pieces[0]);
      var g := BodyCallback(f, a, pieces[0]).0;
      if Accepts(f, a) && pieces[0].stored {
        assert f.image + pieces[0].data + [] == f.image + pieces[0].data;
        if pieces[0].data != [] {
          AttemptStores(g, a, pieces[1..]);
          assert f.image + (pieces[0].data + Leading(pieces[1..])) == f.image + pieces[0].data + Leading(pieces[1..]);
        }
      }
    }
  }

  predicate AllStored(pieces: seq<Piece>) {
    forall k :: 0 <= k < |pieces| ==> pieces[k].stored && pieces[k].data != []
  }

  lemma {:induction false} AllLeading(pieces: seq<Piece>)
    requires AllStored(pieces)
    ensures Leading(pieces) == Body(pieces)
  {
    if |pieces| > 0 {
      AllLeading(pieces[1..]);
    }
  }

  /** The body is all that is missing, and it is stored. */
  predicate Whole(remote: seq<byte>, f: Fota, a: Attempt) {
    Accepts(f, a) && AllStored(a.pieces) && f.image + Body(a.pieces) == remote
  }

  lemma WholeArrives(remote: seq<byte>, f: Fota, a: Attempt)
    requires a.freeSize >= 0 && Whole(remote, f, a)
    ensures Deliver(f, a, a.pieces).image == remote
  {
    hide Deliver, Body;
    AttemptStores(f, a, a.pieces);
    AllLeading(a.pieces);
  }

  /** The module and the transfer report no error. */
  predicate Undisturbed(a: Attempt) {
    a.sizeKnown && a.freeSize >= 0 && a.performOk && a.sizeKnownAfter
  }

  /** The state before the k-th attempt if every earlier one ended without error. */
  function StateAt(f: Fota, attempts: nat -> Attempt, k: nat): (g: Fota) {
    if k == 0 then f else var g := StateAt(f, attempts, k - 1); Deliver(g, attempts(k - 1), attempts(k - 1).pieces)
  }

  /** The j-th attempt ends without error and leaves the image short of the recorded length. */
  predicate GoesOn(f: Fota, attempts: nat -> Attempt, j: nat) {
    var g := StateAt(f, attempts, j + 1);
    Undisturbed(attempts(j)) && g.wantSize > |g.image|
  }

  lemma {:induction false} ReachesAttempt(f: Fota, attempts: nat -> Attempt, k: nat)
    requires k <= MAX_RETRIES + 1 && forall j: nat :: j < k ==> GoesOn(f, attempts, j)
    ensures Process(f, attempts, 0) == Process(StateAt(f, attempts, k), attempts, k)
  {
    hide Deliver;
    if k > 0 {
      ReachesAttempt(f, attempts, k - 1);
      assert GoesOn(f, attempts, k - 1);
    }
  }

  /** The loop goes on exactly as long as the image is short of the recorded length: if that is so after
      each of four attempts it gives up, and if it first is not so after the k-th it finishes there. */
  lemma LoopEndsExactly(f: Fota, attempts: nat -> Attempt, k: nat)
    requires k <= 4 && forall j: nat :: j < k ==> GoesOn(f, attempts, j)
    requires k < 4 ==> Undisturbed(attempts(k)) && !GoesOn(f, attempts, k)
    ensures Process(f, attempts, 0) ==
      if k == 4 then (StateAt(f, attempts, 4), GaveUp, 4) else (StateAt(f, attempts, k + 1), Finished, k + 1)
  {
    hide Deliver;
    ReachesAttempt(f, attempts, k);
  }

  /** The j-th attempt ends without error and gets a conforming answer with a code that continues the image. */
  predicate GoodAttempt(remote: seq<byte>, attempts: nat -> Attempt, j: nat) {
    var f, a := StateAt(CLEARED, attempts, j), attempts(j);
    Undisturbed(a) && Conforms(remote, |f.image|, a) && SafeCode(f, a.code)
  }

  lemma {:induction false} WantStays(f: Fota, a: Attempt, pieces: seq<Piece>)
    requires f.firstDone
    ensures var g := Deliver(f, a, pieces); g.firstDone && g.wantSize == f.wantSize
    decreases |pieces|
  {
    if |pieces| > 0 {
      WantStays(BodyCallback(f, a, pieces[0]).0, a, pieces[1..]);
    }
  }

  lemma FirstWant(a: Attempt)
    requires Success(a.code) && 0 < a.contentLength <= a.freeSize && a.pieces != []
    ensures var g := Deliver(CLEARED, a, a.pieces); g.firstDone && g.wantSize == a.contentLength
  {
    var g := BodyCallback(CLEARED, a, a.pieces[0]).0;
    WantStays(g, a, a.pieces[1..]);
  }

  lemma {:induction false} GoodStates(remote: seq<byte>, attempts: nat -> Attempt, k: nat)
    requires forall j: nat :: j < k ==> GoodAttempt(remote, attempts, j)
    requires k > 0 && remote != [] ==>
      var a := attempts(0); Success(a.code) && 0 < a.contentLength <= a.freeSize && a.pieces != []
    ensures var g := StateAt(CLEARED, attempts, k);
      Inv(remote, g) && (k > 0 && remote != [] ==> g.firstDone && g.wantSize == |remote|)
  {
    if k > 0 {
      hide Deliver, Conforms, Body;
      GoodStates(remote, attempts, k - 1);
      assert GoodAttempt(remote, attempts, k - 1);
      var f, a := StateAt(CLEARED, attempts, k - 1), attempts(k - 1);
      AttemptKeeps(remote, f, a);
      if remote != [] {
        if k == 1 {
          FirstWant(a);
        } else {
          WantStays(f, a, a.pieces);
        }
      }
    }
  }

  /** An attempt that does not end without error is the last one; it is not even made if the stored size or
      the free space is unknown. */
  lemma ErrorAborts(f: Fota, attempts: nat -> Attempt, k: nat)
    requires k < 4 && (forall j: nat :: j < k ==> GoesOn(f, attempts, j)) && !Undisturbed(attempts(k))
    ensures Process(f, attempts, 0) ==
      if !attempts(k).sizeKnown || attempts(k).freeSize < 0 then (StateAt(f, attempts, k), Aborted, k)
      else (StateAt(f, attempts, k + 1), Aborted, k + 1)
  {
    hide Deliver;
    ReachesAttempt(f, attempts, k);
  }

  /** A download in up to four attempts: conforming answers, the first announces the length and brings
      something, those before the k-th are cut short, and the k-th brings all that is missing. The loop
      finishes there with the whole file. */
  lemma DownloadCompletes(remote: seq<byte>, attempts: nat -> Attempt, k: nat)
    requires k <= 3 && forall j: nat :: j <= k ==> GoodAttempt(remote, attempts, j)
    requires remote != [] ==>
      var a := attempts(0); Success(a.code) && 0 < a.contentLength <= a.freeSize && a.pieces != []
    requires forall j: nat :: 0 < j <= k ==> |StateAt(CLEARED, attempts, j).image| < |remote|
    requires Whole(remote, StateAt(CLEARED, attempts, k), attempts(k))
    ensures var (g, leave, used) := Process(CLEARED, attempts, 0);
      g.image == remote && leave.Finished? && used == k + 1
  {
    hide Deliver, Whole, Process, Inspect, Conforms, SafeCode;
    forall j: nat | j < k ensures GoesOn(CLEARED, attempts, j) {
      GoodStates(remote, attempts, j + 1);
      assert GoodAttempt(remote, attempts, j);
    }
    GoodStates(remote, attempts, k + 1);
    assert GoodAttempt(remote, attempts, k);
    WholeArrives(remote, StateAt(CLEARED, attempts, k), attempts(k));
    LoopEndsExactly(CLEARED, attempts, k);
  }

  /** With a conforming server that sends everything at once, one attempt is enough, announced or not. */
  lemma OneAttemptIsEnough(remote: seq<byte>, attempts: nat -> Attempt)
    requires var a := attempts(0);
      && Undisturbed(a) && a.code in {200, 206} && Conforms(remote, 0, a) && a.contentLength <= a.freeSize
      && AllStored(a.pieces) && Body(a.pieces) == remote
    ensures var (g, leave, used) := Process(CLEARED, attempts, 0);
      g.image == remote && leave.Finished? && used == 1
  {
    hide Deliver, Body;
    var a := attempts(0);
    assert [] + Body(a.pieces) == remote;
    AttemptKeeps(remote, CLEARED, a);
    WholeArrives(remote, CLEARED, a);
  }

  // ---------- where the guarantee ends ----------

  /** A byte that does not continue `image` towards `remote`. */
  function Stray(remote: seq<byte>, image: seq<byte>): (r: byte) {
    if |image| < |remote| && remote[|image|] == 0 then 1 else 0
  }

  lemma StrayBreaks(remote: seq<byte>, image: seq<byte>)
    ensures !(image + [Stray(remote, image)] <= remote)
  {
    var longer := image + [Stray(remote, image)];
    assert longer[|image|] == Stray(remote, image);
  }

  lemma OnePiece(f: Fota, a: Attempt, p: Piece)
    ensures Deliver(f, a, [p]) == BodyCallback(f, a, p).0
  {
    assert [p][1..] == [];
  }

  /** The status code is looked at only once, and 200 is never told from 206. A conforming response of a
      given code leaves the image a prefix, whatever it carries, exactly if the code continues the image. */
  lemma StatusSafeExactly(remote: seq<byte>, f: Fota, code: int)
    requires Inv(remote, f)
    ensures
      (forall a: Attempt ::
         a.code == code && Conforms(remote, |f.image|, a) ==> Deliver(f, a, a.pieces).image <= remote)
      <==> SafeCode(f, code)
  {
    hide Deliver, Body;
    if SafeCode(f, code) {
      forall a: Attempt | a.code == code && Conforms(remote, |f.image|, a)
        ensures Deliver(f, a, a.pieces).image <= remote
      {
        AttemptKeeps(remote, f, a);
      }
    } else if code == 200 {
      var a := WholeFile(remote);
      WholeConforms(remote, |f.image|);
      OnePiece(f, a, a.pieces[0]);
      assert |BodyCallback(f, a, a.pieces[0]).0.image| > |remote|;
    } else {
      var page := [Piece([Stray(remote, f.image)], true)];
      var a := Attempt(true, 0, code, 0, page, true, true);
      StrayBreaks(remote, f.image);
      OnePiece(f, a, page[0]);
      assert BodyCallback(f, a, page[0]).0.image == f.image + [Stray(remote, f.image)];
    }
  }

  /** The answer of a server that ignores ranges: 200 and the whole file in one piece. */
  function WholeFile(remote: seq<byte>): (a: Attempt) {
    Attempt(true, |remote|, 200, |remote|, [Piece(remote, true)], true, true)
  }

  lemma WholeConforms(remote: seq<byte>, start: nat)
    ensures Conforms(remote, start, WholeFile(remote))
  {
    var pieces := [Piece(remote, true)];
    assert pieces[1..] == [] && Body(pieces) == remote + Body([]) == remote;
  }

  /** A download broken off after k bytes and resumed at a server that ignores ranges: the loop finishes
      with the k bytes in front of the whole file. */
  lemma IgnoredRangeCorrupts(remote: seq<byte>, k: nat)
    requires 0 < k < |remote|
    ensures var f := Fota(remote[..k], |remote|, true, k);
      && Inv(remote, f) && Conforms(remote, k, WholeFile(remote))
      && Process(f, n => WholeFile(remote), 1) ==
         (Fota(remote[..k] + remote, |remote|, true, k + |remote|), Finished, 2)
      && !(remote[..k] + remote <= remote)
  {
    hide Deliver, Body;
    var f, a := Fota(remote[..k], |remote|, true, k), WholeFile(remote);
    WholeConforms(remote, k);
    OnePiece(f, a, a.pieces[0]);
  }

  /** The announced length is that of the response, not of the file. If `k` bytes were stored before the
      download began, an attempt that satisfies the loop has fetched the whole file only if k is 0. */
  lemma StoredStartExactly(remote: seq<byte>, k: nat)
    requires k < |remote|
    ensures
      (forall a: Attempt ::
         a.code in {200, 206} && Conforms(remote, k, a) && 0 < a.contentLength <= a.freeSize ==>
           var g := Deliver(Fota(remote[..k], 0, false, 0), a, a.pieces);
           g.firstDone && g.wantSize <= |g.image| ==> g.image == remote)
      <==> k == 0
  {
    var f := Fota(remote[..k], 0, false, 0);
    if k == 0 {
      forall a: Attempt | a.code in {200, 206} && Conforms(remote, k, a) && 0 < a.contentLength <= a.freeSize
        ensures var g := Deliver(f, a, a.pieces); g.firstDone && g.wantSize <= |g.image| ==> g.image == remote
      {
        AttemptKeeps(remote, f, a);
        WantRecorded(f, a, a.pieces);
      }
    } else {
      var last := remote[k..|remote| - 1];
      var part := [Piece(last, true)];
      var a := Attempt(true, |remote|, 206, |remote| - k, part, true, true);
      assert part[1..] == [] && Body(part) == last + Body([]) == last;
      assert remote[k..][..|last|] == last;
      assert Conforms(remote, k, a);
      OnePiece(f, a, part[0]);
      var g := BodyCallback(f, a, part[0]).0;
      assert g.firstDone && g.image == remote[..k] + last && g.wantSize == |remote| - k;
    }
  }

  lemma {:induction false} WantRecorded(f: Fota, a: Attempt, pieces: seq<Piece>)
    requires Success(a.code) && 0 < a.contentLength <= a.freeSize && (f.firstDone ==> f.wantSize == a.contentLength)
    ensures var g := Deliver(f, a, pieces); g.firstDone ==> g.wantSize == a.contentLength
    decreases |pieces|
  {
    if |pieces| > 0 {
      WantRecorded(BodyCallback(f, a, pieces[0]).0, a, pieces[1..]);
    }
  }

  // ---------- the download structure updated in place ----------

  class Downloader {
    var image: seq<byte>
    var wantSize: nat
    var firstDone: bool
    var received: nat
    var startPos: nat
    var resumeCount: nat

    constructor ()
      ensures View() == CLEARED && resumeCount == 0
    {
      image, wantSize, firstDone, received, startPos, resumeCount := [], 0, false, 0, 0, 0;
    }

    ghost function View(): (g: Fota)
      reads this
    {
      Fota(image, wantSize, firstDone, received)
    }

    method ReadBody(a: Attempt, p: Piece) returns (ret: nat)
      modifies this`image, this`wantSize, this`firstDone, this`received
      ensures (View(), ret) == BodyCallback(old(View()), a, p)
    {
      if !firstDone {
        if Success(a.code) {
          if a.contentLength > 0 {
            if a.contentLength > a.freeSize {
              return 0;
            }
            wantSize := a.contentLength;
          } else {
            wantSize := 0;
          }
        } else {
          return 0;
        }
        firstDone := true;
      }
      if !p.stored {
        return 0;
      }
      image, received := image + p.data, received + |p.data|;
      return |p.data|;
    }

    /** One request; `range` is the position it asks for, which is the stored length. */
    method HttpStart(a: Attempt) returns (ret: bool, range: nat)
      requires startPos == |image|
      modifies this`image, this`wantSize, this`firstDone, this`received
      ensures View() == Deliver(old(View()), a, a.pieces) && ret == a.performOk
      ensures range == |old(image)|
    {
      range := startPos;
      var k := 0;
      assert a.pieces[0..] == a.pieces;
      while k < |a.pieces|
        invariant 0 <= k <= |a.pieces|
        invariant Deliver(View(), a, a.pieces[k..]) == Deliver(old(View()), a, a.pieces)
      {
        assert a.pieces[k..][1..] == a.pieces[k + 1..];
        var size := ReadBody(a, a.pieces[k]);
        if size == 0 {
          break;
        }
        k := k + 1;
      }
      ret := a.performOk;
    }

    /** The retry loop. */
    method Download(attempts: nat -> Attempt) returns (leave: Leave)
      requires resumeCount == 0
      modifies this
      ensures (View(), leave) == (Process(old(View()), attempts, 0).0, Process(old(View()), attempts, 0).1)
    {
      hide Deliver;
      while resumeCount <= MAX_RETRIES
        invariant resumeCount <= MAX_RETRIES + 1
        invariant Process(View(), attempts, resumeCount) == Process(old(View()), attempts, 0)
        decreases MAX_RETRIES + 1 - resumeCount
      {
        var a := attempts(resumeCount);
        if !a.sizeKnown {
          return Aborted;
        }
        startPos := |image|;
        if a.freeSize < 0 {
          return Aborted;
        }
        var ok, range := HttpStart(a);
        if !ok || !a.sizeKnownAfter {
          return Aborted;
        }
        if wantSize > |image| {
          resumeCount := resumeCount + 1;
        } else {
          return Finished;
        }
      }
      return GaveUp;
    }
  }
}
