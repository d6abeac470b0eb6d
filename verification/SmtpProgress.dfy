// When a callback returns nothing, and how many callbacks an upload takes.
module SmtpProgress {
  import opened Bytes
  import opened Base64
  import opened MimeLines
  import opened SmtpStages
  import opened SmtpRun
  import Vfs

  // ---------- empty returns ----------

  predicate AttachmentStalls(m: Mail, size: nat) {
    if m.attached then size < 512 else size <= 45
  }

  /** The callbacks that return 0 bytes, told from the state and the arguments alone. */
  predicate Stalls(m: Mail, p: Progress, c: Call)
    requires InRange(m, p)
  {
    c.size == 0 ||
    match p.status
    case Head => m.subjectEncoded && !c.subjectOk
    case TextHeading => c.size < 135
    case TextBody => if |m.text| == 0 then AttachmentStalls(m, c.size) else c.size < 4 || (Roomy(c.size) && !c.textOk)
    case AttaHeading => AttachmentStalls(m, c.size)
    case AttaBody => c.size < 4 || (c.size <= 45 && !FilePieceComes(m, p, c))
    case Tail => c.size <= 45
    case Finished => true
  }

  predicate FilePieceComes(m: Mail, p: Progress, c: Call)
    requires InRange(m, p)
  {
    && p.fileUsed < p.fileSize && c.mallocOk && c.fileOk
    && Vfs.ReadFully(m.file, p.filePos, Min(PieceLen(c.size), p.fileSize - p.fileUsed), c.answers).ok
  }

  lemma PieceWrites(piece: seq<byte>, space: nat)
    requires 0 < |piece| <= PieceLen(space)
    ensures 0 < |Wrap(Encode(piece))| <= space
  {
    hide Encode, Wrap, PieceLen;
    EncodeLength(piece);
    WrapLength(Encode(piece));
    PieceFits(piece, space);
  }

  /** A text body that is due makes no output exactly if it is empty, has no room, is skipped or fails
      to encode. */
  lemma TextBodyWrites(m: Mail, p: Progress, space: nat, c: Call)
    requires InRange(m, p) && (p.textUsed < |m.text| || |m.text| == 0)
    ensures var r := TextBodyStage(m, p, space, c);
      && (r.1 == "" <==> |m.text| == 0 || space < 4 || !Roomy(space) || !c.textOk)
      && (|m.text| == 0 || !Roomy(space) ==> r.0 == p.(status := AttaHeading))
      && (r.1 == "" && |m.text| > 0 && Roomy(space) ==> r.0 == p)
  {
    hide Encode, Wrap, PieceLen, Roomy;
    PieceNonempty(space);
    RoomyUpTo(space);
    if |m.text| > 0 && space >= 4 && Roomy(space) {
      var n := Min(PieceLen(space), |m.text| - p.textUsed);
      PieceWrites(m.text[p.textUsed..p.textUsed + n], space);
    }
  }

  lemma AttaBodyWrites(m: Mail, p: Progress, c: Call)
    requires InRange(m, p)
    ensures var r := AttaBodyStage(m, p, c.size, c);
      && (r.1 == "" <==> c.size < 4 || !Roomy(c.size) || !FilePieceComes(m, p, c))
      && (r.1 == "" ==> if c.size < 4 then r.0 == p else r.0.status == Tail)
  {
    hide Encode, Wrap, PieceLen, Roomy, Vfs.ReadFully;
    PieceNonempty(c.size);
    if c.size >= 4 && Roomy(c.size) && p.fileUsed < p.fileSize {
      var n := Min(PieceLen(c.size), p.fileSize - p.fileUsed);
      Vfs.ReadFullyExact(m.file, p.filePos, n, c.answers);
      var got := Vfs.ReadFully(m.file, p.filePos, n, c.answers);
      if got.ok {
        PieceWrites(got.bytes, c.size);
      }
    }
  }

  lemma BackStalls(m: Mail, p: Progress, c: Call)
    requires m.Valid() && InRange(m, p) && 0 < c.size && Rank(p.status) >= Rank(AttaHeading)
    ensures Flat(Back(m, p, c.size, c).1) == "" <==> Stalls(m, p, c)
  {
    hide AttaBodyStage, FilePieceComes, Roomy;
    RoomyUpTo(c.size);
    if p.status.AttaBody? {
      AttaBodyWrites(m, p, c);
    }
  }

  /** Exactly these callbacks return 0 to the transfer, which then takes the upload for finished. */
  lemma EmptyReturnExactly(m: Mail, p: Progress, c: Call)
    requires m.Valid() && InRange(m, p) && (c.size == 0 || Fits(m, p, c.size))
    requires p.status.TextBody? ==> p.textUsed < |m.text| || |m.text| == 0
    ensures Flat(Callback(m, p, c).1) == "" <==> Stalls(m, p, c)
  {
    hide Flat, Front, Back, TextBodyStage, AttaBodyStage, FilePieceComes, Roomy;
    RoomyUpTo(c.size);
    if c.size == 0 {
      JoinNothing(NOTHING);
    } else {
      FrontStalls(m, p, c);
      var q, front := Front(m, p, c).0, Front(m, p, c).1;
      var space := c.size - |Flat(front)|;
      JoinLaws(NOTHING, front, Back(m, q, space, c).1);
      if Rank(q.status) >= Rank(AttaHeading) {
        if Flat(front) == "" {
          BackStalls(m, q, c);
        }
      } else {
        BackIdle(m, q, space, c);
      }
    }
  }

  lemma BackIdle(m: Mail, p: Progress, space: nat, c: Call)
    requires m.Valid() && InRange(m, p) && Rank(p.status) < Rank(AttaHeading)
    ensures Back(m, p, space, c) == (p, NOTHING) && Flat(NOTHING) == ""
  {
  }

  lemma FrontStalls(m: Mail, p: Progress, c: Call)
    requires m.Valid() && InRange(m, p) && Fits(m, p, c.size) && 0 < c.size
    requires p.status.TextBody? ==> p.textUsed < |m.text| || |m.text| == 0
    ensures var (q, front) := Front(m, p, c);
      && (Rank(p.status) >= Rank(AttaHeading) ==> q == p && Flat(front) == "")
      && (p.status.TextBody? && (|m.text| == 0 || !Roomy(c.size)) ==>
            q == p.(status := AttaHeading) && Flat(front) == "")
      && (Rank(p.status) < Rank(AttaHeading) && !(p.status.TextBody? && (|m.text| == 0 || !Roomy(c.size))) ==>
            (Flat(front) == "" <==> Stalls(m, p, c)) && (Flat(front) == "" ==> q == p))
  {
    hide TextBodyStage, FilePieceComes, Roomy;
    RoomyUpTo(c.size);
    if p.status.TextBody? {
      TextBodyWrites(m, p, c.size, c);
    }
  }

  /** With enough room and a working encoder a callback returns 0 only after the closing boundary
      has gone out, even when the attachment cannot be opened or read. */
  lemma NoPrematureEnd(s: Session, c: Call, whole: bool)
    requires Sound(s, whole) && Admits(s, c) && c.size >= 512 && c.subjectOk && c.textOk
    ensures Step(s, c).sent == s.sent <==> s.p.status.Finished?
    ensures s.p.status.Finished? ==> s.written.closing == s.m.closing
  {
    hide Callback, Flat, Join, FilePieceComes, Unwrap, Encode;
    EmptyReturnExactly(s.m, s.p, c);
  }

  // ---------- number of callbacks ----------

  /** Octets that a callback of at least 512 bytes takes from a body that is due from its start. */
  const RATE := 375

  function Pieces(octets: nat): (n: nat) {
    (octets + RATE - 1) / RATE
  }

  function FileLeft(m: Mail, p: Progress): (n: nat)
    requires InRange(m, p)
  {
    if Rank(p.status) < Rank(AttaBody) then |m.file|
    else if p.status.AttaBody? then p.fileSize - p.fileUsed
    else 0
  }

  function TextLeft(m: Mail, p: Progress): (n: nat)
    requires InRange(m, p)
  {
    if Rank(p.status) <= Rank(TextBody) then |m.text| - p.textUsed else 0
  }

  /** An upper bound on the callbacks still needed: states left plus pieces left of both bodies. */
  function CallsLeft(m: Mail, p: Progress): (n: nat)
    requires InRange(m, p)
  {
    6 - Rank(p.status) + Pieces(TextLeft(m, p)) + Pieces(FileLeft(m, p))
  }

  /** Enough room for every section head, and an encoder that works; the attachment may fail. */
  predicate Steady(c: Call) {
    512 <= c.size <= SIZE_MAX && c.subjectOk && c.textOk
  }

  /** From p to q the upload does not go back, and `strict` says that it moves. */
  predicate Advances(m: Mail, p: Progress, q: Progress, strict: bool)
    requires InRange(m, p) && InRange(m, q)
  {
    && Rank(p.status) <= Rank(q.status)
    && CallsLeft(m, q) <= CallsLeft(m, p)
    && (strict ==> CallsLeft(m, q) < CallsLeft(m, p))
  }

  lemma PieceRate(space: nat)
    requires 512 <= space <= SIZE_MAX
    ensures PieceLen(space) >= RATE
  {
  }

  lemma PiecesShrink(octets: nat, n: nat)
    requires n <= octets
    ensures Pieces(octets - n) <= Pieces(octets)
    ensures 0 < octets && (n == octets || n >= RATE) ==> Pieces(octets - n) < Pieces(octets)
  {
  }

  lemma TextBodyAdvances(m: Mail, p: Progress, space: nat, c: Call)
    requires InRange(m, p) && p.status.TextBody?
    ensures var q := TextBodyStage(m, p, space, c).0;
      InRange(m, q) && Advances(m, p, q, 512 <= space <= SIZE_MAX && c.textOk)
  {
    hide Encode, Wrap, PieceLen, Pieces;
    TextBodyBound(m, p, space, c);
    PiecesShrink(|m.text| - p.textUsed, |m.text| - p.textUsed);
    if |m.text| > 0 && space >= 4 {
      var n := Min(PieceLen(space), |m.text| - p.textUsed);
      if 512 <= space <= SIZE_MAX {
        PieceRate(space);
      }
      PiecesShrink(|m.text| - p.textUsed, n);
      PieceFits(m.text[p.textUsed..p.textUsed + n], space);
    }
  }

  lemma AttaBodyAdvances(m: Mail, p: Progress, space: nat, c: Call)
    requires InRange(m, p) && p.status.AttaBody?
    ensures var q := AttaBodyStage(m, p, space, c).0;
      InRange(m, q) && Advances(m, p, q, 512 <= space <= SIZE_MAX)
  {
    hide Encode, Wrap, PieceLen, Pieces, Vfs.ReadFully;
    AttaBodyBound(m, p, space, c);
    PiecesShrink(p.fileSize - p.fileUsed, p.fileSize - p.fileUsed);
    if space >= 4 {
      var n := Min(PieceLen(space), p.fileSize - p.fileUsed);
      if 512 <= space <= SIZE_MAX {
        PieceRate(space);
      }
      PiecesShrink(p.fileSize - p.fileUsed, n);
    }
  }

  lemma FrontAdvances(m: Mail, p: Progress, c: Call)
    requires m.Valid() && InRange(m, p) && Fits(m, p, c.size)
    ensures Advances(m, p, Front(m, p, c).0, Rank(p.status) <= Rank(TextBody) && Steady(c))
  {
    hide TextBodyStage, Pieces;
    var h := if p.status.Head? then HeaderStage(m, p, c) else (p, "");
    var r := if h.0.status.TextHeading? then TextHeadStage(m, h.0, c.size - |h.1|) else h.(1 := "");
    if r.0.status.TextBody? {
      TextBodyAdvances(m, r.0, c.size - |h.1| - |r.1|, c);
    }
  }

  lemma BackAdvances(m: Mail, p: Progress, space: nat, c: Call)
    requires m.Valid() && InRange(m, p)
    ensures Advances(m, p, Back(m, p, space, c).0,
                     Rank(AttaHeading) <= Rank(p.status) <= Rank(Tail) && 512 <= space <= SIZE_MAX)
  {
    hide AttaBodyStage, Pieces;
    var r := if p.status.AttaHeading? then AttaHeadStage(m, p, space, c) else (p, "");
    assert Advances(m, p, r.0, p.status.AttaHeading? && space >= 512) by {
      PiecesShrink(|m.file|, |m.file|);
      PiecesShrink(|m.file|, p.fileUsed);
    }
    if r.0.status.AttaBody? {
      AttaBodyAdvances(m, r.0, space - |r.1|, c);
    }
  }

  /** The status never moves back; a steady callback before the end uses up at least one of the calls left. */
  lemma CallbackAdvances(m: Mail, p: Progress, c: Call)
    requires m.Valid() && InRange(m, p) && (c.size == 0 || Fits(m, p, c.size))
    ensures Advances(m, p, Callback(m, p, c).0, Steady(c) && !p.status.Finished?)
  {
    hide Front, Back, Flat, CallsLeft;
    if c.size > 0 {
      FrontAdvances(m, p, c);
      var q, front := Front(m, p, c).0, Front(m, p, c).1;
      var space := c.size - |Flat(front)|;
      if Rank(p.status) > Rank(TextBody) {
        FrontSilent(m, p, c);
      }
      BackAdvances(m, q, space, c);
    }
  }

  lemma FrontSilent(m: Mail, p: Progress, c: Call)
    requires m.Valid() && InRange(m, p) && Fits(m, p, c.size) && Rank(p.status) > Rank(TextBody)
    ensures Front(m, p, c) == (p, NOTHING) && Flat(NOTHING) == ""
  {
  }

  /** With steady callbacks the upload ends, for every text and file, within a bound known at the start. */
  lemma {:induction false} UploadEnds(s: Session, calls: seq<Call>)
    requires Admissible(s, calls) && forall k :: 0 <= k < |calls| ==> Steady(calls[k])
    requires |calls| >= CallsLeft(s.m, s.p)
    ensures Run(s, calls).p.status.Finished?
    decreases |calls|
  {
    hide CallsLeft, Callback, Flat, Join, Steady;
    EndMeansFinished(s.m, s.p);
    if |calls| > 0 {
      CallbackAdvances(s.m, s.p, calls[0]);
      EndMeansFinished(s.m, Step(s, calls[0]).p);
      UploadEnds(Step(s, calls[0]), calls[1..]);
    }
  }

  lemma EndMeansFinished(m: Mail, p: Progress)
    requires InRange(m, p)
    ensures CallsLeft(m, p) == 0 <==> p.status.Finished?
  {
  }
}
