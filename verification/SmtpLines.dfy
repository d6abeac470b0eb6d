// Line lengths of the two encoded bodies across callback boundaries.
module SmtpLines {
  import opened Bytes
  import opened Base64
  import opened MimeLines
  import opened SmtpSections
  import opened SmtpStages
  import opened SmtpRun
  import Vfs

  const LIMIT := 2 * LINE

  /** No body line is longer than two encoder lines; a body in progress ends in a short open line. */
  ghost predicate Tidy(p: Progress, w: Parts) {
    && LinesWithin(w.textBody, LIMIT) && LinesWithin(w.fileBody, LIMIT)
    && (Rank(p.status) < Rank(TextBody) ==> w.textBody == "")
    && (Rank(p.status) < Rank(AttaBody) ==> w.fileBody == "")
    && (p.status.TextBody? ==> OpenLine(w.textBody) < LINE)
    && (p.status.AttaBody? ==> OpenLine(w.fileBody) < LINE)
  }

  lemma EncodedPiece(piece: seq<byte>, body: string)
    requires LinesWithin(body, LIMIT) && OpenLine(body) < LINE
    ensures LinesWithin(body + Wrap(Encode(piece)), LIMIT)
    ensures |piece| >= 57 || body == "" ==> OpenLine(body + Wrap(Encode(piece))) < LINE
  {
    hide Encode, Wrap, LinesWithin;
    EncodeBreakFree(piece);
    EncodeLength(piece);
    WrapJunction(body, Encode(piece));
  }

  lemma TextBodyTidy(m: Mail, p: Progress, w: Parts, space: nat, c: Call)
    requires InRange(m, p) && p.status.TextBody? && Tidy(p, w)
    requires 512 <= space <= SIZE_MAX || w.textBody == ""
    ensures var (q, out) := TextBodyStage(m, p, space, c); Tidy(q, w.(textBody := w.textBody + out))
  {
    hide Encode, Wrap, LinesWithin, OpenLine, PieceLen;
    PieceNonempty(space);
    assert w.textBody + "" == w.textBody;
    if |m.text| > 0 && space >= 4 {
      var n := Min(PieceLen(space), |m.text| - p.textUsed);
      EncodedPiece(m.text[p.textUsed..p.textUsed + n], w.textBody);
    }
  }

  lemma AttaBodyTidy(m: Mail, p: Progress, w: Parts, space: nat, c: Call)
    requires InRange(m, p) && p.status.AttaBody? && Tidy(p, w)
    requires 512 <= space <= SIZE_MAX || w.fileBody == ""
    ensures var (q, out) := AttaBodyStage(m, p, space, c); Tidy(q, w.(fileBody := w.fileBody + out))
  {
    hide Encode, Wrap, LinesWithin, OpenLine, PieceLen, Vfs.ReadFully;
    PieceNonempty(space);
    assert w.fileBody + "" == w.fileBody;
    if space >= 4 {
      var n := Min(PieceLen(space), p.fileSize - p.fileUsed);
      Vfs.ReadFullyExact(m.file, p.filePos, n, c.answers);
      EncodedPiece(Vfs.ReadFully(m.file, p.filePos, n, c.answers).bytes, w.fileBody);
    }
  }

  lemma FrontTidy(m: Mail, p: Progress, w: Parts, c: Call)
    requires m.Valid() && InRange(m, p) && Tidy(p, w) && Fits(m, p, c.size)
    requires p.status.TextBody? ==> 512 <= c.size <= SIZE_MAX
    ensures var (q, out) := Front(m, p, c); Tidy(q, Join(w, out))
  {
    hide LinesWithin, OpenLine, TextBodyStage, Flat;
    var out := Front(m, p, c).1;
    JoinSides(w, out.header, out.textHead, out.textBody);
    var p1 := if p.status.Head? then HeaderStage(m, p, c).0 else p;
    var p2 := if p1.status.TextHeading? then TextHeadStage(m, p1, c.size - |out.header|).0 else p1;
    EmptyBody();
    if p2.status.TextBody? {
      TextBodyTidy(m, p2, w, c.size - |out.header| - |out.textHead|, c);
    }
  }

  lemma EmptyBody()
    ensures OpenLine("") == 0 && LinesWithin("", LIMIT)
  {
  }

  lemma BackTidy(m: Mail, p: Progress, w: Parts, space: nat, c: Call)
    requires m.Valid() && InRange(m, p) && Tidy(p, w)
    requires p.status.AttaBody? ==> 512 <= space <= SIZE_MAX
    ensures var (q, out) := Back(m, p, space, c); Tidy(q, Join(w, out))
  {
    hide LinesWithin, OpenLine, AttaBodyStage, Flat;
    var out := Back(m, p, space, c).1;
    JoinSides(w, out.attaHead, out.fileBody, out.closing);
    var p1 := if p.status.AttaHeading? then AttaHeadStage(m, p, space, c).0 else p;
    EmptyBody();
    if p1.status.AttaBody? {
      AttaBodyTidy(m, p1, w, space - |out.attaHead|, c);
    }
  }

  /** Small buffers are harmless while no body has begun; from then on 512 bytes keep lines short. */
  lemma CallbackTidy(m: Mail, p: Progress, w: Parts, c: Call)
    requires m.Valid() && InRange(m, p) && Tidy(p, w)
    requires c.size == 0 || Fits(m, p, c.size)
    requires 512 <= c.size <= SIZE_MAX || c.size == 0 || Rank(p.status) < Rank(TextBody)
    ensures var (q, out) := Callback(m, p, c); Tidy(q, Join(w, out))
  {
    hide Tidy, Front, Back, Flat;
    if c.size == 0 {
      JoinNothing(w);
    } else {
      FrontTidy(m, p, w, c);
      var q, front := Front(m, p, c).0, Front(m, p, c).1;
      var space := c.size - |Flat(front)|;
      FrontStops(m, p, c);
      BackTidy(m, q, Join(w, front), space, c);
      JoinLaws(w, front, Back(m, q, space, c).1);
    }
  }

  /** The first half never enters the attachment body; if that is where it starts it writes nothing. */
  lemma FrontStops(m: Mail, p: Progress, c: Call)
    requires m.Valid() && InRange(m, p) && Fits(m, p, c.size)
    ensures var (q, front) := Front(m, p, c);
      q.status.AttaBody? ==> p.status.AttaBody? && Flat(front) == ""
  {
    hide Encode, Wrap, PieceLen;
  }

  /** A first callback of any admissible size, then sizes of 512 and more: no body line exceeds 152 characters. */
  lemma LinesStayShort(m: Mail, calls: seq<Call>)
    requires m.Valid() && Admissible(Open(m), calls)
    requires forall k :: 1 <= k < |calls| ==> 512 <= calls[k].size <= SIZE_MAX
    ensures var w := Run(Open(m), calls).written; LinesWithin(w.textBody, LIMIT) && LinesWithin(w.fileBody, LIMIT)
  {
    hide Callback, Flat, Join, LinesWithin, OpenLine;
    EmptyBody();
    if |calls| > 0 {
      CallbackTidy(m, START, NOTHING, calls[0]);
      RunTidy(Step(Open(m), calls[0]), calls[1..]);
    }
  }

  lemma {:induction false} RunTidy(s: Session, calls: seq<Call>)
    requires Admissible(s, calls) && Tidy(s.p, s.written)
    requires forall k :: 0 <= k < |calls| ==> 512 <= calls[k].size <= SIZE_MAX
    ensures var r := Run(s, calls); Tidy(r.p, r.written)
    decreases |calls|
  {
    hide Callback, Flat, Join, Tidy;
    if |calls| > 0 {
      CallbackTidy(s.m, s.p, s.written, calls[0]);
      RunTidy(Step(s, calls[0]), calls[1..]);
    }
  }
}
