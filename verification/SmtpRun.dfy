// Whole uploads: every sequence of callbacks, with any buffer sizes and any SDK answers.
module SmtpRun {
  import opened Bytes
  import opened Base64
  import opened MimeLines
  import opened SmtpSections
  import opened SmtpStages
  import Vfs

  // ---------- the invariant ----------

  ghost predicate TextSent(m: Mail, p: Progress, w: Parts) {
    && w.header == m.header && w.textHead == m.textHead
    && p.textUsed == |m.text| && Unwrap(w.textBody) == Encode(m.text)
  }

  /** What stands between the text and the closing boundary once the attachment is over: all of
      it if `whole`; otherwise perhaps nothing, or a prefix cut at a group of three octets. */
  ghost predicate AttachmentSent(m: Mail, p: Progress, w: Parts, whole: bool) {
    if m.attached && (whole || w.attaHead != "") then
      && w.attaHead == m.attaHead
      && (p.fileUsed == |m.file| || (!whole && p.fileUsed < |m.file| && p.fileUsed % 3 == 0))
      && Unwrap(w.fileBody) == Encode(m.file[..p.fileUsed])
    else
      w.attaHead == "" && w.fileBody == ""
  }

  /** Ties what has been written, section by section, to the client's progress. */
  ghost predicate Inv(m: Mail, p: Progress, w: Parts, whole: bool) {
    && InRange(m, p)
    && (Rank(p.status) < Rank(AttaBody) ==> w.attaHead == w.fileBody == "" && p.fileUsed == 0)
    && (p.status.Finished? ==> w.closing == m.closing)
    && (!p.status.Finished? ==> w.closing == "")
    && match p.status
       case Head => w == NOTHING && p.textUsed == 0
       case TextHeading => w == NOTHING.(header := m.header) && p.textUsed == 0
       case TextBody =>
         && w.header == m.header && w.textHead == m.textHead
         && p.textUsed % 3 == 0 && (p.textUsed < |m.text| || |m.text| == 0)
         && Unwrap(w.textBody) == Encode(m.text[..p.textUsed])
       case AttaHeading => TextSent(m, p, w)
       case AttaBody =>
         && TextSent(m, p, w)
         && m.attached && w.attaHead == m.attaHead
         && p.fileSize == |m.file| && p.filePos == p.fileUsed && p.fileUsed % 3 == 0
         && Unwrap(w.fileBody) == Encode(m.file[..p.fileUsed])
       case Tail => TextSent(m, p, w) && AttachmentSent(m, p, w, whole)
       case Finished => TextSent(m, p, w) && AttachmentSent(m, p, w, whole)
  }

  /** A callback in which the SDK does all that is asked: reads may be short but bring something. */
  ghost predicate Healthy(c: Call) {
    && c.subjectOk && c.textOk && c.openOk && c.statOk && c.mallocOk && c.fileOk
    && c.size <= |c.answers| && forall k :: 0 <= k < |c.answers| ==> c.answers[k] > 0
  }

  // ---------- stage lemmas ----------

  /** Encoding the next piece on its own and breaking it into lines extends the body correctly. */
  lemma PieceExtends(data: seq<byte>, used: nat, n: nat, body: string)
    requires used % 3 == 0 && used + n <= |data|
    requires Unwrap(body) == Encode(data[..used])
    ensures Unwrap(body + Wrap(Encode(data[used..used + n]))) == Encode(data[..used + n])
  {
    hide *;
    var piece := data[used..used + n];
    UnwrapConcat(body, Wrap(Encode(piece)));
    EncodeBreakFree(piece);
    UnwrapWrap(Encode(piece));
    EncodeConcat(data[..used], piece);
    assert data[..used + n] == data[..used] + piece;
  }

  /** Writing to the last section that has begun appends to the stream. */
  lemma FlatGrows(w: Parts, out: string)
    requires w.closing == ""
    ensures w.fileBody == w.attaHead == "" ==> Flat(w.(textBody := w.textBody + out)) == Flat(w) + out
    ensures w.fileBody == "" ==> Flat(w.(attaHead := w.attaHead + out)) == Flat(w) + out
    ensures Flat(w.(fileBody := w.fileBody + out)) == Flat(w) + out
    ensures Flat(w.(closing := w.closing + out)) == Flat(w) + out
  {
    var start := w.header + w.textHead;
    assert w.fileBody == w.attaHead == "" ==> start + (w.textBody + out) + "" + "" + "" == Flat(w) + out;
    assert w.fileBody == "" ==> start + w.textBody + (w.attaHead + out) + "" + "" == Flat(w) + out;
    assert start + w.textBody + w.attaHead + (w.fileBody + out) + "" == Flat(w) + out;
  }

  lemma HeaderKeeps(m: Mail, p: Progress, w: Parts, c: Call, whole: bool)
    requires m.Valid() && Inv(m, p, w, whole) && p.status.Head?
    ensures var (q, out) := HeaderStage(m, p, c); var v := w.(header := w.header + out);
      Inv(m, q, v, whole) && Flat(v) == Flat(w) + out
  {
  }

  lemma TextHeadKeeps(m: Mail, p: Progress, w: Parts, space: nat, whole: bool)
    requires m.Valid() && Inv(m, p, w, whole) && p.status.TextHeading?
    ensures var (q, out) := TextHeadStage(m, p, space); var v := w.(textHead := w.textHead + out);
      Inv(m, q, v, whole) && Flat(v) == Flat(w) + out
  {
    hide Encode, Unwrap;
    assert m.text[..0] == [];
    CodecEmpty();
    UnwrapNone();
  }

  lemma TextBodyKeeps(m: Mail, p: Progress, w: Parts, space: nat, c: Call, whole: bool)
    requires m.Valid() && Inv(m, p, w, whole) && p.status.TextBody? && (p.textUsed < |m.text| ==> Roomy(space))
    ensures var (q, out) := TextBodyStage(m, p, space, c); var v := w.(textBody := w.textBody + out);
      Inv(m, q, v, whole) && Flat(v) == Flat(w) + out
  {
    hide Encode, Wrap, Unwrap, PieceLen, Roomy, Flat;
    PieceNonempty(space);
    FlatGrows(w, TextBodyStage(m, p, space, c).1);
    assert w.textBody + "" == w.textBody;
    if |m.text| == 0 {
      assert m.text[..0] == m.text;
    } else if space >= 4 {
      var n := Min(PieceLen(space), |m.text| - p.textUsed);
      PieceExtends(m.text, p.textUsed, n, w.textBody);
      assert m.text[..|m.text|] == m.text;
    }
  }

  lemma AttaHeadKeeps(m: Mail, p: Progress, w: Parts, space: nat, c: Call, whole: bool)
    requires m.Valid() && Inv(m, p, w, whole) && p.status.AttaHeading? && (whole ==> Healthy(c))
    ensures var (q, out) := AttaHeadStage(m, p, space, c); var v := w.(attaHead := w.attaHead + out);
      Inv(m, q, v, whole) && Flat(v) == Flat(w) + out
  {
    hide Encode, Unwrap, Flat;
    FlatGrows(w, AttaHeadStage(m, p, space, c).1);
    assert m.file[..0] == [];
    CodecEmpty();
    UnwrapBreakFree("");
  }

  lemma ClosingKeeps(m: Mail, p: Progress, w: Parts, space: nat, whole: bool)
    requires m.Valid() && Inv(m, p, w, whole) && p.status.Tail?
    ensures var (q, out) := ClosingStage(m, p, space); var v := w.(closing := w.closing + out);
      Inv(m, q, v, whole) && Flat(v) == Flat(w) + out
  {
    hide Encode, Unwrap, Flat;
    FlatGrows(w, ClosingStage(m, p, space).1);
  }

  /** In a healthy callback the next piece of the file is read and encoded without failure. */
  lemma HealthyPiece(m: Mail, p: Progress, space: nat, c: Call)
    requires InRange(m, p) && p.filePos == p.fileUsed && space <= c.size && Healthy(c)
    ensures
      var n := Min(PieceLen(space), p.fileSize - p.fileUsed);
      var got := Vfs.ReadFully(m.file, p.filePos, n, c.answers);
      got.ok && Encodes(got.bytes, space, c.fileOk)
  {
    hide Encode, Wrap, PieceLen, Vfs.ReadFully;
    PieceShort(space);
    var n := Min(PieceLen(space), p.fileSize - p.fileUsed);
    Vfs.ReadFullySucceeds(m.file, p.filePos, n, c.answers);
    Vfs.ReadFullyExact(m.file, p.filePos, n, c.answers);
    PieceFits(Vfs.ReadFully(m.file, p.filePos, n, c.answers).bytes, space);
  }

  lemma PieceShort(space: nat)
    ensures PieceLen(space) <= space
  {
  }

  lemma AttaBodyKeeps(m: Mail, p: Progress, w: Parts, space: nat, c: Call, whole: bool)
    requires m.Valid() && Inv(m, p, w, whole) && p.status.AttaBody? && space <= c.size
    requires whole ==> Healthy(c) && (p.fileUsed < p.fileSize ==> Roomy(space))
    ensures var (q, out) := AttaBodyStage(m, p, space, c); var v := w.(fileBody := w.fileBody + out);
      Inv(m, q, v, whole) && Flat(v) == Flat(w) + out
  {
    hide Encode, Wrap, Unwrap, PieceLen, Roomy, Flat, Vfs.ReadFully;
    AttaBodyBound(m, p, space, c);
    PieceNonempty(space);
    FlatGrows(w, AttaBodyStage(m, p, space, c).1);
    assert w.fileBody + "" == w.fileBody;
    if space >= 4 {
      var n := Min(PieceLen(space), p.fileSize - p.fileUsed);
      Vfs.ReadFullyExact(m.file, p.filePos, n, c.answers);
      PieceExtends(m.file, p.fileUsed, n, w.fileBody);
      if whole {
        HealthyPiece(m, p, space, c);
      }
    }
  }

  // ---------- a whole callback ----------

  lemma JoinSides(w: Parts, a: string, b: string, c: string)
    ensures Join(w, Parts(a, b, c, "", "", "")) ==
      w.(header := w.header + a, textHead := w.textHead + b, textBody := w.textBody + c)
    ensures Join(w, Parts("", "", "", a, b, c)) ==
      w.(attaHead := w.attaHead + a, fileBody := w.fileBody + b, closing := w.closing + c)
    ensures Flat(Parts(a, b, c, "", "", "")) == a + b + c == Flat(Parts("", "", "", a, b, c))
    ensures w.header + "" == w.header && w.textHead + "" == w.textHead && w.textBody + "" == w.textBody
    ensures w.attaHead + "" == w.attaHead && w.fileBody + "" == w.fileBody && w.closing + "" == w.closing
  {
  }

  lemma JoinNothing(w: Parts)
    ensures Join(w, NOTHING) == w && Flat(w) + Flat(NOTHING) == Flat(w)
  {
    JoinSides(w, "", "", "");
  }

  lemma FrontKeeps(m: Mail, p: Progress, w: Parts, c: Call, whole: bool)
    requires m.Valid() && Inv(m, p, w, whole) && Fits(m, p, c.size)
    requires c.size > 0 && TextRoomy(m, p, c)
    ensures var (q, out) := Front(m, p, c); var v := Join(w, out);
      Inv(m, q, v, whole) && Flat(v) == Flat(w) + Flat(out)
  {
    hide Inv, Flat, Join, HeaderStage, TextHeadStage, TextBodyStage, Roomy;
    InvInRange(m, p, w, whole);
    var q, out := Front(m, p, c).0, Front(m, p, c).1;
    JoinSides(w, out.header, out.textHead, out.textBody);
    var w0, q0 := w, p;
    if p.status.Head? {
      HeaderKeeps(m, p, w, c, whole);
      q0, w0 := HeaderStage(m, p, c).0, w.(header := w.header + out.header);
    }
    var w1, q1 := w0, q0;
    if q0.status.TextHeading? {
      TextHeadKeeps(m, q0, w0, c.size - |out.header|, whole);
      q1, w1 := TextHeadStage(m, q0, c.size - |out.header|).0, w0.(textHead := w0.textHead + out.textHead);
    }
    if q1.status.TextBody? {
      InvInRange(m, q1, w1, whole);
      TextBodyKeeps(m, q1, w1, c.size - |out.header| - |out.textHead|, c, whole);
    }
    assert Flat(w) + (out.header + out.textHead + out.textBody) == Flat(w) + out.header + out.textHead + out.textBody;
    assert Flat(w) + "" == Flat(w) && Flat(w0) + "" == Flat(w0) && Flat(w1) + "" == Flat(w1);
  }

  lemma InvInRange(m: Mail, p: Progress, w: Parts, whole: bool)
    requires Inv(m, p, w, whole)
    ensures InRange(m, p)
  {
  }

  lemma BackKeeps(m: Mail, p: Progress, w: Parts, space: nat, c: Call, whole: bool)
    requires m.Valid() && Inv(m, p, w, whole) && space <= c.size
    requires whole ==> Healthy(c) && BackRoomy(m, p, space, c)
    ensures var (q, out) := (InvInRange(m, p, w, whole); Back(m, p, space, c)); var v := Join(w, out);
      Inv(m, q, v, whole) && Flat(v) == Flat(w) + Flat(out)
  {
    hide Inv, Healthy, Flat, Join, AttaHeadStage, AttaBodyStage, ClosingStage, Roomy;
    InvInRange(m, p, w, whole);
    var q, out := Back(m, p, space, c).0, Back(m, p, space, c).1;
    JoinSides(w, out.attaHead, out.fileBody, out.closing);
    var w0, q0 := w, p;
    if p.status.AttaHeading? {
      AttaHeadKeeps(m, p, w, space, c, whole);
      q0, w0 := AttaHeadStage(m, p, space, c).0, w.(attaHead := w.attaHead + out.attaHead);
    }
    var left := space - |out.attaHead|;
    var w1, q1 := w0, q0;
    if q0.status.AttaBody? {
      InvInRange(m, q0, w0, whole);
      AttaBodyKeeps(m, q0, w0, left, c, whole);
      q1, w1 := AttaBodyStage(m, q0, left, c).0, w0.(fileBody := w0.fileBody + out.fileBody);
    }
    if q1.status.Tail? {
      ClosingKeeps(m, q1, w1, left - |out.fileBody|, whole);
    }
    assert Flat(w) + (out.attaHead + out.fileBody + out.closing) == Flat(w) + out.attaHead + out.fileBody + out.closing;
    assert Flat(w) + "" == Flat(w) && Flat(w0) + "" == Flat(w0) && Flat(w1) + "" == Flat(w1);
  }

  lemma JoinAssoc(a: Parts, b: Parts, c: Parts)
    ensures Join(Join(a, b), c) == Join(a, Join(b, c))
  {
    Assoc(a.header, b.header, c.header);
    Assoc(a.textHead, b.textHead, c.textHead);
    Assoc(a.textBody, b.textBody, c.textBody);
    Assoc(a.attaHead, b.attaHead, c.attaHead);
    Assoc(a.fileBody, b.fileBody, c.fileBody);
    Assoc(a.closing, b.closing, c.closing);
  }

  lemma Assoc(a: string, b: string, c: string)
    ensures a + b + c == a + (b + c)
  {
  }

  lemma JoinLaws(w: Parts, front: Parts, back: Parts)
    requires front.attaHead == front.fileBody == front.closing == ""
    requires back.header == back.textHead == back.textBody == ""
    ensures Join(Join(w, front), back) == Join(w, Join(front, back))
    ensures Flat(Join(front, back)) == Flat(front) + Flat(back)
  {
    JoinAssoc(w, front, back);
  }

  /** One callback with any SDK answers, whose text stage does not meet a wrapped product, keeps the
      invariant and appends to the stream; for the `whole` invariant the file stage counts too. */
  lemma CallbackKeeps(m: Mail, p: Progress, w: Parts, c: Call, whole: bool)
    requires m.Valid() && Inv(m, p, w, whole) && (c.size == 0 || Fits(m, p, c.size))
    requires TextRoomy(m, p, c) && (whole ==> Healthy(c) && FileRoomy(m, p, c))
    ensures var (q, out) := (InvInRange(m, p, w, whole); Callback(m, p, c)); var v := Join(w, out);
      Inv(m, q, v, whole) && Flat(v) == Flat(w) + Flat(out)
  {
    hide Inv, Healthy, Flat, Join, Front, Back, Mail.Valid, InRange, Fits, TextRoomy, BackRoomy;
    InvInRange(m, p, w, whole);
    if c.size == 0 {
      JoinNothing(w);
    } else {
      var p1, front := Front(m, p, c).0, Front(m, p, c).1;
      FrontKeeps(m, p, w, c, whole);
      var space := c.size - |Flat(front)|;
      var back := Back(m, p1, space, c).1;
      BackKeeps(m, p1, Join(w, front), space, c, whole);
      JoinLaws(w, front, back);
      assert Flat(w) + Flat(front) + Flat(back) == Flat(w) + (Flat(front) + Flat(back));
    }
  }

  // ---------- what a wrapped product breaks ----------

  lemma WrappedTextSkips(m: Mail, p: Progress, c: Call)
    requires m.Valid() && InRange(m, p) && c.size > 0 && Fits(m, p, c.size) && !TextRoomy(m, p, c)
    ensures var q := Front(m, p, c).0; q.status.AttaHeading? && q.textUsed < |m.text|
  {
    hide Encode, Wrap, PieceLen, Roomy;
    var h := if p.status.Head? then HeaderStage(m, p, c) else (p, "");
    var t := if h.0.status.TextHeading? then TextHeadStage(m, h.0, c.size - |h.1|) else (h.0, "");
    var space := c.size - |h.1| - |t.1|;
    PieceNonempty(space);
    RoomyUpTo(space);
  }

  lemma WrappedFileSkips(m: Mail, p: Progress, space: nat, c: Call)
    requires m.Valid() && InRange(m, p) && !BackRoomy(m, p, space, c)
    ensures var q := Back(m, p, space, c).0; Rank(q.status) >= Rank(Tail) && q.fileUsed < q.fileSize
    ensures p.status.AttaHeading? ==> m.attached && Back(m, p, space, c).0.fileSize == |m.file|
    ensures !p.status.AttaHeading? ==> p.status.AttaBody? && Back(m, p, space, c).0.fileSize == p.fileSize
  {
    hide Encode, Wrap, PieceLen, Roomy, Vfs.ReadFully;
    var left := if p.status.AttaHeading? then space - |AttaHeadStage(m, p, space, c).1| else space;
    PieceNonempty(left);
    RoomyUpTo(left);
  }

  lemma BackLeavesText(m: Mail, p: Progress, space: nat, c: Call)
    requires m.Valid() && InRange(m, p) && Rank(p.status) >= Rank(AttaHeading)
    ensures var q := Back(m, p, space, c).0; q.textUsed == p.textUsed && Rank(q.status) >= Rank(AttaHeading)
  {
    hide Encode, Wrap, PieceLen, Vfs.ReadFully;
  }

  lemma CutTextBreaks(m: Mail, p: Progress, w: Parts, whole: bool)
    requires Rank(p.status) >= Rank(AttaHeading) && p.textUsed < |m.text|
    ensures !Inv(m, p, w, whole)
  {
    hide Encode, Unwrap;
  }

  lemma CutFileBreaks(m: Mail, p: Progress, w: Parts)
    requires Rank(p.status) >= Rank(Tail) && m.attached && p.fileUsed < |m.file|
    ensures !Inv(m, p, w, true)
  {
    hide Encode, Unwrap;
  }

  lemma AttaBodyShape(m: Mail, p: Progress, w: Parts, whole: bool)
    requires Inv(m, p, w, whole) && p.status.AttaBody?
    ensures m.attached && p.fileSize == |m.file|
  {
    hide Encode, Unwrap;
  }

  /** A callback keeps the invariant exactly if its text stage meets no wrapped product; the `whole`
      invariant exactly if, with a healthy SDK, its file stage does not either. */
  lemma CallbackKeepsExactly(m: Mail, p: Progress, w: Parts, c: Call, whole: bool)
    requires m.Valid() && Inv(m, p, w, whole) && (c.size == 0 || Fits(m, p, c.size)) && (whole ==> Healthy(c))
    ensures var (q, out) := (InvInRange(m, p, w, whole); Callback(m, p, c));
      Inv(m, q, Join(w, out), whole) <==> TextRoomy(m, p, c) && (whole ==> FileRoomy(m, p, c))
  {
    hide Inv, Healthy, Flat, Join, Front, Back, Mail.Valid, InRange, Fits, TextRoomy, BackRoomy;
    InvInRange(m, p, w, whole);
    if TextRoomy(m, p, c) && (whole ==> FileRoomy(m, p, c)) {
      CallbackKeeps(m, p, w, c, whole);
    } else if c.size > 0 {
      var q, front := Front(m, p, c).0, Front(m, p, c).1;
      var space := c.size - |Flat(front)|;
      var r, out := Back(m, q, space, c).0, Join(w, Join(front, Back(m, q, space, c).1));
      if !TextRoomy(m, p, c) {
        WrappedTextSkips(m, p, c);
        BackLeavesText(m, q, space, c);
        CutTextBreaks(m, r, out, whole);
      } else {
        FrontKeeps(m, p, w, c, whole);
        WrappedFileSkips(m, q, space, c);
        if q.status.AttaBody? {
          AttaBodyShape(m, q, Join(w, front), whole);
        }
        CutFileBreaks(m, r, out);
      }
    } else {
      EmptyCallIsRoomy(m, p, c);
    }
  }

  lemma EmptyCallIsRoomy(m: Mail, p: Progress, c: Call)
    requires m.Valid() && InRange(m, p) && c.size == 0
    ensures TextRoomy(m, p, c) && FileRoomy(m, p, c)
  {
  }

  // ---------- runs ----------

  /** The client in mid-upload with the history of what it wrote: by section and as one stream. */
  datatype Session' = Session(m: Mail, p: Progress, written: Parts, sent: string)

  type Session = s: Session' | s.m.Valid() && InRange(s.m, s.p)
    witness Session(Mail("x", false, "x", [], false, "x", [], "x"), START, NOTHING, "")

  function Open(m: Mail): (r: Session)
    requires m.Valid()
  {
    Session(m, START, NOTHING, "")
  }

  predicate Admits(s: Session, c: Call) {
    c.size == 0 || Fits(s.m, s.p, c.size)
  }

  function Step(s: Session, c: Call): (r: Session)
    requires Admits(s, c)
  {
    var (q, out) := Callback(s.m, s.p, c);
    Session(s.m, q, Join(s.written, out), s.sent + Flat(out))
  }

  predicate Admissible(s: Session, calls: seq<Call>)
    decreases |calls|
  {
    |calls| == 0 || (Admits(s, calls[0]) && Admissible(Step(s, calls[0]), calls[1..]))
  }

  function Run(s: Session, calls: seq<Call>): (r: Session)
    requires Admissible(s, calls)
    decreases |calls|
  {
    if |calls| == 0 then s else Run(Step(s, calls[0]), calls[1..])
  }

  /** No text stage of the run meets a wrapped product, nor any file stage if `whole`. */
  predicate Roomies(s: Session, calls: seq<Call>, whole: bool)
    requires Admissible(s, calls)
    decreases |calls|
  {
    |calls| == 0 ||
    (TextRoomy(s.m, s.p, calls[0]) && (whole ==> FileRoomy(s.m, s.p, calls[0])) &&
     Roomies(Step(s, calls[0]), calls[1..], whole))
  }

  ghost predicate Sound(s: Session, whole: bool) {
    Inv(s.m, s.p, s.written, whole) && s.sent == Flat(s.written)
  }

  lemma {:induction false} RunKeeps(s: Session, calls: seq<Call>, whole: bool)
    requires Admissible(s, calls) && Roomies(s, calls, whole) && Sound(s, whole)
    requires whole ==> forall k :: 0 <= k < |calls| ==> Healthy(calls[k])
    ensures Sound(Run(s, calls), whole) && Run(s, calls).m == s.m
    decreases |calls|
  {
    if |calls| > 0 {
      hide Inv, Healthy, Flat, Join, Callback, TextRoomy, FileRoomy;
      CallbackKeeps(s.m, s.p, s.written, calls[0], whole);
      RunKeeps(Step(s, calls[0]), calls[1..], whole);
    }
  }

  /** Sizes up to SIZE_MAX are always fine. */
  lemma {:induction false} CappedRunIsRoomy(s: Session, calls: seq<Call>, whole: bool)
    requires Admissible(s, calls) && forall k :: 0 <= k < |calls| ==> calls[k].size <= SIZE_MAX
    ensures Roomies(s, calls, whole)
    decreases |calls|
  {
    hide Callback, Flat, Join, TextRoomy, FileRoomy;
    if |calls| > 0 {
      CapIsRoomy(s.m, s.p, calls[0]);
      CappedRunIsRoomy(Step(s, calls[0]), calls[1..], whole);
    }
  }
}
