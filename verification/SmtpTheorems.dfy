// What an upload delivers: the one-shot message, and to a MIME receiver the text and the file.
module SmtpTheorems {
  import opened Bytes
  import opened Base64
  import opened MimeLines
  import opened SmtpSections
  import opened SmtpSearch
  import opened SmtpFields
  import opened SmtpReceiver
  import opened SmtpStages
  import opened SmtpRun
  import opened SmtpProgress
  import Vfs

  /** The message as one would write it in one go, bodies encoded whole and not broken into lines. */
  function OneShot(m: Mail): (r: Parts) {
    Parts(m.header, m.textHead, Encode(m.text),
          if m.attached then m.attaHead else "", if m.attached then Encode(m.file) else "", m.closing)
  }

  /** What was written, with the line breaks inside the two bodies removed. */
  function Unbroken(w: Parts): (r: Parts) {
    w.(textBody := Unwrap(w.textBody), fileBody := Unwrap(w.fileBody))
  }

  lemma OpenSound(m: Mail, whole: bool)
    requires m.Valid()
    ensures Sound(Open(m), whole)
  {
  }

  lemma WholeFile(file: seq<byte>)
    ensures Unwrap("") == "" && file[..|file|] == file
  {
  }

  lemma FinishedIsOneShot(m: Mail, p: Progress, w: Parts)
    requires Inv(m, p, w, true) && p.status.Finished?
    ensures Unbroken(w) == OneShot(m)
  {
    hide Encode, Unwrap;
    WholeFile(m.file);
  }

  /** For every text, file and sequence of buffer sizes and short reads, a finished upload whose
      SDK calls succeed has sent the one-shot message. */
  lemma RefinesOneShot(m: Mail, calls: seq<Call>)
    requires m.Valid() && Admissible(Open(m), calls) && Roomies(Open(m), calls, true)
    requires forall k :: 0 <= k < |calls| ==> Healthy(calls[k])
    requires Run(Open(m), calls).p.status.Finished?
    ensures var r := Run(Open(m), calls); r.sent == Flat(r.written) && Unbroken(r.written) == OneShot(m)
  {
    hide Inv, Flat, Unbroken, OneShot, Callback, Healthy, TextRoomy, FileRoomy;
    OpenSound(m, true);
    RunKeeps(Open(m), calls, true);
    var r := Run(Open(m), calls);
    FinishedIsOneShot(m, r.p, r.written);
  }

  // ---------- at every moment ----------

  function FromFileBody(w: Parts): (s: string) { w.fileBody + w.closing }
  function FromAttaHead(w: Parts): (s: string) { w.attaHead + FromFileBody(w) }
  function FromTextBody(w: Parts): (s: string) { w.textBody + FromAttaHead(w) }
  function FromTextHead(w: Parts): (s: string) { w.textHead + FromTextBody(w) }

  lemma FlatFrom(w: Parts)
    ensures Flat(w) == w.header + FromTextHead(w)
  {
  }

  lemma PrefixStep(a: string, s: string, b: string, t: string)
    requires a <= b && s <= t && (s == "" || a == b)
    ensures a + s <= b + t
  {
  }

  /** A record is cut from another if a later section has begun only where the earlier ones are complete. */
  ghost predicate Cut(a: Parts, b: Parts) {
    && a.header <= b.header && (FromTextHead(a) == "" || a.header == b.header)
    && a.textHead <= b.textHead && (FromTextBody(a) == "" || a.textHead == b.textHead)
    && a.textBody <= b.textBody && (FromAttaHead(a) == "" || a.textBody == b.textBody)
    && a.attaHead <= b.attaHead && (FromFileBody(a) == "" || a.attaHead == b.attaHead)
    && a.fileBody <= b.fileBody && (a.closing == "" || a.fileBody == b.fileBody)
    && a.closing <= b.closing
  }

  lemma FlatPrefix(a: Parts, b: Parts)
    requires Cut(a, b)
    ensures Flat(a) <= Flat(b)
  {
    hide Flat;
    FlatFrom(a);
    FlatFrom(b);
    assert FromFileBody(a) <= FromFileBody(b) by {
      PrefixStep(a.fileBody, a.closing, b.fileBody, b.closing);
    }
    assert FromAttaHead(a) <= FromAttaHead(b) by {
      PrefixStep(a.attaHead, FromFileBody(a), b.attaHead, FromFileBody(b));
    }
    assert FromTextBody(a) <= FromTextBody(b) by {
      PrefixStep(a.textBody, FromAttaHead(a), b.textBody, FromAttaHead(b));
    }
    assert FromTextHead(a) <= FromTextHead(b) by {
      PrefixStep(a.textHead, FromTextBody(a), b.textHead, FromTextBody(b));
    }
    PrefixStep(a.header, FromTextHead(a), b.header, FromTextHead(b));
  }

  lemma EncodePrefix(data: seq<byte>, used: nat)
    requires used <= |data| && (used % 3 == 0 || used == |data|)
    ensures Encode(data[..used]) <= Encode(data)
  {
    hide Encode;
    if used < |data| {
      EncodeConcat(data[..used], data[used..]);
      assert data == data[..used] + data[used..];
    } else {
      assert data[..used] == data;
    }
  }

  lemma InvIsCut(m: Mail, p: Progress, w: Parts)
    requires Inv(m, p, w, true)
    ensures Cut(Unbroken(w), OneShot(m))
  {
    hide Encode, Unwrap;
    WholeFile(m.file);
    WholeFile(m.text);
    if p.status.TextBody? {
      EncodePrefix(m.text, p.textUsed);
    }
    if p.status.AttaBody? {
      EncodePrefix(m.file, p.fileUsed);
    }
  }

  /** After every callback of every healthy run, finished or not, what was sent is a prefix of the one-shot message. */
  lemma AlwaysPrefix(m: Mail, calls: seq<Call>)
    requires m.Valid() && Admissible(Open(m), calls) && Roomies(Open(m), calls, true)
    requires forall k :: 0 <= k < |calls| ==> Healthy(calls[k])
    ensures var r := Run(Open(m), calls); r.sent == Flat(r.written) && Flat(Unbroken(r.written)) <= Flat(OneShot(m))
  {
    hide Inv, Flat, Cut, Unbroken, OneShot, Callback, Healthy, TextRoomy, FileRoomy;
    OpenSound(m, true);
    RunKeeps(Open(m), calls, true);
    var r := Run(Open(m), calls);
    InvIsCut(m, r.p, r.written);
    FlatPrefix(Unbroken(r.written), OneShot(m));
  }

  /** Failures of the file system, the allocator or the file encoding only shorten or drop the attachment. */
  lemma FailuresOnlyCutAttachment(m: Mail, calls: seq<Call>)
    requires m.Valid() && Admissible(Open(m), calls) && Roomies(Open(m), calls, false)
    requires Run(Open(m), calls).p.status.Finished?
    ensures var r := Run(Open(m), calls);
      && r.sent == Flat(r.written)
      && r.written.header == m.header && r.written.textHead == m.textHead && r.written.closing == m.closing
      && Decode(Unwrap(r.written.textBody)) == m.text
      && (r.written.attaHead == "" ==> r.written.fileBody == "")
      && (r.written.attaHead != "" ==> r.written.attaHead == m.attaHead && Decode(Unwrap(r.written.fileBody)) <= m.file)
  {
    hide Inv, Flat, Encode, Decode, Unwrap, Callback, TextRoomy, FileRoomy;
    OpenSound(m, false);
    RunKeeps(Open(m), calls, false);
    var r := Run(Open(m), calls);
    FinishedDecodes(m, r.p, r.written);
  }

  lemma FinishedDecodes(m: Mail, p: Progress, w: Parts)
    requires Inv(m, p, w, false) && p.status.Finished?
    ensures w.header == m.header && w.textHead == m.textHead && w.closing == m.closing
    ensures Decode(Unwrap(w.textBody)) == m.text
    ensures w.attaHead == "" ==> m.attaHead == "" || w.fileBody == ""
    ensures w.attaHead != "" ==> w.attaHead == m.attaHead && Decode(Unwrap(w.fileBody)) <= m.file
  {
    hide Encode, Decode, Unwrap;
    RoundTrip(m.text);
    RoundTrip(m.file[..p.fileUsed]);
  }

  /** In every run, whatever fails, each fixed section is written at most once and whole, and the closing
      boundary exactly when the upload is over. */
  lemma SectionsOnce(m: Mail, calls: seq<Call>)
    requires m.Valid() && Admissible(Open(m), calls) && Roomies(Open(m), calls, false)
    ensures var r := Run(Open(m), calls); var w := r.written;
      && r.sent == Flat(w)
      && w.header in {"", m.header} && w.textHead in {"", m.textHead} && w.attaHead in {"", m.attaHead}
      && w.closing == (if r.p.status.Finished? then m.closing else "")
  {
    hide Flat, Callback, Encode, Unwrap, TextRoomy, FileRoomy;
    OpenSound(m, false);
    RunKeeps(Open(m), calls, false);
  }

  // ---------- the receiver ----------

  /** In every run, whatever fails and however the bodies were pieced, neither body can hold a delimiter line. */
  lemma BodiesNeverDelimit(m: Mail, calls: seq<Call>)
    requires m.Valid() && Admissible(Open(m), calls) && Roomies(Open(m), calls, false)
    ensures var w := Run(Open(m), calls).written; '-' !in w.textBody && '-' !in w.fileBody
  {
    hide Flat, Callback;
    OpenSound(m, false);
    RunKeeps(Open(m), calls, false);
    var r := Run(Open(m), calls);
    InvHyphenFree(m, r.p, r.written);
  }

  lemma InvHyphenFree(m: Mail, p: Progress, w: Parts)
    requires Inv(m, p, w, false)
    ensures '-' !in w.textBody && '-' !in w.fileBody
  {
    hide Encode, Unwrap;
    if Rank(p.status) >= Rank(TextBody) {
      NoHyphen(w.textBody, if p.status.TextBody? then m.text[..p.textUsed] else m.text);
    }
    if w.fileBody != "" {
      NoHyphen(w.fileBody, m.file[..p.fileUsed]);
    }
  }

  /** Exactly the letters whose attachment base name is at most 166 bytes long, and whose contents an
      int can count, fit the reservations. */
  lemma ComposeFits(l: Letter)
    ensures Compose(l).Valid() <==>
      && (l.fileName.Some? ==> |BaseName(l.fileName.value)| <= 166)
      && |l.text| <= INT_MAX && |l.file| <= INT_MAX
  {
    hide Header, TextHead, AttaHead, Closing;
    TextHeadFits(l.textCharset);
    AttaHeadFits(if l.fileName.Some? then BaseName(l.fileName.value) else "");
    ClosingFits();
  }

  lemma FinishedStream(l: Letter, p: Progress, w: Parts)
    requires Inv(Compose(l), p, w, true) && p.status.Finished?
    ensures Unwrap(w.textBody) == Encode(l.text) && (l.fileName.Some? ==> Unwrap(w.fileBody) == Encode(l.file))
    ensures Flat(w) == Header(l) + TextHead(l.textCharset) + w.textBody + AttachmentText(l, w.fileBody) + Closing()
  {
    hide Header, TextHead, AttaPart, Closing, Encode, Unwrap;
    WholeFile(l.file);
    Regroup(Header(l) + TextHead(l.textCharset) + w.textBody, w.attaHead, w.fileBody);
  }

  lemma SteadyRunFinishes(m: Mail, calls: seq<Call>)
    requires m.Valid() && Admissible(Open(m), calls)
    requires forall k :: 0 <= k < |calls| ==> Healthy(calls[k]) && Steady(calls[k])
    requires |calls| >= 6 + Pieces(|m.text|) + Pieces(|m.file|)
    ensures var r := Run(Open(m), calls); Sound(r, true) && r.m == m && r.p.status.Finished?
  {
    hide Inv, Flat, Callback, Healthy, Mail.Valid, Pieces, TextRoomy, FileRoomy;
    UploadEnds(Open(m), calls);
    CappedRunIsRoomy(Open(m), calls, true);
    OpenSound(m, true);
    RunKeeps(Open(m), calls, true);
  }

  /** End to end: within six callbacks plus one per 375 octets of text and file, of any sizes from 512
      bytes up, the upload is over, and a MIME receiver who has nothing but the stream finds exactly the
      text and, if there is one, the file, with their types, charset and name, and the subject. */
  lemma LetterArrives(l: Letter, calls: seq<Call>)
    requires Compose(l).Valid() && Readable(l) && Admissible(Open(Compose(l)), calls)
    requires forall k :: 0 <= k < |calls| ==> Healthy(calls[k]) && Steady(calls[k])
    requires |calls| >= 6 + Pieces(|l.text|) + Pieces(|l.file|)
    ensures var stream := Run(Open(Compose(l)), calls).sent; Received(stream) == Expected(l) && SubjectIntact(l, stream)
  {
    hide Inv, Flat, Run, Admissible, Healthy, Steady, Pieces, Mail.Valid, Received, Readable, Expected;
    hide Header, TextHead, AttaHead, Closing, AttachmentText, SubjectIntact;
    SteadyRunFinishes(Compose(l), calls);
    var r := Run(Open(Compose(l)), calls);
    FinishedStream(l, r.p, r.written);
    MailReceived(l, r.written.textBody, r.written.fileBody);
    SubjectReceived(l, r.written.textBody, r.written.fileBody);
  }

  // ---------- the 32-bit product ----------

  /** Text that is left over is skipped exactly when the 32-bit product wraps to less than twelve. */
  lemma TextSkippedExactly(m: Mail, p: Progress, space: nat, c: Call)
    requires m.Valid() && InRange(m, p) && p.status.TextBody? && p.textUsed < |m.text| && space >= 4
    ensures var q := TextBodyStage(m, p, space, c).0;
      q.status.AttaHeading? && q.textUsed < |m.text| <==> (space - space / 76 * 2) * 3 % UINT < 12
  {
    hide Encode, Wrap, PieceLen;
    PieceNonempty(space);
  }

  /** The same for what is left of the file, in a healthy callback. */
  lemma FileSkippedExactly(m: Mail, p: Progress, space: nat, c: Call)
    requires m.Valid() && InRange(m, p) && p.status.AttaBody? && p.filePos == p.fileUsed < p.fileSize
    requires 4 <= space <= c.size && Healthy(c)
    ensures var q := AttaBodyStage(m, p, space, c).0;
      q.status.Tail? && q.fileUsed < p.fileSize <==> (space - space / 76 * 2) * 3 % UINT < 12
  {
    hide Encode, Wrap, PieceLen, Vfs.ReadFully;
    PieceNonempty(space);
    HealthyPiece(m, p, space, c);
  }

  /** The smallest such space: the rest of the text is lost. */
  lemma HugeBufferLosesText(m: Mail, p: Progress, c: Call)
    requires m.Valid() && InRange(m, p) && p.status.TextBody? && p.textUsed < |m.text|
    ensures TextBodyStage(m, p, SIZE_MAX + 1, c) == (p.(status := AttaHeading), "")
  {
    hide Encode, Wrap;
    assert PieceLen(SIZE_MAX + 1) == 0;
  }

  lemma HugeBufferLosesFile(m: Mail, p: Progress, c: Call)
    requires m.Valid() && InRange(m, p) && p.status.AttaBody? && p.fileUsed < p.fileSize
    ensures AttaBodyStage(m, p, SIZE_MAX + 1, c) == (p.(status := Tail), "")
  {
    hide Encode, Wrap, Vfs.ReadFully;
    assert PieceLen(SIZE_MAX + 1) == 0;
  }
}
