// One pass of the upload callback, stage by stage, as a function of the client's progress, the
// buffer size and what the SDK answers. Lengths are C `unsigned int`s; the one product that can
// leave that range is reduced explicitly.
module SmtpStages {
  import opened Bytes
  import opened Base64
  import opened MimeLines
  import opened SmtpSections
  import Vfs

  const UINT := 0x1_0000_0000
  const INT_MAX := 0x7fff_ffff
  /** The largest buffer size up to which three times the free space always fits an unsigned int. */
  const SIZE_MAX := 1_470_349_163

  datatype Status = Head | TextHeading | TextBody | AttaHeading | AttaBody | Tail | Finished

  function Rank(s: Status): (n: nat) {
    match s
    case Head => 0
    case TextHeading => 1
    case TextBody => 2
    case AttaHeading => 3
    case AttaBody => 4
    case Tail => 5
    case Finished => 6
  }

  /** A mail with its fixed sections spelled out. */
  datatype Mail = Mail(
    header: string, subjectEncoded: bool, textHead: string, text: seq<byte>,
    attached: bool, attaHead: string, file: seq<byte>, closing: string)
  {
    /** The sections fit their reservations and the contents are countable in an int. */
    predicate Valid() {
      && 0 < |header|
      && 0 < |textHead| < 135
      && 0 < |attaHead| < 512
      && 0 < |closing| < 45
      && |text| <= INT_MAX && |file| <= INT_MAX
    }
  }

  function Compose(l: Letter): (r: Mail) {
    Mail(Header(l), SubjectIsEncoded(l), TextHead(l.textCharset), l.text,
         l.fileName.Some?, AttaHead(if l.fileName.Some? then BaseName(l.fileName.value) else ""), l.file, Closing())
  }

  datatype Progress = Progress(status: Status, textUsed: nat, fileSize: nat, fileUsed: nat, filePos: nat)

  const START := Progress(Head, 0, 0, 0, 0)

  predicate InRange(m: Mail, p: Progress) {
    p.textUsed <= |m.text| && p.fileUsed <= p.fileSize <= |m.file| && p.filePos <= |m.file|
  }

  /** One callback: the buffer size and the answers of the encoder, the file system and the allocator. */
  datatype Call = Call(
    size: nat, subjectOk: bool, textOk: bool,
    openOk: bool, statOk: bool, mallocOk: bool, answers: seq<int>, fileOk: bool)

  /** Input octets taken for `space` output characters: a CRLF allowance per 76, three for four,
      aligned down to whole groups; the product is an unsigned int. */
  function PieceLen(space: nat): (n: nat) {
    var free := space - space / 76 * 2;
    var can := free * 3 % UINT / 4;
    can - can % 3
  }

  function HeaderStage(m: Mail, p: Progress, c: Call): (r: (Progress, string)) {
    if m.subjectEncoded && !c.subjectOk then (p, "") else (p.(status := TextHeading), m.header)
  }

  function TextHeadStage(m: Mail, p: Progress, space: nat): (r: (Progress, string)) {
    if space < 135 then (p, "") else (p.(status := TextBody), m.textHead)
  }

  /** The encoder refuses a piece whose wrapped encoding exceeds the space it is given. */
  predicate Encodes(piece: seq<byte>, space: nat, ok: bool) {
    ok && |Wrap(Encode(piece))| <= space
  }

  function TextBodyStage(m: Mail, p: Progress, space: nat, c: Call): (r: (Progress, string))
    requires InRange(m, p)
  {
    if |m.text| == 0 then (p.(status := AttaHeading), "")
    else if space < 4 then (p, "")
    else
      var n := Min(PieceLen(space), |m.text| - p.textUsed);
      if n == 0 then (p.(status := AttaHeading), "")
      else
        var used := p.textUsed + n;
        var piece := m.text[p.textUsed..used];
        if !Encodes(piece, space, c.textOk) then (p, "")
        else (p.(textUsed := used, status := if used >= |m.text| then AttaHeading else TextBody), Wrap(Encode(piece)))
  }

  function AttaHeadStage(m: Mail, p: Progress, space: nat, c: Call): (r: (Progress, string)) {
    if !m.attached then (p.(status := Tail), "")
    else if space < 512 then (p, "")
    else if !c.openOk || !c.statOk then (p.(status := Tail), "")
    else (p.(status := AttaBody, fileSize := |m.file|, filePos := 0), m.attaHead)
  }

  function AttaBodyStage(m: Mail, p: Progress, space: nat, c: Call): (r: (Progress, string))
    requires InRange(m, p)
  {
    if space < 4 then (p, "")
    else
      var n := Min(PieceLen(space), p.fileSize - p.fileUsed);
      if n == 0 || !c.mallocOk then (p.(status := Tail), "")
      else
        var got := Vfs.ReadFully(m.file, p.filePos, n, c.answers);
        Vfs.ReadFullyExact(m.file, p.filePos, n, c.answers);
        var q := p.(filePos := p.filePos + |got.bytes|);
        if !got.ok || !Encodes(got.bytes, space, c.fileOk) then (q.(status := Tail), "")
        else
          var used := p.fileUsed + n;
          (q.(fileUsed := used, status := if used >= p.fileSize then Tail else AttaBody), Wrap(Encode(got.bytes)))
  }

  function ClosingStage(m: Mail, p: Progress, space: nat): (r: (Progress, string)) {
    if space > 45 then (p.(status := Finished), m.closing) else (p, "")
  }

  /** What a callback, or a whole run, wrote, by section. */
  datatype Parts = Parts(
    header: string, textHead: string, textBody: string, attaHead: string, fileBody: string, closing: string)

  const NOTHING := Parts("", "", "", "", "", "")

  function Flat(w: Parts): (s: string) {
    w.header + w.textHead + w.textBody + w.attaHead + w.fileBody + w.closing
  }

  function Join(a: Parts, b: Parts): (r: Parts) {
    Parts(a.header + b.header, a.textHead + b.textHead, a.textBody + b.textBody,
          a.attaHead + b.attaHead, a.fileBody + b.fileBody, a.closing + b.closing)
  }

  /** The buffer holds the mail header when the header is due. */
  predicate Fits(m: Mail, p: Progress, size: nat) {
    p.status.Head? ==> |m.header| < size
  }

  // Every stage leaves the space it was given unexceeded, so the next one's space does not wrap.

  lemma TextBodyBound(m: Mail, p: Progress, space: nat, c: Call)
    requires InRange(m, p)
    ensures var r := TextBodyStage(m, p, space, c); |r.1| <= space && InRange(m, r.0)
  {
    hide Encode, Wrap;
  }

  lemma AttaBodyBound(m: Mail, p: Progress, space: nat, c: Call)
    requires InRange(m, p)
    ensures var r := AttaBodyStage(m, p, space, c); |r.1| <= space && InRange(m, r.0)
  {
    hide Encode, Wrap, Vfs.ReadFully;
    if space >= 4 {
      var n := Min(PieceLen(space), p.fileSize - p.fileUsed);
      Vfs.ReadFullyExact(m.file, p.filePos, n, c.answers);
    }
  }

  /** The first half of a callback, up to the end of the text. */
  function Front(m: Mail, p: Progress, c: Call): (r: (Progress, Parts))
    requires m.Valid() && InRange(m, p) && Fits(m, p, c.size)
    ensures InRange(m, r.0) && |Flat(r.1)| <= c.size
    ensures r.1.attaHead == r.1.fileBody == r.1.closing == ""
  {
    hide TextBodyStage;
    var (p1, header) := if p.status.Head? then HeaderStage(m, p, c) else (p, "");
    var (p2, textHead) := if p1.status.TextHeading? then TextHeadStage(m, p1, c.size - |header|) else (p1, "");
    var space := c.size - |header| - |textHead|;
    var (p3, textBody) :=
      if p2.status.TextBody? then (TextBodyBound(m, p2, space, c); TextBodyStage(m, p2, space, c)) else (p2, "");
    (p3, Parts(header, textHead, textBody, "", "", ""))
  }

  /** The second half, from the attachment head on, in the space the first half left. */
  function Back(m: Mail, p: Progress, space: nat, c: Call): (r: (Progress, Parts))
    requires m.Valid() && InRange(m, p)
    ensures InRange(m, r.0) && |Flat(r.1)| <= space
    ensures r.1.header == r.1.textHead == r.1.textBody == ""
  {
    hide AttaBodyStage;
    var (p4, attaHead) := if p.status.AttaHeading? then AttaHeadStage(m, p, space, c) else (p, "");
    var left := space - |attaHead|;
    var (p5, fileBody) :=
      if p4.status.AttaBody? then (AttaBodyBound(m, p4, left, c); AttaBodyStage(m, p4, left, c)) else (p4, "");
    var (p6, closing) := if p5.status.Tail? then ClosingStage(m, p5, left - |fileBody|) else (p5, "");
    (p6, Parts("", "", "", attaHead, fileBody, closing))
  }

  /** A whole callback: the new progress and the bytes returned in the buffer. */
  function Callback(m: Mail, p: Progress, c: Call): (r: (Progress, Parts))
    requires m.Valid() && InRange(m, p) && (c.size == 0 || Fits(m, p, c.size))
    ensures InRange(m, r.0) && |Flat(r.1)| <= c.size
  {
    hide Front, Back;
    if c.size == 0 then (p, NOTHING)
    else
      var (p1, front) := Front(m, p, c);
      var (p2, back) := Back(m, p1, c.size - |Flat(front)|, c);
      (p2, Join(front, back))
  }

  // ---------- the size of a piece ----------

  /** The 32-bit product leaves enough for a group of three octets, or the space is too small anyway. */
  predicate Roomy(space: nat) {
    space < 4 || (space - space / 76 * 2) * 3 % UINT >= 12
  }

  /** The text stage of a callback, if it is reached with text left, gets such a space. */
  predicate TextRoomy(m: Mail, p: Progress, c: Call)
    requires m.Valid() && InRange(m, p) && (c.size == 0 || Fits(m, p, c.size))
  {
    c.size == 0 ||
    var (p1, header) := if p.status.Head? then HeaderStage(m, p, c) else (p, "");
    var (p2, textHead) := if p1.status.TextHeading? then TextHeadStage(m, p1, c.size - |header|) else (p1, "");
    p2.status.TextBody? && p2.textUsed < |m.text| ==> Roomy(c.size - |header| - |textHead|)
  }

  predicate BackRoomy(m: Mail, p: Progress, space: nat, c: Call)
    requires m.Valid() && InRange(m, p)
  {
    var (q, attaHead) := if p.status.AttaHeading? then AttaHeadStage(m, p, space, c) else (p, "");
    q.status.AttaBody? && q.fileUsed < q.fileSize ==> Roomy(space - |attaHead|)
  }

  /** The same for the file. */
  predicate FileRoomy(m: Mail, p: Progress, c: Call)
    requires m.Valid() && InRange(m, p) && (c.size == 0 || Fits(m, p, c.size))
  {
    c.size == 0 || var (q, front) := Front(m, p, c); BackRoomy(m, q, c.size - |Flat(front)|, c)
  }

  /** Up to SIZE_MAX every space is roomy, the next one is not. */
  lemma RoomyUpTo(space: nat)
    ensures space <= SIZE_MAX ==> Roomy(space)
    ensures !Roomy(SIZE_MAX + 1)
  {
  }

  lemma CapIsRoomy(m: Mail, p: Progress, c: Call)
    requires m.Valid() && InRange(m, p) && (c.size == 0 || Fits(m, p, c.size)) && c.size <= SIZE_MAX
    ensures TextRoomy(m, p, c) && FileRoomy(m, p, c)
  {
    hide Roomy, Front, Flat;
    forall space: nat | space <= SIZE_MAX ensures Roomy(space) {
      RoomyUpTo(space);
    }
  }

  /** Whatever the space, a piece of the chosen size fits it once encoded and broken into lines. */
  lemma PieceFits(piece: seq<byte>, space: nat)
    requires |piece| <= PieceLen(space)
    ensures |Wrap(Encode(piece))| <= space
  {
    hide Encode, Wrap, PieceLen;
    EncodeLength(piece);
    WrapLength(Encode(piece));
    PieceGroups(space);
    BreaksFit(|Encode(piece)|, space);
  }

  lemma PieceGroups(space: nat)
    ensures PieceLen(space) % 3 == 0 && PieceLen(space) / 3 * 4 + space / 76 * 2 <= space
  {
    var free := space - space / 76 * 2;
    assert free * 3 % UINT <= free * 3;
  }

  lemma BreaksFit(chars: nat, space: nat)
    requires chars + space / 76 * 2 <= space
    ensures chars + chars / 76 * 2 <= space
  {
    assert chars / 76 <= space / 76;
  }

  /** The piece size is a multiple of three, and it is empty exactly when the 32-bit product
      leaves fewer than twelve. */
  lemma PieceNonempty(space: nat)
    ensures PieceLen(space) % 3 == 0
    ensures PieceLen(space) > 0 <==> (space - space / 76 * 2) * 3 % UINT >= 12
    ensures space >= 4 ==> (PieceLen(space) > 0 <==> Roomy(space))
    ensures 4 <= space <= SIZE_MAX ==> PieceLen(space) >= 3
    ensures 512 <= space <= SIZE_MAX ==> PieceLen(space) >= 57
  {
  }

  /** The piece is as large as the allowance permits: whole groups that fit what the 32-bit product leaves,
      while one more would not. As long as the product does not wrap, four characters for one more group
      and the line breaks allowed for would exceed the space. */
  lemma PieceLargest(space: nat)
    ensures var groups, left := PieceLen(space) / 3, (space - space / 76 * 2) * 3 % UINT;
      && PieceLen(space) % 3 == 0 && groups * 12 <= left < (groups + 1) * 12
      && ((space - space / 76 * 2) * 3 < UINT ==> (groups + 1) * 4 + space / 76 * 2 > space)
  {
    var free := space - space / 76 * 2;
    var left := free * 3 % UINT;
    var can := left / 4;
    assert PieceLen(space) == can - can % 3;
    assert can / 3 == PieceLen(space) / 3;
    if free * 3 < UINT {
      assert left == free * 3;
    }
  }
}
