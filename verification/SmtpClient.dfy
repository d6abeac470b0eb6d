// The mail client as the demo keeps it: fields updated in place, the caller's buffer filled in place.
module SmtpClient {
  import opened Bytes
  import opened Base64
  import opened MimeLines
  import opened SmtpSections
  import opened SmtpStages
  import opened SmtpRun
  import Vfs

  /** Copies `s` into the buffer, as the formatted print calls do. */
  method Put(buf: array<char>, off: nat, s: string)
    requires off + |s| <= buf.Length
    modifies buf
    ensures buf[off..off + |s|] == s && buf[..off] == old(buf[..off])
  {
    forall i | 0 <= i < |s| {
      buf[off + i] := s[i];
    }
  }

  /** The SDK's encoder with line breaks on: a negative result if it fails or lacks room. */
  method Base64Encode(src: seq<byte>, buf: array<char>, off: nat, space: nat, ok: bool) returns (n: int)
    requires off + space <= buf.Length
    modifies buf
    ensures n < 0 <==> !Encodes(src, space, ok)
    ensures n >= 0 ==> n == |Wrap(Encode(src))| && buf[off..off + n] == Wrap(Encode(src))
    ensures buf[..off] == old(buf[..off])
  {
    var out := Wrap(Encode(src));
    if !ok || |out| > space {
      return -1;
    }
    Put(buf, off, out);
    return |out|;
  }

  /** How many octets to take: the arithmetic both body encoders share, in unsigned ints. */
  method PieceSize(space: nat) returns (canRead: nat)
    ensures canRead == PieceLen(space)
  {
    var lineCharacters := space / 76 * 2;
    var freeLen := space - lineCharacters;
    canRead := freeLen * 3 % UINT / 4;
    canRead := canRead - canRead % 3;
  }

  class Client {
    const mail: Mail
    const file: Vfs.OpenFile
    var status: Status
    var textUsed: nat
    var fileSize: nat
    var fileUsed: nat

    constructor (letter: Letter)
      requires Compose(letter).Valid()
      ensures Valid() && fresh(file) && mail == Compose(letter) && View() == START
    {
      mail := Compose(letter);
      file := new Vfs.OpenFile(letter.file);
      status, textUsed, fileSize, fileUsed := Head, 0, 0, 0;
    }

    ghost function View(): (r: Progress)
      reads this, file
    {
      Progress(status, textUsed, fileSize, fileUsed, file.pos)
    }

    ghost predicate Valid()
      reads this, file
    {
      && file.data == mail.file && file.Valid()
      && mail.Valid() && InRange(mail, View())
    }

    method EncodeMailHeader(buf: array<char>, off: nat, space: nat, c: Call) returns (len: nat)
      requires Valid() && off + space <= buf.Length && |mail.header| < space
      modifies this, buf
      ensures Valid() && buf[..off] == old(buf[..off])
      ensures var r := HeaderStage(mail, old(View()), c);
        View() == r.0 && off + len <= buf.Length && buf[off..off + len] == r.1
    {
      if mail.subjectEncoded && !c.subjectOk {
        return 0;
      }
      Put(buf, off, mail.header);
      status := TextHeading;
      return |mail.header|;
    }

    method EncodeTextHead(buf: array<char>, off: nat, space: nat) returns (len: nat)
      requires Valid() && off + space <= buf.Length
      modifies this, buf
      ensures Valid() && buf[..off] == old(buf[..off])
      ensures var r := TextHeadStage(mail, old(View()), space);
        View() == r.0 && off + len <= buf.Length && buf[off..off + len] == r.1
    {
      if space < 100 + |BOUNDARY| {
        return 0;
      }
      Put(buf, off, mail.textHead);
      status := TextBody;
      return |mail.textHead|;
    }

    method EncodeTextBody(buf: array<char>, off: nat, space: nat, c: Call) returns (len: nat)
      requires Valid() && status.TextBody? && off + space <= buf.Length
      modifies this, buf
      ensures Valid() && buf[..off] == old(buf[..off])
      ensures var r := TextBodyStage(mail, old(View()), space, c);
        View() == r.0 && off + len <= buf.Length && buf[off..off + len] == r.1
    {
      hide Encode, Wrap, PieceLen;
      len := 0;
      if |mail.text| == 0 {
        status := AttaHeading;
        return;
      }
      if space < 4 {
        return;
      }
      var canRead := PieceSize(space);
      var copyLen := Min(canRead, |mail.text| - textUsed);
      if copyLen != 0 {
        var n := Base64Encode(mail.text[textUsed..textUsed + copyLen], buf, off, space, c.textOk);
        if n >= 0 {
          textUsed := textUsed + copyLen;
          len := n;
          if textUsed >= |mail.text| {
            status := AttaHeading;
          }
        }
      } else {
        status := AttaHeading;
      }
    }

    method EncodeAttaHead(buf: array<char>, off: nat, space: nat, c: Call) returns (len: nat)
      requires Valid() && off + space <= buf.Length
      modifies this, file, buf
      ensures Valid() && buf[..off] == old(buf[..off])
      ensures var r := AttaHeadStage(mail, old(View()), space, c);
        View() == r.0 && off + len <= buf.Length && buf[off..off + len] == r.1
    {
      len := 0;
      if mail.attached {
        if space < 512 {
          return;
        }
        if !c.openOk {
          status := Tail;
          return;
        }
        file.open := true;
        if !c.statOk {
          status := Tail;
          file.open := false;
          return;
        }
        file.pos := 0;
        fileSize := |file.data|;
        Put(buf, off, mail.attaHead);
        len := |mail.attaHead|;
        status := AttaBody;
      } else {
        status := Tail;
      }
    }

    method EncodeAttaBody(buf: array<char>, off: nat, space: nat, c: Call) returns (len: nat)
      requires Valid() && status.AttaBody? && off + space <= buf.Length
      modifies this, file, buf
      ensures Valid() && buf[..off] == old(buf[..off])
      ensures var r := AttaBodyStage(mail, old(View()), space, c);
        View() == r.0 && off + len <= buf.Length && buf[off..off + len] == r.1
    {
      hide Encode, Wrap, PieceLen, Vfs.ReadFully;
      len := 0;
      if space < 4 {
        return;
      }
      var canRead := PieceSize(space);
      var copyLen := Min(canRead, fileSize - fileUsed);
      if copyLen == 0 || !c.mallocOk {
        status := Tail;
        return;
      }
      var fileBuf := new byte[copyLen];
      Vfs.ReadFullyExact(file.data, file.pos, copyLen, c.answers);
      var ret := Vfs.FileRead(fileBuf, file, copyLen, c.answers);
      if ret != 0 {
        status := Tail;
        file.open := false;
        return;
      }
      var n := Base64Encode(fileBuf[..copyLen], buf, off, space, c.fileOk);
      if n < 0 {
        status := Tail;
        file.open := false;
        return;
      }
      fileUsed := fileUsed + copyLen;
      len := n;
      if fileUsed >= fileSize {
        status := Tail;
      }
    }

    method EncodeClosing(buf: array<char>, off: nat, space: nat) returns (len: nat)
      requires Valid() && off + space <= buf.Length
      modifies this, buf
      ensures Valid() && buf[..off] == old(buf[..off])
      ensures var r := ClosingStage(mail, old(View()), space);
        View() == r.0 && off + len <= buf.Length && buf[off..off + len] == r.1
    {
      len := 0;
      if space > |BOUNDARY| + 10 {
        Put(buf, off, mail.closing);
        len := |mail.closing|;
        status := Finished;
      }
    }

    /** The text half of a callback: header, text head and text body as far as their turn has come. */
    method UploadFront(buf: array<char>, c: Call) returns (len: nat)
      requires Valid() && 0 < c.size <= buf.Length && Fits(mail, View(), c.size)
      modifies this, buf
      ensures Valid()
      ensures var r := Front(mail, old(View()), c);
        View() == r.0 && len == |Flat(r.1)| && buf[..len] == Flat(r.1)
    {
      hide Front, TextBodyStage, Flat, InRange, Mail.Valid;
      ghost var p := View();
      ghost var t1, t2, t3 := FrontTurns(mail, p, c);
      len := 0;
      if status.Head? {
        len := EncodeMailHeader(buf, 0, c.size, c);
      }
      assert View() == t1.0 && buf[..len] == t1.1;
      if status.TextHeading? {
        var n := EncodeTextHead(buf, len, c.size - len);
        Appended(buf, len, n, t1.1, t2.1);
        len := len + n;
      }
      assert View() == t2.0 && buf[..len] == t1.1 + t2.1;
      if status.TextBody? {
        var n := EncodeTextBody(buf, len, c.size - len, c);
        Appended(buf, len, n, t1.1 + t2.1, t3.1);
        len := len + n;
      }
      assert View() == t3.0 && buf[..len] == t1.1 + t2.1 + t3.1;
    }

    /** The attachment half: attachment head, file body and closing boundary, behind what is there. */
    method UploadBack(buf: array<char>, start: nat, c: Call) returns (len: nat)
      requires Valid() && start <= c.size <= buf.Length
      modifies this, file, buf
      ensures Valid()
      ensures var r := Back(mail, old(View()), c.size - start, c);
        View() == r.0 && len == start + |Flat(r.1)| && buf[..len] == old(buf[..start]) + Flat(r.1)
    {
      hide Back, AttaBodyStage, AttaHeadStage, ClosingStage, Flat, InRange, Mail.Valid;
      ghost var p, pre := View(), buf[..start];
      ghost var t1, t2, t3 := BackTurns(mail, p, c.size - start, c);
      len := start;
      if status.AttaHeading? {
        var n := EncodeAttaHead(buf, len, c.size - len, c);
        Appended(buf, len, n, pre, t1.1);
        len := len + n;
      }
      assert View() == t1.0 && buf[..len] == pre + t1.1;
      if status.AttaBody? {
        var n := EncodeAttaBody(buf, len, c.size - len, c);
        Appended(buf, len, n, pre + t1.1, t2.1);
        len := len + n;
      }
      assert View() == t2.0 && buf[..len] == pre + t1.1 + t2.1;
      if status.Tail? {
        var n := EncodeClosing(buf, len, c.size - len);
        Appended(buf, len, n, pre + t1.1 + t2.1, t3.1);
        len := len + n;
      }
      assert View() == t3.0 && buf[..len] == pre + t1.1 + t2.1 + t3.1;
      Regroup(pre, t1.1, t2.1, t3.1);
    }

    /** The upload callback. The buffer is cleared, then filled; `len` bytes of it are to be sent. */
    method UploadData(buf: array<char>, c: Call) returns (len: nat)
      requires Valid() && c.size <= buf.Length && (c.size == 0 || Fits(mail, View(), c.size))
      modifies this, file, buf
      ensures Valid()
      ensures var r := Callback(mail, old(View()), c);
        View() == r.0 && len == |Flat(r.1)| && buf[..len] == Flat(r.1)
    {
      hide Front, Back, Flat, InRange;
      if c.size == 0 {
        JoinSides(NOTHING, "", "", "");
        return 0;
      }
      forall i | 0 <= i < c.size {
        buf[i] := '\0';
      }
      len := UploadFront(buf, c);
      ghost var front := Front(mail, old(View()), c).1;
      JoinLaws(NOTHING, front, Back(mail, View(), c.size - len, c).1);
      len := UploadBack(buf, len, c);
    }
  }

  lemma Appended(buf: array<char>, len: nat, n: nat, a: string, b: string)
    requires len + n <= buf.Length && buf[..len] == a && buf[len..len + n] == b
    ensures buf[..len + n] == a + b
  {
  }

  lemma Regroup(a: string, b: string, c: string, d: string)
    ensures a + b + c + d == a + (b + c + d)
  {
  }

  /** The three turns that make up the first half, and their sum. */
  lemma FrontTurns(m: Mail, p: Progress, c: Call)
    returns (t1: (Progress, string), t2: (Progress, string), t3: (Progress, string))
    requires m.Valid() && InRange(m, p) && Fits(m, p, c.size)
    ensures t1 == if p.status.Head? then HeaderStage(m, p, c) else (p, "")
    ensures |t1.1| <= c.size && InRange(m, t1.0)
    ensures t2 == if t1.0.status.TextHeading? then TextHeadStage(m, t1.0, c.size - |t1.1|) else (t1.0, "")
    ensures |t1.1| + |t2.1| <= c.size && InRange(m, t2.0)
    ensures t3 == if t2.0.status.TextBody? then TextBodyStage(m, t2.0, c.size - |t1.1| - |t2.1|, c) else (t2.0, "")
    ensures |t1.1| + |t2.1| + |t3.1| <= c.size && InRange(m, t3.0)
    ensures Front(m, p, c).0 == t3.0 && Flat(Front(m, p, c).1) == t1.1 + t2.1 + t3.1
  {
    hide TextBodyStage;
    t1 := if p.status.Head? then HeaderStage(m, p, c) else (p, "");
    t2 := if t1.0.status.TextHeading? then TextHeadStage(m, t1.0, c.size - |t1.1|) else (t1.0, "");
    TextBodyBound(m, t2.0, c.size - |t1.1| - |t2.1|, c);
    t3 := if t2.0.status.TextBody? then TextBodyStage(m, t2.0, c.size - |t1.1| - |t2.1|, c) else (t2.0, "");
    JoinSides(NOTHING, t1.1, t2.1, t3.1);
  }

  lemma BackTurns(m: Mail, p: Progress, space: nat, c: Call)
    returns (t1: (Progress, string), t2: (Progress, string), t3: (Progress, string))
    requires m.Valid() && InRange(m, p)
    ensures t1 == if p.status.AttaHeading? then AttaHeadStage(m, p, space, c) else (p, "")
    ensures |t1.1| <= space && InRange(m, t1.0)
    ensures t2 == if t1.0.status.AttaBody? then AttaBodyStage(m, t1.0, space - |t1.1|, c) else (t1.0, "")
    ensures |t1.1| + |t2.1| <= space && InRange(m, t2.0)
    ensures t3 == if t2.0.status.Tail? then ClosingStage(m, t2.0, space - |t1.1| - |t2.1|) else (t2.0, "")
    ensures |t1.1| + |t2.1| + |t3.1| <= space && InRange(m, t3.0)
    ensures Back(m, p, space, c).0 == t3.0 && Flat(Back(m, p, space, c).1) == t1.1 + t2.1 + t3.1
  {
    hide AttaBodyStage;
    t1 := if p.status.AttaHeading? then AttaHeadStage(m, p, space, c) else (p, "");
    AttaBodyBound(m, t1.0, space - |t1.1|, c);
    t2 := if t1.0.status.AttaBody? then AttaBodyStage(m, t1.0, space - |t1.1|, c) else (t1.0, "");
    t3 := if t2.0.status.Tail? then ClosingStage(m, t2.0, space - |t1.1| - |t2.1|) else (t2.0, "");
    JoinSides(NOTHING, t1.1, t2.1, t3.1);
  }
}
