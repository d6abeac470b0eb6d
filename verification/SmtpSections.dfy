// The fixed text of a mail: header, part heads and closing boundary, and the space each of them needs.
module SmtpSections {
  import opened Bytes
  import opened Base64
  import opened MimeLines

  const BOUNDARY := "===Quectel_1755834449018_Quectel==="
  const NICKNAME := "xxx"
  const SENDER := "xxx@163.com"
  const TO_PERSON := "xxx@163.com"
  const CC_PERSON := "xxx@sina.com"
  const BCC_PERSON := "xxx@sohu.com"

  const TEXT_HEAD_RESERVE := 100 + |BOUNDARY|
  const ATTA_HEAD_RESERVE := 512
  const CLOSING_RESERVE := |BOUNDARY| + 10

  datatype Charset = Ascii | Utf8 | Gb2312 | Big5

  function CharsetName(c: Charset): (s: string) {
    match c
    case Ascii => "us-ascii"
    case Utf8 => "utf-8"
    case Gb2312 => "gb2312"
    case Big5 => "big5"
  }

  /** What the application hands over; `file` is the content behind `fileName`. */
  datatype Letter = Letter(
    subject: Option<seq<byte>>, subjectCharset: Charset,
    text: seq<byte>, textCharset: Charset,
    fileName: Option<string>, file: seq<byte>)

  function Chars(data: seq<byte>): (s: string) {
    seq(|data|, i requires 0 <= i < |data| => data[i] as char)
  }

  /** Whether the subject goes through the Base64 encoder. */
  predicate SubjectIsEncoded(l: Letter) {
    l.subject.Some? && l.subjectCharset != Ascii
  }

  /** The subject as the header shows it; an ASCII one is copied as it is. */
  function SubjectValue(l: Letter): (value: string) {
    match l.subject
    case None => ""
    case Some(s) =>
      if l.subjectCharset == Ascii then Chars(s)
      else "=?" + CharsetName(l.subjectCharset) + "?B?" + Encode(s) + "?="
  }

  /** A line behind a line break, and what follows it. */
  function Line(line: string, rest: string): (s: string) {
    CRLF + (line + rest)
  }

  const FROM_LINE := "From: \"" + NICKNAME + "\" <" + SENDER + ">"
  const TO_START := "To: <"
  const TO_LINE := TO_START + (TO_PERSON + ">")
  const CC_START := "Cc: <"
  const CC_LINE := CC_START + (CC_PERSON + ">")
  const BCC_START := "Bcc: <"
  const BCC_LINE := BCC_START + (BCC_PERSON + ">")
  const VERSION_LINE := "MIME-Version: 1.0"
  const SUBJECT_START := "Subject: "
  const TYPE_START := "Content-Type: "
  const MIXED_LINE := TYPE_START + ("multipart/mixed" + ";")
  const BOUNDARY_START := "\tboundary=\""
  const BOUNDARY_LINE := BOUNDARY_START + (BOUNDARY + "\"")

  function HeaderEnd(rest: string): (s: string) {
    Line(MIXED_LINE, Line(BOUNDARY_LINE, CRLF + (CRLF + rest)))
  }

  /** The mail header and what follows it. */
  function HeaderThen(l: Letter, rest: string): (s: string) {
    FROM_LINE + Line(TO_LINE, Line(CC_LINE, Line(BCC_LINE, Line(VERSION_LINE,
      Line(SUBJECT_START, SubjectValue(l) + HeaderEnd(rest))))))
  }

  function Header(l: Letter): (h: string)
    ensures |h| > 0
  {
    HeaderThen(l, "")
  }

  const BLANK := "\r\n\r\n"
  const ENCODING_START := "Content-Transfer-Encoding: "
  const BASE64_LINE := ENCODING_START + "base64"
  const TEXT_LINE := TYPE_START + ("text/plain" + ";")
  const CHARSET_START := "\tcharset=\""

  function CharsetLine(c: Charset): (s: string) {
    CHARSET_START + (CharsetName(c) + "\"")
  }

  /** The text part behind its delimiter: its fields, a blank line and the body. */
  function TextPart(c: Charset, body: string): (s: string) {
    Line(TEXT_LINE, Line(CharsetLine(c), Line(BASE64_LINE, BLANK + body)))
  }

  function TextHead(c: Charset): (s: string) {
    "--" + BOUNDARY + TextPart(c, "")
  }

  /** The part of a path behind its last slash. */
  function BaseName(path: string): (base: string)
    ensures |base| <= |path| && base == path[|path| - |base|..]
    ensures '/' !in base
    ensures |base| < |path| ==> path[|path| - |base| - 1] == '/'
  {
    if '/' !in path then path
    else
      assert path == [path[0]] + path[1..];
      BaseName(path[1..])
  }

  /** The line that separates parts (section 5.1.1 of RFC 2046), with the break before it. */
  const DELIMITER := "\r\n--" + BOUNDARY

  const FILE_LINE := TYPE_START + ("application/octet-stream" + ";")
  const NAME_START := "\tname=\""
  const DISPOSITION_LINE := "Content-Disposition: attachment;"
  const FILE_NAME_START := "\tfile_name=\""

  function AttaEnd(base: string, body: string): (s: string) {
    "\"" + Line(BASE64_LINE, Line(DISPOSITION_LINE, Line(FILE_NAME_START, base + ("\"" + (BLANK + body)))))
  }

  /** The attachment part behind its delimiter. The base name is copied as it is, twice. */
  function AttaPart(base: string, body: string): (s: string) {
    Line(FILE_LINE, Line(NAME_START, base + AttaEnd(base, body)))
  }

  function AttaHead(base: string): (s: string) {
    DELIMITER + AttaPart(base, "")
  }

  function Closing(): (s: string) {
    DELIMITER + "--\r\n"
  }

  lemma EncodeBreakFree(data: seq<byte>)
    ensures BreakFree(Encode(data))
  {
    hide Encode;
    forall k | 0 <= k < |Encode(data)| ensures !IsBreak(Encode(data)[k]) {
      EncodeAlphabet(data, k);
    }
  }

  // ---------- the reservations ----------

  /** The text head fits its 135-byte check for every charset, with room for the terminator. */
  lemma TextHeadFits(c: Charset)
    ensures 0 < |TextHead(c)| < TEXT_HEAD_RESERVE == 135
  {
  }

  lemma ClosingFits()
    ensures 0 < |Closing()| < CLOSING_RESERVE == 45
  {
  }

  /** The 512-byte check admits the attachment head exactly for base names of up to 166 bytes. */
  lemma AttaHeadFits(base: string)
    ensures 0 < |AttaHead(base)| == 178 + 2 * |base|
    ensures |AttaHead(base)| < ATTA_HEAD_RESERVE <==> |base| <= 166
  {
  }

  // ---------- the header's prints ----------

  /** The strings that the header is printed with, one `snprintf` each. */
  function HeaderPrints(l: Letter): (prints: seq<string>) {
    [FROM_LINE + CRLF] + ([TO_LINE + CRLF] + ([CC_LINE + CRLF] + ([BCC_LINE + CRLF] + ([VERSION_LINE + CRLF]
    + ([SUBJECT_START + SubjectValue(l) + CRLF] + ([MIXED_LINE + CRLF + BOUNDARY_LINE + CRLF + CRLF] + []))))))
  }

  /** Printed one behind the other from `len` on, every string and its terminator stay inside the buffer,
      so the unsigned space left never wraps. */
  predicate AllFit(prints: seq<string>, len: nat, size: nat) {
    |prints| == 0 || (len + |prints[0]| < size && AllFit(prints[1..], len + |prints[0]|, size))
  }

  lemma {:induction false} PrintsFitExactly(prints: seq<string>, len: nat, size: nat)
    requires prints != []
    ensures AllFit(prints, len, size) <==> len + |Flatten(prints)| < size
  {
    if |prints| > 1 {
      PrintsFitExactly(prints[1..], len + |prints[0]|, size);
    } else {
      assert prints[1..] == [];
    }
  }

  lemma FlattenFirst(a: string, rest: seq<string>)
    ensures Flatten([a] + rest) == a + Flatten(rest)
  {
    assert ([a] + rest)[1..] == rest;
  }

  /** A printed line behind a line break. */
  lemma PrintLine(line: string, rest: seq<string>)
    ensures CRLF + Flatten([line + CRLF] + rest) == Line(line, CRLF + Flatten(rest))
  {
    hide Flatten;
    FlattenFirst(line + CRLF, rest);
    assert CRLF + ((line + CRLF) + Flatten(rest)) == CRLF + (line + (CRLF + Flatten(rest)));
  }

  lemma PrintLast(a: string, b: string)
    ensures CRLF + Flatten([a + CRLF + b + CRLF + CRLF] + []) == Line(a, Line(b, CRLF + (CRLF + "")))
  {
    hide Flatten;
    var last := a + CRLF + b + CRLF + CRLF;
    FlattenFirst(last, []);
    FlattenNone();
    assert CRLF + (last + "") == CRLF + (a + (CRLF + (b + (CRLF + (CRLF + "")))));
  }

  lemma FlattenNone()
    ensures Flatten<char>([]) == ""
  {
  }

  lemma LineOfTwo(a: string, b: string, rest: string)
    ensures Line(a + b, rest) == Line(a, b + rest)
  {
    assert (a + b) + rest == a + (b + rest);
  }

  /** The prints make up the header. */
  lemma HeaderPrinted(l: Letter)
    ensures Flatten(HeaderPrints(l)) == Header(l)
  {
    hide Flatten, Line, SubjectValue;
    var p7 := [MIXED_LINE + CRLF + BOUNDARY_LINE + CRLF + CRLF] + [];
    var p6 := [SUBJECT_START + SubjectValue(l) + CRLF] + p7;
    var p5 := [VERSION_LINE + CRLF] + p6;
    var p4 := [BCC_LINE + CRLF] + p5;
    var p3 := [CC_LINE + CRLF] + p4;
    PrintLast(MIXED_LINE, BOUNDARY_LINE);
    PrintLine(SUBJECT_START + SubjectValue(l), p7);
    LineOfTwo(SUBJECT_START, SubjectValue(l), HeaderEnd(""));
    PrintLine(VERSION_LINE, p6);
    PrintLine(BCC_LINE, p5);
    PrintLine(CC_LINE, p4);
    PrintLine(TO_LINE, p3);
    PrintFirst(FROM_LINE, [TO_LINE + CRLF] + p3);
  }

  lemma PrintFirst(line: string, rest: seq<string>)
    ensures Flatten([line + CRLF] + rest) == line + (CRLF + Flatten(rest))
  {
    hide Flatten;
    FlattenFirst(line + CRLF, rest);
    assert (line + CRLF) + Flatten(rest) == line + (CRLF + Flatten(rest));
  }

  /** The header is printed inside its buffer exactly if the buffer is larger than the header. */
  lemma HeaderFitsExactly(l: Letter, size: nat)
    ensures AllFit(HeaderPrints(l), 0, size) <==> |Header(l)| < size
  {
    hide *;
    HeaderPrinted(l);
    PrintsAny(l);
    PrintsFitExactly(HeaderPrints(l), 0, size);
  }

  lemma PrintsAny(l: Letter)
    ensures HeaderPrints(l) != []
  {
  }
}
