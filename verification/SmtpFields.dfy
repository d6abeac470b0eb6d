// The fields of the mail header and of the part heads as a receiver reads them: found by their names,
// read up to what ends them.
module SmtpFields {
  import opened Bytes
  import opened Base64
  import opened MimeLines
  import opened SmtpSections
  import opened SmtpSearch

  const SUBJECT_FIELD := "\r\nSubject: "
  const BOUNDARY_FIELD := "\r\n\tboundary=\""
  const TYPE_FIELD := "\r\nContent-Type: "
  const ENCODING_FIELD := "\r\nContent-Transfer-Encoding: "
  const CHARSET_FIELD := "\r\n\tcharset=\""
  const NAME_FIELD := "\r\n\tname=\""

  lemma FieldNames()
    ensures SUBJECT_FIELD == CRLF + SUBJECT_START && BOUNDARY_FIELD == CRLF + BOUNDARY_START
    ensures CHARSET_FIELD == CRLF + CHARSET_START && NAME_FIELD == CRLF + NAME_START
    ensures TYPE_FIELD == CRLF + TYPE_START
  {
  }

  lemma EncodingName()
    ensures ENCODING_FIELD == CRLF + ENCODING_START
  {
  }

  lemma EncodingChars()
    ensures '\r' !in ENCODING_START && '\"' !in ENCODING_START
  {
  }

  lemma EncodingShape()
    ensures '\r' !in ENCODING_FIELD[1..] && '\"' !in ENCODING_FIELD
  {
    EncodingName();
    EncodingChars();
    BehindBreak(ENCODING_START);
  }

  lemma BehindBreak(name: string)
    requires '\r' !in name && '\"' !in name
    ensures '\r' !in (CRLF + name)[1..] && '\"' !in CRLF + name
  {
    assert (CRLF + name)[1..] == "\n" + name;
  }

  lemma FieldPatterns()
    ensures BreakPattern(SUBJECT_FIELD, 'S') && BreakPattern(BOUNDARY_FIELD, '\t') && BreakPattern(TYPE_FIELD, 'C')
    ensures BreakPattern(ENCODING_FIELD, 'C') && BreakPattern(CHARSET_FIELD, '\t') && BreakPattern(NAME_FIELD, '\t')
    ensures '\r' !in BOUNDARY_FIELD[1..]
  {
    assert BOUNDARY_FIELD[1..] == "\n" + BOUNDARY_START;
  }

  /** The names under which the charsets are registered. */
  lemma CharsetNames(c: Charset)
    ensures CharsetName(c) in {"us-ascii", "utf-8", "gb2312", "big5"} && '\r' !in CharsetName(c)
    ensures '?' !in CharsetName(c) && '\"' !in CharsetName(c)
    ensures c.Ascii? <==> CharsetName(c) == "us-ascii"
    ensures c.Utf8? <==> CharsetName(c) == "utf-8"
    ensures c.Gb2312? <==> CharsetName(c) == "gb2312"
    ensures c.Big5? <==> CharsetName(c) == "big5"
  {
    assert "us-ascii"[0] == 'u' && "us-ascii"[1] == 's' && "utf-8"[1] == 't' && "gb2312"[0] == 'g' && "big5"[0] == 'b';
  }

  // ---------- the lines of a mail ----------

  lemma HeaderLines()
    ensures PlainLine(TO_LINE, 'T') && PlainLine(CC_LINE, 'C') && PlainLine(BCC_LINE, 'B')
    ensures PlainLine(VERSION_LINE, 'M') && PlainLine(SUBJECT_START, 'S') && '\r' !in FROM_LINE
  {
  }

  lemma HeaderEndLines()
    ensures PlainLine(MIXED_LINE, 'C') && PlainLine(BOUNDARY_LINE, '\t')
  {
  }

  lemma TextLines(c: Charset)
    ensures PlainLine(TEXT_LINE, 'C') && PlainLine(CharsetLine(c), '\t') && PlainLine(BASE64_LINE, 'C')
  {
    hide CharsetName;
    CharsetNames(c);
  }

  lemma AttaLines()
    ensures PlainLine(FILE_LINE, 'C') && PlainLine(NAME_START, '\t')
  {
  }

  lemma AttaEndLines()
    ensures PlainLine(BASE64_LINE, 'C') && PlainLine(DISPOSITION_LINE, 'C') && PlainLine(FILE_NAME_START, '\t')
  {
  }

  lemma HeaderShape(l: Letter, rest: string)
    ensures HeaderThen(l, rest) == FROM_LINE + Line(TO_LINE, Line(CC_LINE, Line(BCC_LINE, Line(VERSION_LINE,
      Line(SUBJECT_START, SubjectValue(l) + HeaderEnd(rest))))))
  {
    hide Line, HeaderEnd;
  }

  lemma HeaderEndShape(rest: string)
    ensures var e := HeaderEnd(rest);
      && |e| > |rest| && e[0] == '\r' && CRLF <= e
      && e == Line(MIXED_LINE, Line(BOUNDARY_LINE, CRLF + (CRLF + rest)))
  {
  }

  lemma TextShape(c: Charset, body: string)
    ensures TextPart(c, body) == Line(TEXT_LINE, Line(CharsetLine(c), Line(BASE64_LINE, BLANK + body)))
    ensures !("--" <= TextPart(c, body))
  {
    assert TextPart(c, body)[0] == '\r';
  }

  lemma AttaShape(base: string, x: string)
    ensures AttaEnd(base, x) ==
      "\"" + Line(BASE64_LINE, Line(DISPOSITION_LINE, Line(FILE_NAME_START, base + ("\"" + (BLANK + x)))))
    ensures AttaPart(base, x) == Line(FILE_LINE, Line(NAME_START, base + AttaEnd(base, x)))
    ensures AttaEnd(base, x)[0] == '\"' && |AttaEnd(base, x)| > |x| && !("--" <= AttaPart(base, x))
  {
    assert AttaPart(base, x)[0] == '\r';
  }

  // ---------- the header ----------

  /** A search of the header for a line that it does not begin with goes on at the subject. */
  lemma HeaderSearch(pat: string, d: char, l: Letter, rest: string)
    requires pat != "" && BreakPattern(pat, d) && d !in {'T', 'C', 'B', 'M'} && pat[0] == '\r'
    requires Occurs(pat, Line(SUBJECT_START, SubjectValue(l) + HeaderEnd(rest)))
    ensures var s, t := HeaderThen(l, rest), Line(SUBJECT_START, SubjectValue(l) + HeaderEnd(rest));
      Occurs(pat, s) && After(pat, s) == After(pat, t)
  {
    hide *;
    HeaderLines();
    HeaderShape(l, rest);
    var s1 := Line(SUBJECT_START, SubjectValue(l) + HeaderEnd(rest));
    var s2 := Line(VERSION_LINE, s1);
    var s3 := Line(BCC_LINE, s2);
    var s4 := Line(CC_LINE, s3);
    SkipLine(pat, d, VERSION_LINE, 'M', s1);
    SkipLine(pat, d, BCC_LINE, 'B', s2);
    SkipLine(pat, d, CC_LINE, 'C', s3);
    SkipLine(pat, d, TO_LINE, 'T', s4);
    SkipPlain(pat, FROM_LINE, Line(TO_LINE, s4));
  }

  /** The receiver's subject: the rest of the first line that begins with the field's name. */
  function SubjectText(s: string): (text: string) {
    Field(SUBJECT_FIELD, CRLF, s)
  }

  /** The subject is read as it was printed exactly if it holds no line break. */
  lemma SubjectLineExactly(l: Letter, rest: string)
    ensures SubjectText(HeaderThen(l, rest)) == SubjectValue(l) <==> !Occurs(CRLF, SubjectValue(l))
  {
    hide Find, HeaderThen, HeaderEnd, SubjectValue, Line, Before, After, Occurs;
    FieldNames();
    FieldPatterns();
    HeaderEndShape(rest);
    FieldFound(SUBJECT_FIELD, SUBJECT_START, SubjectValue(l) + HeaderEnd(rest));
    HeaderSearch(SUBJECT_FIELD, 'S', l, rest);
    assert CRLF[1..] == "\n";
    ReadExactly(CRLF, SubjectValue(l), HeaderEnd(rest));
  }

  /** An encoded word in Base64 (section 2 of RFC 2047). */
  datatype Word = Word(charset: string, octets: seq<byte>)

  function EncodedWord(s: string): (w: Option<Word>) {
    if !("=?" <= s) || !Occurs("?", s[2..]) then None
    else
      var charset, rest := Before("?", s[2..]), After("?", s[2..]);
      if !("B?" <= rest) || !Occurs("?", rest[2..]) || After("?", rest[2..]) != "=" then None
      else Some(Word(charset, Decode(Before("?", rest[2..]))))
  }

  lemma UntilQuestionMark(value: string, rest: string)
    requires '?' !in value
    ensures var s := value + ("?" + rest); Occurs("?", s) && Before("?", s) == value && After("?", s) == rest
  {
    hide Find;
    FoundHere("?", rest);
    SkipPlain("?", value, "?" + rest);
    assert value + "" == value;
  }

  lemma EncodedWordIs(name: string, payload: string)
    requires '?' !in name && '?' !in payload
    ensures EncodedWord("=?" + name + "?B?" + payload + "?=") == Some(Word(name, Decode(payload)))
  {
    hide Find, Decode, Before, After, Occurs;
    var s := "=?" + name + "?B?" + payload + "?=";
    var rest := "B?" + (payload + ("?" + "="));
    assert s[2..] == name + ("?" + rest);
    UntilQuestionMark(name, rest);
    assert rest[2..] == payload + ("?" + "=");
    UntilQuestionMark(payload, "=");
  }

  lemma EncodePlain(data: seq<byte>)
    ensures '?' !in Encode(data) && '\r' !in Encode(data)
  {
    hide Encode;
    forall k | 0 <= k < |Encode(data)| ensures Encode(data)[k] != '?' && Encode(data)[k] != '\r' {
      EncodeAlphabet(data, k);
    }
  }

  lemma EncodedSubject(l: Letter)
    requires SubjectIsEncoded(l)
    ensures SubjectValue(l) == "=?" + CharsetName(l.subjectCharset) + "?B?" + Encode(l.subject.value) + "?="
    ensures '\r' !in SubjectValue(l)
  {
    hide Encode, CharsetName;
    EncodePlain(l.subject.value);
    CharsetNames(l.subjectCharset);
  }

  lemma BreakInChars(data: seq<byte>)
    ensures Occurs(CRLF, Chars(data)) <==> exists k :: 0 <= k < |data| - 1 && data[k] == 13 && data[k + 1] == 10
  {
    hide Find;
    var s := Chars(data);
    if k :| 0 <= k < |data| - 1 && data[k] == 13 && data[k + 1] == 10 {
      assert s[k] == '\r' && s[k + 1] == '\n';
      assert CRLF <= s[k..];
    }
    if Occurs(CRLF, s) {
      var n := Find(CRLF, s);
      assert s[n..][0] == '\r' && s[n..][1] == '\n';
      assert data[n] == 13 && data[n + 1] == 10;
    }
  }

  /** What a receiver reads as the subject. Without a subject it reads nothing; a subject in another charset
      comes as an encoded word with that charset and exactly its octets; an ASCII one comes as its octets
      exactly if they hold no line break. */
  ghost predicate SubjectIntact(l: Letter, s: string) {
    var text := SubjectText(s);
    match l.subject
    case None => text == ""
    case Some(octets) =>
      if l.subjectCharset != Ascii then EncodedWord(text) == Some(Word(CharsetName(l.subjectCharset), octets))
      else
        (|text| == |octets| && forall k :: 0 <= k < |octets| ==> text[k] as int == octets[k]) <==>
        !exists k :: 0 <= k < |octets| - 1 && octets[k] == 13 && octets[k + 1] == 10
  }

  /** The subject of every letter arrives, whatever follows the header. */
  lemma SubjectArrives(l: Letter, rest: string)
    ensures SubjectIntact(l, HeaderThen(l, rest))
  {
    hide Find, HeaderThen, SubjectText, EncodedWord, Encode, Decode, CharsetName;
    SubjectLineExactly(l, rest);
    match l.subject
    case None => NoneWithout(CRLF, "");
    case Some(octets) =>
      if l.subjectCharset != Ascii {
        EncodedSubject(l);
        NoneWithout(CRLF, SubjectValue(l));
        EncodePlain(octets);
        CharsetNames(l.subjectCharset);
        EncodedWordIs(CharsetName(l.subjectCharset), Encode(octets));
        RoundTrip(octets);
      } else {
        BreakInChars(octets);
        SameChars(SubjectText(HeaderThen(l, rest)), octets);
      }
  }

  lemma SameChars(text: string, octets: seq<byte>)
    ensures (|text| == |octets| && forall k :: 0 <= k < |octets| ==> text[k] as int == octets[k])
      <==> text == Chars(octets)
  {
    if |text| == |octets| && forall k :: 0 <= k < |octets| ==> text[k] as int == octets[k] {
      forall k | 0 <= k < |octets| ensures text[k] == Chars(octets)[k] {
        assert text[k] as int == octets[k];
      }
    }
  }

  // ---------- the boundary ----------

  /** The boundary that the header announces. */
  function Announced(s: string): (boundary: string) {
    Field(BOUNDARY_FIELD, "\"", s)
  }

  lemma BoundaryHere(rest: string)
    ensures Occurs(BOUNDARY_FIELD, HeaderEnd(rest))
    ensures After(BOUNDARY_FIELD, HeaderEnd(rest)) == BOUNDARY + ("\"" + (CRLF + (CRLF + rest)))
  {
    hide Find, HeaderEnd, Line, Before, After, Occurs;
    FieldNames();
    FieldPatterns();
    HeaderEndLines();
    HeaderEndShape(rest);
    var y := CRLF + (CRLF + rest);
    LineOfTwo(BOUNDARY_START, BOUNDARY + "\"", y);
    FieldFound(BOUNDARY_FIELD, BOUNDARY_START, (BOUNDARY + "\"") + y);
    Regroup(BOUNDARY, "\"", y);
    SkipLine(BOUNDARY_FIELD, '\t', MIXED_LINE, 'C', Line(BOUNDARY_LINE, y));
  }

  lemma AnnouncedHere(rest: string)
    ensures Before("\"", BOUNDARY + ("\"" + rest)) == BOUNDARY
  {
    hide Find;
    NoneWithout("\"", BOUNDARY);
    ReadExactly("\"", BOUNDARY, "\"" + rest);
  }

  /** The announced boundary is found where it is exactly if the subject holds no such field. */
  lemma BoundaryExactly(l: Letter, rest: string)
    ensures var s := HeaderThen(l, rest);
      && Occurs(BOUNDARY_FIELD, s)
      && (After(BOUNDARY_FIELD, s) == BOUNDARY + ("\"" + (CRLF + (CRLF + rest))) <==>
            !Occurs(BOUNDARY_FIELD, SubjectValue(l)))
      && (!Occurs(BOUNDARY_FIELD, SubjectValue(l)) ==> Announced(s) == BOUNDARY)
  {
    hide Find, HeaderThen, HeaderEnd, SubjectValue, Line, Before, After, Occurs;
    FieldPatterns();
    HeaderLines();
    HeaderEndShape(rest);
    BoundaryHere(rest);
    AnnouncedHere(CRLF + (CRLF + rest));
    var v, e := SubjectValue(l), HeaderEnd(rest);
    if Occurs(BOUNDARY_FIELD, v) {
      StopInValue(BOUNDARY_FIELD, v, e);
      BoundaryLonger(rest);
    } else {
      PassValue(BOUNDARY_FIELD, v, e);
    }
    SkipLine(BOUNDARY_FIELD, '\t', SUBJECT_START, 'S', v + e);
    HeaderSearch(BOUNDARY_FIELD, '\t', l, rest);
  }

  lemma BoundaryLonger(rest: string)
    ensures |HeaderEnd(rest)| > |BOUNDARY + ("\"" + (CRLF + (CRLF + rest)))|
  {
  }

  // ---------- the fields of the parts ----------

  lemma TypeFound(kind: string, rest: string)
    requires ';' !in kind
    ensures var s := Line(TYPE_START + (kind + ";"), rest);
      Occurs(TYPE_FIELD, s) && Before(";", After(TYPE_FIELD, s)) == kind
  {
    hide Find, Line, Before, After, Occurs;
    FieldNames();
    LineOfTwo(TYPE_START, kind + ";", rest);
    FieldFound(TYPE_FIELD, TYPE_START, (kind + ";") + rest);
    Regroup(kind, ";", rest);
    NoneWithout(";", kind);
    ReadExactly(";", kind, ";" + rest);
  }

  lemma TypeHere(kind: string, rest: string)
    requires ';' !in kind
    ensures Field(TYPE_FIELD, ";", Line(TYPE_START + (kind + ";"), rest)) == kind
  {
    hide Find, Line, Before, After, Occurs;
    TypeFound(kind, rest);
  }

  lemma EncodingHere(rest: string)
    requires CRLF <= rest
    ensures var s := Line(BASE64_LINE, rest);
      Occurs(ENCODING_FIELD, s) && After(ENCODING_FIELD, s) == "base64" + rest
    ensures Before(CRLF, "base64" + rest) == "base64"
  {
    hide Find, Line, Before, After, Occurs;
    EncodingName();
    LineOfTwo(ENCODING_START, "base64", rest);
    FieldFound(ENCODING_FIELD, ENCODING_START, "base64" + rest);
    NoneWithout(CRLF, "base64");
    assert CRLF[1..] == "\n" && rest[0] == CRLF[0];
    ReadExactly(CRLF, "base64", rest);
  }

  /** Where a content type differs from a transfer encoding. */
  lemma TypeDiffers()
    ensures |TEXT_LINE| > 9 && TEXT_LINE[9] == 'y' && |FILE_LINE| > 9 && FILE_LINE[9] == 'y'
    ensures |ENCODING_FIELD| > 11 && ENCODING_FIELD[11] == 'r' && ENCODING_FIELD[0] == '\r' && ENCODING_FIELD[1] == '\n'
  {
  }

  lemma CharsetHere(c: Charset, rest: string)
    ensures var s := Line(CharsetLine(c), rest);
      Occurs(CHARSET_FIELD, s) && After(CHARSET_FIELD, s) == CharsetName(c) + ("\"" + rest)
    ensures Before("\"", CharsetName(c) + ("\"" + rest)) == CharsetName(c)
  {
    hide Find, Line, CharsetName, Before, After, Occurs;
    FieldNames();
    CharsetNames(c);
    LineOfTwo(CHARSET_START, CharsetName(c) + "\"", rest);
    FieldFound(CHARSET_FIELD, CHARSET_START, (CharsetName(c) + "\"") + rest);
    Regroup(CharsetName(c), "\"", rest);
    NoneWithout("\"", CharsetName(c));
    ReadExactly("\"", CharsetName(c), "\"" + rest);
  }

  lemma BlankBreaks(body: string)
    ensures CRLF <= BLANK + body
  {
  }

  /** The text part says what it is: plain text in its charset, encoded in Base64. */
  lemma TextFields(c: Charset, body: string)
    ensures var s := TextPart(c, body);
      && Field(TYPE_FIELD, ";", s) == "text/plain"
      && Field(CHARSET_FIELD, "\"", s) == CharsetName(c)
      && Field(ENCODING_FIELD, CRLF, s) == "base64"
  {
    hide Find, Line, TextPart, CharsetName, CharsetLine, Before, After, Occurs;
    TextShape(c, body);
    TextLines(c);
    FieldPatterns();
    var x := Line(BASE64_LINE, BLANK + body);
    TypeHere("text/plain", Line(CharsetLine(c), x));
    CharsetHere(c, x);
    SkipLine(CHARSET_FIELD, '\t', TEXT_LINE, 'C', Line(CharsetLine(c), x));
    BlankBreaks(body);
    EncodingHere(BLANK + body);
    SkipLine(ENCODING_FIELD, 'C', CharsetLine(c), '\t', x);
    TypeDiffers();
    SkipOtherLine(ENCODING_FIELD, TEXT_LINE, Line(CharsetLine(c), x), 9);
  }

  lemma LineBreaks(line: string, rest: string)
    ensures CRLF <= Line(line, rest)
  {
  }

  /** What follows the base name in the attachment part's head, from the encoding's value on. */
  function Disposition(base: string, body: string): (s: string) {
    Line(DISPOSITION_LINE, Line(FILE_NAME_START, base + ("\"" + (BLANK + body))))
  }

  /** The attachment's file name is read whole exactly if it holds no quote. */
  lemma FileNameExactly(base: string, body: string)
    ensures Field(NAME_FIELD, "\"", AttaPart(base, body)) == base <==> '\"' !in base
  {
    hide Find, Line, AttaPart, AttaEnd, Before, After, Occurs;
    AttaShape(base, body);
    AttaLines();
    FieldNames();
    FieldPatterns();
    var e := AttaEnd(base, body);
    FieldFound(NAME_FIELD, NAME_START, base + e);
    SkipLine(NAME_FIELD, '\t', FILE_LINE, 'C', Line(NAME_START, base + e));
    ReadExactly("\"", base, e);
    QuoteOccurs(base);
  }

  lemma QuoteOccurs(s: string)
    ensures Occurs("\"", s) <==> '\"' in s
  {
    hide Find;
    if '\"' in s {
      var k :| 0 <= k < |s| && s[k] == '\"';
      assert "\"" <= s[k..];
    } else {
      NoneWithout("\"", s);
    }
  }

  /** Its transfer encoding is found where it is, and says Base64, exactly if the base name holds no such field. */
  lemma EncodingExactly(base: string, body: string)
    ensures var s := AttaPart(base, body);
      && Field(TYPE_FIELD, ";", s) == "application/octet-stream"
      && Occurs(ENCODING_FIELD, s)
      && (After(ENCODING_FIELD, s) == "base64" + Disposition(base, body) <==> !Occurs(ENCODING_FIELD, base))
      && (!Occurs(ENCODING_FIELD, base) ==> Field(ENCODING_FIELD, CRLF, s) == "base64")
  {
    hide Find, Line, AttaPart, AttaEnd, Disposition, Before, After, Occurs;
    AttaShape(base, body);
    AttaLines();
    FieldPatterns();
    EncodingShape();
    TypeDiffers();
    DispositionShape(base, body);
    var e := AttaEnd(base, body);
    var d := Disposition(base, body);
    TypeHere("application/octet-stream", Line(NAME_START, base + e));
    EncodingHere(d);
    SkipQuote(ENCODING_FIELD, Line(BASE64_LINE, d));
    if Occurs(ENCODING_FIELD, base) {
      StopInValue(ENCODING_FIELD, base, e);
    } else {
      PassValue(ENCODING_FIELD, base, e);
    }
    SkipLine(ENCODING_FIELD, 'C', NAME_START, '\t', base + e);
    SkipOtherLine(ENCODING_FIELD, FILE_LINE, Line(NAME_START, base + e), 9);
  }

  lemma DispositionShape(base: string, body: string)
    ensures AttaEnd(base, body) == "\"" + Line(BASE64_LINE, Disposition(base, body))
    ensures |AttaEnd(base, body)| > |"base64" + Disposition(base, body)| && CRLF <= Disposition(base, body)
  {
  }

  const FILE_NAME_FIELD := "\r\n\tfile_name=\""

  lemma FileNameField()
    ensures FILE_NAME_FIELD == CRLF + FILE_NAME_START && BreakPattern(FILE_NAME_FIELD, '\t')
    ensures FILE_NAME_FIELD[3] == 'f' && |NAME_START| > 1 && NAME_START[1] == 'n' && |FILE_NAME_FIELD| > 4
  {
  }

  /** The disposition repeats the name; without a carriage return in it, it is read whole exactly if it
      holds no quote. */
  lemma DispositionExactly(base: string, body: string)
    requires '\r' !in base
    ensures Field(FILE_NAME_FIELD, "\"", AttaPart(base, body)) == base <==> '\"' !in base
  {
    hide Find, Line, AttaPart, AttaEnd, Before, After, Occurs;
    AttaShape(base, body);
    AttaLines();
    AttaEndLines();
    FileNameField();
    var core := "\"" + (BLANK + body);
    var e3 := Line(FILE_NAME_START, base + core);
    var e1 := Line(BASE64_LINE, Line(DISPOSITION_LINE, e3));
    var e := AttaEnd(base, body);
    FieldFound(FILE_NAME_FIELD, FILE_NAME_START, base + core);
    SkipLine(FILE_NAME_FIELD, '\t', DISPOSITION_LINE, 'C', e3);
    SkipLine(FILE_NAME_FIELD, '\t', BASE64_LINE, 'C', Line(DISPOSITION_LINE, e3));
    SkipPlain(FILE_NAME_FIELD, "\"", e1);
    SkipPlain(FILE_NAME_FIELD, base, e);
    SkipOtherLine(FILE_NAME_FIELD, NAME_START, base + e, 1);
    SkipLine(FILE_NAME_FIELD, '\t', FILE_LINE, 'C', Line(NAME_START, base + e));
    ReadExactly("\"", base, core);
    QuoteOccurs(base);
  }

  lemma CarbonDiffers()
    ensures |CC_LINE| > 1 && CC_LINE[1] == 'c' && TYPE_FIELD[0] == '\r' && TYPE_FIELD[1] == '\n' && TYPE_FIELD[3] == 'o'
  {
  }

  /** Without a line break in its subject the header says that the mail has several parts. */
  lemma MixedArrives(l: Letter, rest: string)
    requires '\r' !in SubjectValue(l)
    ensures Field(TYPE_FIELD, ";", HeaderThen(l, rest)) == "multipart/mixed"
  {
    hide Find, HeaderThen, HeaderEnd, SubjectValue, Line, Before, After, Occurs;
    FieldPatterns();
    HeaderLines();
    HeaderShape(l, rest);
    HeaderEndShape(rest);
    CarbonDiffers();
    var v, e := SubjectValue(l), HeaderEnd(rest);
    TypeFound("multipart/mixed", Line(BOUNDARY_LINE, CRLF + (CRLF + rest)));
    SkipPlain(TYPE_FIELD, v, e);
    var s1 := Line(SUBJECT_START, v + e);
    var s2 := Line(VERSION_LINE, s1);
    var s3 := Line(BCC_LINE, s2);
    SkipLine(TYPE_FIELD, 'C', SUBJECT_START, 'S', v + e);
    SkipLine(TYPE_FIELD, 'C', VERSION_LINE, 'M', s1);
    SkipLine(TYPE_FIELD, 'C', BCC_LINE, 'B', s2);
    SkipOtherLine(TYPE_FIELD, CC_LINE, s3, 1);
    SkipLine(TYPE_FIELD, 'C', TO_LINE, 'T', Line(CC_LINE, s3));
    SkipPlain(TYPE_FIELD, FROM_LINE, Line(TO_LINE, Line(CC_LINE, s3)));
  }

  // ---------- the addresses ----------

  const TO_FIELD := "\r\nTo: <"
  const CC_FIELD := "\r\nCc: <"
  const BCC_FIELD := "\r\nBcc: <"

  lemma AddressNames()
    ensures TO_FIELD == CRLF + TO_START && CC_FIELD == CRLF + CC_START && BCC_FIELD == CRLF + BCC_START
    ensures BreakPattern(TO_FIELD, 'T') && BreakPattern(CC_FIELD, 'C') && BreakPattern(BCC_FIELD, 'B')
    ensures '>' !in TO_PERSON && '>' !in CC_PERSON && '>' !in BCC_PERSON
  {
  }

  lemma AddressFound(field: string, start: string, person: string, rest: string)
    requires field != "" && field == CRLF + start && '>' !in person
    ensures var s := Line(start + (person + ">"), rest);
      Occurs(field, s) && Before(">", After(field, s)) == person
  {
    hide Find, Line, Before, After, Occurs;
    LineOfTwo(start, person + ">", rest);
    FieldFound(field, start, (person + ">") + rest);
    Regroup(person, ">", rest);
    NoneWithout(">", person);
    ReadExactly(">", person, ">" + rest);
  }

  /** The addresses stand in front of the subject and are found whatever it holds. */
  lemma AddressesArrive(l: Letter, rest: string)
    ensures var h := HeaderThen(l, rest);
      && Before(CRLF, h) == "From: \"" + NICKNAME + "\" <" + SENDER + ">"
      && Field(TO_FIELD, ">", h) == TO_PERSON
      && Field(CC_FIELD, ">", h) == CC_PERSON
      && Field(BCC_FIELD, ">", h) == BCC_PERSON
  {
    hide Find, HeaderThen, HeaderEnd, SubjectValue, Line, Before, After, Occurs;
    AddressNames();
    HeaderLines();
    HeaderShape(l, rest);
    var s3 := Line(VERSION_LINE, Line(SUBJECT_START, SubjectValue(l) + HeaderEnd(rest)));
    var s2 := Line(BCC_LINE, s3);
    var s1 := Line(CC_LINE, s2);
    var s0 := Line(TO_LINE, s1);
    FirstLine(FROM_LINE, TO_LINE, s1);
    AddressFound(TO_FIELD, TO_START, TO_PERSON, s1);
    SkipPlain(TO_FIELD, FROM_LINE, s0);
    AddressFound(CC_FIELD, CC_START, CC_PERSON, s2);
    SkipLine(CC_FIELD, 'C', TO_LINE, 'T', s1);
    SkipPlain(CC_FIELD, FROM_LINE, s0);
    AddressFound(BCC_FIELD, BCC_START, BCC_PERSON, s3);
    SkipLine(BCC_FIELD, 'B', CC_LINE, 'C', s2);
    SkipLine(BCC_FIELD, 'B', TO_LINE, 'T', s1);
    SkipPlain(BCC_FIELD, FROM_LINE, s0);
  }

  lemma FirstLine(first: string, line: string, rest: string)
    requires '\r' !in first
    ensures Before(CRLF, first + Line(line, rest)) == first
  {
    hide Find;
    NoneWithout(CRLF, first);
    assert CRLF[1..] == "\n";
    ReadExactly(CRLF, first, Line(line, rest));
  }
}
