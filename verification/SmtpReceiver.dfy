// A MIME receiver that has nothing but the stream: it reads the boundary from the header, finds the parts
// by their delimiter lines (section 5.1.1 of RFC 2046), their fields, and each body by the blank line in
// front of it.
module SmtpReceiver {
  import opened Bytes
  import opened Base64
  import opened MimeLines
  import opened SmtpSections
  import opened SmtpSearch
  import opened SmtpFields

  // ---------- the receiver ----------

  /** A part as it is received; `tag` is the charset of a text and the name of a file. */
  datatype Part = Part(kind: string, tag: string, data: seq<byte>)

  /** The body stands behind the first blank line; it is decoded, line breaks aside, if it says Base64. */
  function Content(part: string): (data: seq<byte>) {
    if Occurs(BLANK, part) && Field(ENCODING_FIELD, CRLF, part) == "base64" then Decode(Unwrap(After(BLANK, part)))
    else []
  }

  function Read(part: string): (p: Part) {
    var kind := Field(TYPE_FIELD, ";", part);
    Part(kind, Field(if kind == "text/plain" then CHARSET_FIELD else NAME_FIELD, "\"", part), Content(part))
  }

  /** The parts that follow a delimiter, up to the closing one. */
  function PartsFrom(delimiter: string, s: string): (parts: seq<Part>)
    requires delimiter != ""
    decreases |s|
  {
    if "--" <= s || !Occurs(delimiter, s) then []
    else [Read(Before(delimiter, s))] + PartsFrom(delimiter, After(delimiter, s))
  }

  function Received(stream: string): (parts: seq<Part>) {
    var delimiter := "\r\n--" + Announced(stream);
    if Occurs(delimiter, stream) then PartsFrom(delimiter, After(delimiter, stream)) else []
  }

  // ---------- what it finds ----------

  lemma DelimiterShape()
    ensures BreakPattern(DELIMITER, '-') && '\r' !in DELIMITER[1..] && '\"' !in DELIMITER
    ensures BreakPattern(BLANK, '\r') && '\"' !in BLANK && '-' !in BLANK
  {
    assert DELIMITER[0] == '\r' && DELIMITER[1] == '\n' && DELIMITER[2] == '-';
    assert DELIMITER[1..] == "\n--" + BOUNDARY;
  }

  /** A body without hyphens holds no delimiter and runs into none. */
  lemma SkipBody(body: string, rest: string)
    requires '-' !in body && DELIMITER <= rest
    ensures Passes(DELIMITER, body, rest)
  {
    DelimiterShape();
    var s := body + rest;
    forall k | 0 <= k < |body| ensures !(DELIMITER <= s[k..]) {
      if k + 2 < |body| {
        assert s[k..][2] == body[k + 2];
      } else if k + 2 == |body| {
        assert s[k..][2] == rest[0];
      } else {
        assert s[k..][1] == rest[0];
      }
    }
    Skip(DELIMITER, body, rest);
  }

  lemma SkipTwoBreaks(rest: string)
    ensures Passes(DELIMITER, CRLF, DELIMITER + rest)
  {
    DelimiterShape();
    var s := CRLF + (DELIMITER + rest);
    assert s[2] == '\r' && s[1] == '\n' && s[0..] == s && s[1..][0] == '\n';
    Skip(DELIMITER, CRLF, DELIMITER + rest);
  }

  const DASHES := "--" + BOUNDARY

  lemma DelimiterSplits(rest: string)
    ensures CRLF + (DASHES + rest) == DELIMITER + rest
  {
    assert CRLF + DASHES == DELIMITER;
  }

  lemma HeaderEndFound(rest: string)
    ensures var e := HeaderEnd(DASHES + rest);
      |e| > |rest| && e[0] == '\r' && Occurs(DELIMITER, e) && After(DELIMITER, e) == rest
  {
    hide *;
    DelimiterShape();
    HeaderEndLines();
    SkipTwoBreaks(rest);
    FoundHere(DELIMITER, rest);
    DelimiterSplits(rest);
    var y := CRLF + (DELIMITER + rest);
    SkipLine(DELIMITER, '-', BOUNDARY_LINE, '\t', y);
    SkipLine(DELIMITER, '-', MIXED_LINE, 'C', Line(BOUNDARY_LINE, y));
    HeaderEndShape(DASHES + rest);
    EndIsLonger(rest);
  }

  lemma EndIsLonger(rest: string)
    ensures |DASHES + rest| > |rest|
  {
  }

  /** The receiver's first delimiter is the one behind the header exactly if the subject holds none. */
  lemma SubjectExactly(l: Letter, rest: string)
    ensures var s := HeaderThen(l, DASHES + rest);
      Occurs(DELIMITER, s) && (After(DELIMITER, s) == rest <==> !Occurs(DELIMITER, SubjectValue(l)))
  {
    hide *;
    DelimiterShape();
    HeaderEndFound(rest);
    HeaderLines();
    if Occurs(DELIMITER, SubjectValue(l)) {
      StopInValue(DELIMITER, SubjectValue(l), HeaderEnd(DASHES + rest));
    } else {
      PassValue(DELIMITER, SubjectValue(l), HeaderEnd(DASHES + rest));
    }
    SkipLine(DELIMITER, '-', SUBJECT_START, 'S', SubjectValue(l) + HeaderEnd(DASHES + rest));
    HeaderSearch(DELIMITER, '-', l, DASHES + rest);
  }

  /** The end of a part's fields, its body and the next delimiter. */
  lemma BodyFound(start: string, body: string, rest: string)
    requires '-' !in start && '-' !in body
    ensures var s := start + (body + (DELIMITER + rest));
      Occurs(DELIMITER, s) && Before(DELIMITER, s) == start + body && After(DELIMITER, s) == rest
  {
    hide *;
    DelimiterShape();
    SkipBody(start + body, DELIMITER + rest);
    FoundHere(DELIMITER, rest);
    Regroup(start, body, DELIMITER + rest);
  }

  /** The text part is found whole, and its body in it. */
  lemma TextFound(c: Charset, body: string, rest: string)
    requires '-' !in body
    ensures var s := TextPart(c, body + (DELIMITER + rest));
      && Occurs(DELIMITER, s) && Before(DELIMITER, s) == TextPart(c, body) && After(DELIMITER, s) == rest
      && !("--" <= s)
    ensures Occurs(BLANK, TextPart(c, body)) && After(BLANK, TextPart(c, body)) == body
  {
    hide *;
    DelimiterShape();
    TextLines(c);
    var x := BLANK + (body + (DELIMITER + rest));
    BodyFound(BLANK, body, rest);
    SkipLine(DELIMITER, '-', BASE64_LINE, 'C', x);
    SkipLine(DELIMITER, '-', CharsetLine(c), '\t', Line(BASE64_LINE, x));
    SkipLine(DELIMITER, '-', TEXT_LINE, 'C', Line(CharsetLine(c), Line(BASE64_LINE, x)));
    TextShape(c, body);
    TextShape(c, body + (DELIMITER + rest));
    var y := BLANK + body;
    FoundHere(BLANK, body);
    SkipLine(BLANK, '\r', BASE64_LINE, 'C', y);
    SkipLine(BLANK, '\r', CharsetLine(c), '\t', Line(BASE64_LINE, y));
    SkipLine(BLANK, '\r', TEXT_LINE, 'C', Line(CharsetLine(c), Line(BASE64_LINE, y)));
  }

  /** The two base names are passed or stopped at by a search; the first of them decides. */
  lemma PassNames(pat: string, d: char, base: string, x: string)
    requires pat != "" && BreakPattern(pat, d) && d !in {'C', '\t'} && '\"' !in pat && !Occurs(pat, base)
    requires Occurs(pat, "\"" + (BLANK + x))
    ensures Occurs(pat, AttaPart(base, x)) && After(pat, AttaPart(base, x)) == After(pat, "\"" + (BLANK + x))
  {
    hide *;
    AttaLines();
    AttaEndLines();
    AttaShape(base, x);
    var core := "\"" + (BLANK + x);
    var e3 := Line(FILE_NAME_START, base + core);
    var e2 := Line(DISPOSITION_LINE, e3);
    var e1 := Line(BASE64_LINE, e2);
    var e := AttaEnd(base, x);
    PassValue(pat, base, core);
    SkipLine(pat, d, FILE_NAME_START, '\t', base + core);
    SkipLine(pat, d, DISPOSITION_LINE, 'C', e3);
    SkipLine(pat, d, BASE64_LINE, 'C', e2);
    SkipQuote(pat, e1);
    PassValue(pat, base, e);
    SkipLine(pat, d, NAME_START, '\t', base + e);
    SkipLine(pat, d, FILE_LINE, 'C', Line(NAME_START, base + e));
  }

  lemma StopInName(pat: string, d: char, base: string, x: string)
    requires pat != "" && BreakPattern(pat, d) && d !in {'C', '\t'} && '\"' !in pat && Occurs(pat, base)
    ensures Occurs(pat, AttaPart(base, x)) && |After(pat, AttaPart(base, x))| > |x|
  {
    hide *;
    AttaLines();
    AttaShape(base, x);
    var e := AttaEnd(base, x);
    StopInValue(pat, base, e);
    SkipLine(pat, d, NAME_START, '\t', base + e);
    SkipLine(pat, d, FILE_LINE, 'C', Line(NAME_START, base + e));
  }

  // ---------- sections and what follows them ----------

  lemma BlankThen(x: string)
    ensures (BLANK + "") + x == BLANK + x && ("" + x) == x
  {
  }

  lemma TextThen(c: Charset, x: string)
    ensures TextPart(c, "") + x == TextPart(c, x)
  {
    hide *;
    TextShape(c, "");
    TextShape(c, x);
    var r := BLANK + "";
    BlankThen(x);
    LineThen(BASE64_LINE, r, x);
    LineThen(CharsetLine(c), Line(BASE64_LINE, r), x);
    LineThen(TEXT_LINE, Line(CharsetLine(c), Line(BASE64_LINE, r)), x);
  }

  lemma AttaThen(base: string, body: string, x: string)
    ensures AttaPart(base, body) + x == AttaPart(base, body + x)
  {
    hide *;
    AttaShape(base, body);
    AttaShape(base, body + x);
    var core, e := "\"" + (BLANK + body), AttaEnd(base, body);
    Regroup("\"", BLANK + body, x);
    Regroup(BLANK, body, x);
    Regroup(base, core, x);
    LineThen(FILE_NAME_START, base + core, x);
    var e3 := Line(FILE_NAME_START, base + core);
    LineThen(DISPOSITION_LINE, e3, x);
    LineThen(BASE64_LINE, Line(DISPOSITION_LINE, e3), x);
    Regroup("\"", Line(BASE64_LINE, Line(DISPOSITION_LINE, e3)), x);
    Regroup(base, e, x);
    LineThen(NAME_START, base + e, x);
    LineThen(FILE_LINE, Line(NAME_START, base + e), x);
  }

  lemma HeaderEndThen(x: string)
    ensures HeaderEnd("") + x == HeaderEnd(x)
  {
    hide Line;
    var r := CRLF + (CRLF + "");
    assert r + x == CRLF + (CRLF + x);
    LineThen(BOUNDARY_LINE, r, x);
    LineThen(MIXED_LINE, Line(BOUNDARY_LINE, r), x);
  }

  lemma HeaderIsThen(l: Letter, x: string)
    ensures Header(l) + x == HeaderThen(l, x)
  {
    hide Line, HeaderEnd, SubjectValue;
    var v := SubjectValue(l) + HeaderEnd("");
    HeaderEndThen(x);
    Regroup(SubjectValue(l), HeaderEnd(""), x);
    LineThen(SUBJECT_START, v, x);
    var s1 := Line(SUBJECT_START, v);
    LineThen(VERSION_LINE, s1, x);
    var s2 := Line(VERSION_LINE, s1);
    LineThen(BCC_LINE, s2, x);
    var s3 := Line(BCC_LINE, s2);
    LineThen(CC_LINE, s3, x);
    LineThen(TO_LINE, Line(CC_LINE, s3), x);
    Regroup(FROM_LINE, Line(TO_LINE, Line(CC_LINE, s3)), x);
  }

  // ---------- the attachment part ----------

  lemma CoreFound(body: string, rest: string)
    requires '-' !in body
    ensures var core := "\"" + (BLANK + (body + (DELIMITER + rest)));
      Occurs(DELIMITER, core) && After(DELIMITER, core) == rest
  {
    hide *;
    DelimiterShape();
    Regroup("\"", BLANK, body + (DELIMITER + rest));
    BodyFound("\"" + BLANK, body, rest);
  }

  /** The attachment part is found whole exactly if its base name holds no delimiter. */
  lemma NameExactly(base: string, body: string, rest: string)
    requires '-' !in body
    ensures var s := AttaPart(base, body + (DELIMITER + rest));
      && Occurs(DELIMITER, s) && !("--" <= s)
      && (After(DELIMITER, s) == rest <==> !Occurs(DELIMITER, base))
      && (After(DELIMITER, s) == rest ==> Before(DELIMITER, s) == AttaPart(base, body))
  {
    hide *;
    DelimiterShape();
    var x := body + (DELIMITER + rest);
    AttaShape(base, x);
    CoreFound(body, rest);
    AttaThen(base, body, DELIMITER + rest);
    if Occurs(DELIMITER, base) {
      StopInName(DELIMITER, '-', base, x);
    } else {
      PassNames(DELIMITER, '-', base, x);
      CutBefore(DELIMITER, AttaPart(base, body), rest);
    }
  }

  /** Its body is found exactly if the base name holds no blank line. */
  lemma BlankExactly(base: string, body: string)
    ensures Occurs(BLANK, AttaPart(base, body))
    ensures After(BLANK, AttaPart(base, body)) == body <==> !Occurs(BLANK, base)
  {
    hide *;
    DelimiterShape();
    FoundHere(BLANK, body);
    SkipQuote(BLANK, BLANK + body);
    if Occurs(BLANK, base) {
      StopInName(BLANK, '\r', base, body);
    } else {
      PassNames(BLANK, '\r', base, body);
    }
  }

  // ---------- whole mails ----------

  lemma {:induction false} UnwrapKeeps(s: string, c: char)
    requires c in s && !IsBreak(c)
    ensures c in Unwrap(s)
  {
    if s[0] != c {
      assert s == [s[0]] + s[1..];
      UnwrapKeeps(s[1..], c);
    }
  }

  /** No encoded body, however it was pieced and broken, holds a hyphen. */
  lemma NoHyphen(body: string, data: seq<byte>)
    requires Unwrap(body) == Encode(data)
    ensures '-' !in body
  {
    hide Encode, Unwrap;
    if '-' in body {
      UnwrapKeeps(body, '-');
      var k :| 0 <= k < |Encode(data)| && Encode(data)[k] == '-';
      EncodeAlphabet(data, k);
    }
  }

  function AttachmentText(l: Letter, fileBody: string): (s: string) {
    if l.fileName.Some? then AttaHead(BaseName(l.fileName.value)) + fileBody else ""
  }

  /** Neither the subject nor the base name holds what the receiver looks for in their places. */
  predicate Readable(l: Letter) {
    && !Occurs(DELIMITER, SubjectValue(l)) && !Occurs(BOUNDARY_FIELD, SubjectValue(l))
    && (l.fileName.Some? ==> NameReadable(BaseName(l.fileName.value)))
  }

  predicate NameReadable(base: string) {
    !Occurs(DELIMITER, base) && !Occurs(BLANK, base) && !Occurs(ENCODING_FIELD, base) && '\"' !in base
  }

  /** Encoded subjects are always readable, others if they hold no carriage return; so are base names
      without a carriage return and a quote. */
  lemma BreakFreeIsReadable(l: Letter)
    requires l.subject.Some? && l.subjectCharset == Ascii ==> 13 !in l.subject.value
    requires l.fileName.Some? ==> '\r' !in BaseName(l.fileName.value) && '\"' !in BaseName(l.fileName.value)
    ensures Readable(l)
  {
    hide Find, Occurs, Encode;
    DelimiterShape();
    if l.subject.Some? && l.subjectCharset != Ascii {
      EncodedSubject(l);
    }
    NoneWithout(DELIMITER, SubjectValue(l));
    NoneWithout(BOUNDARY_FIELD, SubjectValue(l));
    if l.fileName.Some? {
      NoneWithout(DELIMITER, BaseName(l.fileName.value));
      NoneWithout(BLANK, BaseName(l.fileName.value));
      NoneWithout(ENCODING_FIELD, BaseName(l.fileName.value));
    }
  }

  const END := "--\r\n"

  lemma ContentIs(part: string, body: string, data: seq<byte>)
    requires Occurs(BLANK, part) && After(BLANK, part) == body && Unwrap(body) == Encode(data)
    requires Field(ENCODING_FIELD, CRLF, part) == "base64"
    ensures Content(part) == data
  {
    hide Find, Field, Encode, Decode, Unwrap;
    RoundTrip(data);
  }

  lemma AttachmentReceived(base: string, body: string, data: seq<byte>)
    requires Unwrap(body) == Encode(data) && NameReadable(base)
    ensures PartsFrom(DELIMITER, AttaPart(base, body + (DELIMITER + END))) ==
      [Part("application/octet-stream", base, data)]
  {
    hide Find, Occurs, Before, After, Field, Content, AttaPart, Encode, Unwrap;
    NoHyphen(body, data);
    NameExactly(base, body, END);
    BlankExactly(base, body);
    EncodingExactly(base, body);
    FileNameExactly(base, body);
    ContentIs(AttaPart(base, body), body, data);
    KindsDiffer();
    EndsHere();
  }

  lemma KindsDiffer()
    ensures "text/plain" != "application/octet-stream"
  {
    assert "text/plain"[0] == 't' && "application/octet-stream"[0] == 'a';
  }

  lemma TextReceived(c: Charset, body: string, data: seq<byte>, rest: string)
    requires Unwrap(body) == Encode(data)
    ensures PartsFrom(DELIMITER, TextPart(c, body + (DELIMITER + rest))) ==
      [Part("text/plain", CharsetName(c), data)] + PartsFrom(DELIMITER, rest)
  {
    hide Find, Occurs, Before, After, Field, Content, TextPart, Encode, Unwrap, CharsetName;
    NoHyphen(body, data);
    TextFound(c, body, rest);
    SmtpFields.TextFields(c, body);
    ContentIs(TextPart(c, body), body, data);
  }

  lemma StreamShape(l: Letter, textBody: string, fileBody: string)
    ensures Header(l) + TextHead(l.textCharset) + textBody + AttachmentText(l, fileBody) + Closing()
      == HeaderThen(l, DASHES + TextPart(l.textCharset, textBody + (DELIMITER +
           if l.fileName.Some? then AttaPart(BaseName(l.fileName.value), fileBody + (DELIMITER + END)) else END)))
  {
    hide Header, HeaderThen, TextPart, AttaPart, BaseName;
    var c, header := l.textCharset, Header(l);
    var tail := AttachmentText(l, fileBody) + Closing();
    TailShape(l, fileBody);
    TextThen(c, textBody + tail);
    HeaderIsThen(l, DASHES + TextPart(c, textBody + tail));
    Regroup(DASHES, TextPart(c, ""), textBody + tail);
    Regroup(header, TextHead(c), textBody + tail);
    Regroup(header + TextHead(c), textBody, tail);
    Regroup(header + TextHead(c) + textBody, AttachmentText(l, fileBody), Closing());
  }

  lemma TailShape(l: Letter, fileBody: string)
    ensures AttachmentText(l, fileBody) + Closing() == DELIMITER +
      if l.fileName.Some? then AttaPart(BaseName(l.fileName.value), fileBody + (DELIMITER + END)) else END
  {
    hide AttaPart, BaseName;
    assert Closing() == DELIMITER + END;
    if l.fileName.Some? {
      var base := BaseName(l.fileName.value);
      AttaThen(base, "", fileBody + Closing());
      assert "" + (fileBody + Closing()) == fileBody + Closing();
      Regroup(AttaHead(base), fileBody, Closing());
      Regroup(DELIMITER, AttaPart(base, ""), fileBody + Closing());
    } else {
      assert "" + Closing() == Closing();
    }
  }

  /** The parts that a letter should arrive as. */
  function Expected(l: Letter): (parts: seq<Part>) {
    [Part("text/plain", CharsetName(l.textCharset), l.text)] +
    if l.fileName.Some? then [Part("application/octet-stream", BaseName(l.fileName.value), l.file)] else []
  }

  /** However the bodies were pieced and broken, a readable mail gives its text and its file, each with its
      type and with its charset or name. */
  lemma MailReceived(l: Letter, textBody: string, fileBody: string)
    requires Readable(l) && Unwrap(textBody) == Encode(l.text)
    requires l.fileName.Some? ==> Unwrap(fileBody) == Encode(l.file)
    ensures Received(Header(l) + TextHead(l.textCharset) + textBody + AttachmentText(l, fileBody) + Closing())
      == Expected(l)
  {
    hide Find, Occurs, After, Header, HeaderThen, TextHead, TextPart, AttaPart, AttachmentText, Closing;
    hide PartsFrom, NameReadable, Announced, CharsetName, Encode, Unwrap;
    StreamShape(l, textBody, fileBody);
    var rest := if l.fileName.Some? then AttaPart(BaseName(l.fileName.value), fileBody + (DELIMITER + END)) else END;
    var text := TextPart(l.textCharset, textBody + (DELIMITER + rest));
    BoundaryExactly(l, DASHES + text);
    SubjectExactly(l, text);
    TextReceived(l.textCharset, textBody, l.text, rest);
    if l.fileName.Some? {
      AttachmentReceived(BaseName(l.fileName.value), fileBody, l.file);
    } else {
      EndsHere();
    }
  }

  lemma EndsHere()
    ensures PartsFrom(DELIMITER, END) == []
  {
  }

  /** The subject is read from the same stream. */
  lemma SubjectReceived(l: Letter, textBody: string, fileBody: string)
    ensures SubjectIntact(l, Header(l) + TextHead(l.textCharset) + textBody + AttachmentText(l, fileBody) + Closing())
  {
    hide SubjectIntact, Header, HeaderThen, TextHead, TextPart, AttaPart, AttachmentText, Closing;
    StreamShape(l, textBody, fileBody);
    var rest := if l.fileName.Some? then AttaPart(BaseName(l.fileName.value), fileBody + (DELIMITER + END)) else END;
    SubjectArrives(l, DASHES + TextPart(l.textCharset, textBody + (DELIMITER + rest)));
  }

  // ---------- a subject that ends the mail ----------

  /** An ASCII subject that is a closing delimiter: the receiver finds no part at all. */
  lemma SubjectEndsMail(l: Letter, rest: string)
    requires l.subject.Some? && l.subjectCharset == Ascii && Chars(l.subject.value) == DELIMITER + "--"
    ensures Received(HeaderThen(l, rest)) == []
  {
    hide Find, Occurs, Before, After, HeaderThen, HeaderEnd, Announced;
    var e := HeaderEnd(rest);
    DelimiterShape();
    HeaderLines();
    NoFieldInDelimiter();
    BoundaryExactly(l, rest);
    Regroup(DELIMITER, "--", e);
    FoundHere(DELIMITER, "--" + e);
    SkipLine(DELIMITER, '-', SUBJECT_START, 'S', SubjectValue(l) + e);
    HeaderSearch(DELIMITER, '-', l, rest);
  }

  lemma NoFieldInDelimiter()
    ensures !Occurs(BOUNDARY_FIELD, DELIMITER + "--")
  {
    hide Find;
    DelimiterShape();
    FieldPatterns();
    var s := DELIMITER + "--";
    forall k | 0 <= k < |s| ensures !(BOUNDARY_FIELD <= s[k..]) {
      if k == 0 {
        assert s[k..][2] == '-';
      } else {
        assert s[k..][0] == s[k] && s[k] == (DELIMITER[1..] + "--")[k - 1];
      }
    }
  }
}
