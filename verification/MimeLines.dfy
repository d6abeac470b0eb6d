// Line handling of encoded bodies: the encoder's CRLF after every 76 characters, the receiver's
// removal of line breaks (section 6.8 of RFC 2045), and how long a line can grow where two
// separately wrapped pieces meet.
module MimeLines {
  const LINE := 76
  const CRLF := "\r\n"

  predicate IsBreak(c: char) {
    c == '\r' || c == '\n'
  }

  predicate BreakFree(s: string) {
    forall k :: 0 <= k < |s| ==> !IsBreak(s[k])
  }

  /** A CRLF after every 76 characters. */
  function Wrap(s: string): (text: string) {
    if |s| < LINE then s else s[..LINE] + CRLF + Wrap(s[LINE..])
  }

  function Unwrap(s: string): (text: string) {
    if |s| == 0 then "" else (if IsBreak(s[0]) then "" else [s[0]]) + Unwrap(s[1..])
  }

  lemma {:induction false} WrapLength(s: string)
    ensures |Wrap(s)| == |s| + |s| / LINE * 2
  {
    if |s| >= LINE {
      WrapLength(s[LINE..]);
      assert |s| / LINE == (|s| - LINE) / LINE + 1;
    }
  }

  lemma UnwrapStep(c: char, rest: string)
    ensures Unwrap([c] + rest) == (if IsBreak(c) then "" else [c]) + Unwrap(rest)
  {
    assert ([c] + rest)[1..] == rest;
  }

  lemma UnwrapNone()
    ensures Unwrap("") == ""
  {
  }

  lemma {:induction false} UnwrapConcat(a: string, b: string)
    ensures Unwrap(a + b) == Unwrap(a) + Unwrap(b)
  {
    hide *;
    if |a| == 0 {
      UnwrapNone();
      assert a == "" && a + b == b;
    } else {
      var c, rest := a[0], a[1..];
      UnwrapConcat(rest, b);
      UnwrapStep(c, rest);
      UnwrapStep(c, rest + b);
      assert a == [c] + rest && a + b == [c] + (rest + b);
    }
  }

  lemma {:induction false} UnwrapBreakFree(s: string)
    requires BreakFree(s)
    ensures Unwrap(s) == s
  {
    if |s| > 0 {
      UnwrapBreakFree(s[1..]);
    }
  }

  lemma WrapStep(line: string, rest: string)
    requires |line| == LINE
    ensures Wrap(line + rest) == line + CRLF + Wrap(rest)
  {
    assert (line + rest)[..LINE] == line && (line + rest)[LINE..] == rest;
  }

  lemma UnwrapBreak()
    ensures Unwrap(CRLF) == ""
  {
    assert CRLF[1..] == "\n" && "\n"[1..] == "";
  }

  lemma {:induction false} UnwrapWrap(s: string)
    requires BreakFree(s)
    ensures Unwrap(Wrap(s)) == s
  {
    if |s| < LINE {
      UnwrapBreakFree(s);
    } else {
      hide Wrap, Unwrap;
      var line, rest := s[..LINE], s[LINE..];
      UnwrapWrap(rest);
      UnwrapBreakFree(line);
      UnwrapBreak();
      WrapStep(line, rest);
      UnwrapConcat(line + CRLF, Wrap(rest));
      UnwrapConcat(line, CRLF);
      assert s == line + rest;
    }
  }

  /** Every character stands where it should: behind two break characters for every 76 before it, and the
      break characters stand behind every 76th. */
  lemma {:induction false} WrapAt(s: string, k: nat)
    requires k < |s|
    ensures |Wrap(s)| == |s| + |s| / 76 * 2
    ensures Wrap(s)[k + k / 76 * 2] == s[k]
    ensures k % 76 == 75 ==> Wrap(s)[k + k / 76 * 2 + 1] == '\r' && Wrap(s)[k + k / 76 * 2 + 2] == '\n'
  {
    WrapLength(s);
    if |s| >= LINE {
      var line, rest := s[..LINE], s[LINE..];
      assert Wrap(s) == line + CRLF + Wrap(rest);
      if k >= LINE {
        WrapAt(rest, k - LINE);
        assert k / 76 == (k - LINE) / 76 + 1 && k % 76 == (k - LINE) % 76;
      }
    }
  }

  // ---------- line lengths ----------

  /** The length of the line that is still open at the end of `s`. */
  function OpenLine(s: string): (n: nat) {
    if |s| == 0 || s[|s| - 1] == '\n' then 0 else 1 + OpenLine(s[..|s| - 1])
  }

  /** No line of `s`, closed or open, holds more than `n` characters before its LF. */
  ghost predicate LinesWithin(s: string, n: nat) {
    forall k :: 0 <= k <= |s| ==> OpenLine(s[..k]) <= n
  }

  lemma {:induction false} OpenLineGrows(a: string, b: string)
    requires '\n' !in b
    ensures OpenLine(a + b) == OpenLine(a) + |b|
  {
    if |b| == 0 {
      assert a + b == a;
    } else {
      OpenLineGrows(a, b[..|b| - 1]);
      assert (a + b)[..|a + b| - 1] == a + b[..|b| - 1];
    }
  }

  lemma LinesExtend(a: string, b: string, n: nat)
    requires LinesWithin(a, n) && '\n' !in b && OpenLine(a) + |b| <= n
    ensures LinesWithin(a + b, n)
  {
    forall k | 0 <= k <= |a + b| ensures OpenLine((a + b)[..k]) <= n {
      if k <= |a| {
        assert (a + b)[..k] == a[..k];
      } else {
        assert (a + b)[..k] == a + b[..k - |a|];
        OpenLineGrows(a, b[..k - |a|]);
      }
    }
  }

  lemma LinesBreak(a: string, n: nat)
    requires LinesWithin(a, n) && OpenLine(a) < n
    ensures LinesWithin(a + CRLF, n) && OpenLine(a + CRLF) == 0
  {
    LinesExtend(a, "\r", n);
    assert a + CRLF == (a + "\r") + "\n";
    forall k | 0 <= k <= |a + CRLF| ensures OpenLine((a + CRLF)[..k]) <= n {
      if k < |a + CRLF| {
        assert (a + CRLF)[..k] == (a + "\r")[..k];
      } else {
        assert (a + CRLF)[..k] == a + CRLF;
      }
    }
  }

  /** Appending a wrapped piece to a body whose open line is short keeps every line within 2 * 76
      characters, and leaves a short open line again when the piece fills a line or starts one. */
  lemma {:induction false} WrapJunction(body: string, s: string)
    requires BreakFree(s)
    requires LinesWithin(body, 2 * LINE) && OpenLine(body) < LINE
    ensures LinesWithin(body + Wrap(s), 2 * LINE)
    ensures |s| >= LINE || OpenLine(body) == 0 ==> OpenLine(body + Wrap(s)) < LINE
    decreases |s|
  {
    hide LinesWithin, OpenLine, Wrap;
    if |s| < LINE {
      WrapShort(s);
      LinesExtend(body, s, 2 * LINE);
      OpenLineGrows(body, s);
    } else {
      var line, rest := s[..LINE], s[LINE..];
      LinesExtend(body, line, 2 * LINE);
      OpenLineGrows(body, line);
      LinesBreak(body + line, 2 * LINE);
      WrapJunction(body + line + CRLF, rest);
      WrapStep(line, rest);
      assert s == line + rest;
      assert body + (line + CRLF + Wrap(rest)) == body + line + CRLF + Wrap(rest);
    }
  }

  lemma WrapShort(s: string)
    requires |s| < LINE
    ensures Wrap(s) == s
  {
  }
}
