// Searching text for the first occurrence of a pattern, and how a search passes the lines of a mail.
module SmtpSearch {
  import opened MimeLines
  import opened SmtpSections

  /** The position of the first occurrence of `pat`, or the length if there is none. */
  function Find(pat: string, s: string): (n: nat)
    requires pat != ""
    ensures n <= |s| && (n < |s| ==> pat <= s[n..])
    ensures forall k :: 0 <= k < n ==> !(pat <= s[k..])
  {
    if s == "" || pat <= s then 0
    else
      assert forall k :: 1 <= k <= |s| ==> s[1..][k - 1..] == s[k..];
      1 + Find(pat, s[1..])
  }

  predicate Occurs(pat: string, s: string)
    requires pat != ""
  {
    Find(pat, s) < |s|
  }

  function Before(pat: string, s: string): (b: string)
    requires pat != ""
  {
    s[..Find(pat, s)]
  }

  function After(pat: string, s: string): (a: string)
    requires pat != "" && Occurs(pat, s)
  {
    s[Find(pat, s) + |pat|..]
  }

  lemma FindIs(pat: string, s: string, n: nat)
    requires pat != "" && n <= |s| && (n < |s| ==> pat <= s[n..])
    requires forall k :: 0 <= k < n ==> !(pat <= s[k..])
    ensures Find(pat, s) == n
  {
    hide Find;
  }

  /** Nothing starts in the first piece: the search goes on behind it. */
  ghost predicate Passes(pat: string, a: string, rest: string)
    requires pat != ""
  {
    && Find(pat, a + rest) == |a| + Find(pat, rest)
    && Before(pat, a + rest) == a + Before(pat, rest)
    && (Occurs(pat, a + rest) <==> Occurs(pat, rest))
    && (Occurs(pat, rest) ==> After(pat, a + rest) == After(pat, rest))
  }

  lemma Skip(pat: string, a: string, rest: string)
    requires pat != "" && forall k :: 0 <= k < |a| ==> !(pat <= (a + rest)[k..])
    ensures Passes(pat, a, rest)
  {
    hide Find;
    var s, n := a + rest, |a| + Find(pat, rest);
    forall k | |a| <= k <= |s| ensures s[k..] == rest[k - |a|..] {
    }
    forall k | 0 <= k < n ensures !(pat <= s[k..]) {
      if k >= |a| {
        assert s[k..] == rest[k - |a|..];
      }
    }
    FindIs(pat, s, n);
  }

  lemma SkipPlain(pat: string, a: string, rest: string)
    requires pat != "" && pat[0] !in a
    ensures Passes(pat, a, rest)
  {
    forall k | 0 <= k < |a| ensures !(pat <= (a + rest)[k..]) {
      assert (a + rest)[k..][0] == a[k];
    }
    Skip(pat, a, rest);
  }

  /** A pattern that begins with a line break and goes on with `c`. */
  predicate BreakPattern(pat: string, c: char) {
    |pat| > 3 && pat[0] == '\r' && pat[1] == '\n' && pat[2] == c
  }

  /** A line of text that begins with `c`. */
  predicate PlainLine(line: string, c: char) {
    line != "" && line[0] == c && '\r' !in line
  }

  /** The search goes on behind a line. */
  ghost predicate PassesLine(pat: string, line: string, rest: string)
    requires pat != ""
  {
    && Before(pat, Line(line, rest)) == Line(line, Before(pat, rest))
    && (Occurs(pat, Line(line, rest)) <==> Occurs(pat, rest))
    && (Occurs(pat, rest) ==> After(pat, Line(line, rest)) == After(pat, rest))
  }

  lemma SkipLine(pat: string, d: char, line: string, c: char, rest: string)
    requires pat != "" && BreakPattern(pat, d) && PlainLine(line, c) && c != d
    ensures PassesLine(pat, line, rest)
  {
    SkipOtherLine(pat, line, rest, 0);
  }

  /** A line that differs from the pattern in its j-th character. */
  lemma SkipOtherLine(pat: string, line: string, rest: string, j: nat)
    requires j + 2 < |pat| && pat[0] == '\r' && pat[1] == '\n' && '\r' !in line
    requires j < |line| && line[j] != pat[j + 2]
    ensures PassesLine(pat, line, rest)
  {
    hide Find;
    var a := CRLF + line;
    forall k | 0 <= k < |a| ensures !(pat <= (a + rest)[k..]) {
      var t := (a + rest)[k..];
      if k == 0 {
        assert t[j + 2] == line[j];
      } else {
        assert t[0] == a[k];
      }
    }
    Skip(pat, a, rest);
    assert Line(line, rest) == a + rest;
    assert a + Before(pat, rest) == Line(line, Before(pat, rest));
  }

  /** An occurrence that begins in a value does not run into what the pattern cannot contain. */
  lemma StaysInside(pat: string, v: string, rest: string, k: nat)
    requires pat != "" && rest != "" && rest[0] !in pat[1..] && k < |v|
    ensures pat <= (v + rest)[k..] ==> pat <= v[k..]
  {
    var s := v + rest;
    if k + |pat| > |v| {
      assert pat[1..][|v| - k - 1] == pat[|v| - k];
      assert s[k..][|v| - k] == rest[0];
    } else {
      assert v[k..] == s[k..][..|v| - k];
    }
  }

  lemma FoundHere(pat: string, rest: string)
    requires pat != ""
    ensures Occurs(pat, pat + rest) && Before(pat, pat + rest) == "" && After(pat, pat + rest) == rest
  {
    var s := pat + rest;
    assert s[0..] == s;
    FindIs(pat, s, 0);
  }

  /** An arbitrary value in a fixed text: a search passes it, or ends early in it. */
  lemma PassValue(pat: string, v: string, rest: string)
    requires pat != "" && rest != "" && rest[0] !in pat[1..] && !Occurs(pat, v)
    ensures Passes(pat, v, rest)
  {
    forall k | 0 <= k < |v| ensures !(pat <= (v + rest)[k..]) {
      StaysInside(pat, v, rest, k);
    }
    Skip(pat, v, rest);
  }

  lemma StopInValue(pat: string, v: string, rest: string)
    requires pat != "" && rest != "" && rest[0] !in pat[1..] && Occurs(pat, v)
    ensures Occurs(pat, v + rest) && |After(pat, v + rest)| >= |rest| && |Before(pat, v + rest)| < |v|
  {
    hide Find;
    var s, n := v + rest, Find(pat, v);
    forall k | 0 <= k < n ensures !(pat <= s[k..]) {
      StaysInside(pat, v, rest, k);
    }
    assert s[n..] == v[n..] + rest;
    FindIs(pat, s, n);
  }

  lemma SkipQuote(pat: string, rest: string)
    requires pat != "" && '\"' !in pat
    ensures Passes(pat, "\"", rest)
  {
    SkipPlain(pat, "\"", rest);
  }

  lemma NoneWithout(pat: string, v: string)
    requires pat != "" && pat[0] !in v
    ensures !Occurs(pat, v)
  {
    SkipPlain(pat, v, "");
    assert v + "" == v;
  }

  lemma CutBefore(pat: string, part: string, rest: string)
    requires pat != "" && Occurs(pat, part + (pat + rest)) && After(pat, part + (pat + rest)) == rest
    ensures Before(pat, part + (pat + rest)) == part
  {
    hide Find;
  }

  // ---------- reading a field ----------

  /** What stands between the first `start` and the next `stop`. */
  function Field(start: string, stop: string, s: string): (value: string)
    requires start != "" && stop != ""
  {
    if Occurs(start, s) then Before(stop, After(start, s)) else ""
  }

  lemma FieldFound(start: string, name: string, rest: string)
    requires start != "" && start == CRLF + name
    ensures Occurs(start, Line(name, rest)) && After(start, Line(name, rest)) == rest
  {
    hide Find;
    Regroup(CRLF, name, rest);
    FoundHere(start, rest);
  }

  /** A value is read whole exactly if it does not hold the text that ends it. */
  lemma ReadExactly(stop: string, value: string, rest: string)
    requires stop != "" && stop <= rest && rest[0] !in stop[1..]
    ensures Before(stop, value + rest) == value <==> !Occurs(stop, value)
  {
    hide Find;
    assert rest == stop + rest[|stop|..];
    FoundHere(stop, rest[|stop|..]);
    if Occurs(stop, value) {
      StopInValue(stop, value, rest);
    } else {
      PassValue(stop, value, rest);
      assert value + "" == value;
    }
  }

  lemma Regroup(a: string, b: string, c: string)
    ensures (a + b) + c == a + (b + c)
  {
  }

  lemma LineThen(line: string, rest: string, x: string)
    ensures Line(line, rest) + x == Line(line, rest + x)
  {
    Regroup(CRLF, line + rest, x);
    Regroup(line, rest, x);
  }
}
