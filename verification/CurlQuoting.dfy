/** Quoting of arguments in the printed curl command, read back by the rules of the POSIX shell. */
module CurlQuoting {
  import opened Options

  /** Every single quote becomes: close the quotes, a double-quoted single quote, open them again. */
  function Escape(body: string): string {
    if body == "" then ""
    else (if body[0] == '\'' then "'\"'\"'" else [body[0]]) + Escape(body[1..])
  }

  function QuotedBody(body: string): string {
    "'" + Escape(body) + "'"
  }

  /** The URL is put between quotes as it is. */
  function QuotedUrl(url: string): string {
    "'" + url + "'"
  }

  /** Escaping leaves everything but single quotes as it is. */
  lemma {:induction false} EscapePlain(a: string)
    requires '\'' !in a
    ensures Escape(a) == a && QuotedBody(a) == "'" + a + "'"
  {
    if a != "" {
      EscapePlain(a[1..]);
      assert a == [a[0]] + a[1..];
    }
  }

  /** Each single quote becomes five characters, wherever it stands. */
  lemma {:induction false} EscapeQuote(a: string, b: string)
    ensures Escape(a + "'" + b) == Escape(a) + ['\'', '"', '\'', '"', '\''] + Escape(b)
  {
    var s := a + "'" + b;
    if a == "" {
      assert s[0] == '\'' && s[1..] == b;
    } else {
      EscapeQuote(a[1..], b);
      assert s[0] == a[0] && s[1..] == a[1..] + "'" + b;
    }
  }

  // ----- reading one word, by sections 2.2 and 2.3 of the Shell Command Language of POSIX.1-2017 XCU

  datatype Quotes = Outside | Single | Double

  predicate EndsWord(c: char) {
    c in " \t\n|&;<>()"
  }

  /** Characters the shell may replace by something else where they stand. */
  predicate Expands(c: char) {
    c in "$`*?[~#"
  }

  /** The word read from `s` after `word`, and what is left; none if quotes stay open or an expansion would start. */
  function ReadWord(q: Quotes, s: string, word: string): Option<(string, string)>
    decreases |s|
  {
    match q
    case Outside =>
      if s == "" || EndsWord(s[0]) then Some((word, s))
      else if s[0] == '\'' then ReadWord(Single, s[1..], word)
      else if s[0] == '"' then ReadWord(Double, s[1..], word)
      else if s[0] == '\\' then
        if |s| == 1 then None
        else ReadWord(Outside, s[2..], if s[1] == '\n' then word else word + [s[1]])
      else if Expands(s[0]) then None
      else ReadWord(Outside, s[1..], word + [s[0]])
    case Single =>
      if s == "" then None
      else if s[0] == '\'' then ReadWord(Outside, s[1..], word)
      else ReadWord(Single, s[1..], word + [s[0]])
    case Double =>
      if s == "" then None
      else if s[0] == '"' then ReadWord(Outside, s[1..], word)
      else if s[0] == '$' || s[0] == '`' then None
      else if s[0] == '\\' && |s| > 1 && s[1] in "$`\"\\\n" then
        ReadWord(Double, s[2..], if s[1] == '\n' then word else word + [s[1]])
      else ReadWord(Double, s[1..], word + [s[0]])
  }

  /** A word can follow: nothing more, or a character that ends the word. */
  predicate AfterWord(rest: string) {
    rest == "" || EndsWord(rest[0])
  }

  lemma OpenSingle(s: string, word: string)
    requires s != "" && s[0] == '\''
    ensures ReadWord(Outside, s, word) == ReadWord(Single, s[1..], word)
  {
  }

  lemma CloseSingle(s: string, word: string)
    requires s != "" && s[0] == '\''
    ensures ReadWord(Single, s, word) == ReadWord(Outside, s[1..], word)
  {
  }

  lemma InSingle(s: string, word: string)
    requires s != "" && s[0] != '\''
    ensures ReadWord(Single, s, word) == ReadWord(Single, s[1..], word + [s[0]])
  {
  }

  lemma DoubleQuotedQuote(s: string, word: string)
    requires |s| >= 3 && s[0] == '"' && s[1] == '\'' && s[2] == '"'
    ensures ReadWord(Outside, s, word) == ReadWord(Outside, s[3..], word + ['\''])
  {
    var a := s[1..];
    var b := a[1..];
    assert b[1..] == s[3..];
    assert ReadWord(Double, a, word) == ReadWord(Double, b, word + ['\'']);
  }

  lemma ReadEscapedQuote(s: string, word: string)
    requires |s| >= 5 && s[..5] == "'\"'\"'"
    ensures ReadWord(Single, s, word) == ReadWord(Single, s[5..], word + ['\''])
  {
    hide ReadWord;
    assert s[0] == s[..5][0] && s[1] == s[..5][1] && s[2] == s[..5][2] && s[3] == s[..5][3] && s[4] == s[..5][4];
    CloseSingle(s, word);
    DoubleQuotedQuote(s[1..], word);
    assert s[1..][3..] == s[4..] && s[4..][1..] == s[5..];
    OpenSingle(s[4..], word + ['\'']);
  }

  lemma {:induction false} ReadEscaped(body: string, word: string, rest: string)
    requires AfterWord(rest)
    ensures ReadWord(Single, Escape(body) + "'" + rest, word) == Some((word + body, rest))
    decreases |body|
  {
    hide ReadWord;
    var s := Escape(body) + "'" + rest;
    if body == "" {
      assert s[1..] == rest && word + body == word;
      CloseSingle(s, word);
      StopHere(rest, word);
    } else {
      ReadEscaped(body[1..], word + [body[0]], rest);
      assert word + [body[0]] + body[1..] == word + body;
      if body[0] == '\'' {
        assert s[..5] == "'\"'\"'" && s[5..] == Escape(body[1..]) + "'" + rest;
        ReadEscapedQuote(s, word);
      } else {
        assert s[0] == body[0] && s[1..] == Escape(body[1..]) + "'" + rest;
        InSingle(s, word);
      }
    }
  }

  lemma StopHere(rest: string, word: string)
    requires AfterWord(rest)
    ensures ReadWord(Outside, rest, word) == Some((word, rest))
  {
  }

  /** Every body reads back as itself, as one word. */
  lemma BodyReadsBack(body: string, rest: string)
    requires AfterWord(rest)
    ensures ReadWord(Outside, QuotedBody(body) + rest, "") == Some((body, rest))
  {
    hide ReadWord, Escape;
    var s := QuotedBody(body) + rest;
    assert s[0] == '\'' && s[1..] == Escape(body) + "'" + rest;
    OpenSingle(s, "");
    ReadEscaped(body, "", rest);
    assert "" + body == body;
  }

  /** Reading never makes characters up, and quoting costs some. */
  lemma {:induction false} ReadShortens(q: Quotes, s: string, word: string)
    requires ReadWord(q, s, word).Some?
    ensures var (w, rest) := ReadWord(q, s, word).value;
            |w| + |rest| <= |word| + |s| && |rest| <= |s| && (q != Outside ==> |w| + |rest| < |word| + |s|)
    decreases |s|
  {
    if q == Outside && (s == "" || EndsWord(s[0])) {
    } else if (q == Outside && s[0] == '\\') || (q == Double && s[0] == '\\' && |s| > 1 && s[1] in "$`\"\\\n") {
      ReadShortens(q, s[2..], if s[1] == '\n' then word else word + [s[1]]);
    } else if q == Single && s[0] == '\'' {
      ReadShortens(Outside, s[1..], word);
    } else if q == Double && s[0] == '"' {
      ReadShortens(Outside, s[1..], word);
    } else if q == Outside && s[0] == '\'' {
      ReadShortens(Single, s[1..], word);
    } else if q == Outside && s[0] == '"' {
      ReadShortens(Double, s[1..], word);
    } else {
      ReadShortens(q, s[1..], word + [s[0]]);
    }
  }

  /** Reading outside quotes at no cost meets no quote. */
  lemma {:induction false} FreeReading(s: string, word: string, k: nat)
    requires k < |s| && s[k] == '\'' && ReadWord(Outside, s, word).Some?
    requires var (w, rest) := ReadWord(Outside, s, word).value; |rest| < |s| - k
    ensures var (w, rest) := ReadWord(Outside, s, word).value; |w| + |rest| < |word| + |s|
    decreases |s|
  {
    ReadShortens(Outside, s, word);
    if s[0] == '\'' {
      ReadShortens(Single, s[1..], word);
    } else if s[0] == '"' {
      ReadShortens(Double, s[1..], word);
    } else if s[0] == '\\' {
      ReadShortens(Outside, s[2..], if s[1] == '\n' then word else word + [s[1]]);
    } else {
      FreeReading(s[1..], word + [s[0]], k - 1);
    }
  }

  lemma {:induction false} ReadPlain(u: string, rest: string, word: string)
    requires '\'' !in u
    ensures ReadWord(Single, u + "'" + rest, word) == ReadWord(Outside, rest, word + u)
    decreases |u|
  {
    hide ReadWord;
    var s := u + "'" + rest;
    if u == "" {
      assert s[1..] == rest && word + u == word;
      CloseSingle(s, word);
    } else {
      ReadPlain(u[1..], rest, word + [u[0]]);
      assert s[0] == u[0] && s[1..] == u[1..] + "'" + rest && word + [u[0]] + u[1..] == word + u;
      InSingle(s, word);
    }
  }

  /** The URL reads back as itself exactly when it holds no single quote. */
  lemma UrlReadsBackIff(url: string, rest: string)
    requires AfterWord(rest)
    ensures ReadWord(Outside, QuotedUrl(url) + rest, "") == Some((url, rest)) <==> '\'' !in url
  {
    hide ReadWord;
    var s := QuotedUrl(url) + rest;
    assert s[0] == '\'' && s[1..] == url + "'" + rest;
    OpenSingle(s, "");
    if '\'' !in url {
      ReadPlain(url, rest, "");
      assert "" + url == url;
      StopHere(rest, url);
    } else {
      QuoteInUrl(url, rest);
    }
  }

  lemma QuoteInUrl(url: string, rest: string)
    requires '\'' in url
    ensures ReadWord(Single, url + "'" + rest, "") != Some((url, rest))
  {
    hide ReadWord;
    var k := FirstQuote(url);
    var u, t := url[..k], url[k + 1..] + "'" + rest;
    assert url + "'" + rest == u + "'" + t;
    ReadPlain(u, t, "");
    assert "" + u == u;
    if ReadWord(Outside, t, u) == Some((url, rest)) {
      FreeReading(t, u, |url| - k - 1);
    }
  }

  function FirstQuote(s: string): (k: nat)
    requires '\'' in s
    ensures k < |s| && s[k] == '\'' && '\'' !in s[..k]
  {
    if s[0] == '\'' then 0
    else
      var k := 1 + FirstQuote(s[1..]);
      assert s[..k] == [s[0]] + s[1..][..k - 1];
      k
  }
}
