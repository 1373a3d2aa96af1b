/** The HTTP vectors of test.cpp, as lemmas about the model in module Http. */
module HttpVectors {
  import opened Base
  import opened Util
  import opened Http

  /** The byte layout test.cpp:379-385 pins, for any two-header response:
      status line, each header line, a blank line, then the body. */
  lemma ResponseBytes(version: string, status: Status, h1: Header, h2: Header, body: string)
    ensures PackResponse(Response(version, status, [h1, h2], body)).contents
            == version + " " + IntToString(status.code) + " " + status.name + "\r\n"
               + h1.key + ": " + h1.value + "\r\n"
               + h2.key + ": " + h2.value + "\r\n"
               + "\r\n" + body
  {
    assert [h1, h2][1..] == [h2];
    assert [h2][1..] == [];
    assert HeaderBlock([h2]) == HeaderLine(h2) + CRLF;
    assert HeaderBlock([h1, h2]) == HeaderLine(h1) + CRLF + (HeaderLine(h2) + CRLF);
  }

  /** The status code 200 is written as `200`. */
  lemma OkCodeDigits()
    ensures IntToString(OK_STATUS.code) == "200"
  {
  }

  /** The first occurrence of a character. */
  lemma FindChar(s: string, c: char, n: nat)
    requires n < |s| && s[n] == c
    requires forall j :: 0 <= j < n ==> s[j] != c
    ensures Find(s, [c]) == Some(n)
  {
    assert s[n..n + 1] == [c];
    forall j: nat | j < n
      ensures !OccursAt(s, [c], j)
    {
      assert s[j..j + 1][0] == s[j];
    }
    FindIsFirst(s, [c], n);
  }

  /** A string with no carriage return is a single line. */
  lemma NoCrlf(s: string)
    requires forall i :: 0 <= i < |s| ==> s[i] != '\r'
    ensures Split(s, CRLF) == [s]
  {
    forall j: nat
      ensures !OccursAt(s, CRLF, j)
    {
      if j + 2 <= |s| {
        assert s[j..j + 2][0] == s[j];
      }
    }
  }

  /** A request line with one space is rejected (test.cpp:391-393). */
  lemma RejectsShortRequestLine()
    ensures ParseRequestFrame(Frame("foo bar")).Err?
  {
    NoCrlf("foo bar");
    FindChar("foo bar", ' ', 3);
    assert "foo bar"[4..] == "bar";
    FreeOfChar("bar", ' ');
    assert SplitN("foo bar", " ", 2) == ["foo bar"[..3]] + SplitN("bar", " ", 1);
  }

  lemma ContentTypePlain()
    ensures InferContentType("foo") == "text/plain"
  {
  }

  lemma ContentTypeHtml()
    ensures InferContentType("foo.html") == "text/html"
  {
    assert "foo.html"[3..] == ".html";
  }

  /** A later `.html` wins over an inner `.png` (test.cpp:187). */
  lemma ContentTypeLastSuffixHtml()
    ensures InferContentType("foo.png.html") == "text/html"
  {
    InferContentTypeBySuffix("foo.png");
    assert "foo.png" + ".html" == "foo.png.html";
  }

  /** A later `.png` wins over an inner `.html` (test.cpp:188). */
  lemma ContentTypeLastSuffixPng()
    ensures InferContentType("foo.html.png") == "image/png"
  {
    InferContentTypeBySuffix("foo.html");
    assert "foo.html" + ".png" == "foo.html.png";
  }
}
