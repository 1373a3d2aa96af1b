/** The string-helper vectors of test.cpp (lines 116-188), as lemmas about
    the model in module Util. */
module UtilVectors {
  import opened Base
  import opened Util

  /** `split_n` and `split` on the empty string and the empty separator
      (test.cpp:117, 146-147). */
  lemma SplitVectors()
    ensures SplitN("", " ", 10) == [""]
    ensures Split("foo", "") == ["f", "o", "o"]
    ensures Split("", "") == [""]
  {
    assert !OccursAt("", " ", 0);
    assert Split("o", "") == ["o"];
    assert "foo"[1..] == "oo" && "oo"[1..] == "o";
    assert "foo"[..1] == "f" && "oo"[..1] == "o";
    assert NextCut("oo", "") == Some((1, 1));
    assert Split("oo", "") == ["o"] + Split("o", "");
    assert NextCut("foo", "") == Some((1, 1));
  }

  /** `canonicalize_path` on the root and on a `..` (test.cpp:151-156). */
  lemma CanonicalizeVectors()
    ensures CanonicalizePath("") == ""
    ensures CanonicalizePath("/") == "/"
    ensures CanonicalizePath("/foo/../bar") == "/bar"
  {
    CanonicalRoot();
    ParentVector("/foo/../bar");
  }

  /** `/foo/../bar` is `/bar`, itself canonical. */
  lemma ParentVector(path: string)
    requires path == "/foo/../bar"
    ensures CanonicalizePath(path) == "/bar"
  {
    assert path == "" + "/" + "foo" + "/../" + "bar";
    assert CanonicalNames(["foo"]) by {
      FreeOfChar("foo", '/');
    }
    CanonicalizeParent("", "foo", "bar");
    BarIsCanonical("" + "/" + "bar");
  }

  lemma BarIsCanonical(path: string)
    requires path == "/bar"
    ensures CanonicalizePath(path) == path
  {
    assert path == "/" + Join("/", ["bar"]);
    assert CanonicalNames(["bar"]) by {
      FreeOfChar("bar", '/');
    }
    CanonicalFixedPoint(["bar"]);
  }

  /** `ends_with` vectors (test.cpp:174-179). */
  lemma EndsWithVectors()
    ensures EndsWith("", "")
    ensures EndsWith("foo.html", ".html")
    ensures !EndsWith("bar.html.bak", ".html")
    ensures !EndsWith("bar.html.bak", "foo.bar.html.bak")
  {
    assert "foo.html"[3..] == ".html";
  }
}
