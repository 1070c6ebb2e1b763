/**
 * The outcomes of `ResourceUtils.Normalize` on typical paths and on the
 * edge cases of its single-strip rule.
 */
module NormalizeExamples {

  import opened Wrappers
  import opened Strings
  import opened ResourceUtils

  /** Null, empty and whitespace-only paths have no key. */
  lemma NormalizeBlank()
    ensures Normalize(None) == None
    ensures Normalize(Some("")) == None
    ensures Normalize(Some(" \t\n")) == None
  {
    var p := " \t\n";
    assert IsBlank(Some(p));
  }

  /** The lone separator is kept, also when it was a backslash padded with
      spaces. */
  lemma NormalizeRoot()
    ensures Normalize(Some("/")) == Some("/")
    ensures Normalize(Some(" \\ ")) == Some("/")
  {
    var p, q := "/", " \\ ";
    assert !IsWhitespace(p[0]) && !IsWhitespace(q[1]);
    CleanedUnchanged(p);
    assert Replace(q, '\\', '/') == " " + "/" + " ";
    TrimUnique(" ", "/", " ");
  }

  /** A trailing separator is stripped. */
  lemma NormalizeTrailingSeparator()
    ensures Normalize(Some("a/b/")) == Some("a/b")
  {
    var p := "a/b/";
    assert !IsWhitespace(p[0]);
    CleanedUnchanged(p);
    var v := Normalize(Some(p)).value;
    assert p == v + "/";
    assert v == p[..3] == "a/b";
  }

  /** A leading and a trailing separator are both stripped. */
  lemma NormalizeBothSeparators()
    ensures Normalize(Some("/a/b/")) == Some("a/b")
  {
    var p := "/a/b/";
    assert !IsWhitespace(p[1]);
    CleanedUnchanged(p);
    var v := Normalize(Some(p)).value;
    assert p == "/" + v + "/";
    assert v == p[1..4] == "a/b";
  }

  /** Backslashes become separators before the stripping. */
  lemma NormalizeBackslashes()
    ensures Normalize(Some("\\a\\b\\")) == Some("a/b")
  {
    var p := "\\a\\b\\";
    assert !IsWhitespace(p[1]);
    assert Replace(p, '\\', '/') == "/a/b/";
    TrimUntrimmed("/a/b/");
    var v := Normalize(Some(p)).value;
    assert "/a/b/" == "/" + v + "/";
    assert v == "/a/b/"[1..4] == "a/b";
  }

  /** A pair of separators loses one at each end and leaves the empty key,
      not an absent one. */
  lemma NormalizeSeparatorPair()
    ensures Normalize(Some("//")) == Some("")
  {
    var p := "//";
    assert !IsWhitespace(p[0]);
    CleanedUnchanged(p);
    var v := Normalize(Some(p)).value;
    assert p == "/" + v + "/";
  }

  /** A doubled leading separator loses only one slash. */
  lemma NormalizeDoubledLeadingSeparator()
    ensures Normalize(Some("//a")) == Some("/a")
  {
    var p := "//a";
    assert !IsWhitespace(p[2]);
    CleanedUnchanged(p);
    var v := Normalize(Some(p)).value;
    assert p == "/" + v;
    assert v == p[1..] == "/a";
  }

  /** A single leading separator is stripped. */
  lemma NormalizeLeadingSeparator()
    ensures Normalize(Some("/a")) == Some("a")
  {
    var p := "/a";
    assert !IsWhitespace(p[1]);
    CleanedUnchanged(p);
    var v := Normalize(Some(p)).value;
    assert p == "/" + v;
    assert v == p[1..] == "a";
  }

  /** Stripping the separators can expose spaces, which stay: trimming
      happens before the stripping, not after. */
  lemma NormalizeExposesSpaces()
    ensures Normalize(Some("/ a /")) == Some(" a ")
  {
    var p := "/ a /";
    assert !IsWhitespace(p[2]);
    CleanedUnchanged(p);
    var v := Normalize(Some(p)).value;
    assert p == "/" + v + "/";
    assert v == p[1..4] == " a ";
  }

  /** A path made only of a control character that is not whitespace is
      not blank, yet trims away entirely: its key is the empty string,
      not absent. */
  lemma NormalizeControlCharacter()
    ensures Normalize(Some(['\0'])) == Some("")
  {
    var p := ['\0'];
    assert !IsBlank(Some(p));
    assert Cleaned(p) == [];
  }

  /** `Normalize` is not idempotent: a doubled leading separator loses one
      slash per application. */
  lemma NormalizeNotIdempotent()
    ensures exists p :: Normalize(Some(p)).Some? && Normalize(Normalize(Some(p))) != Normalize(Some(p))
  {
    NormalizeDoubledLeadingSeparator();
    NormalizeLeadingSeparator();
    assert Normalize(Normalize(Some("//a"))) != Normalize(Some("//a"));
  }
}
