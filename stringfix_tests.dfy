/** The `tests` module of the macro, stated as lemmas over the model. The column
    arms are evaluated through the columns of the input, so that the facts about
    the literal and the facts about the arms are proved apart. */
module StringfixTests {
  import opened Text
  import opened Stringfix

  const Input := "this is a test string"
  const Words: seq<string> := ["this", "is", "a", "test", "string"]

  /** Joining up to five columns written out. */
  lemma JoinFive(a: string, b: string, c: string, d: string, e: string, sep: char)
    ensures Join([d, e], sep) == d + [sep] + e
    ensures Join([c, d, e], sep) == c + [sep] + d + [sep] + e
    ensures Join([b, c, d, e], sep) == b + [sep] + c + [sep] + d + [sep] + e
    ensures Join([a, b, c, d, e], sep) == a + [sep] + b + [sep] + c + [sep] + d + [sep] + e
  {
    assert [d, e][1..] == [e];
    assert [c, d, e][1..] == [d, e];
    assert [b, c, d, e][1..] == [c, d, e];
    assert [a, b, c, d, e][1..] == [b, c, d, e];
  }

  /** The columns of the test input. */
  lemma InputColumns()
    ensures Split(Input, ' ') == Words
  {
    JoinFive("this", "is", "a", "test", "string", ' ');
    assert "this" + " " + "is" + " " + "a" + " " + "test" + " " + "string" == Input;
    SplitJoin(Words, ' ');
  }

  /** Column 2 of any line of five columns. */
  lemma FiveColumnsUnit(s: string, a: string, b: string, c: string, d: string, e: string)
    requires Split(s, ' ') == [a, b, c, d, e]
    ensures Unit(s, ' ', 2) == Some(c)
  {
  }

  /** The prefix through column 3 of any line of five columns. */
  lemma FiveColumnsPrefixThrough(s: string, a: string, b: string, c: string, d: string, e: string)
    requires Split(s, ' ') == [a, b, c, d, e]
    ensures PrefixThrough(s, ' ', 3) == a + " " + b + " " + c + " " + d
  {
    assert [a, b, c, d, e][..4] == [a, b, c, d];
    // Only JoinFive's four-piece clause is used, on [a, b, c, d]; its first argument is unused there.
    JoinFive(a, a, b, c, d, ' ');
  }

  /** The suffix from column 3 of any line of five columns. */
  lemma FiveColumnsSuffixFrom(s: string, a: string, b: string, c: string, d: string, e: string)
    requires Split(s, ' ') == [a, b, c, d, e]
    ensures SuffixFrom(s, ' ', 3) == Some(d + " " + e)
  {
    assert [a, b, c, d, e][3..] == [d, e];
    JoinFive(a, b, c, d, e, ' ');
  }

  /** Tests `default_for_suffix` and `default_for_prefix`. */
  lemma ExampleDefaults()
    ensures Suffix(Input, ' ') == "is a test string"
    ensures Prefix(Input, ' ') == "this"
  {
    assert Input[4] == ' ' && ' ' !in Input[..4];
    assert Input[..4] == "this" && Input[5..] == "is a test string";
  }

  /** Test `default_for_unit`: column 2 is `"a"`. */
  lemma ExampleUnit()
    ensures Unit(Input, ' ', 2) == Some("a")
  {
    InputColumns();
    FiveColumnsUnit(Input, "this", "is", "a", "test", "string");
  }

  /** The expected answers of `not_defaults`, column by column. */
  lemma NotDefaultsAnswers()
    ensures "this" + " " + "is" + " " + "a" + " " + "test" == "this is a test"
    ensures "test" + " " + "string" == "test string"
  {
  }

  /** Test `not_defaults`, first half: the prefix through column 3. */
  lemma ExamplePrefixThrough()
    ensures PrefixThrough(Input, ' ', 3) == "this is a test"
  {
    InputColumns();
    FiveColumnsPrefixThrough(Input, "this", "is", "a", "test", "string");
    NotDefaultsAnswers();
  }

  /** Test `not_defaults`, second half: the suffix from column 3. */
  lemma ExampleSuffixFrom()
    ensures SuffixFrom(Input, ' ', 3) == Some("test string")
  {
    InputColumns();
    FiveColumnsSuffixFrom(Input, "this", "is", "a", "test", "string");
    NotDefaultsAnswers();
  }

  /** A line whose only separator is its last character: the default suffix is
      empty and the prefix is the line without that character. */
  lemma OnlyTrailingSeparator(w: string, sep: char)
    requires sep !in w
    ensures Suffix(w + [sep], sep) == ""
    ensures Prefix(w + [sep], sep) == w
  {
    var s := w + [sep];
    assert s[|w|] == sep && s[..|w|] == w;
  }

  /** Test `trailing_sep`: a separator at the very end leaves an empty suffix,
      and the prefix is the line without its trailing space. */
  lemma ExampleTrailingSeparator()
    ensures Suffix("anything ", ' ') == ""
    ensures Prefix("anything ", ' ') == "anything"
    ensures Prefix("anything ", ' ') == TrimEnd("anything ")
  {
    OnlyTrailingSeparator("anything", ' ');
    TrimEndOneSpace("anything");
    assert "anything" + [' '] == "anything ";
  }

  /** One trailing space after a word that ends in no whitespace is what
      `trim_end` removes. */
  lemma TrimEndOneSpace(w: string)
    requires w == [] || !IsWhitespace(w[|w| - 1])
    ensures TrimEnd(w + [' ']) == w
  {
    assert (w + [' '])[..|w|] == w;
  }
}
