/** The five arms of the `stringfix!` macro, which slice a line at a separator.
    The arms that index past the columns panic in Rust; here they return `None`. */
module Stringfix {
  import opened Text

  /** Arm `slice = "prefix"`: the text before the first separator, or all of `s`
      when there is none. The result is a prefix of `s` free of the separator,
      and it stops at a separator or at the end. */
  function Prefix(s: string, sep: char): (r: string)
    ensures |r| <= |s| && r == s[..|r|]
    ensures sep !in r
    ensures |r| < |s| ==> s[|r|] == sep
    ensures sep !in s ==> r == s
  {
    var anchor := match Find(s, sep) case Some(i) => i case None => |s|;
    s[..anchor]
  }

  /** The default arm (also `slice = "suffix"`): the text after the first separator.
      The anchor is one past the separator's index, and `0 + 1` when there is none,
      clamped to the length: without a separator the first character is dropped. */
  function Suffix(s: string, sep: char): (r: string)
    ensures sep in s ==> Prefix(s, sep) + [sep] + r == s
    ensures sep !in s ==> r == if s == [] then [] else s[1..]
  {
    var anchor := (match Find(s, sep) case Some(i) => i case None => 0) + 1;
    s[Min(anchor, |s|)..]
  }

  /** Arm `col` (also `slice = "unit"`): column `col` of the split. Indexing past
      the last column is Rust's out-of-bounds panic, here `None`. */
  function Unit(s: string, sep: char, col: nat): (r: Option<string>)
    ensures r.Some? <==> col <= Occurrences(s, sep)
    ensures r.Some? ==> sep !in r.value
    ensures col == 0 ==> r == Some(Prefix(s, sep))
  {
    var words := Split(s, sep);
    SplitHead(s, sep);
    if col < |words| then Some(words[col]) else None
  }

  /** Arm `col, slice = "prefix"`: the first `col + 1` columns joined back, clamped
      to the number of columns. The result is the prefix of `s` that ends just
      before separator number `col + 1`, or all of `s` when there are not that many. */
  function PrefixThrough(s: string, sep: char, col: nat): (r: string)
    ensures |r| <= |s| && r == s[..|r|]
    ensures Occurrences(r, sep) == Min(col, Occurrences(s, sep))
    ensures |r| < |s| ==> s[|r|] == sep
    ensures col >= Occurrences(s, sep) ==> r == s
  {
    var words := Split(s, sep);
    var k := Min(col + 1, |words|);
    JoinSplit(s, sep);
    LeadingColumns(words, s, sep, k);
    Join(words[..k], sep)
  }

  /** Joining the first `k` of the separator-free columns of `s` gives the prefix
      of `s` that holds `k - 1` separators. It is followed by a separator when
      `k` is short of all the columns, and it is all of `s` otherwise. */
  lemma LeadingColumns(words: seq<string>, s: string, sep: char, k: nat)
    requires 0 < k <= |words| && Join(words, sep) == s
    requires forall i :: 0 <= i < |words| ==> sep !in words[i]
    ensures var r := Join(words[..k], sep);
      |r| <= |s| && r == s[..|r|] && Occurrences(r, sep) == k - 1
      && (k < |words| ==> |r| < |s| && s[|r|] == sep)
      && (k == |words| ==> r == s)
  {
    var front := words[..k];
    var r := Join(front, sep);
    if k < |words| {
      assert words == front + words[k..];
      JoinAppend(front, words[k..], sep);
      assert s[|r|] == sep && s[..|r|] == r;
    } else {
      assert front == words;
    }
    JoinOccurrences(front, sep);
  }

  /** Arm `col, slice = "suffix"`: the columns from `col` on, joined back. Slicing
      from past the end of the columns is Rust's panic, here `None`. What it returns
      is what is left of `s` after the first `col` columns and the separator past them. */
  function SuffixFrom(s: string, sep: char, col: nat): (r: Option<string>)
    ensures r.Some? <==> col <= Occurrences(s, sep) + 1
    ensures col == 0 ==> r == Some(s)
    ensures col == Occurrences(s, sep) + 1 ==> r == Some([])
    ensures 0 < col <= Occurrences(s, sep) ==> r.Some? && PrefixThrough(s, sep, col - 1) + [sep] + r.value == s
  {
    var words := Split(s, sep);
    if col <= |words| then
      JoinSplit(s, sep);
      TrailingColumns(words, s, sep, col);
      Some(Join(words[col..], sep))
    else None
  }

  /** The columns from `col` on, joined: all of `s` from column 0, and what follows
      the first `col` columns and one separator when `col` is strictly inside. */
  lemma TrailingColumns(words: seq<string>, s: string, sep: char, col: nat)
    requires col <= |words| && Join(words, sep) == s
    ensures col == 0 ==> Join(words[col..], sep) == s
    ensures 0 < col < |words| ==> Join(words[..col], sep) + [sep] + Join(words[col..], sep) == s
  {
    if 0 < col < |words| {
      assert words == words[..col] + words[col..];
      JoinAppend(words[..col], words[col..], sep);
    } else if col == 0 {
      assert words[col..] == words;
    }
  }

  /** The first column is the prefix before the first separator; when there is a
      separator, the remaining columns are the columns of the default suffix. */
  lemma SplitHead(s: string, sep: char)
    ensures Split(s, sep)[0] == Prefix(s, sep)
    ensures sep in s ==> Split(s, sep)[1..] == Split(Suffix(s, sep), sep)
  {
  }

  /** Suffix from column 1 agrees with the default suffix whenever the separator
      occurs in the line. */
  lemma SuffixFromOne(s: string, sep: char)
    requires sep in s
    ensures SuffixFrom(s, sep, 1) == Some(Suffix(s, sep))
  {
    SplitHead(s, sep);
    JoinSplit(Suffix(s, sep), sep);
  }

  /** Without a separator the two disagree: the default suffix drops one character,
      suffix from column 1 is empty. */
  lemma SuffixFromOneWithoutSeparator()
    ensures SuffixFrom("ls", ' ', 1) == Some("")
    ensures Suffix("ls", ' ') == "s"
  {
    assert "ls"[1..] == "s";
  }

  /** The prefix through column `col` extends the prefix through `col - 1` by one
      separator and column `col`. */
  lemma PrefixThroughStep(s: string, sep: char, col: nat)
    requires 0 < col <= Occurrences(s, sep)
    ensures Unit(s, sep, col).Some?
    ensures PrefixThrough(s, sep, col) == PrefixThrough(s, sep, col - 1) + [sep] + Unit(s, sep, col).value
  {
    var words := Split(s, sep);
    assert words[..col + 1] == words[..col] + [words[col]];
    JoinAppend(words[..col], [words[col]], sep);
  }
}
