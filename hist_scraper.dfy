/** The body of `main`: the target text becomes trimmed lines, the query text
    becomes keys, the target lines equal to a key are dropped (past the first
    `skip_n`), and what is kept is joined with newlines. */
module HistScraper {
  import opened Text
  import opened Stringfix

  const NewLine := '\n'

  /** The separator `main` hands to `stringfix!`: a space. */
  const ColumnSep := ' '

  /** The target text split at newlines, each line trimmed. No line holds a
      newline, and every line is already trimmed. */
  function TargetLines(text: string): (r: seq<string>)
    ensures |r| == Occurrences(text, NewLine) + 1
    ensures forall k :: 0 <= k < |r| ==> r[k] == Trim(Split(text, NewLine)[k])
    ensures forall k :: 0 <= k < |r| ==> NewLine !in r[k] && Trim(r[k]) == r[k]
  {
    var lines := Split(text, NewLine);
    TrimmedLines(lines);
    seq(|lines|, k requires 0 <= k < |lines| => Trim(lines[k]))
  }

  /** Trimming a line that holds no newline gives a trimmed line that holds none. */
  lemma TrimmedLines(lines: seq<string>)
    requires forall k :: 0 <= k < |lines| ==> NewLine !in lines[k]
    ensures forall k :: 0 <= k < |lines| ==> NewLine !in Trim(lines[k]) && Trim(Trim(lines[k])) == Trim(lines[k])
  {
    forall k | 0 <= k < |lines|
      ensures NewLine !in Trim(lines[k]) && Trim(Trim(lines[k])) == Trim(lines[k])
    {
      TrimIdempotent(lines[k]);
    }
  }

  /** The key of one query line: its default suffix at a space, trimmed. */
  function QueryKey(line: string): string
  {
    Trim(Suffix(line, ColumnSep))
  }

  /** `.filter(|l| l.len() > 0)`: the non-empty lines, in order. */
  function NonEmpty(lines: seq<string>): seq<string>
  {
    if lines == [] then []
    else (if lines[0] == [] then [] else [lines[0]]) + NonEmpty(lines[1..])
  }

  /** A line survives the filter exactly when it is a non-empty input line. */
  lemma {:induction false} NonEmptyMembers(lines: seq<string>)
    ensures |NonEmpty(lines)| <= |lines|
    ensures forall x :: x in NonEmpty(lines) <==> x in lines && x != []
  {
    if lines != [] {
      NonEmptyMembers(lines[1..]);
      assert lines == [lines[0]] + lines[1..];
    }
  }

  /** `.map(f)`: `f` applied to each element, in order. */
  function Mapped(xs: seq<string>, f: string -> string): (r: seq<string>)
    ensures |r| == |xs| && forall i :: 0 <= i < |xs| ==> r[i] == f(xs[i])
  {
    seq(|xs|, i requires 0 <= i < |xs| => f(xs[i]))
  }

  /** Mapping a concatenation maps each part. */
  lemma MappedAppend(a: seq<string>, b: seq<string>, f: string -> string)
    ensures Mapped(a + b, f) == Mapped(a, f) + Mapped(b, f)
  {
    assert forall i :: |a| <= i < |a| + |b| ==> (a + b)[i] == b[i - |a|];
  }

  /** `.map(|l| stringfix!(l, " "))` after the filter: the keys of the non-empty
      lines, in order. */
  function KeysOf(lines: seq<string>): seq<string>
  {
    Mapped(NonEmpty(lines), QueryKey)
  }

  /** Past line `first`, every image of a non-empty line is the image of some
      non-empty line at or past `first`. */
  lemma NonEmptyMappedSound(lines: seq<string>, first: nat, f: string -> string, key: string)
    requires first <= |lines| && key in Mapped(NonEmpty(lines[first..]), f)
    ensures exists j :: first <= j < |lines| && lines[j] != [] && key == f(lines[j])
  {
    var tail := lines[first..];
    var kept := NonEmpty(tail);
    var i :| 0 <= i < |kept| && Mapped(kept, f)[i] == key;
    NonEmptyMembers(tail);
    assert kept[i] in tail;
    var j :| 0 <= j < |tail| && tail[j] == kept[i];
    assert lines[first + j] == tail[j];
  }

  /** Every non-empty line at or past `first` has its image among the images of
      the non-empty lines past `first`. */
  lemma NonEmptyMappedComplete(lines: seq<string>, first: nat, f: string -> string, j: nat)
    requires first <= j < |lines| && lines[j] != []
    ensures f(lines[j]) in Mapped(NonEmpty(lines[first..]), f)
  {
    var tail := lines[first..];
    var kept := NonEmpty(tail);
    NonEmptyMembers(tail);
    assert lines[j] == tail[j - first];
    assert lines[j] in kept;
    var i :| 0 <= i < |kept| && kept[i] == lines[j];
    assert Mapped(kept, f)[i] == f(lines[j]);
  }

  /** The first query line is the header, skipped unless `no_header` is set. */
  function FirstKeyLine(noHeader: bool): nat
  {
    if noHeader then 0 else 1
  }

  /** The query keys: the query text split at newlines, the header skipped unless
      `no_header` is set, and the keys of the remaining non-empty lines taken. */
  function QueryKeys(text: string, noHeader: bool): seq<string>
  {
    var lines := Split(text, NewLine);
    KeysOf(lines[FirstKeyLine(noHeader)..])
  }

  /** Each query key is the key of one non-empty query line past the header (or
      from the first line on, with `no_header`). */
  lemma QueryKeysSound(text: string, noHeader: bool, key: string)
    requires key in QueryKeys(text, noHeader)
    ensures exists j :: (FirstKeyLine(noHeader) <= j < |Split(text, NewLine)|
      && Split(text, NewLine)[j] != [] && key == QueryKey(Split(text, NewLine)[j]))
  {
    NonEmptyMappedSound(Split(text, NewLine), FirstKeyLine(noHeader), QueryKey, key);
  }

  /** Each non-empty query line past the header (or from the first line on, with
      `no_header`) gives a query key. */
  lemma QueryKeysComplete(text: string, noHeader: bool, j: nat)
    requires FirstKeyLine(noHeader) <= j < |Split(text, NewLine)| && Split(text, NewLine)[j] != []
    ensures QueryKey(Split(text, NewLine)[j]) in QueryKeys(text, noHeader)
  {
    NonEmptyMappedComplete(Split(text, NewLine), FirstKeyLine(noHeader), QueryKey, j);
  }

  /** With `no_header` the header line gives a key of its own (when it is not
      empty) in front of the keys the default gives. */
  lemma HeaderKey(text: string)
    ensures var header := Split(text, NewLine)[0];
      QueryKeys(text, true) == (if header == [] then [] else [QueryKey(header)]) + QueryKeys(text, false)
  {
    var lines := Split(text, NewLine);
    assert lines[0..] == lines;
    KeysOfCons(lines);
  }

  /** The keys of a list of lines are the first line's key, if it is not empty,
      then the keys of the rest. */
  lemma KeysOfCons(lines: seq<string>)
    requires lines != []
    ensures KeysOf(lines) == (if lines[0] == [] then [] else [QueryKey(lines[0])]) + KeysOf(lines[1..])
  {
    NonEmptyMappedCons(lines, QueryKey);
  }

  /** Mapping the non-empty lines maps the first line, if it is not empty, then
      the non-empty lines of the rest. */
  lemma NonEmptyMappedCons(lines: seq<string>, f: string -> string)
    requires lines != []
    ensures Mapped(NonEmpty(lines), f) == (if lines[0] == [] then [] else [f(lines[0])]) + Mapped(NonEmpty(lines[1..]), f)
  {
    var head := if lines[0] == [] then [] else [lines[0]];
    assert NonEmpty(lines) == head + NonEmpty(lines[1..]);
    MappedAppend(head, NonEmpty(lines[1..]), f);
  }

  /** The target lines that equal no key, in order. */
  function Unmatched(lines: seq<string>, keys: seq<string>): seq<string>
  {
    if lines == [] then []
    else (if lines[0] in keys then [] else [lines[0]]) + Unmatched(lines[1..], keys)
  }

  /** Each line that is not a key occurs in `Unmatched` as often as in its input;
      a key does not occur at all. */
  lemma {:induction false} UnmatchedCounts(lines: seq<string>, keys: seq<string>)
    ensures forall x :: multiset(Unmatched(lines, keys))[x] == if x in keys then 0 else multiset(lines)[x]
  {
    if lines != [] {
      UnmatchedCounts(lines[1..], keys);
      assert lines == [lines[0]] + lines[1..];
    }
  }

  /** What `main` keeps of the target lines: the first `skip_n` unconditionally,
      then the lines that equal no key. */
  function Filtered(target: seq<string>, keys: seq<string>, skipN: nat): seq<string>
  {
    var n := Min(skipN, |target|);
    target[..n] + Unmatched(target[n..], keys)
  }

  /** `a` is `b` with some elements left out: `idx` says, in increasing order,
      where in `b` each element of `a` comes from. */
  ghost predicate IndexedBy(a: seq<string>, b: seq<string>, idx: seq<nat>)
  {
    |idx| == |a|
    && (forall i :: 0 <= i < |idx| ==> idx[i] < |b| && a[i] == b[idx[i]])
    && (forall i, j :: 0 <= i < j < |idx| ==> idx[i] < idx[j])
  }

  ghost predicate IsSubsequence(a: seq<string>, b: seq<string>)
  {
    exists idx :: IndexedBy(a, b, idx)
  }

  /** Where each line of `Unmatched` comes from in its input. */
  lemma {:induction false} UnmatchedIndices(lines: seq<string>, keys: seq<string>) returns (idx: seq<nat>)
    ensures IndexedBy(Unmatched(lines, keys), lines, idx)
  {
    if lines == [] {
      idx := [];
    } else {
      var rest := UnmatchedIndices(lines[1..], keys);
      idx := ShiftIndices(Unmatched(lines[1..], keys), lines, rest, lines[0] !in keys);
    }
  }

  /** Indices into `b[1..]` moved up by one index into `b`; `b[0]` itself may be
      put in front. */
  lemma ShiftIndices(a: seq<string>, b: seq<string>, rest: seq<nat>, keepHead: bool) returns (idx: seq<nat>)
    requires b != [] && IndexedBy(a, b[1..], rest)
    ensures IndexedBy(if keepHead then [b[0]] + a else a, b, idx)
  {
    var shifted := seq(|rest|, i requires 0 <= i < |rest| => rest[i] + 1);
    assert forall i :: 0 <= i < |rest| ==> a[i] == b[1..][rest[i]] == b[shifted[i]];
    if keepHead {
      idx := [0] + shifted;
      assert forall i :: 0 < i < |idx| ==> idx[i] == shifted[i - 1];
    } else {
      idx := shifted;
    }
  }

  /** Dropping the lines that equal a key once more drops nothing. */
  lemma {:induction false} UnmatchedIdempotent(lines: seq<string>, keys: seq<string>)
    ensures Unmatched(Unmatched(lines, keys), keys) == Unmatched(lines, keys)
  {
    if lines != [] {
      var rest := Unmatched(lines[1..], keys);
      UnmatchedIdempotent(lines[1..], keys);
      if lines[0] in keys {
        assert Unmatched(lines, keys) == rest;
      } else {
        var once := [lines[0]] + rest;
        assert Unmatched(lines, keys) == once;
        assert once[0] == lines[0] && once[1..] == rest;
        assert Unmatched(once, keys) == [lines[0]] + Unmatched(rest, keys);
      }
    }
  }

  /** The first `skip_n` target lines are copied unchanged to the front of the
      output. */
  lemma FilteredPassThrough(target: seq<string>, keys: seq<string>, skipN: nat)
    ensures |Filtered(target, keys, skipN)| >= Min(skipN, |target|)
    ensures forall i :: 0 <= i < Min(skipN, |target|) ==> Filtered(target, keys, skipN)[i] == target[i]
  {
  }

  /** Past the first `skip_n`, a target line is kept exactly when it equals no key,
      and a kept line is kept as many times as it occurs there. */
  lemma FilteredKeeps(target: seq<string>, keys: seq<string>, skipN: nat, j: nat)
    requires skipN <= j < |target|
    ensures var rest := Filtered(target, keys, skipN)[skipN..];
      (target[j] in rest <==> target[j] !in keys)
      && multiset(rest)[target[j]] == if target[j] in keys then 0 else multiset(target[skipN..])[target[j]]
  {
    UnmatchedCounts(target[skipN..], keys);
    assert target[j] == target[skipN..][j - skipN];
    assert Filtered(target, keys, skipN)[skipN..] == Unmatched(target[skipN..], keys);
  }

  /** The output is the target with some lines left out, in the original order. */
  lemma FilteredSubsequence(target: seq<string>, keys: seq<string>, skipN: nat)
    ensures IsSubsequence(Filtered(target, keys, skipN), target)
  {
    var n := Min(skipN, |target|);
    var rest := UnmatchedIndices(target[n..], keys);
    var idx := seq(n, i requires 0 <= i < n => i) + seq(|rest|, i requires 0 <= i < |rest| => rest[i] + n);
    assert IndexedBy(Filtered(target, keys, skipN), target, idx);
  }

  /** Every output line is a target line. */
  lemma FilteredFromTarget(target: seq<string>, keys: seq<string>, skipN: nat)
    ensures forall x :: x in Filtered(target, keys, skipN) ==> x in target
  {
    var n := Min(skipN, |target|);
    var rest := Unmatched(target[n..], keys);
    UnmatchedCounts(target[n..], keys);
    assert target == target[..n] + target[n..];
    forall x | x in rest
      ensures x in target[n..]
    {
      assert multiset(rest)[x] > 0;
    }
  }

  /** Filtering the output again with the same keys and `skip_n` changes nothing. */
  lemma FilteredIdempotent(target: seq<string>, keys: seq<string>, skipN: nat)
    ensures Filtered(Filtered(target, keys, skipN), keys, skipN) == Filtered(target, keys, skipN)
  {
    var f := Filtered(target, keys, skipN);
    if |target| < skipN {
      assert target[..|target|] == target;
      assert f == target;
    } else {
      assert f[..skipN] == target[..skipN];
      assert f[skipN..] == Unmatched(target[skipN..], keys);
      UnmatchedIdempotent(target[skipN..], keys);
    }
  }

  /** Appending a line to the input of `Unmatched` appends it to the result
      exactly when it equals no key. */
  lemma {:induction false} UnmatchedAppend(lines: seq<string>, x: string, keys: seq<string>)
    ensures Unmatched(lines + [x], keys) == Unmatched(lines, keys) + (if x in keys then [] else [x])
  {
    if lines == [] {
      assert [] + [x] == [x];
    } else {
      assert (lines + [x])[1..] == lines[1..] + [x];
      UnmatchedAppend(lines[1..], x, keys);
    }
  }

  /** Appending a target line appends it to the output exactly when it is among
      the first `skip_n` or equals no key. */
  lemma FilteredAppend(target: seq<string>, x: string, keys: seq<string>, skipN: nat)
    ensures Filtered(target + [x], keys, skipN)
         == Filtered(target, keys, skipN) + (if |target| < skipN || x !in keys then [x] else [])
  {
    var t := target + [x];
    if |target| < skipN {
      assert t[..Min(skipN, |t|)] == t;
      assert target[..Min(skipN, |target|)] == target;
    } else {
      assert t[..skipN] == target[..skipN];
      assert t[skipN..] == target[skipN..] + [x];
      UnmatchedAppend(target[skipN..], x, keys);
    }
  }

  /** The loop of `main`: copy the first `skip_n` lines, then copy a line only if
      no key equals it, stopping the search at the first key that does. */
  method Filter(target: seq<string>, keys: seq<string>, skipN: nat) returns (buf: seq<string>)
    ensures buf == Filtered(target, keys, skipN)
  {
    buf := [];
    for i := 0 to |target|
      invariant buf == Filtered(target[..i], keys, skipN)
    {
      var line := target[i];
      assert target[..i + 1] == target[..i] + [line];
      FilteredAppend(target[..i], line, keys, skipN);
      if i < skipN {
        buf := buf + [line];
        continue;
      }
      var addFlag := true;
      for k := 0 to |keys|
        invariant addFlag && line !in keys[..k]
      {
        if line == keys[k] {
          addFlag := false;
          break;
        }
      }
      assert addFlag ==> keys[..|keys|] == keys;
      if addFlag {
        buf := buf + [line];
      }
    }
    assert target[..|target|] == target;
  }

  /** `main` as a whole, from the decoded target and query texts to the text it
      writes. */
  function Scraped(targetText: string, queryText: string, skipN: nat, noHeader: bool): string
  {
    Join(Filtered(TargetLines(targetText), QueryKeys(queryText, noHeader), skipN), NewLine)
  }

  /** Joining lines that hold no newline and are already trimmed, and reading the
      text back, gives the same lines. */
  lemma TargetLinesOfJoin(xs: seq<string>)
    requires xs != []
    requires forall k :: 0 <= k < |xs| ==> NewLine !in xs[k] && Trim(xs[k]) == xs[k]
    ensures TargetLines(Join(xs, NewLine)) == xs
  {
    SplitJoin(xs, NewLine);
  }

  /** Reading back what `main` writes gives exactly the lines it kept, unless it
      kept none (the empty text reads back as one empty line). */
  lemma ScrapedLines(targetText: string, queryText: string, skipN: nat, noHeader: bool)
    ensures var kept := Filtered(TargetLines(targetText), QueryKeys(queryText, noHeader), skipN);
      kept != [] ==> TargetLines(Scraped(targetText, queryText, skipN, noHeader)) == kept
  {
    var lines := TargetLines(targetText);
    var kept := Filtered(lines, QueryKeys(queryText, noHeader), skipN);
    if kept != [] {
      FilteredFromTarget(lines, QueryKeys(queryText, noHeader), skipN);
      forall k | 0 <= k < |kept|
        ensures NewLine !in kept[k] && Trim(kept[k]) == kept[k]
      {
        assert kept[k] in lines;
      }
      TargetLinesOfJoin(kept);
    }
  }

  /** Filtering and joining is idempotent for lines that hold no newline and are
      already trimmed: reading the joined text back and filtering it again gives
      the same text. */
  lemma JoinedFilterIdempotent(lines: seq<string>, keys: seq<string>, skipN: nat)
    requires forall k :: 0 <= k < |lines| ==> NewLine !in lines[k] && Trim(lines[k]) == lines[k]
    ensures var once := Join(Filtered(lines, keys, skipN), NewLine);
      Join(Filtered(TargetLines(once), keys, skipN), NewLine) == once
  {
    var kept := Filtered(lines, keys, skipN);
    if kept != [] {
      FilteredFromTarget(lines, keys, skipN);
      forall k | 0 <= k < |kept|
        ensures NewLine !in kept[k] && Trim(kept[k]) == kept[k]
      {
        assert kept[k] in lines;
      }
      TargetLinesOfJoin(kept);
      FilteredIdempotent(lines, keys, skipN);
    } else {
      var empty: string := [];
      assert Split(empty, NewLine) == [empty];
      assert TargetLines(empty) == [empty];
      var again := Filtered([empty], keys, skipN);
      if skipN == 0 {
        assert [empty][1..] == [];
        assert again == Unmatched([empty], keys);
      } else {
        assert again == [empty];
      }
    }
  }

  /** Running `main` on its own output with the same query and options writes the
      same text again. */
  lemma ScrapedIdempotent(targetText: string, queryText: string, skipN: nat, noHeader: bool)
    ensures var once := Scraped(targetText, queryText, skipN, noHeader);
      Scraped(once, queryText, skipN, noHeader) == once
  {
    JoinedFilterIdempotent(TargetLines(targetText), QueryKeys(queryText, noHeader), skipN);
  }

  /** The body of `main`, from the decoded texts to the text it writes. */
  method Run(targetText: string, queryText: string, skipN: nat, noHeader: bool) returns (output: string)
    ensures output == Scraped(targetText, queryText, skipN, noHeader)
  {
    var target := TargetLines(targetText);
    var keys := QueryKeys(queryText, noHeader);
    var buf := Filter(target, keys, skipN);
    output := Join(buf, NewLine);
  }
}
