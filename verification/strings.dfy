/**
 The string operations behind the exam preview title: JavaScript's `startsWith` and
 `split` with a one-character argument, and the first piece of a split.
 Strings are sequences of characters; no case folding or normalisation.
 */
module Strings {

  /** `s` begins with the character `c`, as `s.startsWith(c)` for a one-character `c`. */
  predicate StartsWith(s: string, c: char) {
    |s| > 0 && s[0] == c
  }

  /** The pieces of `s` between occurrences of `sep`, as `s.split(sep)` returns them:
      there is always at least one piece, and `""` splits into `[""]`. */
  function Split(s: string, sep: char): (pieces: seq<string>)
    ensures |pieces| >= 1
    ensures forall i :: 0 <= i < |pieces| ==> sep !in pieces[i]
    decreases |s|
  {
    if |s| == 0 then [""]
    else
      var rest := Split(s[1..], sep);
      if s[0] == sep then [""] + rest
      else [[s[0]] + rest[0]] + rest[1..]
  }

  /** The pieces glued back together with `sep` between neighbours (`pieces.join(sep)`). */
  function Join(pieces: seq<string>, sep: char): string
  {
    if |pieces| == 0 then ""
    else if |pieces| == 1 then pieces[0]
    else pieces[0] + [sep] + Join(pieces[1..], sep)
  }

  /** The text of `s` before the first `sep`, or all of `s` when there is none. */
  function PrefixBefore(s: string, sep: char): (p: string)
    ensures p <= s
    ensures sep !in p
    ensures |p| < |s| ==> s[|p|] == sep
    ensures sep !in s ==> p == s
  {
    if |s| == 0 || s[0] == sep then "" else [s[0]] + PrefixBefore(s[1..], sep)
  }

  /** Splitting loses nothing: joining the pieces gives back the original string. */
  lemma {:induction false} JoinSplit(s: string, sep: char)
    ensures Join(Split(s, sep), sep) == s
    decreases |s|
  {
    if |s| > 0 {
      var rest := Split(s[1..], sep);
      JoinSplit(s[1..], sep);
      if s[0] == sep {
        assert Split(s, sep) == [""] + rest;
        assert (([""] + rest)[1..]) == rest;
      } else {
        var pieces := [[s[0]] + rest[0]] + rest[1..];
        assert Split(s, sep) == pieces;
        if |rest| > 1 {
          assert pieces[1..] == rest[1..];
          assert Join(rest, sep) == rest[0] + [sep] + Join(rest[1..], sep);
          assert s == [s[0]] + s[1..];
        } else {
          assert s == [s[0]] + s[1..];
        }
      }
    }
  }

  /** The first piece of a split is the text before the first separator. */
  lemma {:induction false} SplitHead(s: string, sep: char)
    ensures Split(s, sep)[0] == PrefixBefore(s, sep)
    decreases |s|
  {
    if |s| > 0 && s[0] != sep {
      SplitHead(s[1..], sep);
    }
  }

  /** `PrefixBefore` is the only string that is a prefix of `s`, avoids `sep`, and stops
      at the first `sep` or at the end of `s`. */
  lemma {:induction false} PrefixBeforeUnique(s: string, sep: char, p: string)
    requires p <= s && sep !in p
    requires |p| < |s| ==> s[|p|] == sep
    ensures p == PrefixBefore(s, sep)
    decreases |s|
  {
    if |s| > 0 && s[0] != sep {
      assert |p| > 0;
      assert p[0] == s[0];
      PrefixBeforeUnique(s[1..], sep, p[1..]);
      assert p == [p[0]] + p[1..];
    }
  }

  /** A string without `sep` is a single piece. */
  lemma {:induction false} SplitWithoutSeparator(s: string, sep: char)
    requires sep !in s
    ensures Split(s, sep) == [s]
    decreases |s|
  {
    if |s| > 0 {
      SplitWithoutSeparator(s[1..], sep);
      assert [s[0]] + s[1..] == s;
    }
  }

  /** Splitting at a separator placed between `a` and `b` splits `a` and `b` apart. */
  lemma {:induction false} SplitConcat(a: string, sep: char, b: string)
    ensures Split(a + [sep] + b, sep) == Split(a, sep) + Split(b, sep)
    decreases |a|
  {
    var s := a + [sep] + b;
    if |a| == 0 {
      assert s[1..] == b;
    } else {
      assert s[0] == a[0];
      assert s[1..] == a[1..] + [sep] + b;
      SplitConcat(a[1..], sep, b);
    }
  }

  /** Two separator-free pieces joined by one separator split back into the two pieces. */
  lemma SplitTwoPieces(a: string, sep: char, b: string)
    requires sep !in a && sep !in b
    ensures Split(a + [sep] + b, sep) == [a, b]
  {
    SplitConcat(a, sep, b);
    SplitWithoutSeparator(a, sep);
    SplitWithoutSeparator(b, sep);
  }

  /** Three separator-free pieces joined by single separators split back into the three pieces. */
  lemma SplitThreePieces(a: string, sep: char, b: string, c: string)
    requires sep !in a && sep !in b && sep !in c
    ensures Split(a + [sep] + (b + [sep] + c), sep) == [a, b, c]
  {
    SplitTwoPieces(b, sep, c);
    SplitConcat(a, sep, b + [sep] + c);
    SplitWithoutSeparator(a, sep);
  }
}
