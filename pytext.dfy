/** The three Python string primitives the converter is built from, with
    Python's exact semantics: `str.count` of one character, `str.split(sep)`
    with a one-character separator, and `str.strip(ch)` with one character.
    `Join` (`sep.join(parts)`) is not called by the converter; it is the
    inverse that `Split` is proved against. */
module PyText {

  /** Number of occurrences of `c` in `s` (Python `s.count(c)`). */
  function Count(s: string, c: char): (n: nat)
    ensures n <= |s|
  {
    if s == [] then 0
    else (if s[0] == c then 1 else 0) + Count(s[1..], c)
  }

  /** No occurrence is counted exactly when there is none. */
  lemma {:induction false} CountZero(s: string, c: char)
    ensures Count(s, c) == 0 <==> c !in s
  {
    if s != [] {
      CountZero(s[1..], c);
      assert s == [s[0]] + s[1..];
    }
  }

  lemma {:induction false} CountConcat(a: string, b: string, c: char)
    ensures Count(a + b, c) == Count(a, c) + Count(b, c)
  {
    if a == [] {
      assert a + b == b;
    } else {
      assert (a + b)[1..] == a[1..] + b;
      CountConcat(a[1..], b, c);
    }
  }

  /** Python `s.split(sep)` for a one-character separator: the pieces of `s`
      between the separators, empty pieces kept, so `"".split(sep) == [""]`.
      There is always one piece more than there are separators. */
  function Split(s: string, sep: char): (pieces: seq<string>)
    ensures |pieces| == Count(s, sep) + 1
    decreases |s|
  {
    if s == [] then [""]
    else
      var rest := Split(s[1..], sep);
      if s[0] == sep then [""] + rest
      else [[s[0]] + rest[0]] + rest[1..]
  }

  /** No piece of a split holds the separator. */
  lemma {:induction false} SplitPiecesFree(s: string, sep: char)
    ensures forall i :: 0 <= i < |Split(s, sep)| ==> sep !in Split(s, sep)[i]
  {
    if s != [] {
      SplitPiecesFree(s[1..], sep);
      var rest := Split(s[1..], sep);
      if s[0] != sep {
        assert sep !in rest[0];
        assert sep !in [s[0]] + rest[0];
      }
    }
  }

  /** Every character of a piece of a split is a character of the text. */
  lemma {:induction false} SplitChars(s: string, sep: char, i: nat, x: char)
    requires i < |Split(s, sep)| && x in Split(s, sep)[i]
    ensures x in s
  {
    if s != [] {
      var rest := Split(s[1..], sep);
      if s[0] == sep {
        SplitChars(s[1..], sep, i - 1, x);
      } else if i > 0 {
        SplitChars(s[1..], sep, i, x);
      } else if x != s[0] {
        SplitChars(s[1..], sep, 0, x);
      }
      assert x in s[1..] ==> x in s;
    }
  }

  /** Python `sep.join(parts)` for a one-character separator. */
  function Join(parts: seq<string>, sep: char): string
  {
    if |parts| == 0 then ""
    else if |parts| == 1 then parts[0]
    else parts[0] + [sep] + Join(parts[1..], sep)
  }

  /** Joining the pieces of a split gives back the text that was split. */
  lemma {:induction false} JoinSplit(s: string, sep: char)
    ensures Join(Split(s, sep), sep) == s
  {
    if s != [] {
      var rest := Split(s[1..], sep);
      var pieces := Split(s, sep);
      JoinSplit(s[1..], sep);
      assert s == [s[0]] + s[1..];
      assert |rest| >= 1;
      if s[0] == sep {
        assert pieces[0] == "" && pieces[1..] == rest;
      } else if |rest| == 1 {
        assert pieces == [[s[0]] + rest[0]];
      } else {
        assert pieces[0] == [s[0]] + rest[0] && pieces[1..] == rest[1..];
        calc {
          Join(pieces, sep);
          pieces[0] + [sep] + Join(pieces[1..], sep);
          [s[0]] + (rest[0] + [sep] + Join(rest[1..], sep));
          [s[0]] + Join(rest, sep);
        }
      }
    }
  }

  /** A text without the separator splits into itself alone. */
  lemma {:induction false} SplitWithoutSep(s: string, sep: char)
    requires sep !in s
    ensures Split(s, sep) == [s]
  {
    if s != [] {
      SplitWithoutSep(s[1..], sep);
      assert s == [s[0]] + s[1..];
    }
  }

  /** Splitting stops at the first separator: whatever precedes it is the
      first piece, and the rest is split on its own. */
  lemma {:induction false} SplitAtFirstSep(a: string, sep: char, b: string)
    requires sep !in a
    ensures Split(a + [sep] + b, sep) == [a] + Split(b, sep)
  {
    var s := a + [sep] + b;
    if a == [] {
      assert s[1..] == b;
    } else {
      assert s[0] == a[0] && s[1..] == a[1..] + [sep] + b;
      SplitAtFirstSep(a[1..], sep, b);
      var rest := Split(s[1..], sep);
      assert rest[0] == a[1..] && rest[1..] == Split(b, sep);
      assert Split(s, sep) == [[a[0]] + rest[0]] + rest[1..];
      assert a == [a[0]] + a[1..];
    }
  }

  /** The converse of `JoinSplit`: pieces free of the separator are recovered
      by splitting their join. */
  lemma {:induction false} SplitJoin(parts: seq<string>, sep: char)
    requires |parts| > 0
    requires forall i :: 0 <= i < |parts| ==> sep !in parts[i]
    ensures Split(Join(parts, sep), sep) == parts
  {
    if |parts| == 1 {
      SplitWithoutSep(parts[0], sep);
    } else {
      SplitJoin(parts[1..], sep);
      SplitAtFirstSep(parts[0], sep, Join(parts[1..], sep));
      assert parts == [parts[0]] + parts[1..];
    }
  }

  /** The first piece of a split is the prefix of the text up to (not
      including) the first separator, or the whole text if there is none. */
  lemma {:induction false} SplitHead(s: string, sep: char)
    ensures Split(s, sep)[0] <= s
    ensures sep !in Split(s, sep)[0]
    ensures |Split(s, sep)[0]| == |s| || s[|Split(s, sep)[0]|] == sep
  {
    if s != [] && s[0] != sep {
      SplitHead(s[1..], sep);
    }
  }

  /** Python `s.lstrip(c)`: every leading `c` removed. */
  function LStrip(s: string, c: char): string
  {
    if s != [] && s[0] == c then LStrip(s[1..], c) else s
  }

  /** Python `s.rstrip(c)`: every trailing `c` removed. */
  function RStrip(s: string, c: char): string
  {
    if s != [] && s[|s| - 1] == c then RStrip(s[..|s| - 1], c) else s
  }

  /** `LStrip` gives a suffix of `s`, only `c`s were cut, and the result does
      not start with `c`. */
  lemma {:induction false} LStripShape(s: string, c: char)
    ensures |LStrip(s, c)| <= |s| && LStrip(s, c) == s[|s| - |LStrip(s, c)|..]
    ensures forall k :: 0 <= k < |s| - |LStrip(s, c)| ==> s[k] == c
    ensures LStrip(s, c) == [] || LStrip(s, c)[0] != c
  {
    if s != [] && s[0] == c {
      LStripShape(s[1..], c);
      assert s[1..][|s| - 1 - |LStrip(s, c)|..] == s[|s| - |LStrip(s, c)|..];
    }
  }

  /** `RStrip` gives a prefix of `s`, only `c`s were cut, and the result does
      not end with `c`. */
  lemma {:induction false} RStripShape(s: string, c: char)
    ensures |RStrip(s, c)| <= |s| && RStrip(s, c) == s[..|RStrip(s, c)|]
    ensures forall k :: |RStrip(s, c)| <= k < |s| ==> s[k] == c
    ensures RStrip(s, c) == [] || RStrip(s, c)[|RStrip(s, c)| - 1] != c
  {
    if s != [] && s[|s| - 1] == c {
      RStripShape(s[..|s| - 1], c);
      assert s[..|s| - 1][..|RStrip(s, c)|] == s[..|RStrip(s, c)|];
    }
  }

  /** Python `s.strip(c)`: every leading and every trailing `c` removed (not
      just one of each). The result is no longer than `s` and neither starts
      nor ends with `c`; `StripTrims` says what was removed. */
  function Strip(s: string, c: char): (r: string)
    ensures |r| <= |s|
    ensures r == [] || (r[0] != c && r[|r| - 1] != c)
  {
    LStripShape(s, c);
    RStripShape(LStrip(s, c), c);
    RStrip(LStrip(s, c), c)
  }

  /** The result of `Strip` is a contiguous piece `s[i..j]` of `s` with only
      `c`s outside it. */
  lemma StripTrims(s: string, c: char) returns (i: nat, j: nat)
    ensures i <= j <= |s| && Strip(s, c) == s[i..j]
    ensures forall k :: 0 <= k < i ==> s[k] == c
    ensures forall k :: j <= k < |s| ==> s[k] == c
  {
    var left := LStrip(s, c);
    var r := RStrip(left, c);
    LStripShape(s, c);
    RStripShape(left, c);
    i, j := |s| - |left|, |s| - |left| + |r|;
    assert r == s[i..j] by {
      assert left == s[i..] && r == left[..|r|];
    }
    forall k | j <= k < |s| ensures s[k] == c {
      assert s[k] == left[k - i];
    }
  }

  /** Every character of a stripped text is a character of the text. */
  lemma StripChars(s: string, c: char)
    ensures forall x :: x in Strip(s, c) ==> x in s
  {
    var i, j := StripTrims(s, c);
    forall x | x in Strip(s, c) ensures x in s {
      var k :| 0 <= k < |Strip(s, c)| && Strip(s, c)[k] == x;
      assert s[i + k] == x;
    }
  }

  /** Cutting the leading `c`s of `s` up to the first other character. */
  lemma {:induction false} LStripUpTo(s: string, c: char, i: nat)
    requires i <= |s|
    requires forall k :: 0 <= k < i ==> s[k] == c
    requires i == |s| || s[i] != c
    ensures LStrip(s, c) == s[i..]
  {
    if i > 0 {
      LStripUpTo(s[1..], c, i - 1);
      assert s[1..][i - 1..] == s[i..];
    }
  }

  /** Cutting the trailing `c`s of `s` back to the last other character. */
  lemma {:induction false} RStripDownTo(s: string, c: char, j: nat)
    requires j <= |s|
    requires forall k :: j <= k < |s| ==> s[k] == c
    requires j == 0 || s[j - 1] != c
    ensures RStrip(s, c) == s[..j]
  {
    if j < |s| {
      RStripDownTo(s[..|s| - 1], c, j);
      assert s[..|s| - 1][..j] == s[..j];
    }
  }

  lemma SliceOfSuffix(s: string, i: nat, j: nat)
    requires i <= j <= |s|
    ensures s[i..][..j - i] == s[i..j]
  {
  }

  /** A text made only of `c`s strips to the empty text. */
  lemma StripAllOf(s: string, c: char)
    requires forall k :: 0 <= k < |s| ==> s[k] == c
    ensures Strip(s, c) == []
  {
    LStripUpTo(s, c, |s|);
  }

  /** Strip is exactly the trimming its contract describes: any piece of `s`
      with only `c`s cut from its two ends and no `c` left at either end is
      `Strip(s, c)`. */
  lemma StripUnique(s: string, c: char, i: nat, j: nat)
    requires i <= j <= |s|
    requires forall k :: 0 <= k < i ==> s[k] == c
    requires forall k :: j <= k < |s| ==> s[k] == c
    requires i == j || (s[i] != c && s[j - 1] != c)
    ensures Strip(s, c) == s[i..j]
  {
    if i == j {
      StripAllOf(s, c);
    } else {
      StripNonEmpty(s, c, i, j);
    }
  }

  lemma StripNonEmpty(s: string, c: char, i: nat, j: nat)
    requires i < j <= |s|
    requires forall k :: 0 <= k < i ==> s[k] == c
    requires forall k :: j <= k < |s| ==> s[k] == c
    requires s[i] != c && s[j - 1] != c
    ensures Strip(s, c) == s[i..j]
  {
    LStripUpTo(s, c, i);
    var tail := s[i..];
    forall k | j - i <= k < |tail| ensures tail[k] == c {
      assert tail[k] == s[k + i];
    }
    RStripDownTo(tail, c, j - i);
    SliceOfSuffix(s, i, j);
  }

  /** A text that neither starts nor ends with `c` is left as it is. */
  lemma StripUnchanged(s: string, c: char)
    requires s == [] || (s[0] != c && s[|s| - 1] != c)
    ensures Strip(s, c) == s
  {
    StripUnique(s, c, 0, |s|);
  }

  /** Stripping twice is stripping once. */
  lemma StripIdempotent(s: string, c: char)
    ensures Strip(Strip(s, c), c) == Strip(s, c)
  {
    StripUnchanged(Strip(s, c), c);
  }

  /** A text made only of `c`s strips to the empty text, and only such a
      text does. */
  lemma StripToEmpty(s: string, c: char)
    ensures Strip(s, c) == [] <==> forall k :: 0 <= k < |s| ==> s[k] == c
  {
    var i, j := StripTrims(s, c);
    if forall k :: 0 <= k < |s| ==> s[k] == c {
      StripAllOf(s, c);
    }
  }

  /** One pair of `c`s around a text that has no `c` at its ends is removed
      and the inner text is kept. */
  lemma StripOnePair(inner: string, c: char)
    requires inner == [] || (inner[0] != c && inner[|inner| - 1] != c)
    ensures Strip([c] + inner + [c], c) == inner
  {
    var s := [c] + inner + [c];
    assert s[1..|inner| + 1] == inner;
    StripUnique(s, c, 1, |inner| + 1);
  }
}
