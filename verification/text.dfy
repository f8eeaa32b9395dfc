/** The Python string operations the pipeline relies on: character classes,
    `str.startswith`-style prefix checks, `str.split(sep)`, `sep.join(parts)`,
    `str.strip()` and `str.replace(old, new)`. Strings are sequences of characters. */
module Text {

  /** Python's `str.isspace()`, which is also what `\s` matches in a `str` pattern. */
  predicate IsSpace(c: char) {
    var n := c as int;
    (0x09 <= n <= 0x0D) || (0x1C <= n <= 0x20) || n == 0x85 || n == 0xA0 || n == 0x1680
    || (0x2000 <= n <= 0x200A) || n == 0x2028 || n == 0x2029 || n == 0x202F || n == 0x205F
    || n == 0x3000
  }

  /** The six ASCII whitespace characters are whitespace; letters, digits and `_`
      are not. */
  lemma SpaceChars()
    ensures IsSpace(' ') && IsSpace('\t') && IsSpace('\n') && IsSpace('\r')
    ensures IsSpace(0x0B as char) && IsSpace(0x0C as char)
    ensures forall c :: IsWordChar(c) ==> !IsSpace(c)
  {
  }

  /** `\d`, restricted to the ASCII digits. */
  predicate IsDigit(c: char) {
    '0' <= c <= '9'
  }

  /** `\w`, restricted to the ASCII letters, digits and underscore. */
  predicate IsWordChar(c: char) {
    ('a' <= c <= 'z') || ('A' <= c <= 'Z') || IsDigit(c) || c == '_'
  }

  function LowerChar(c: char): char {
    if 'A' <= c <= 'Z' then (c as int + 32) as char else c
  }

  function UpperChar(c: char): char {
    if 'a' <= c <= 'z' then (c as int - 32) as char else c
  }

  /** `str.lower()` on ASCII text: no capital letter is left, and the result matches
      the input character by character once case is ignored. Together these fix the
      result: a capital becomes its small letter and everything else stays. */
  function Lower(s: string): (r: string)
    ensures |r| == |s|
    ensures forall i :: 0 <= i < |r| ==> !('A' <= r[i] <= 'Z')
    ensures forall i :: 0 <= i < |s| ==> UpperChar(r[i]) == UpperChar(s[i])
  {
    seq(|s|, i requires 0 <= i < |s| => LowerChar(s[i]))
  }

  /** `str.upper()` on ASCII text: no small letter is left, and the result matches
      the input character by character once case is ignored. */
  function Upper(s: string): (r: string)
    ensures |r| == |s|
    ensures forall i :: 0 <= i < |r| ==> !('a' <= r[i] <= 'z')
    ensures forall i :: 0 <= i < |s| ==> LowerChar(r[i]) == LowerChar(s[i])
  {
    seq(|s|, i requires 0 <= i < |s| => UpperChar(s[i]))
  }

  /** The contract of `Lower` determines each character. */
  lemma LowerAt(s: string, i: nat)
    requires i < |s|
    ensures Lower(s)[i] == LowerChar(s[i])
  {
  }

  /** The contract of `Upper` determines each character. */
  lemma UpperAt(s: string, i: nat)
    requires i < |s|
    ensures Upper(s)[i] == UpperChar(s[i])
  {
  }

  /** Lower-casing forgets any earlier upper-casing. */
  lemma LowerOfUpper(s: string)
    ensures Lower(Upper(s)) == Lower(s)
  {
    forall i | 0 <= i < |s| ensures Lower(Upper(s))[i] == Lower(s)[i] {
      LowerAt(Upper(s), i);
      LowerAt(s, i);
    }
  }

  /** Upper-casing forgets any earlier lower-casing. */
  lemma UpperOfLower(s: string)
    ensures Upper(Lower(s)) == Upper(s)
  {
    forall i | 0 <= i < |s| ensures Upper(Lower(s))[i] == Upper(s)[i] {
      UpperAt(Lower(s), i);
      UpperAt(s, i);
    }
  }

  /** `s[0:len(prefix)] == prefix`: slicing past the end is allowed in Python, so a
      shorter `s` simply does not start with `prefix`. */
  predicate StartsWith(s: string, prefix: string) {
    |prefix| <= |s| && s[..|prefix|] == prefix
  }

  /** The prefix test compares character by character. */
  lemma StartsWithChars(s: string, prefix: string)
    ensures StartsWith(s, prefix) <==>
      |prefix| <= |s| && forall i :: 0 <= i < |prefix| ==> s[i] == prefix[i]
  {
    if |prefix| <= |s| && forall i :: 0 <= i < |prefix| ==> s[i] == prefix[i] {
      assert s[..|prefix|] == prefix;
    }
  }

  /** `x in s` for strings: `x` occurs somewhere in `s` as a contiguous piece. */
  predicate IsInfix(x: string, s: string)
    decreases |s|
  {
    StartsWith(s, x) || (|s| > 0 && IsInfix(x, s[1..]))
  }

  lemma {:induction false} SliceIsInfix(s: string, a: nat, b: nat)
    requires a <= b <= |s|
    ensures IsInfix(s[a..b], s)
    decreases a
  {
    if a == 0 {
      assert s[..b - a] == s[a..b];
    } else {
      assert s[1..][a - 1..b - 1] == s[a..b];
      SliceIsInfix(s[1..], a - 1, b - 1);
    }
  }

  lemma {:induction false} InfixTransitive(x: string, y: string, z: string)
    requires IsInfix(x, y) && IsInfix(y, z)
    ensures IsInfix(x, z)
    decreases |z|, |y|
  {
    if StartsWith(z, y) {
      if StartsWith(y, x) {
        assert z[..|x|] == y[..|x|];
      } else {
        assert y[1..] == z[1..|y|];
        assert IsInfix(y[1..], z[1..]) by { SliceIsInfix(z[1..], 0, |y| - 1); }
        InfixTransitive(x, y[1..], z[1..]);
      }
    } else {
      InfixTransitive(x, y, z[1..]);
    }
  }

  // ---------------------------------------------------------------------------
  // str.split(sep) and sep.join(parts) for a one-character separator

  /** `s.split(sep)`: the pieces between consecutive separators, always at least one. */
  function Split(s: string, sep: char): (parts: seq<string>)
    ensures |parts| >= 1
    ensures forall k :: 0 <= k < |parts| ==> sep !in parts[k]
    decreases |s|
  {
    if |s| == 0 then [""]
    else
      var rest := Split(s[1..], sep);
      if s[0] == sep then [""] + rest
      else [[s[0]] + rest[0]] + rest[1..]
  }

  /** `sep.join(parts)`: the text starts with the first piece, and a separator
      follows it exactly when there is a second piece. */
  function Join(parts: seq<string>, sep: char): (r: string)
    ensures |parts| == 0 ==> r == ""
    ensures |parts| > 0 ==> StartsWith(r, parts[0])
    ensures |parts| > 0 ==> (|parts| >= 2 <==> |r| > |parts[0]| && r[|parts[0]|] == sep)
    decreases |parts|
  {
    if |parts| == 0 then ""
    else if |parts| == 1 then parts[0]
    else
      var r := parts[0] + [sep] + Join(parts[1..], sep);
      assert r[..|parts[0]|] == parts[0];
      r
  }

  /** Splitting and joining on the same separator gives back the original text. */
  lemma {:induction false} JoinSplit(s: string, sep: char)
    ensures Join(Split(s, sep), sep) == s
    decreases |s|
  {
    if |s| > 0 {
      var rest := Split(s[1..], sep);
      JoinSplit(s[1..], sep);
      if s[0] == sep {
        assert Split(s, sep) == [""] + rest;
        assert ([""] + rest)[1..] == rest;
      } else {
        var parts := Split(s, sep);
        assert parts == [[s[0]] + rest[0]] + rest[1..];
        if |rest| == 1 {
          assert Join(parts, sep) == [s[0]] + rest[0];
        } else {
          assert parts[1..] == rest[1..];
          assert Join(parts, sep) == [s[0]] + rest[0] + [sep] + Join(rest[1..], sep);
        }
      }
    }
  }

  /** Joining separator-free pieces and splitting again gives back the pieces. */
  lemma {:induction false} SplitJoin(parts: seq<string>, sep: char)
    requires |parts| >= 1
    requires forall k :: 0 <= k < |parts| ==> sep !in parts[k]
    ensures Split(Join(parts, sep), sep) == parts
    decreases |parts|, |parts[0]|
  {
    if |parts[0]| == 0 {
      if |parts| > 1 {
        SplitJoin(parts[1..], sep);
        assert Join(parts, sep) == [sep] + Join(parts[1..], sep);
        assert ([sep] + Join(parts[1..], sep))[1..] == Join(parts[1..], sep);
        assert [""] + parts[1..] == parts;
      }
    } else {
      var p0 := parts[0];
      var shorter := [p0[1..]] + parts[1..];
      assert p0 == [p0[0]] + p0[1..];
      assert sep !in p0[1..];
      assert Join(shorter, sep) == Join(parts, sep)[1..] by {
        if |parts| > 1 {
          assert shorter[1..] == parts[1..];
        }
      }
      SplitJoin(shorter, sep);
    }
  }

  /** Text without the separator is one piece; the separator makes at least two. */
  lemma {:induction false} SplitCount(s: string, sep: char)
    ensures sep !in s <==> Split(s, sep) == [s]
    ensures sep in s <==> |Split(s, sep)| >= 2
    decreases |s|
  {
    if |s| > 0 {
      SplitCount(s[1..], sep);
      assert s == [s[0]] + s[1..];
    }
  }

  /** The first piece is the text before the first separator, and the remaining pieces,
      joined again, are the text after it. */
  lemma SplitFirst(s: string, sep: char)
    requires sep in s
    ensures var parts := Split(s, sep);
      s == parts[0] + [sep] + Join(parts[1..], sep)
  {
    var parts := Split(s, sep);
    SplitCount(s, sep);
    JoinSplit(s, sep);
  }

  /** Joining pieces that avoid a character `c` with a separator other than `c`
      gives text that avoids `c`. */
  lemma {:induction false} JoinAvoids(parts: seq<string>, sep: char, c: char)
    requires sep != c
    requires forall k :: 0 <= k < |parts| ==> c !in parts[k]
    ensures c !in Join(parts, sep)
    decreases |parts|
  {
    if |parts| > 1 {
      JoinAvoids(parts[1..], sep, c);
    }
  }

  /** Every piece of a split occurs in the original text. */
  lemma {:induction false} SplitPartsAreInfixes(s: string, sep: char)
    ensures forall k :: 0 <= k < |Split(s, sep)| ==> IsInfix(Split(s, sep)[k], s)
    decreases |s|
  {
    var parts := Split(s, sep);
    if |s| > 0 {
      var rest := Split(s[1..], sep);
      SplitPartsAreInfixes(s[1..], sep);
      forall k | 0 <= k < |parts|
        ensures IsInfix(parts[k], s)
      {
        if s[0] == sep {
          if k > 0 {
            assert parts[k] == rest[k - 1];
            InfixTransitive(parts[k], s[1..], s);
          }
        } else if k == 0 {
          JoinSplit(s[1..], sep);
          if |rest| > 1 {
            assert s[1..] == rest[0] + [sep] + Join(rest[1..], sep);
            assert parts[0] == s[..|rest[0]| + 1];
          } else {
            assert parts[0] == s[..];
          }
          SliceIsInfix(s, 0, |parts[0]|);
        } else {
          assert parts[k] == rest[k];
          InfixTransitive(parts[k], s[1..], s);
        }
      }
    }
  }

  // ---------------------------------------------------------------------------
  // str.strip()

  /** How many whitespace characters `s` starts with. */
  function LeadingSpaces(s: string): (n: nat)
    ensures n <= |s|
    ensures forall i :: 0 <= i < n ==> IsSpace(s[i])
    ensures n == |s| || !IsSpace(s[n])
    decreases |s|
  {
    if |s| > 0 && IsSpace(s[0]) then 1 + LeadingSpaces(s[1..]) else 0
  }

  /** How many whitespace characters `s` ends with. */
  function TrailingSpaces(s: string): (n: nat)
    ensures n <= |s|
    ensures forall i :: |s| - n <= i < |s| ==> IsSpace(s[i])
    ensures n == |s| || !IsSpace(s[|s| - n - 1])
    decreases |s|
  {
    if |s| > 0 && IsSpace(s[|s| - 1]) then 1 + TrailingSpaces(s[..|s| - 1]) else 0
  }

  /** `s.strip()`: `s` without its leading and trailing whitespace. The result is the
      piece of `s` that starts after the leading whitespace, everything after it is
      whitespace, and it neither starts nor ends with whitespace. */
  function Strip(s: string): (r: string)
    ensures |r| == 0 || (!IsSpace(r[0]) && !IsSpace(r[|r| - 1]))
    ensures LeadingSpaces(s) + |r| <= |s|
    ensures r == s[LeadingSpaces(s)..LeadingSpaces(s) + |r|]
    ensures forall i :: LeadingSpaces(s) + |r| <= i < |s| ==> IsSpace(s[i])
  {
    var t := s[LeadingSpaces(s)..];
    t[..|t| - TrailingSpaces(t)]
  }

  /** Stripping twice is stripping once. */
  lemma StripIdempotent(s: string)
    ensures Strip(Strip(s)) == Strip(s)
  {
    var r := Strip(s);
    assert LeadingSpaces(r) == 0;
    assert r[0..] == r;
  }

  /** Text that neither starts nor ends with whitespace is left alone by `strip`. */
  lemma StripTrimmed(s: string)
    requires |s| == 0 || (!IsSpace(s[0]) && !IsSpace(s[|s| - 1]))
    ensures Strip(s) == s
  {
    assert LeadingSpaces(s) == 0;
    assert s[0..] == s;
  }

  // ---------------------------------------------------------------------------
  // str.replace(old, new)

  /** `s.replace(target, repl)`: every leftmost, non-overlapping occurrence of `target`
      is replaced by `repl`, scanning from the left. An empty `target` inserts `repl`
      before every character and at the end, as Python does. */
  function Replace(s: string, target: string, repl: string): (r: string)
    ensures 0 < |target| && |repl| <= |target| ==> |r| <= |s|
    ensures 0 < |target| && !IsInfix(target, s) ==> r == s
    ensures 0 < |target| ==> forall c :: c in r ==> c in s || c in repl
    decreases |s|
  {
    if |s| == 0 then (if |target| == 0 then repl else "")
    else if |target| == 0 then repl + [s[0]] + Replace(s[1..], target, repl)
    else if StartsWith(s, target) then repl + Replace(s[|target|..], target, repl)
    else [s[0]] + Replace(s[1..], target, repl)
  }

  /** Replacing a piece by itself changes nothing. */
  lemma {:induction false} ReplaceSelf(s: string, target: string)
    requires |target| > 0
    ensures Replace(s, target, target) == s
    decreases |s|
  {
    if |s| > 0 {
      if StartsWith(s, target) {
        ReplaceSelf(s[|target|..], target);
        assert s == s[..|target|] + s[|target|..];
      } else {
        ReplaceSelf(s[1..], target);
        assert s == [s[0]] + s[1..];
      }
    }
  }
}
