/** The few pieces of Python's `str` behaviour the two scripts rely on:
    `startswith`, `sep.join`, `split(sep)`, `split()`, `strip()`,
    `splitlines()[0]`, `int()` and `'%d'`, and `<` on strings. */
module Strings {
  import opened Wrappers

  predicate StartsWith(s: string, prefix: string) {
    |prefix| <= |s| && s[..|prefix|] == prefix
  }

  predicate EndsWith(s: string, suffix: string) {
    |suffix| <= |s| && s[|s| - |suffix|..] == suffix
  }

  /** Text that differs from `prefix` at some position does not start with it. */
  lemma DiffersAt(s: string, prefix: string, k: nat)
    requires k < |s| && k < |prefix| && s[k] != prefix[k]
    ensures !StartsWith(s, prefix)
  {
    if |prefix| <= |s| {
      assert s[..|prefix|][k] == s[k];
    }
  }

  /** Text that differs from `suffix` at some position from the end does not
      end with it. */
  lemma DiffersFromEnd(s: string, suffix: string, k: nat)
    requires k < |s| && k < |suffix| && s[|s| - 1 - k] != suffix[|suffix| - 1 - k]
    ensures !EndsWith(s, suffix)
  {
    if |suffix| <= |s| {
      assert s[|s| - |suffix|..][|suffix| - 1 - k] == s[|s| - 1 - k];
    }
  }

  /** A text that starts with `a + b` does not start with `a + c` when `b`
      and `c` start with different characters. */
  lemma PrefixesDiffer(s: string, a: string, b: string, c: string)
    requires StartsWith(s, a + b) && |b| > 0 && |c| > 0 && b[0] != c[0]
    ensures !StartsWith(s, a + c)
  {
    var k := |a|;
    assert s[k] == b[0] by {
      assert s[..|a + b|] == a + b;
      assert (a + b)[k] == b[0];
    }
    assert (a + c)[k] == c[0];
    DiffersAt(s, a + c, k);
  }

  /** A text that ends with `d + e` does not end with `c + e` when `c` and
      `d` end in different characters. */
  lemma SuffixesDiffer(s: string, c: string, d: string, e: string)
    requires EndsWith(s, d + e) && |c| > 0 && |d| > 0 && c[|c| - 1] != d[|d| - 1]
    ensures !EndsWith(s, c + e)
  {
    var k := |e|;
    assert s[|s| - 1 - k] == d[|d| - 1] by {
      assert s[|s| - |d + e|..] == d + e;
      assert (d + e)[|d| - 1] == d[|d| - 1];
    }
    assert (c + e)[|c + e| - 1 - k] == c[|c| - 1];
    DiffersFromEnd(s, c + e, k);
  }

  /** A prefix of a prefix is a prefix. */
  lemma StartsWithTrans(s: string, t: string, u: string)
    requires StartsWith(s, t) && StartsWith(t, u)
    ensures StartsWith(s, u)
  {
    assert s[..|u|] == s[..|t|][..|u|];
  }

  /** Text that starts with `p` still does once more is appended. */
  lemma StartsWithAppend(a: string, b: string, p: string)
    requires StartsWith(a, p)
    ensures StartsWith(a + b, p)
  {
    assert (a + b)[..|p|] == a[..|p|];
  }

  /** Text ends with whatever was appended last. */
  lemma EndsWithAppend(a: string, b: string)
    ensures EndsWith(a + b, b)
  {
    assert (a + b)[|a|..] == b;
  }

  /** A text built from three pieces ends with the last two. */
  lemma EndsWithLastTwo(x: string, y: string, z: string)
    ensures EndsWith(x + y + z, y + z)
  {
    assert x + y + z == x + (y + z);
  }

  /** A text built from four pieces ends with the last three. */
  lemma EndsWithLastThree(w: string, x: string, y: string, z: string)
    ensures EndsWith(w + x + y + z, x + y + z)
  {
    assert w + x + y + z == w + (x + y + z);
    EndsWithAppend(w, x + y + z);
  }

  /** Ending with `b`, which ends with `c`, is ending with `c`. */
  lemma EndsWithTrans(a: string, b: string, c: string)
    requires EndsWith(a, b) && EndsWith(b, c)
    ensures EndsWith(a, c)
  {
    assert a[|a| - |c|..] == b[|b| - |c|..];
  }

  /** Appending the same text to both sides keeps a suffix a suffix. */
  lemma EndsWithExtend(a: string, t: string, c: string)
    requires EndsWith(a, t)
    ensures EndsWith(a + c, t + c)
  {
    assert (a + c)[|a + c| - |t + c|..] == a[|a| - |t|..] + c;
  }

  /** Python's `sub in s` on strings: `sub` occurs somewhere in `s`. */
  predicate IsInfix(sub: string, s: string)
    decreases |s|
  {
    StartsWith(s, sub) || (|s| > 0 && IsInfix(sub, s[1..]))
  }

  // ---------------------------------------------------------------------
  // Slices and concatenation
  // ---------------------------------------------------------------------

  /** A slice of a suffix is a slice of the whole string. */
  lemma SliceOfSuffix(s: string, a: nat, i: nat, k: nat)
    requires a <= |s| && i <= k <= |s| - a
    ensures s[a..][i..k] == s[a + i..a + k]
    ensures s[a..][..k] == s[a..a + k]
    ensures s[a..][k..] == s[a + k..]
  {
  }

  /** A prefix one longer is the shorter prefix and the next element. */
  lemma TakeSnoc<T>(s: seq<T>, k: nat)
    requires 0 < k <= |s|
    ensures s[..k] == s[..k - 1] + [s[k - 1]]
  {
  }

  /** A sequence is its prefix followed by the rest. */
  lemma TakeDrop<T>(s: seq<T>, i: nat)
    requires i <= |s|
    ensures s[..i] + s[i..] == s
  {
  }

  /** The prefix as long as the sequence is the sequence. */
  lemma TakeAll<T>(s: seq<T>)
    ensures s[..|s|] == s
  {
  }

  /** A non-empty sequence is all but its last element, then that element. */
  lemma DropLast<T>(s: seq<T>)
    requires |s| > 0
    ensures s == s[..|s| - 1] + [s[|s| - 1]]
  {
  }

  /** Appending a sequence is appending all but its last element, then that element. */
  lemma AppendSnoc<T>(a: seq<T>, b: seq<T>)
    requires |b| > 0
    ensures a + b == (a + b[..|b| - 1]) + [b[|b| - 1]]
  {
  }

  /** A slice that lies in the front part of a concatenation is a slice of that part. */
  lemma SliceOfFront(a: string, b: string, i: nat, k: nat)
    requires i <= k <= |a|
    ensures (a + b)[i..k] == a[i..k]
  {
  }

  /** A slice that lies in the back part of a concatenation is a slice of that part. */
  lemma SliceOfBack(a: string, b: string, i: nat, k: nat)
    requires i <= k <= |b|
    ensures (a + b)[|a| + i..|a| + k] == b[i..k]
  {
  }

  /** The three parts of a three-part concatenation, recovered by slicing. */
  lemma ThreeParts(a: string, b: string, c: string)
    ensures |a + b + c| == |a| + |b| + |c|
    ensures (a + b + c)[..|a|] == a
    ensures (a + b + c)[|a|..|a| + |b|] == b
    ensures (a + b + c)[|a| + |b|..] == c
  {
  }

  /** A slice of width one holds one character. */
  lemma SliceOne(s: string, i: nat)
    requires i < |s|
    ensures s[i..i + 1] == [s[i]]
  {
  }

  /** Cutting a prefix of `s` at `i` leaves the shorter prefix and the slice between. */
  lemma TakeSplit(s: string, i: nat, k: nat)
    requires i <= k <= |s|
    ensures s[..k] == s[..i] + s[i..k]
  {
  }

  // ---------------------------------------------------------------------
  // sep.join(parts)
  // ---------------------------------------------------------------------

  /** Python's `sep.join(parts)`. */
  function Join(parts: seq<string>, sep: string): string
  {
    if |parts| == 0 then ""
    else if |parts| == 1 then parts[0]
    else parts[0] + sep + Join(parts[1..], sep)
  }

  /** Where `parts[i]` starts inside `Join(parts, sep)`. */
  function JoinOffset(parts: seq<string>, sep: string, i: nat): nat
    requires i < |parts|
  {
    if i == 0 then 0 else |parts[0]| + |sep| + JoinOffset(parts[1..], sep, i - 1)
  }

  /** Every part appears, unaltered and in order, at its offset in the joined text. */
  lemma {:induction false} JoinHoldsPart(parts: seq<string>, sep: string, i: nat)
    requires i < |parts|
    ensures JoinOffset(parts, sep, i) + |parts[i]| <= |Join(parts, sep)|
    ensures Join(parts, sep)[JoinOffset(parts, sep, i)..JoinOffset(parts, sep, i) + |parts[i]|] == parts[i]
    ensures i + 1 < |parts| ==>
              JoinOffset(parts, sep, i + 1) == JoinOffset(parts, sep, i) + |parts[i]| + |sep|
  {
    if |parts| == 1 {
    } else if i == 0 {
      assert Join(parts, sep) == parts[0] + (sep + Join(parts[1..], sep));
      if 1 < |parts| {
        assert JoinOffset(parts[1..], sep, 0) == 0;
      }
    } else {
      JoinHoldsPart(parts[1..], sep, i - 1);
      var j := Join(parts[1..], sep);
      var pre := parts[0] + sep;
      assert Join(parts, sep) == pre + j;
      var o := JoinOffset(parts[1..], sep, i - 1);
      assert (pre + j)[|pre| + o..|pre| + o + |parts[i]|] == j[o..o + |parts[i]|];
    }
  }

  // ---------------------------------------------------------------------
  // s.split(sep) with a one-character separator
  // ---------------------------------------------------------------------

  /** Python's `s.split(sep)`: empty fields are kept, so there is always one
      more field than there are separators. */
  function Split(s: string, sep: char): (parts: seq<string>)
    ensures |parts| >= 1
    ensures forall i, k :: 0 <= i < |parts| && 0 <= k < |parts[i]| ==> parts[i][k] != sep
    decreases |s|
  {
    if s == [] then [""]
    else
      var rest := Split(s[1..], sep);
      if s[0] == sep then [""] + rest
      else [[s[0]] + rest[0]] + rest[1..]
  }

  /** Joining the fields with the separator gives the text back. */
  lemma {:induction false} JoinSplit(s: string, sep: char)
    ensures Join(Split(s, sep), [sep]) == s
    decreases |s|
  {
    if s != [] {
      JoinSplit(s[1..], sep);
      var rest := Split(s[1..], sep);
      if s[0] == sep {
        assert Split(s, sep) == [""] + rest;
        assert ([""] + rest)[1..] == rest;
        assert s == [s[0]] + s[1..];
      } else {
        var parts := Split(s, sep);
        assert parts == [[s[0]] + rest[0]] + rest[1..];
        if |rest| == 1 {
          assert s == [s[0]] + rest[0];
        } else {
          assert parts[1..] == rest[1..];
          assert Join(rest, [sep]) == rest[0] + [sep] + Join(rest[1..], [sep]);
          assert s == [s[0]] + s[1..];
        }
      }
    }
  }

  /** A non-empty `a` followed by `b`: its head is `a`'s, its tail is `a`'s
      tail followed by `b`. */
  lemma HeadAndRest<T>(a: seq<T>, b: seq<T>)
    requires a != []
    ensures (a + b)[0] == a[0] && (a + b)[1..] == a[1..] + b
    ensures [a[0]] + (a[1..] + b) == a + b
  {
  }

  /** Splitting a field that holds no separator, followed by more text. */
  lemma {:induction false} SplitAfterField(p: string, t: string, sep: char)
    requires forall k :: 0 <= k < |p| ==> p[k] != sep
    ensures Split(p + t, sep) == [p + Split(t, sep)[0]] + Split(t, sep)[1..]
    decreases |p|
  {
    var tail := Split(t, sep);
    if p == [] {
      assert p + t == t;
      assert p + tail[0] == tail[0];
      ConsTail(tail);
    } else {
      SplitAfterField(p[1..], t, sep);
      HeadAndRest(p, t);
      var rest := Split(p[1..] + t, sep);
      assert rest == [p[1..] + tail[0]] + tail[1..];
      assert Split(p + t, sep) == [[p[0]] + rest[0]] + rest[1..];
      HeadAndRest(p, tail[0]);
    }
  }

  /** Splitting the joined fields gives the fields back when none of them holds
      the separator: `Split` and `Join` are inverse on such field lists. */
  lemma {:induction false} SplitJoin(parts: seq<string>, sep: char)
    requires |parts| >= 1
    requires forall i, k :: 0 <= i < |parts| && 0 <= k < |parts[i]| ==> parts[i][k] != sep
    ensures Split(Join(parts, [sep]), sep) == parts
    decreases |parts|
  {
    if |parts| == 1 {
      SplitAfterField(parts[0], "", sep);
      assert parts[0] + "" == parts[0];
      assert Split("", sep) == [""];
      assert Join(parts, [sep]) == parts[0];
    } else {
      var tail := Join(parts[1..], [sep]);
      SplitJoin(parts[1..], sep);
      assert Join(parts, [sep]) == parts[0] + ([sep] + tail);
      SplitAfterField(parts[0], [sep] + tail, sep);
      assert ([sep] + tail)[1..] == tail;
      assert ([sep] + tail)[0] == sep;
      assert Split([sep] + tail, sep) == [""] + parts[1..];
      assert parts[0] + "" == parts[0];
      assert ([""] + parts[1..])[1..] == parts[1..];
      assert parts == [parts[0]] + parts[1..];
    }
  }

  // ---------------------------------------------------------------------
  // Whitespace, strip(), splitlines()[0] and split()
  // ---------------------------------------------------------------------

  /** The bytes Python 2's `str.strip()` and `int()` treat as whitespace. */
  predicate IsAsciiSpace(c: char) {
    c == ' ' || c == '\t' || c == '\n' || c == '\r' || c == '\U{0B}' || c == '\U{0C}'
  }

  /** The characters Python 3's `str.isspace()` accepts; `strip()` and `split()`
      without arguments remove exactly these. */
  predicate IsSpace(c: char) {
    || c == '\t' || c == '\n' || c == '\U{0B}' || c == '\U{0C}' || c == '\r'
    || ('\U{1C}' <= c <= '\U{1F}') || c == ' ' || c == '\U{85}' || c == '\U{A0}'
    || c == '\U{1680}' || ('\U{2000}' <= c <= '\U{200A}') || c == '\U{2028}'
    || c == '\U{2029}' || c == '\U{202F}' || c == '\U{205F}' || c == '\U{3000}'
  }

  /** The line boundaries of Python 3's `str.splitlines()`. */
  predicate IsLineBreak(c: char) {
    || c == '\n' || c == '\r' || c == '\U{0B}' || c == '\U{0C}' || c == '\U{1C}'
    || c == '\U{1D}' || c == '\U{1E}' || c == '\U{85}' || c == '\U{2028}' || c == '\U{2029}'
  }

  /** Dropping a prefix of a concatenation leaves the rest of it. */
  lemma DropPrefix(a: string, b: string, c: string)
    ensures (a + b + c)[|a|..] == b + c
  {
  }

  /** `s` with its leading whitespace removed (`lstrip()`). */
  function TrimStart(s: string, space: char -> bool): (r: string)
    ensures EndsWith(s, r)
    ensures forall k :: 0 <= k < |s| - |r| ==> space(s[k])
    ensures |r| > 0 ==> !space(r[0])
    decreases |s|
  {
    if |s| > 0 && space(s[0]) then
      var r := TrimStart(s[1..], space);
      assert s[1..][|s| - 1 - |r|..] == s[|s| - |r|..];
      r
    else s
  }

  /** `s` with its trailing whitespace removed (`rstrip()`). */
  function TrimEnd(s: string, space: char -> bool): (r: string)
    ensures StartsWith(s, r)
    ensures forall k :: |r| <= k < |s| ==> space(s[k])
    ensures |r| > 0 ==> !space(r[|r| - 1])
    decreases |s|
  {
    if |s| > 0 && space(s[|s| - 1]) then TrimEnd(s[..|s| - 1], space) else s
  }

  /** Python's `strip()`, for the given notion of whitespace: neither end of
      the result is whitespace. `StripSlice` shows the result is a slice of
      `s` with only whitespace cut off. */
  function Strip(s: string, space: char -> bool): (r: string)
    ensures |r| > 0 ==> !space(r[0]) && !space(r[|r| - 1])
  {
    TrimEnd(TrimStart(s, space), space)
  }

  /** `Strip` only cuts characters off: a property every character of `s`
      has, every character of the result has. */
  lemma StripInside(s: string, space: char -> bool, p: char -> bool)
    requires forall k :: 0 <= k < |s| ==> p(s[k])
    ensures forall k :: 0 <= k < |Strip(s, space)| ==> p(Strip(s, space)[k])
  {
    var t := TrimStart(s, space);
    forall k | 0 <= k < |t|
      ensures p(t[k])
    {
      assert t[k] == s[|s| - |t|..][k];
    }
    var r := TrimEnd(t, space);
    forall k | 0 <= k < |r|
      ensures p(r[k])
    {
      assert r[k] == t[..|r|][k];
    }
  }

  /** `Strip` returns a slice of `s`: it starts after the leading whitespace,
      and everything cut off at either end is whitespace. */
  lemma StripSlice(s: string, space: char -> bool)
    ensures var r := Strip(s, space);
            var i := |s| - |TrimStart(s, space)|;
            && i + |r| <= |s|
            && r == s[i..i + |r|]
            && (forall k :: 0 <= k < i ==> space(s[k]))
            && (forall k :: i + |r| <= k < |s| ==> space(s[k]))
  {
    var t := TrimStart(s, space);
    var r := TrimEnd(t, space);
    assert Strip(s, space) == r;
    TrimmedSlice(s, t, r, space);
  }

  /** A prefix `r` of a suffix `t` of `s` is a slice of `s`; what lies
      outside it is what was cut off at each step. */
  lemma TrimmedSlice(s: string, t: string, r: string, space: char -> bool)
    requires EndsWith(s, t) && StartsWith(t, r)
    requires forall k :: 0 <= k < |s| - |t| ==> space(s[k])
    requires forall k :: |r| <= k < |t| ==> space(t[k])
    ensures var i := |s| - |t|;
            && i + |r| <= |s|
            && r == s[i..i + |r|]
            && (forall k :: 0 <= k < i ==> space(s[k]))
            && (forall k :: i + |r| <= k < |s| ==> space(s[k]))
  {
    var i := |s| - |t|;
    assert s[i..][..|r|] == s[i..i + |r|];
    forall k | i + |r| <= k < |s|
      ensures space(s[k])
    {
      assert s[k] == t[k - i];
    }
  }

  /** Text with no whitespace at either end is left as it is by `Strip`. */
  lemma StripKeeps(s: string, space: char -> bool)
    requires |s| > 0 ==> !space(s[0]) && !space(s[|s| - 1])
    ensures Strip(s, space) == s
  {
  }

  /** `s.splitlines()[0]` for a non-empty `s`: the text before the first line
      boundary. (An empty `s` has no lines at all.) */
  function FirstLine(s: string): (r: string)
    ensures StartsWith(s, r)
    ensures forall k :: 0 <= k < |r| ==> !IsLineBreak(r[k])
    ensures |r| < |s| ==> IsLineBreak(s[|r|])
    decreases |s|
  {
    if s == [] || IsLineBreak(s[0]) then "" else [s[0]] + FirstLine(s[1..])
  }

  /** The first line of a text that is `a` followed by a line boundary (or
      by nothing) is `a`. */
  lemma {:induction false} FirstLineOf(a: string, rest: string)
    requires forall k :: 0 <= k < |a| ==> !IsLineBreak(a[k])
    requires rest == [] || IsLineBreak(rest[0])
    ensures FirstLine(a + rest) == a
    decreases |a|
  {
    if a == [] {
      assert a + rest == rest;
    } else {
      assert (a + rest)[0] == a[0];
      assert (a + rest)[1..] == a[1..] + rest;
      FirstLineOf(a[1..], rest);
      assert a == [a[0]] + a[1..];
    }
  }

  /** `lstrip()` removes a run of whitespace in front of text that does not
      start with whitespace, and nothing more. */
  lemma {:induction false} TrimStartPad(pad: string, t: string, space: char -> bool)
    requires forall k :: 0 <= k < |pad| ==> space(pad[k])
    requires t == [] || !space(t[0])
    ensures TrimStart(pad + t, space) == t
    decreases |pad|
  {
    if pad == [] {
      assert pad + t == t;
    } else {
      assert (pad + t)[0] == pad[0];
      assert (pad + t)[1..] == pad[1..] + t;
      TrimStartPad(pad[1..], t, space);
    }
  }

  /** Length of the run of non-whitespace characters that starts `s`. */
  function WordLength(s: string): (n: nat)
    ensures n <= |s|
    ensures forall k :: 0 <= k < n ==> !IsSpace(s[k])
    ensures n < |s| ==> IsSpace(s[n])
    decreases |s|
  {
    if s == [] || IsSpace(s[0]) then 0 else 1 + WordLength(s[1..])
  }

  /** Python's `s.split()`: the maximal runs of non-whitespace, in order. */
  function Words(s: string): (words: seq<string>)
    ensures forall i :: 0 <= i < |words| ==> words[i] != ""
    ensures forall i, k :: 0 <= i < |words| && 0 <= k < |words[i]| ==> !IsSpace(words[i][k])
    decreases |s|
  {
    var t := TrimStart(s, IsSpace);
    if t == [] then []
    else
      var n := WordLength(t);
      assert n >= 1 && |t| <= |s| by {
        assert !IsSpace(t[0]);
      }
      var rest := Words(t[n..]);
      WordsCons(t, n, rest);
      [t[..n]] + rest
  }

  /** The first word `t[..n]` put in front of the words of the rest keeps
      every word non-empty and free of whitespace. */
  lemma WordsCons(t: string, n: nat, rest: seq<string>)
    requires 1 <= n <= |t| && forall k :: 0 <= k < n ==> !IsSpace(t[k])
    requires forall i :: 0 <= i < |rest| ==> rest[i] != ""
    requires forall i, k :: 0 <= i < |rest| && 0 <= k < |rest[i]| ==> !IsSpace(rest[i][k])
    ensures forall i :: 0 <= i < |[t[..n]] + rest| ==> ([t[..n]] + rest)[i] != ""
    ensures forall i, k :: 0 <= i < |[t[..n]] + rest| && 0 <= k < |([t[..n]] + rest)[i]| ==>
              !IsSpace(([t[..n]] + rest)[i][k])
  {
    var words := [t[..n]] + rest;
    assert words[0] == t[..n];
    assert forall i :: 0 < i < |words| ==> words[i] == rest[i - 1];
  }

  /** Text that does not start with whitespace has its first word at the front. */
  lemma FirstWord(s: string)
    requires |s| > 0 && !IsSpace(s[0])
    ensures |Words(s)| > 0 && Words(s)[0] == s[..WordLength(s)]
  {
  }

  /** Text made only of whitespace (possibly none). */
  predicate IsBlank(s: string) {
    forall k :: 0 <= k < |s| ==> IsSpace(s[k])
  }

  /** A non-empty text without whitespace. */
  predicate IsWord(w: string) {
    w != "" && forall k :: 0 <= k < |w| ==> !IsSpace(w[k])
  }

  /** `pads[0] + ws[0] + pads[1] + ... + ws[n - 1] + pads[n]`: words with
      runs of whitespace around and between them. */
  function Spaced(pads: seq<string>, ws: seq<string>): string
    requires |pads| == |ws| + 1
    decreases |ws|
  {
    if ws == [] then pads[0] else pads[0] + ws[0] + Spaced(pads[1..], ws[1..])
  }

  /** `split()` of words with whitespace before, between and after them gives
      back exactly the words, in order, when every run between two words is
      non-empty. Every text can be written this way, so this fixes `split()`. */
  lemma {:induction false} WordsOfSpaced(pads: seq<string>, ws: seq<string>)
    requires |pads| == |ws| + 1
    requires forall i :: 0 <= i < |pads| ==> IsBlank(pads[i])
    requires forall i :: 0 < i < |ws| ==> pads[i] != ""
    requires forall i :: 0 <= i < |ws| ==> IsWord(ws[i])
    ensures Words(Spaced(pads, ws)) == ws
    decreases |ws|
  {
    var s := Spaced(pads, ws);
    assert IsBlank(pads[0]);
    if ws == [] {
      assert pads[0] + [] == pads[0];
      TrimStartPad(pads[0], [], IsSpace);
    } else {
      var w := ws[0];
      var rest := Spaced(pads[1..], ws[1..]);
      assert IsWord(w);
      assert s == pads[0] + (w + rest);
      TrimStartPad(pads[0], w + rest, IsSpace);
      SpacedStart(pads[1..], ws[1..]);
      WordsStep(s, w, rest);
      forall i | 0 <= i < |pads[1..]|
        ensures IsBlank(pads[1..][i])
      {
        assert pads[1..][i] == pads[i + 1];
      }
      forall i | 0 < i < |ws[1..]|
        ensures pads[1..][i] != ""
      {
        assert pads[1..][i] == pads[i + 1];
      }
      forall i | 0 <= i < |ws[1..]|
        ensures IsWord(ws[1..][i])
      {
        assert ws[1..][i] == ws[i + 1];
      }
      WordsOfSpaced(pads[1..], ws[1..]);
      ConsTail(ws);
    }
  }

  /** A non-empty sequence is its head followed by its tail. */
  lemma ConsTail<T>(s: seq<T>)
    requires s != []
    ensures [s[0]] + s[1..] == s
  {
  }

  /** Text whose whitespace-trimmed form is a word followed by nothing or by
      whitespace splits into that word and the words of the rest. */
  lemma WordsStep(s: string, w: string, rest: string)
    requires IsWord(w) && TrimStart(s, IsSpace) == w + rest
    requires rest == [] || IsSpace(rest[0])
    ensures Words(s) == [w] + Words(rest)
  {
    var t := w + rest;
    assert t[0] == w[0];
    WordLengthOf(w, rest);
    assert t[..|w|] == w && t[|w|..] == rest;
  }

  /** The text after a word in a `Spaced` layout is empty or starts with
      whitespace. */
  lemma SpacedStart(pads: seq<string>, ws: seq<string>)
    requires |pads| == |ws| + 1
    requires IsBlank(pads[0])
    requires ws != [] ==> pads[0] != ""
    ensures var s := Spaced(pads, ws); s == [] || IsSpace(s[0])
  {
    if ws != [] {
      assert IsSpace(pads[0][0]);
      assert (pads[0] + ws[0] + Spaced(pads[1..], ws[1..]))[0] == pads[0][0];
    } else if pads[0] != [] {
      assert IsSpace(pads[0][0]);
    }
  }

  /** A word followed by nothing or by whitespace is as long as its run. */
  lemma {:induction false} WordLengthOf(w: string, r: string)
    requires forall k :: 0 <= k < |w| ==> !IsSpace(w[k])
    requires r == [] || IsSpace(r[0])
    ensures WordLength(w + r) == |w|
    decreases |w|
  {
    if w == [] {
      assert w + r == r;
    } else {
      assert (w + r)[0] == w[0];
      assert (w + r)[1..] == w[1..] + r;
      WordLengthOf(w[1..], r);
    }
  }

  // ---------------------------------------------------------------------
  // Decimal integers: '%d' and Python 2 int()
  // ---------------------------------------------------------------------

  predicate IsDigit(c: char) {
    '0' <= c <= '9'
  }

  predicate AllDigits(s: string) {
    forall k :: 0 <= k < |s| ==> IsDigit(s[k])
  }

  function DigitChar(d: nat): (c: char)
    requires d < 10
    ensures IsDigit(c)
  {
    ['0', '1', '2', '3', '4', '5', '6', '7', '8', '9'][d]
  }

  function DigitValue(c: char): (d: nat)
    requires IsDigit(c)
    ensures d < 10
  {
    (c as int) - ('0' as int)
  }

  /** The number written by a string of decimal digits (leading zeros allowed). */
  function DigitsValue(s: string): nat
    requires AllDigits(s)
  {
    if s == [] then 0 else 10 * DigitsValue(s[..|s| - 1]) + DigitValue(s[|s| - 1])
  }

  /** Decimal digits of `n`, without leading zeros. */
  function NatToString(n: nat): (s: string)
    ensures |s| >= 1 && AllDigits(s)
    ensures s[0] == '0' ==> n == 0
  {
    if n < 10 then [DigitChar(n)] else NatToString(n / 10) + [DigitChar(n % 10)]
  }

  /** Python's `'%d' % n`. */
  function IntToString(n: int): (s: string)
    ensures |s| >= 1
  {
    if n < 0 then "-" + NatToString(-n) else NatToString(n)
  }

  /** Reading the digits back gives the number. */
  lemma {:induction false} NatToStringValue(n: nat)
    ensures DigitsValue(NatToString(n)) == n
  {
    if n >= 10 {
      NatToStringValue(n / 10);
      var s := NatToString(n);
      assert s[..|s| - 1] == NatToString(n / 10);
      assert DigitValue(DigitChar(n % 10)) == n % 10;
    } else {
      assert DigitValue(DigitChar(n)) == n;
    }
  }

  /** Two digit characters read as a number: ten times the first plus the second. */
  lemma DigitsValueTwo(d: string)
    requires |d| == 2 && AllDigits(d)
    ensures DigitsValue(d) == 10 * DigitValue(d[0]) + DigitValue(d[1])
  {
    assert d[..1][..0] == [];
    assert DigitsValue(d[..1]) == DigitValue(d[0]);
  }

  /** A number from 10 to 99 is printed as its two digits. */
  lemma NatToStringTwo(hi: nat, lo: nat)
    requires 1 <= hi < 10 && lo < 10
    ensures NatToString(10 * hi + lo) == [DigitChar(hi), DigitChar(lo)]
  {
    var n := 10 * hi + lo;
    assert n / 10 == hi && n % 10 == lo;
  }

  /** Python 2's `int(s)` in base 10: surrounding ASCII whitespace, an optional
      sign, more ASCII whitespace (the C conversion behind `int` skips it again
      after the sign), then one or more digits; anything else raises
      `ValueError` (`None` here). */
  function ParseInt(s: string): Option<int>
  {
    var t := Strip(s, IsAsciiSpace);
    if |t| == 0 then None
    else if t[0] == '-' || t[0] == '+' then
      var digits := TrimStart(t[1..], IsAsciiSpace);
      if |digits| > 0 && AllDigits(digits) then
        Some(if t[0] == '-' then -(DigitsValue(digits) as int) else DigitsValue(digits))
      else None
    else if AllDigits(t) then Some(DigitsValue(t))
    else None
  }

  /** What `'%d'` writes, `int()` reads back. */
  lemma ParseIntToString(n: int)
    ensures ParseInt(IntToString(n)) == Some(n)
  {
    var m: nat := if n < 0 then -n else n;
    var digits := NatToString(m);
    NatToStringValue(m);
    if n < 0 {
      var s := "-" + digits;
      assert s[1..] == digits;
      ParseNegative(s);
      assert IntToString(n) == s;
    } else {
      ParseDigits(digits);
      assert IntToString(n) == digits;
    }
  }

  /** `int()` of bare digits. */
  lemma ParseDigits(s: string)
    requires |s| > 0 && AllDigits(s)
    ensures ParseInt(s) == Some(DigitsValue(s))
  {
    assert IsDigit(s[0]) && IsDigit(s[|s| - 1]);
    StripKeeps(s, IsAsciiSpace);
  }

  /** `int()` of a minus sign followed by digits. */
  lemma ParseNegative(s: string)
    requires |s| > 1 && s[0] == '-' && AllDigits(s[1..])
    ensures ParseInt(s) == Some(-(DigitsValue(s[1..]) as int))
  {
    var digits := s[1..];
    assert IsDigit(digits[0]) && IsDigit(digits[|digits| - 1]);
    assert s[|s| - 1] == digits[|digits| - 1];
    StripKeeps(s, IsAsciiSpace);
    assert TrimStart(digits, IsAsciiSpace) == digits;
    ParseSigned(s, digits);
  }

  /** Dropping the first element of `[x] + a + b` leaves `a + b`. */
  lemma DropHead<T>(x: T, a: seq<T>, b: seq<T>)
    ensures ([x] + a + b)[1..] == a + b
  {
  }

  /** `int()` of a sign, whitespace, then digits: the whitespace is skipped,
      so `int('- 240')` is -240. */
  lemma ParseSpaceAfterSign(sign: char, pad: string, digits: string)
    requires sign == '-' || sign == '+'
    requires forall k :: 0 <= k < |pad| ==> IsAsciiSpace(pad[k])
    requires |digits| > 0 && AllDigits(digits)
    ensures ParseInt([sign] + pad + digits)
            == Some(if sign == '-' then -(DigitsValue(digits) as int) else DigitsValue(digits))
  {
    SignedShape(sign, pad, digits);
    ParseSigned([sign] + pad + digits, digits);
  }

  /** A sign, whitespace and digits need no stripping, and the whitespace
      after the sign is what `TrimStart` removes. */
  lemma SignedShape(sign: char, pad: string, digits: string)
    requires sign == '-' || sign == '+'
    requires forall k :: 0 <= k < |pad| ==> IsAsciiSpace(pad[k])
    requires |digits| > 0 && AllDigits(digits)
    ensures var s := [sign] + pad + digits;
            && s[0] == sign
            && Strip(s, IsAsciiSpace) == s
            && TrimStart(s[1..], IsAsciiSpace) == digits
  {
    var s := [sign] + pad + digits;
    assert s[0] == sign && s[|s| - 1] == digits[|digits| - 1];
    assert IsDigit(digits[|digits| - 1]);
    StripKeeps(s, IsAsciiSpace);
    DropHead(sign, pad, digits);
    assert IsDigit(digits[0]);
    TrimStartPad(pad, digits, IsAsciiSpace);
  }

  /** `int()` of an already stripped text: a sign, then whitespace the
      conversion skips, then digits. */
  lemma ParseSigned(t: string, digits: string)
    requires |t| > 0 && (t[0] == '-' || t[0] == '+')
    requires Strip(t, IsAsciiSpace) == t
    requires TrimStart(t[1..], IsAsciiSpace) == digits
    requires |digits| > 0 && AllDigits(digits)
    ensures ParseInt(t) == Some(if t[0] == '-' then -(DigitsValue(digits) as int) else DigitsValue(digits))
  {
  }

  // ---------------------------------------------------------------------
  // Ordering: Python's `<` on str (code point by code point)
  // ---------------------------------------------------------------------

  /** Python's `a < b` on strings: lexicographic by code point, a proper
      prefix coming first. */
  predicate Before(a: string, b: string)
    decreases |a|
  {
    if a == [] then b != []
    else if b == [] then false
    else if a[0] != b[0] then a[0] < b[0]
    else Before(a[1..], b[1..])
  }

  /** `<` on strings is asymmetric. */
  lemma {:induction false} BeforeAsymmetric(a: string, b: string)
    requires Before(a, b)
    ensures !Before(b, a)
    decreases |a|
  {
    if a != [] && b != [] && a[0] == b[0] {
      BeforeAsymmetric(a[1..], b[1..]);
    }
  }

  /** `<` on strings is total on distinct strings. */
  lemma {:induction false} BeforeTotal(a: string, b: string)
    requires a != b
    ensures Before(a, b) || Before(b, a)
    decreases |a|
  {
    if a != [] && b != [] && a[0] == b[0] {
      assert a == [a[0]] + a[1..] && b == [b[0]] + b[1..];
      BeforeTotal(a[1..], b[1..]);
    }
  }

  /** `<` on strings is transitive. */
  lemma {:induction false} BeforeTransitive(a: string, b: string, c: string)
    requires Before(a, b) && Before(b, c)
    ensures Before(a, c)
    decreases |a|
  {
    if a != [] && a[0] == b[0] && b[0] == c[0] {
      BeforeTransitive(a[1..], b[1..], c[1..]);
    }
  }

  /** "not after" (`>=`) on strings is transitive. */
  lemma NotBeforeTransitive(a: string, b: string, c: string)
    requires !Before(a, b) && !Before(b, c)
    ensures !Before(a, c)
  {
    if Before(a, c) && a != b {
      BeforeTotal(a, b);
      BeforeTransitive(b, a, c);
    }
  }
}
