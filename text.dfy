/** ASCII models of the string operations the library applies to user input
    and to the lines of its two data files: strip, upper, title, split and join.
    Python applies them to Unicode text; this module covers the ASCII subset. */
module Text {

  /** Whitespace as Python's str.strip() sees it, restricted to code points below 128. */
  predicate IsSpace(c: char) {
    var n := c as int;
    n == 32 || 9 <= n <= 13 || 28 <= n <= 31
  }

  predicate IsLower(c: char) { 'a' <= c <= 'z' }

  predicate IsUpper(c: char) { 'A' <= c <= 'Z' }

  /** A cased character, in the sense of str.title(). */
  predicate IsLetter(c: char) { IsLower(c) || IsUpper(c) }

  /** Number of occurrences of c in s. */
  function Count(s: string, c: char): nat {
    if s == [] then 0 else (if s[0] == c then 1 else 0) + Count(s[1..], c)
  }

  lemma {:induction false} CountAppend(a: string, b: string, c: char)
    ensures Count(a + b, c) == Count(a, c) + Count(b, c)
  {
    if a == [] {
      assert a + b == b;
    } else {
      assert (a + b)[1..] == a[1..] + b;
      CountAppend(a[1..], b, c);
    }
  }

  lemma {:induction false} CountZero(s: string, c: char)
    ensures Count(s, c) == 0 <==> c !in s
  {
    if s != [] {
      CountZero(s[1..], c);
      assert c in s <==> s[0] == c || c in s[1..];
    }
  }

  // ---------------------------------------------------------------- strip

  /** str.lstrip(): drops the leading whitespace and nothing else. */
  function TrimLeft(s: string): (r: string)
    ensures |r| <= |s|
    ensures r == [] || !IsSpace(r[0])
  {
    if s != [] && IsSpace(s[0]) then TrimLeft(s[1..]) else s
  }

  /** str.rstrip(): drops the trailing whitespace and nothing else. */
  function TrimRight(s: string): (r: string)
    ensures |r| <= |s| && r == s[..|r|]
    ensures r == [] || !IsSpace(r[|r| - 1])
  {
    if s != [] && IsSpace(s[|s| - 1]) then TrimRight(s[..|s| - 1]) else s
  }

  /** str.strip(): the result neither starts nor ends with whitespace, and a
      string that already has that shape is returned as it is. */
  function Trim(s: string): (r: string)
    ensures |r| <= |s|
    ensures r == [] || (!IsSpace(r[0]) && !IsSpace(r[|r| - 1]))
    ensures (s == [] || (!IsSpace(s[0]) && !IsSpace(s[|s| - 1]))) ==> r == s
  {
    TrimRight(TrimLeft(s))
  }

  /** str.lstrip() keeps a suffix of the string. */
  lemma {:induction false} TrimLeftSuffix(s: string)
    ensures TrimLeft(s) == s[|s| - |TrimLeft(s)|..]
  {
    if s != [] && IsSpace(s[0]) {
      TrimLeftSuffix(s[1..]);
      assert s[1..][|s| - 1 - |TrimLeft(s)|..] == s[|s| - |TrimLeft(s)|..];
    }
  }

  /** str.strip() keeps a contiguous piece of the string, starting at
      position k. */
  lemma TrimSlice(s: string) returns (k: nat)
    ensures k + |Trim(s)| <= |s| && Trim(s) == s[k..k + |Trim(s)|]
  {
    TrimLeftSuffix(s);
    k := |s| - |TrimLeft(s)|;
    assert Trim(s) == TrimLeft(s)[..|Trim(s)|];
  }

  /** Stripping never removes a character that is not whitespace. */
  lemma {:induction false} TrimLeftCount(s: string, c: char)
    requires !IsSpace(c)
    ensures Count(TrimLeft(s), c) == Count(s, c)
  {
    if s != [] && IsSpace(s[0]) {
      TrimLeftCount(s[1..], c);
    }
  }

  lemma {:induction false} TrimRightCount(s: string, c: char)
    requires !IsSpace(c)
    ensures Count(TrimRight(s), c) == Count(s, c)
  {
    if s != [] && IsSpace(s[|s| - 1]) {
      var init := s[..|s| - 1];
      assert s == init + [s[|s| - 1]];
      CountAppend(init, [s[|s| - 1]], c);
      TrimRightCount(init, c);
    }
  }

  lemma TrimCount(s: string, c: char)
    requires !IsSpace(c)
    ensures Count(Trim(s), c) == Count(s, c)
  {
    TrimLeftCount(s, c);
    TrimRightCount(TrimLeft(s), c);
  }

  lemma TrimKeepsOut(s: string, c: char)
    requires !IsSpace(c) && c !in s
    ensures c !in Trim(s)
  {
    CountZero(s, c);
    TrimCount(s, c);
    CountZero(Trim(s), c);
  }

  /** A whitespace character in front of a string is stripped away. */
  lemma TrimSpaceFront(c: char, s: string)
    requires IsSpace(c)
    ensures Trim([c] + s) == Trim(s)
  {
    assert ([c] + s)[1..] == s;
  }

  /** Whitespace characters at the end of a string are stripped away. */
  lemma TrimRightSpaceBack(s: string, c: char)
    requires IsSpace(c)
    ensures TrimRight(s + [c]) == TrimRight(s)
  {
    assert (s + [c])[..|s|] == s;
  }

  /** A line read from a file keeps its content when it lies between two
      non-blank characters: only the line break at its end is stripped. */
  lemma TrimLineBreak(x: string)
    requires x != [] && !IsSpace(x[0]) && !IsSpace(x[|x| - 1])
    ensures Trim(x + "\n") == x
  {
    assert TrimLeft(x + "\n") == x + "\n";
    TrimRightSpaceBack(x, '\n');
  }

  // ---------------------------------------------------------------- upper, title

  function UpperChar(c: char): (r: char)
    ensures IsLetter(c) ==> IsUpper(r)
    ensures !IsLower(c) ==> r == c
  {
    if IsLower(c) then (c as int - 32) as char else c
  }

  function LowerChar(c: char): (r: char)
    ensures IsLetter(c) ==> IsLower(r)
    ensures !IsUpper(c) ==> r == c
  {
    if IsUpper(c) then (c as int + 32) as char else c
  }

  /** str.upper() on ASCII text. */
  function Upper(s: string): (r: string)
    ensures |r| == |s|
    ensures forall i :: 0 <= i < |s| ==> r[i] == UpperChar(s[i])
  {
    seq(|s|, i requires 0 <= i < |s| => UpperChar(s[i]))
  }

  /** str.title() on ASCII text, given whether the previous character was a
      letter: a letter after a letter becomes lower case, any other letter
      upper case; every other character is kept. */
  function TitleFrom(s: string, prevLetter: bool): (r: string)
    ensures |r| == |s|
    ensures forall i :: 0 <= i < |s| ==> (IsLetter(r[i]) <==> IsLetter(s[i]))
    ensures forall i :: 0 <= i < |s| && !IsLetter(s[i]) ==> r[i] == s[i]
    ensures s != [] && IsLetter(s[0]) ==> r[0] == (if prevLetter then LowerChar(s[0]) else UpperChar(s[0]))
    ensures forall i :: 0 < i < |s| && IsLetter(s[i]) ==> r[i] == (if IsLetter(s[i - 1]) then LowerChar(s[i]) else UpperChar(s[i]))
  {
    if s == [] then []
    else
      var c := s[0];
      var d := if !IsLetter(c) then c else if prevLetter then LowerChar(c) else UpperChar(c);
      [d] + TitleFrom(s[1..], IsLetter(c))
  }

  function TitleCase(s: string): string {
    TitleFrom(s, false)
  }

  /** Normalisation of a book or student id typed by the user: strip, then
      upper. The result is stripped, as long as the stripped input, and free
      of lower-case letters. */
  function NormalizeId(raw: string): (r: string)
    ensures Trim(r) == r && |r| == |Trim(raw)|
    ensures forall i :: 0 <= i < |r| ==> !IsLower(r[i])
  {
    var u := Upper(Trim(raw));
    assert u != [] ==> !IsSpace(u[0]) && !IsSpace(u[|u| - 1]);
    u
  }

  /** Normalising an id twice changes nothing. */
  lemma NormalizeIdIdempotent(raw: string)
    ensures NormalizeId(NormalizeId(raw)) == NormalizeId(raw)
  {
    var u := NormalizeId(raw);
    assert Upper(u) == u;
  }

  /** Upper-casing changes no whitespace character, so it commutes with
      lstrip() and rstrip(). */
  lemma {:induction false} UpperTrimLeft(s: string)
    ensures Upper(TrimLeft(s)) == TrimLeft(Upper(s))
  {
    if s != [] && IsSpace(s[0]) {
      assert Upper(s)[1..] == Upper(s[1..]);
      UpperTrimLeft(s[1..]);
    }
  }

  lemma {:induction false} UpperTrimRight(s: string)
    ensures Upper(TrimRight(s)) == TrimRight(Upper(s))
  {
    if s != [] && IsSpace(s[|s| - 1]) {
      assert Upper(s)[..|s| - 1] == Upper(s[..|s| - 1]);
      UpperTrimRight(s[..|s| - 1]);
    }
  }

  /** Normalising strips and upper-cases in either order. */
  lemma NormalizeIdUpperFirst(raw: string)
    ensures NormalizeId(raw) == Trim(Upper(raw))
  {
    UpperTrimLeft(raw);
    UpperTrimRight(TrimLeft(raw));
  }

  /** Two inputs denote the same id exactly when they differ only in case
      and in surrounding blanks. */
  lemma NormalizeIdSame(a: string, b: string)
    ensures NormalizeId(a) == NormalizeId(b) <==> Trim(Upper(a)) == Trim(Upper(b))
  {
    NormalizeIdUpperFirst(a);
    NormalizeIdUpperFirst(b);
  }

  /** Title-casing keeps every whitespace character where it was, so a
      stripped string stays stripped. */
  lemma TitleCaseKeepsTrim(s: string)
    requires Trim(s) == s
    ensures Trim(TitleCase(s)) == TitleCase(s)
  {
    var r := TitleCase(s);
    if s != [] {
      assert !IsSpace(s[0]) && !IsSpace(s[|s| - 1]);
      assert !IsSpace(r[0]) && !IsSpace(r[|r| - 1]);
    }
  }

  // ---------------------------------------------------------------- split, join

  /** str.split(sep): the pieces between consecutive occurrences of sep,
      always one more piece than there are separators. */
  function Split(s: string, sep: char): (parts: seq<string>)
    ensures |parts| == Count(s, sep) + 1
    ensures forall i :: 0 <= i < |parts| ==> sep !in parts[i]
  {
    if s == [] then [""]
    else
      var rest := Split(s[1..], sep);
      if s[0] == sep then [""] + rest
      else [[s[0]] + rest[0]] + rest[1..]
  }

  /** sep.join(parts). */
  function Join(parts: seq<string>, sep: char): string {
    if |parts| == 0 then ""
    else if |parts| == 1 then parts[0]
    else parts[0] + [sep] + Join(parts[1..], sep)
  }

  /** Joining the pieces of a split gives back the original string. */
  lemma {:induction false} JoinSplit(s: string, sep: char)
    ensures Join(Split(s, sep), sep) == s
  {
    if s != [] {
      var rest := Split(s[1..], sep);
      JoinSplit(s[1..], sep);
      if s[0] == sep {
        assert Split(s, sep)[1..] == rest;
      } else {
        var parts := Split(s, sep);
        assert parts[0] == [s[0]] + rest[0];
        if |rest| == 1 {
          assert s == [s[0]] + s[1..];
        } else {
          assert parts[1..] == rest[1..];
          assert Join(rest, sep) == rest[0] + [sep] + Join(rest[1..], sep);
          assert s == [s[0]] + s[1..];
        }
      }
    }
  }

  lemma {:induction false} SplitNoSep(a: string, sep: char)
    requires sep !in a
    ensures Split(a, sep) == [a]
  {
    if a != [] {
      SplitNoSep(a[1..], sep);
      assert a == [a[0]] + a[1..];
    }
  }

  lemma {:induction false} SplitAtSep(a: string, t: string, sep: char)
    requires sep !in a
    ensures Split(a + [sep] + t, sep) == [a] + Split(t, sep)
  {
    if a == [] {
      assert a + [sep] + t == [sep] + t;
      assert ([sep] + t)[1..] == t;
    } else {
      var s := a + [sep] + t;
      assert s[1..] == a[1..] + [sep] + t;
      SplitAtSep(a[1..], t, sep);
      assert [a[0]] + a[1..] == a;
    }
  }

  /** Splitting a join of separator-free pieces gives back the pieces. */
  lemma {:induction false} SplitJoin(parts: seq<string>, sep: char)
    requires |parts| >= 1
    requires forall i :: 0 <= i < |parts| ==> sep !in parts[i]
    ensures Split(Join(parts, sep), sep) == parts
  {
    if |parts| == 1 {
      SplitNoSep(parts[0], sep);
    } else {
      SplitJoin(parts[1..], sep);
      SplitAtSep(parts[0], Join(parts[1..], sep), sep);
      assert [parts[0]] + parts[1..] == parts;
    }
  }

  /** A character that is neither the separator nor in any piece is not in the join. */
  lemma {:induction false} JoinKeepsOut(parts: seq<string>, sep: char, c: char)
    requires c != sep
    requires forall i :: 0 <= i < |parts| ==> c !in parts[i]
    ensures c !in Join(parts, sep)
  {
    if |parts| > 1 {
      JoinKeepsOut(parts[1..], sep, c);
    }
  }

  /** The join of stripped pieces with a non-blank separator ends in a non-blank character. */
  lemma {:induction false} JoinEndsNonSpace(parts: seq<string>, sep: char)
    requires !IsSpace(sep)
    requires forall i :: 0 <= i < |parts| ==> Trim(parts[i]) == parts[i]
    ensures var j := Join(parts, sep); j == [] || !IsSpace(j[|j| - 1])
  {
    if |parts| == 1 {
      assert Trim(parts[0]) == parts[0];
    } else if |parts| > 1 {
      JoinEndsNonSpace(parts[1..], sep);
    }
  }
}
