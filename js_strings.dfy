/** The JavaScript string operations the backend relies on: `padEnd`,
    `slice`, `trim`, `split`, and the length of a string once encoded as
    UTF-8 by `Buffer.from(s, 'utf8')`.

    A JavaScript string is a sequence of UTF-16 code units; here it is a
    `string`, one `char` per code unit, which is exact for text inside the
    Basic Multilingual Plane. */
module JsStrings {

  /** `s.padEnd(n)` with the default filler, a single space. */
  function PadEnd(s: string, n: nat): (r: string)
    ensures |r| == if |s| < n then n else |s|
    ensures r[..|s|] == s
    ensures forall i :: |s| <= i < |r| ==> r[i] == ' '
  {
    if |s| >= n then s else s + seq(n - |s|, _ => ' ')
  }

  /** `s.slice(0, end)`: the first `end` code units, or all of `s` when it is shorter. */
  function Slice(s: string, end: nat): (r: string)
    ensures |r| == if |s| < end then |s| else end
    ensures r == s[..|r|]
  {
    if |s| <= end then s else s[..end]
  }

  // ---------------------------------------------------------------------
  // UTF-8 length
  // ---------------------------------------------------------------------

  /** Number of bytes UTF-8 spends on one character. */
  function Utf8Width(c: char): (w: nat)
    ensures 1 <= w <= 4
    ensures w == 1 <==> c as int < 0x80
  {
    if c as int < 0x80 then 1
    else if c as int < 0x800 then 2
    else if c as int < 0x1_0000 then 3
    else 4
  }

  /** Length in bytes of `Buffer.from(s, 'utf8')`. */
  function Utf8Length(s: string): (n: nat)
  {
    if s == [] then 0 else Utf8Width(s[0]) + Utf8Length(s[1..])
  }

  predicate IsAscii(s: string)
  {
    forall i :: 0 <= i < |s| ==> s[i] as int < 0x80
  }

  /** UTF-8 never spends fewer bytes than there are characters, and spends
      exactly one byte per character precisely on ASCII text. */
  lemma {:induction false} Utf8LengthVersusLength(s: string)
    ensures Utf8Length(s) >= |s|
    ensures Utf8Length(s) == |s| <==> IsAscii(s)
  {
    if s != [] {
      Utf8LengthVersusLength(s[1..]);
      assert IsAscii(s) <==> s[0] as int < 0x80 && IsAscii(s[1..]) by {
        if s[0] as int < 0x80 && IsAscii(s[1..]) {
          forall i | 0 <= i < |s| ensures s[i] as int < 0x80 {
            if i > 0 { assert s[i] == s[1..][i - 1]; }
          }
        }
      }
    }
  }

  // ---------------------------------------------------------------------
  // String.prototype.trim
  // ---------------------------------------------------------------------

  /** The characters `trim` removes: the ECMAScript WhiteSpace and
      LineTerminator code points. */
  predicate IsWhiteSpace(c: char)
  {
    || c == '\t' || c == '\n' || c == '\U{B}' || c == '\U{C}' || c == '\r'
    || c == ' ' || c == '\U{A0}' || c == '\U{1680}'
    || ('\U{2000}' <= c <= '\U{200A}')
    || c == '\U{2028}' || c == '\U{2029}' || c == '\U{202F}' || c == '\U{205F}'
    || c == '\U{3000}' || c == '\U{FEFF}'
  }

  /** How many characters of white space `s` starts with. */
  function LeadingWhiteSpace(s: string): (k: nat)
    ensures k <= |s|
    ensures forall i :: 0 <= i < k ==> IsWhiteSpace(s[i])
    ensures k < |s| ==> !IsWhiteSpace(s[k])
    decreases |s|
  {
    if s != [] && IsWhiteSpace(s[0]) then 1 + LeadingWhiteSpace(s[1..]) else 0
  }

  /** How many characters of white space `s` ends with, counting no
      further back than index `lo`. */
  function TrailingWhiteSpace(s: string, lo: nat): (m: nat)
    requires lo <= |s|
    ensures m <= |s| - lo
    ensures forall i :: |s| - m <= i < |s| ==> IsWhiteSpace(s[i])
    ensures m < |s| - lo ==> !IsWhiteSpace(s[|s| - m - 1])
    decreases |s|
  {
    if |s| > lo && IsWhiteSpace(s[|s| - 1]) then 1 + TrailingWhiteSpace(s[..|s| - 1], lo) else 0
  }

  predicate AllWhiteSpace(s: string)
  {
    forall i :: 0 <= i < |s| ==> IsWhiteSpace(s[i])
  }

  /** `r` is the slice of `s` from `k` with only white space before and
      after it. */
  predicate Surrounds(s: string, k: nat, r: string)
  {
    && k + |r| <= |s| && r == s[k..k + |r|]
    && AllWhiteSpace(s[..k]) && AllWhiteSpace(s[k + |r|..])
  }

  /** `s.trim()`, the setter Mongoose installs for a `trim: true` path: the
      middle of `s` left once its leading and its trailing white space are
      removed, which starts and ends with something else. */
  function Trim(s: string): (r: string)
    ensures Surrounds(s, LeadingWhiteSpace(s), r)
    ensures r == [] || (!IsWhiteSpace(r[0]) && !IsWhiteSpace(r[|r| - 1]))
  {
    var k := LeadingWhiteSpace(s);
    var m := TrailingWhiteSpace(s, k);
    TrimSlice(s, k, m);
    s[k..|s| - m]
  }

  /** The slice between a run of leading and a run of trailing white space,
      each maximal, has white space on both sides and none at either end. */
  lemma TrimSlice(s: string, k: nat, m: nat)
    requires k + m <= |s|
    requires forall i :: 0 <= i < k ==> IsWhiteSpace(s[i])
    requires k < |s| ==> !IsWhiteSpace(s[k])
    requires forall i :: |s| - m <= i < |s| ==> IsWhiteSpace(s[i])
    requires m < |s| - k ==> !IsWhiteSpace(s[|s| - m - 1])
    ensures Surrounds(s, k, s[k..|s| - m])
    ensures var r := s[k..|s| - m]; r == [] || (!IsWhiteSpace(r[0]) && !IsWhiteSpace(r[|r| - 1]))
  {
    var tail := s[|s| - m..];
    forall i | 0 <= i < |tail| ensures IsWhiteSpace(tail[i]) {
      assert tail[i] == s[|s| - m + i];
    }
  }

  /** Trimming yields the empty string exactly when there was nothing but
      white space. */
  lemma TrimEmptyIff(s: string)
    ensures Trim(s) == [] <==> AllWhiteSpace(s)
  {
    if Trim(s) == [] {
      assert LeadingWhiteSpace(s) == |s|;
    }
  }

  // ---------------------------------------------------------------------
  // String.prototype.split with a one-character separator
  // ---------------------------------------------------------------------

  /** Position of the first occurrence of `c` in `s`. */
  function IndexOf(s: string, c: char): (i: nat)
    requires c in s
    ensures i < |s| && s[i] == c && c !in s[..i]
  {
    if s[0] == c then 0 else 1 + IndexOf(s[1..], c)
  }

  /** `s.split(sep)`: the maximal separator-free pieces of `s`, in order;
      a string without the separator is one piece. */
  function Split(s: string, sep: char): (parts: seq<string>)
    ensures |parts| >= 1
    ensures forall k :: 0 <= k < |parts| ==> sep !in parts[k]
    decreases |s|
  {
    if sep !in s then [s]
    else
      var i := IndexOf(s, sep);
      [s[..i]] + Split(s[i + 1..], sep)
  }

  /** The first piece of a split: the text before the first separator, empty
      exactly when the string is empty or starts with the separator; the
      pieces after it are the split of the text after that separator. */
  lemma SplitFirstPiece(s: string, sep: char)
    ensures sep !in s ==> Split(s, sep) == [s]
    ensures sep in s ==>
      && |Split(s, sep)| >= 2
      && Split(s, sep)[0] == s[..IndexOf(s, sep)]
      && Split(s, sep)[1..] == Split(s[IndexOf(s, sep) + 1..], sep)
    ensures Split(s, sep)[0] == [] <==> s == [] || s[0] == sep
  {
  }

  /** The second piece of a split is empty exactly when the first separator
      ends the string or is directly followed by another. */
  lemma SplitSecondPiece(s: string, sep: char)
    ensures sep in s ==>
      && |Split(s, sep)| >= 2
      && (Split(s, sep)[1] == [] <==> IndexOf(s, sep) + 1 == |s| || s[IndexOf(s, sep) + 1] == sep)
  {
    SplitFirstPiece(s, sep);
    if sep in s {
      SplitFirstPiece(s[IndexOf(s, sep) + 1..], sep);
    }
  }

  /** `parts.join(sep)`, the inverse of `Split`. */
  function Join(parts: seq<string>, sep: char): (s: string)
  {
    if |parts| == 0 then ""
    else if |parts| == 1 then parts[0]
    else parts[0] + [sep] + Join(parts[1..], sep)
  }

  /** Splitting loses nothing: joining the pieces gives back the string. */
  lemma {:induction false} JoinSplit(s: string, sep: char)
    ensures Join(Split(s, sep), sep) == s
    decreases |s|
  {
    if sep in s {
      var i := IndexOf(s, sep);
      var rest := Split(s[i + 1..], sep);
      assert Split(s, sep) == [s[..i]] + rest;
      assert ([s[..i]] + rest)[1..] == rest;
      JoinSplit(s[i + 1..], sep);
      assert Join(Split(s, sep), sep) == s[..i] + [sep] + Join(rest, sep);
      assert s == s[..i] + [sep] + s[i + 1..];
    }
  }

  /** A separator-free head followed by the separator splits off as the
      first piece, whatever follows. */
  lemma SplitCons(head: string, sep: char, tail: string)
    requires sep !in head
    ensures Split(head + [sep] + tail, sep) == [head] + Split(tail, sep)
  {
    var s := head + [sep] + tail;
    assert s[|head|] == sep;
    var i := IndexOf(s, sep);
    assert s[..|head|] == head;
    assert i == |head|;
    assert s[..i] == head;
    assert s[i + 1..] == tail;
  }

  /** Separator-free pieces joined by the separator split back into the same
      pieces. */
  lemma {:induction false} SplitJoin(parts: seq<string>, sep: char)
    requires |parts| >= 1
    requires forall k :: 0 <= k < |parts| ==> sep !in parts[k]
    ensures Split(Join(parts, sep), sep) == parts
  {
    if |parts| > 1 {
      SplitCons(parts[0], sep, Join(parts[1..], sep));
      SplitJoin(parts[1..], sep);
    }
  }
}
