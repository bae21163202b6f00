/** The .NET string operations the classifier, the filter and the settings use,
    written out over `string` (a sequence of Unicode scalar values).
    Case-insensitive comparison is ASCII case folding. */
module Text {
  import opened Wrappers

  /** The C# `int`. */
  type Int32 = x: int | -0x8000_0000 <= x < 0x8000_0000

  /** `char.IsWhiteSpace`: the characters Unicode gives the White_Space property. */
  predicate IsWhiteSpace(c: char)
  {
    ('\t' <= c <= '\r') || c == ' ' || c == '\U{85}' || c == '\U{A0}' || c == '\U{1680}'
    || ('\U{2000}' <= c <= '\U{200A}') || c == '\U{2028}' || c == '\U{2029}'
    || c == '\U{202F}' || c == '\U{205F}' || c == '\U{3000}'
  }

  /** Every character of `s` is white space (so the empty string is blank). */
  predicate IsBlank(s: string)
  {
    forall i :: 0 <= i < |s| ==> IsWhiteSpace(s[i])
  }

  /** `string.IsNullOrWhiteSpace`. */
  predicate IsNullOrWhiteSpace(s: Option<string>)
  {
    s.None? || IsBlank(s.value)
  }

  /** A possibly null string placed in an interpolated string: null renders as "". */
  function Render(s: Option<string>): string
  {
    if s.Some? then s.value else ""
  }

  /** `char.ToUpper`, restricted to ASCII letters. */
  function UpperChar(c: char): char
  {
    if 'a' <= c <= 'z' then (c as int - 32) as char else c
  }

  /** `string.ToUpper`, restricted to ASCII letters. */
  function Upper(s: string): (u: string)
    ensures |u| == |s|
  {
    if s == [] then [] else [UpperChar(s[0])] + Upper(s[1..])
  }

  /** `s.StartsWith(prefix, StringComparison.InvariantCultureIgnoreCase)`. */
  predicate StartsWithIgnoreCase(s: string, prefix: string)
  {
    |prefix| <= |s| && Upper(s[..|prefix|]) == Upper(prefix)
  }

  /** `w` occurs in `s` starting at index `j`. */
  predicate OccursAt(s: string, w: string, j: int)
  {
    0 <= j && j + |w| <= |s| && s[j..j + |w|] == w
  }

  /** `s.Contains(w)` (ordinal). */
  predicate Contains(s: string, w: string)
  {
    exists j :: 0 <= j <= |s| - |w| && OccursAt(s, w, j)
  }

  /** `s.Contains(w, StringComparison.InvariantCultureIgnoreCase)`. */
  predicate ContainsIgnoreCase(s: string, w: string)
  {
    Contains(Upper(s), Upper(w))
  }

  /** `s.IndexOf(sep)` (ordinal): the first occurrence, if any. */
  function IndexOf(s: string, sep: string): (r: Option<nat>)
    requires |sep| > 0
    ensures r.Some? ==> OccursAt(s, sep, r.value)
    ensures r.Some? ==> forall j :: 0 <= j < r.value ==> !OccursAt(s, sep, j)
    ensures r.None? ==> forall j :: !OccursAt(s, sep, j)
    decreases |s|
  {
    if |s| < |sep| then None
    else if s[..|sep|] == sep then Some(0)
    else
      var rest := IndexOf(s[1..], sep);
      ShiftOccurrence(s, sep);
      match rest
      case None => None
      case Some(i) => Some(i + 1)
  }

  /** An occurrence in `s[1..]` is an occurrence in `s`, one position later. */
  lemma ShiftOccurrence(s: string, w: string)
    requires |s| > 0
    ensures forall j :: j >= 0 ==> (OccursAt(s[1..], w, j) <==> OccursAt(s, w, j + 1))
    ensures forall j :: j >= 1 ==> (OccursAt(s, w, j) <==> OccursAt(s[1..], w, j - 1))
  {
    forall j | j >= 0 ensures OccursAt(s[1..], w, j) <==> OccursAt(s, w, j + 1) {
      if 0 <= j && j + |w| <= |s| - 1 {
        assert s[1..][j..j + |w|] == s[j + 1..j + 1 + |w|];
      }
    }
    forall j | j >= 1 ensures OccursAt(s, w, j) <==> OccursAt(s[1..], w, j - 1) {
      assert OccursAt(s[1..], w, j - 1) <==> OccursAt(s, w, j - 1 + 1);
    }
  }

  /** `string.Join(sep, pieces)`. */
  function Join(pieces: seq<string>, sep: string): string
  {
    if |pieces| == 0 then ""
    else if |pieces| == 1 then pieces[0]
    else pieces[0] + sep + Join(pieces[1..], sep)
  }

  /** `s.Split(sep)` with no options: every piece between two separators, empty
      pieces included, scanning left to right for non-overlapping occurrences. */
  function Split(s: string, sep: string): (pieces: seq<string>)
    requires |sep| > 0
    ensures |pieces| > 0
    ensures Join(pieces, sep) == s
    ensures forall k :: 0 <= k < |pieces| ==> !Contains(pieces[k], sep)
    decreases |s|
  {
    match IndexOf(s, sep)
    case None => [s]
    case Some(i) =>
      var rest := Split(s[i + |sep|..], sep);
      assert s == s[..i] + sep + s[i + |sep|..] by {
        assert s[i..i + |sep|] == sep;
      }
      forall j | 0 <= j <= i - |sep| && OccursAt(s[..i], sep, j)
        ensures false
      {
        assert s[..i][j..j + |sep|] == s[j..j + |sep|];
        assert OccursAt(s, sep, j);
      }
      [s[..i]] + rest
  }

  /** Drops the empty pieces: `StringSplitOptions.RemoveEmptyEntries`. */
  function NonEmpty(pieces: seq<string>): (r: seq<string>)
    ensures forall k :: 0 <= k < |r| ==> r[k] != ""
    ensures forall k :: 0 <= k < |pieces| && pieces[k] != "" ==> pieces[k] in r
    ensures forall x :: x in r ==> x in pieces
  {
    if pieces == [] then []
    else if pieces[0] == "" then NonEmpty(pieces[1..])
    else [pieces[0]] + NonEmpty(pieces[1..])
  }

  /** `s.Split(sep, StringSplitOptions.RemoveEmptyEntries)`. */
  function SplitNonEmpty(s: string, sep: string): seq<string>
    requires |sep| > 0
  {
    NonEmpty(Split(s, sep))
  }

  /** `xs.FirstOrDefault(d)`. */
  function FirstOrDefault(xs: seq<string>, d: string): string
  {
    if xs == [] then d else xs[0]
  }

  /** `s.Split(sep, StringSplitOptions.RemoveEmptyEntries).FirstOrDefault("")`:
      the text before the first separator, or after a run of leading separators. */
  function FirstPiece(s: string, sep: string): string
    requires |sep| > 0
  {
    FirstOrDefault(SplitNonEmpty(s, sep), "")
  }

  /** `s.Replace(from, to)` for one-character strings. */
  function ReplaceChar(s: string, from: char, to: char): (r: string)
    ensures |r| == |s|
    ensures forall i :: 0 <= i < |s| ==> r[i] == if s[i] == from then to else s[i]
  {
    if s == [] then [] else [if s[0] == from then to else s[0]] + ReplaceChar(s[1..], from, to)
  }

  /** `s.TrimEnd(c)`: the longest prefix of `s` that does not end with `c`. */
  function TrimEnd(s: string, c: char): (r: string)
    ensures r <= s
    ensures |r| == 0 || r[|r| - 1] != c
    ensures forall i :: |r| <= i < |s| ==> s[i] == c
    decreases |s|
  {
    if |s| > 0 && s[|s| - 1] == c then TrimEnd(s[..|s| - 1], c) else s
  }

  /** The decimal digit `d`. */
  function DigitChar(d: nat): (c: char)
    requires d < 10
    ensures '0' <= c <= '9'
  {
    ('0' as int + d) as char
  }

  predicate IsDigits(s: string)
  {
    forall i :: 0 <= i < |s| ==> '0' <= s[i] <= '9'
  }

  /** The decimal representation of `n`, without leading zeros. */
  function NatToString(n: nat): (s: string)
    ensures |s| > 0 && IsDigits(s)
    ensures s[0] == '0' ==> n == 0
    decreases n
  {
    if n < 10 then [DigitChar(n)] else NatToString(n / 10) + [DigitChar(n % 10)]
  }

  /** `int.ToString()`, for a culture whose negative sign is "-". */
  function IntToString(n: int): string
  {
    if n < 0 then "-" + NatToString(-n) else NatToString(n)
  }

  /** The value of a string of decimal digits. */
  function ParseDigits(s: string): nat
    requires IsDigits(s)
    decreases |s|
  {
    if |s| == 0 then 0 else ParseDigits(s[..|s| - 1]) * 10 + (s[|s| - 1] as int - '0' as int)
  }

  /** A decimal integer: an optional '-' and then at least one digit. */
  predicate IsDecimal(s: string)
  {
    if |s| > 0 && s[0] == '-' then |s| > 1 && IsDigits(s[1..]) else |s| > 0 && IsDigits(s)
  }

  /** `int.Parse`, the inverse of `IntToString`. */
  function ParseInt(s: string): int
    requires IsDecimal(s)
  {
    if s[0] == '-' then -(ParseDigits(s[1..]) as int) else ParseDigits(s)
  }

  lemma {:induction false} ParseNatToString(n: nat)
    ensures ParseDigits(NatToString(n)) == n
    decreases n
  {
    var s := NatToString(n);
    if n < 10 {
      assert s[..|s| - 1] == [];
    } else {
      assert s[..|s| - 1] == NatToString(n / 10);
      ParseNatToString(n / 10);
    }
  }

  /** Printing an integer and reading it back gives the integer. */
  lemma ParseIntToString(n: int)
    ensures IsDecimal(IntToString(n)) && ParseInt(IntToString(n)) == n
  {
    if n < 0 {
      assert IntToString(n)[1..] == NatToString(-n);
      ParseNatToString(-n);
    } else {
      ParseNatToString(n);
    }
  }

  /** Splitting a join gives the pieces back when no piece contains the first
      character of the separator. */
  lemma {:induction false} SplitJoin(pieces: seq<string>, sep: string)
    requires |sep| > 0 && |pieces| > 0
    requires forall k :: 0 <= k < |pieces| ==> sep[0] !in pieces[k]
    ensures Split(Join(pieces, sep), sep) == pieces
    decreases |pieces|
  {
    var s := Join(pieces, sep);
    var p0 := pieces[0];
    assert s[..|p0|] == p0 by {
      if |pieces| > 1 {
        assert s == p0 + sep + Join(pieces[1..], sep);
      }
    }
    forall j | 0 <= j < |p0| ensures !OccursAt(s, sep, j) {
      if j + |sep| <= |s| {
        assert s[j..j + |sep|][0] == s[j] == p0[j];
      }
    }
    if |pieces| == 1 {
      assert s == p0;
      assert IndexOf(s, sep) == None;
    } else {
      var rest := Join(pieces[1..], sep);
      assert s == p0 + sep + rest;
      assert s[|p0|..|p0| + |sep|] == sep;
      assert OccursAt(s, sep, |p0|);
      assert IndexOf(s, sep) == Some(|p0|);
      assert s[|p0| + |sep|..] == rest;
      SplitJoin(pieces[1..], sep);
    }
  }

  /** A character absent from the input is absent from every piece. */
  lemma {:induction false} SplitKeepsAbsent(s: string, sep: string, c: char)
    requires |sep| > 0 && c !in s
    ensures forall k :: 0 <= k < |Split(s, sep)| ==> c !in Split(s, sep)[k]
    decreases |s|
  {
    match IndexOf(s, sep)
    case None =>
    case Some(i) =>
      assert c !in s[..i];
      assert c !in s[i + |sep|..];
      SplitKeepsAbsent(s[i + |sep|..], sep, c);
  }

  /** A character of `s` is an occurrence of the one-character string. */
  lemma CharContained(s: string, c: char)
    requires c in s
    ensures Contains(s, [c])
  {
    var i :| 0 <= i < |s| && s[i] == c;
    assert s[i..i + 1] == [c];
    assert OccursAt(s, [c], i);
  }

  /** Joining pieces that all lack `c` with a separator that lacks it gives a
      string that lacks it. */
  lemma {:induction false} JoinKeepsAbsent(pieces: seq<string>, sep: string, c: char)
    requires c !in sep
    requires forall k :: 0 <= k < |pieces| ==> c !in pieces[k]
    ensures c !in Join(pieces, sep)
    decreases |pieces|
  {
    if |pieces| > 1 {
      JoinKeepsAbsent(pieces[1..], sep, c);
    }
  }

  /** Appending a piece to a non-empty list appends the separator and the piece. */
  lemma {:induction false} JoinSnoc(pieces: seq<string>, sep: string, last: string)
    requires |pieces| > 0
    ensures Join(pieces + [last], sep) == Join(pieces, sep) + sep + last
    decreases |pieces|
  {
    if |pieces| == 1 {
      assert (pieces + [last])[1..] == [last];
    } else {
      assert (pieces + [last])[1..] == pieces[1..] + [last];
      JoinSnoc(pieces[1..], sep, last);
    }
  }

  /** Dropping empty pieces from a list without any leaves it as it is. */
  lemma {:induction false} NonEmptyKeeps(pieces: seq<string>)
    requires forall k :: 0 <= k < |pieces| ==> pieces[k] != ""
    ensures NonEmpty(pieces) == pieces
    decreases |pieces|
  {
    if pieces != [] {
      NonEmptyKeeps(pieces[1..]);
    }
  }

  /** A non-empty string without the separator is its own first piece. */
  lemma FirstPieceWhole(s: string, sep: string)
    requires |sep| > 0 && s != "" && !Contains(s, sep)
    ensures FirstPiece(s, sep) == s
  {
    assert Split(s, sep) == [s];
  }

  /** A non-empty head that lacks the separator's first character is the
      first piece of `head + sep + tail`. */
  lemma FirstPieceHead(head: string, sep: string, tail: string)
    requires |sep| > 0 && head != "" && sep[0] !in head
    ensures FirstPiece(head + sep + tail, sep) == head
  {
    var s := head + sep + tail;
    assert s[..|head|] == head;
    forall j | 0 <= j < |head| ensures !OccursAt(s, sep, j) {
      if j + |sep| <= |s| {
        assert s[j..j + |sep|][0] == s[j] == head[j];
      }
    }
    assert s[|head|..|head| + |sep|] == sep;
    assert OccursAt(s, sep, |head|);
    assert IndexOf(s, sep) == Some(|head|);
  }

  /** The empty string has no first piece. */
  lemma FirstPieceEmpty(sep: string)
    requires |sep| > 0
    ensures FirstPiece("", sep) == ""
  {
    assert Split("", sep) == [""];
    assert NonEmpty([""]) == NonEmpty([]) == [];
  }

  /** A string that is exactly the separator has no first piece. */
  lemma FirstPieceOfSeparator(sep: string)
    requires |sep| > 0
    ensures FirstPiece(sep, sep) == ""
  {
    assert OccursAt(sep, sep, 0);
    assert sep[|sep|..] == "";
    assert Split(sep[|sep|..], sep) == [""];
    assert Split(sep, sep) == ["", ""];
    assert NonEmpty(["", ""]) == NonEmpty([""]) == NonEmpty([]) == [];
  }

  /** Replacing a character that does not occur changes nothing. */
  lemma ReplaceAbsent(s: string, from: char, to: char)
    requires from !in s
    ensures ReplaceChar(s, from, to) == s
  {
  }

  /** Trimming a string that ends in one `c` after a different character
      removes exactly that `c`. */
  lemma TrimEndOnce(s: string, c: char)
    requires |s| > 0 && s[|s| - 1] != c
    ensures TrimEnd(s + [c], c) == s
  {
    assert (s + [c])[..|s|] == s;
  }

  /** A join whose first piece is non-empty is non-empty. */
  lemma JoinHeadNonEmpty(pieces: seq<string>, sep: string)
    requires |pieces| > 0 && pieces[0] != ""
    ensures |Join(pieces, sep)| > 0
  {
  }

  /** A word whose first character is absent from `s` does not occur in `s`. */
  lemma AbsentFirstChar(s: string, w: string)
    requires |w| > 0 && w[0] !in s
    ensures !Contains(s, w)
  {
    forall j | 0 <= j <= |s| - |w| ensures !OccursAt(s, w, j) {
      assert s[j..j + |w|][0] == s[j];
    }
  }

  /** An occurrence of `w + x` is an occurrence of `w`. */
  lemma ContainsLonger(s: string, w: string, x: string)
    requires Contains(s, w + x)
    ensures Contains(s, w)
  {
    var j :| 0 <= j <= |s| - |w + x| && OccursAt(s, w + x, j);
    assert s[j..j + |w|] == (w + x)[..|w|] == w;
    assert OccursAt(s, w, j);
  }

  /** The first piece is empty or one of the pieces of the split. */
  lemma FirstPieceIsPiece(s: string, sep: string)
    requires |sep| > 0
    ensures FirstPiece(s, sep) == "" || FirstPiece(s, sep) in Split(s, sep)
  {
    var r := NonEmpty(Split(s, sep));
    if r != [] {
      assert r[0] in r;
    }
  }

  /** The first piece keeps out every character `s` lacks. */
  lemma FirstPieceLacks(s: string, sep: string, c: char)
    requires |sep| > 0 && c !in s
    ensures c !in FirstPiece(s, sep)
  {
    FirstPieceIsPiece(s, sep);
    SplitKeepsAbsent(s, sep, c);
  }

  /** The first piece on a one-character separator is free of that character. */
  lemma FirstPieceLacksSeparator(s: string, c: char)
    ensures c !in FirstPiece(s, [c])
  {
    FirstPieceIsPiece(s, [c]);
    var p := FirstPiece(s, [c]);
    if c in p {
      CharContained(p, c);
    }
  }

  /** Upper-casing distributes over concatenation. */
  lemma {:induction false} UpperConcat(a: string, b: string)
    ensures Upper(a + b) == Upper(a) + Upper(b)
  {
    if a != [] {
      assert (a + b)[0] == a[0];
      assert (a + b)[1..] == a[1..] + b;
      UpperConcat(a[1..], b);
      assert Upper(a + b) == [UpperChar(a[0])] + Upper(a[1..] + b);
    } else {
      assert a + b == b;
    }
  }

  /** Upper-casing twice is upper-casing once. */
  lemma {:induction false} UpperIdempotent(s: string)
    ensures Upper(Upper(s)) == Upper(s)
  {
    if s != [] {
      UpperIdempotent(s[1..]);
      assert Upper(s)[1..] == Upper(s[1..]);
    }
  }

  /** `w` occurs in `a + w + b`. */
  lemma ContainsInfix(a: string, w: string, b: string)
    ensures Contains(a + w + b, w)
  {
    assert (a + w + b)[|a|..|a| + |w|] == w;
    assert OccursAt(a + w + b, w, |a|);
  }

  /** `w` occurs in `a + w + b`, ignoring case. */
  lemma ContainsIgnoreCaseInfix(a: string, w: string, b: string)
    ensures ContainsIgnoreCase(a + w + b, w)
  {
    UpperConcat(a + w, b);
    UpperConcat(a, w);
    ContainsInfix(Upper(a), Upper(w), Upper(b));
  }

  /** A string whose first character differs from the separator's first
      character has a first non-empty piece, found at index 0 of the split,
      and starting with that same character. */
  lemma FirstPieceStartsLike(s: string, sep: string)
    requires |sep| > 0 && |s| > 0 && s[0] != sep[0]
    ensures SplitNonEmpty(s, sep) != []
    ensures SplitNonEmpty(s, sep)[0] == FirstPiece(s, sep)
    ensures |FirstPiece(s, sep)| > 0 && FirstPiece(s, sep)[0] == s[0]
  {
    assert !OccursAt(s, sep, 0) by {
      if |sep| <= |s| {
        assert s[0..|sep|][0] == s[0];
      }
    }
    var pieces := Split(s, sep);
    match IndexOf(s, sep) {
      case None =>
        assert pieces == [s];
      case Some(i) =>
        assert i > 0;
        assert pieces[0] == s[..i];
    }
    assert pieces[0] != "" && pieces[0][0] == s[0];
    assert NonEmpty(pieces) == [pieces[0]] + NonEmpty(pieces[1..]);
  }

  /** A join starts with its first piece. */
  lemma JoinStartsWithHead(pieces: seq<string>, sep: string)
    requires |pieces| > 0
    ensures pieces[0] <= Join(pieces, sep)
  {
    if |pieces| > 1 {
      assert Join(pieces, sep) == pieces[0] + (sep + Join(pieces[1..], sep));
    }
  }
}
