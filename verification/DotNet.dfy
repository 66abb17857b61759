/**
 The behaviour of the few .NET base-library operations the NetJoy core relies on:
 32- and 16-bit two's-complement wrap-around (C# arithmetic is unchecked by default),
 `int.TryParse`, `String.Split(char)`, ordinal `IndexOf`/`Contains`, `ToLowerInvariant`
 and the ASCII encoding.
 */
module DotNet {
  import opened Wrappers

  const Int32Min: int := -0x8000_0000
  const Int32Max: int := 0x7fff_ffff
  const Int16Max: int := 0x7fff

  /** C# `int`. */
  type int32 = x: int | -0x8000_0000 <= x < 0x8000_0000
  /** C# `short`. */
  type int16 = x: int | -0x8000 <= x < 0x8000
  /** C# `byte`. */
  type byte = x: int | 0 <= x < 0x100

  /** The value an unchecked C# `int` expression produces for the mathematical result `x`. */
  function Wrap32(x: int): (r: int32)
    ensures Int32Min <= x <= Int32Max ==> r == x
    ensures Int32Max < x <= Int32Max + 0x1_0000_0000 ==> r == x - 0x1_0000_0000
    ensures Int32Min - 0x1_0000_0000 <= x < Int32Min ==> r == x + 0x1_0000_0000
  {
    (x + 0x8000_0000) % 0x1_0000_0000 - 0x8000_0000
  }

  /** The value of the unchecked cast `(short) x`. */
  function Wrap16(x: int): (r: int16)
    ensures -0x8000 <= x <= Int16Max ==> r == x
    ensures Int16Max < x <= Int16Max + 0x1_0000 ==> r == x - 0x1_0000
    ensures -0x8000 - 0x1_0000 <= x < -0x8000 ==> r == x + 0x1_0000
  {
    (x + 0x8000) % 0x1_0000 - 0x8000
  }

  // ---------------------------------------------------------------- int.TryParse

  /** The white space `NumberStyles.Integer` admits around a number: U+0009..U+000D and U+0020. */
  predicate IsWhite(c: char) {
    c == ' ' || '\t' <= c <= '\r'
  }

  predicate IsDigit(c: char) {
    '0' <= c <= '9'
  }

  predicate AllDigits(s: string) {
    forall i :: 0 <= i < |s| ==> IsDigit(s[i])
  }

  function TrimStartWhite(s: string): (r: string)
    ensures |r| <= |s| && r == s[|s| - |r|..]
    ensures r == [] || !IsWhite(r[0])
  {
    if |s| > 0 && IsWhite(s[0]) then TrimStartWhite(s[1..]) else s
  }

  function TrimEndWhite(s: string): (r: string)
    ensures |r| <= |s| && r == s[..|r|]
    ensures r == [] || !IsWhite(r[|r| - 1])
  {
    if |s| > 0 && IsWhite(s[|s| - 1]) then TrimEndWhite(s[..|s| - 1]) else s
  }

  /** The value of a run of decimal digits, most significant first; 0 for the empty run. */
  function DigitsValue(ds: string): (v: nat)
    requires AllDigits(ds)
  {
    if ds == [] then 0
    else DigitsValue(ds[..|ds| - 1]) * 10 + (ds[|ds| - 1] as int - '0' as int)
  }

  /**
   `int.TryParse(s, out n)` with `NumberStyles.Integer`: optional white space around an
   optional `+` or `-` and one or more decimal digits whose value fits in an `int`. The
   signs are fixed to those of the invariant culture. `None` is the `false` return; the C#
   `null` string also gives `false`.
   */
  function ParseInt32(s: Option<string>): (r: Option<int32>)
    ensures r.Some? ==> s.Some?
  {
    match s
    case None => None
    case Some(text) => ParseSigned(TrimEndWhite(TrimStartWhite(text)))
  }

  /** A trimmed number: an optional sign and its digits. */
  function ParseSigned(t: string): (n: Option<int32>)
  {
    if |t| > 0 && t[0] == '-' then ParseMagnitude(t[1..], true)
    else if |t| > 0 && t[0] == '+' then ParseMagnitude(t[1..], false)
    else ParseMagnitude(t, false)
  }

  function ParseMagnitude(digits: string, negative: bool): (r: Option<int32>)
    ensures r.Some? ==> |digits| > 0 && AllDigits(digits)
  {
    if |digits| == 0 || !AllDigits(digits) then None
    else
      var v := if negative then -(DigitsValue(digits) as int) else DigitsValue(digits);
      if Int32Min <= v <= Int32Max then Some(v) else None
  }

  function DigitChar(d: nat): (c: char)
    requires d < 10
    ensures IsDigit(c) && c as int - '0' as int == d
  {
    ('0' as int + d) as char
  }

  /** The decimal digits of `n`, without leading zeros. */
  function NatDigits(n: nat): (ds: string)
    ensures |ds| > 0 && AllDigits(ds)
  {
    if n < 10 then [DigitChar(n)] else NatDigits(n / 10) + [DigitChar(n % 10)]
  }

  /** `n.ToString()` for an `int`. */
  function FormatInt32(n: int32): (s: string)
  {
    if n < 0 then "-" + NatDigits(-(n as int)) else NatDigits(n)
  }

  lemma {:induction false} NatDigitsValue(n: nat)
    ensures DigitsValue(NatDigits(n)) == n
  {
    var ds := NatDigits(n);
    if n >= 10 {
      NatDigitsValue(n / 10);
      assert ds[..|ds| - 1] == NatDigits(n / 10);
    }
  }

  /** Text that starts and ends with something other than white space is not trimmed. */
  lemma TrimNothing(s: string)
    requires |s| > 0 && !IsWhite(s[0]) && !IsWhite(s[|s| - 1])
    ensures TrimEndWhite(TrimStartWhite(s)) == s
  {
    assert TrimStartWhite(s) == s;
  }

  /** An untrimmed number is parsed as it stands. */
  lemma ParseUntrimmed(s: string)
    requires |s| > 0 && !IsWhite(s[0]) && !IsWhite(s[|s| - 1])
    ensures ParseInt32(Some(s)) == ParseSigned(s)
  {
    TrimNothing(s);
  }

  lemma ParseDigits(ds: string)
    requires |ds| > 0 && AllDigits(ds) && DigitsValue(ds) <= Int32Max
    ensures ParseInt32(Some(ds)) == Some(DigitsValue(ds))
  {
    ParseUntrimmed(ds);
    assert ParseSigned(ds) == ParseMagnitude(ds, false);
  }

  lemma ParseNegativeDigits(ds: string)
    requires |ds| > 0 && AllDigits(ds)
    ensures ParseInt32(Some("-" + ds)) == ParseMagnitude(ds, true)
  {
    var s := "-" + ds;
    assert s[1..] == ds;
    ParseUntrimmed(s);
  }

  lemma ParseFormatNegative(n: int32)
    requires n < 0
    ensures ParseInt32(Some(FormatInt32(n))) == Some(n)
  {
    var m: nat := -(n as int);
    var ds := NatDigits(m);
    assert FormatInt32(n) == "-" + ds;
    NatDigitsValue(m);
    ParseNegativeDigits(ds);
    assert ParseMagnitude(ds, true) == Some(n);
  }

  lemma ParseFormatNonNegative(n: int32)
    requires n >= 0
    ensures ParseInt32(Some(FormatInt32(n))) == Some(n)
  {
    var ds := NatDigits(n);
    assert FormatInt32(n) == ds;
    NatDigitsValue(n);
    ParseDigits(ds);
  }

  /** Parsing what C# prints for an `int` gives that `int` back. */
  lemma ParseFormatInt32(n: int32)
    ensures ParseInt32(Some(FormatInt32(n))) == Some(n)
  {
    if n < 0 {
      ParseFormatNegative(n);
    } else {
      ParseFormatNonNegative(n);
    }
  }

  /** A string without a decimal digit never parses. */
  lemma ParseNeedsDigit(s: string)
    requires forall i :: 0 <= i < |s| ==> !IsDigit(s[i])
    ensures ParseInt32(Some(s)) == None
  {
    var a := TrimStartWhite(s);
    var t := TrimEndWhite(a);
    var k := if |t| > 0 && (t[0] == '-' || t[0] == '+') then 1 else 0;
    if |t| > k {
      assert t[k] == a[k] == s[|s| - |a| + k];
      assert !AllDigits(t[k..]);
    }
  }

  predicate AllWhite(s: string) {
    forall i :: 0 <= i < |s| ==> IsWhite(s[i])
  }

  lemma {:induction false} TrimStartPadding(lead: string, x: string)
    requires AllWhite(lead) && (x == [] || !IsWhite(x[0]))
    ensures TrimStartWhite(lead + x) == x
  {
    if lead == [] {
      assert lead + x == x;
    } else {
      assert (lead + x)[1..] == lead[1..] + x;
      TrimStartPadding(lead[1..], x);
    }
  }

  lemma {:induction false} TrimEndPadding(x: string, trail: string)
    requires AllWhite(trail) && (x == [] || !IsWhite(x[|x| - 1]))
    ensures TrimEndWhite(x + trail) == x
  {
    if trail == [] {
      assert x + trail == x;
    } else {
      var y := x + trail;
      assert y[..|y| - 1] == x + trail[..|trail| - 1] && IsWhite(y[|y| - 1]);
      TrimEndPadding(x, trail[..|trail| - 1]);
    }
  }

  /** The trimming `int.TryParse` does removes exactly the white space around a number. */
  lemma TrimPadded(lead: string, core: string, trail: string)
    requires AllWhite(lead) && AllWhite(trail)
    requires |core| > 0 && !IsWhite(core[0]) && !IsWhite(core[|core| - 1])
    ensures TrimEndWhite(TrimStartWhite(lead + core + trail)) == core
  {
    assert lead + core + trail == lead + (core + trail);
    TrimStartPadding(lead, core + trail);
    TrimEndPadding(core, trail);
  }

  /** White space on either side of a number does not change what `int.TryParse` makes of it. */
  lemma ParsePadded(lead: string, core: string, trail: string)
    requires AllWhite(lead) && AllWhite(trail)
    requires |core| > 0 && !IsWhite(core[0]) && !IsWhite(core[|core| - 1])
    ensures ParseInt32(Some(lead + core + trail)) == ParseInt32(Some(core))
  {
    TrimPadded(lead, core, trail);
    ParseUntrimmed(core);
  }

  // ---------------------------------------------------------------- String.Split(char)

  /** The number of occurrences of `c` in `s`. */
  function Count(s: string, c: char): (k: nat)
  {
    if s == [] then 0 else (if s[0] == c then 1 else 0) + Count(s[1..], c)
  }

  /**
   `s.Split(sep)`: every piece between two separators, including empty pieces and the
   piece after the last separator; the empty string splits into one empty piece.
   */
  function Split(s: string, sep: char): (pieces: seq<string>)
    ensures |pieces| == Count(s, sep) + 1
    ensures forall i :: 0 <= i < |pieces| ==> sep !in pieces[i]
  {
    if s == [] then [""]
    else if s[0] == sep then [""] + Split(s[1..], sep)
    else
      var rest := Split(s[1..], sep);
      [[s[0]] + rest[0]] + rest[1..]
  }

  /** `String.Join(sep, pieces)`: the inverse of `Split`. */
  function Join(pieces: seq<string>, sep: char): (s: string)
    requires |pieces| > 0
  {
    if |pieces| == 1 then pieces[0] else pieces[0] + [sep] + Join(pieces[1..], sep)
  }

  /** Splitting loses nothing: joining the pieces again gives back the text. */
  lemma {:induction false} JoinSplit(s: string, sep: char)
    ensures Join(Split(s, sep), sep) == s
  {
    if s != [] {
      JoinSplit(s[1..], sep);
      var rest := Split(s[1..], sep);
      if s[0] == sep {
        assert Split(s, sep)[1..] == rest;
      } else if |rest| > 1 {
        assert Split(s, sep)[1..] == rest[1..];
        assert s == [s[0]] + s[1..];
      }
    }
  }

  lemma {:induction false} SplitNoSeparator(a: string, sep: char)
    requires sep !in a
    ensures Split(a, sep) == [a]
  {
    if a != [] {
      SplitNoSeparator(a[1..], sep);
      assert [a[0]] + a[1..] == a;
    }
  }

  lemma {:induction false} SplitAfterPiece(a: string, t: string, sep: char)
    requires sep !in a
    ensures Split(a + [sep] + t, sep) == [a] + Split(t, sep)
  {
    if a == [] {
      assert a + [sep] + t == [sep] + t;
      assert ([sep] + t)[1..] == t;
    } else {
      SplitAfterPiece(a[1..], t, sep);
      assert (a + [sep] + t)[1..] == a[1..] + [sep] + t;
      assert [a[0]] + a[1..] == a;
    }
  }

  /** Pieces that hold no separator are recovered exactly by splitting their join. */
  lemma {:induction false} SplitJoin(pieces: seq<string>, sep: char)
    requires |pieces| > 0
    requires forall i :: 0 <= i < |pieces| ==> sep !in pieces[i]
    ensures Split(Join(pieces, sep), sep) == pieces
  {
    if |pieces| == 1 {
      SplitNoSeparator(pieces[0], sep);
    } else {
      SplitJoin(pieces[1..], sep);
      SplitAfterPiece(pieces[0], Join(pieces[1..], sep), sep);
      assert [pieces[0]] + pieces[1..] == pieces;
    }
  }

  // ---------------------------------------------------------------- IndexOf / Contains

  /** `pat` occurs in `s` starting at `k`. */
  predicate OccursAt(s: string, pat: string, k: int)
  {
    0 <= k && k + |pat| <= |s| && s[k..k + |pat|] == pat
  }

  function IndexOfFrom(s: string, pat: string, from: nat): (r: int)
    requires from <= |s|
    ensures r == -1 || (from <= r && OccursAt(s, pat, r))
    ensures forall j :: from <= j < (if r == -1 then |s| + 1 else r) ==> !OccursAt(s, pat, j)
    decreases |s| - from
  {
    if from + |pat| > |s| then -1
    else if s[from..from + |pat|] == pat then from
    else if from == |s| then -1
    else IndexOfFrom(s, pat, from + 1)
  }

  /** `s.IndexOf(pat, StringComparison.Ordinal)`: the first position of `pat` in `s`, or -1. */
  function IndexOf(s: string, pat: string): (r: int)
    ensures r == -1 <==> forall j :: !OccursAt(s, pat, j)
    ensures r != -1 ==> OccursAt(s, pat, r) && forall j :: 0 <= j < r ==> !OccursAt(s, pat, j)
  {
    IndexOfFrom(s, pat, 0)
  }

  /** `s.Contains(pat)`: ordinal, case-sensitive. */
  predicate Contains(s: string, pat: string)
  {
    IndexOf(s, pat) != -1
  }

  /** A text without the first character of `pat` cannot contain it. */
  lemma NotContainsWithoutHead(s: string, pat: string)
    requires pat != [] && pat[0] !in s
    ensures !Contains(s, pat)
  {
    forall j | 0 <= j && j + |pat| <= |s|
      ensures !OccursAt(s, pat, j)
    {
      assert s[j..j + |pat|][0] == s[j];
    }
  }

  // ---------------------------------------------------------------- ToLowerInvariant

  function LowerChar(c: char): (l: char)
  {
    if 'A' <= c <= 'Z' then (c as int + 32) as char else c
  }

  /** `s.ToLowerInvariant()`, restricted to the ASCII letters. */
  function ToLowerInvariant(s: string): (r: string)
    ensures |r| == |s|
  {
    seq(|s|, i requires 0 <= i < |s| => LowerChar(s[i]))
  }

  /** Under the ASCII-only lowering, exactly two one-letter strings fold to a given lower-case
      ASCII letter. */
  lemma LowerIsLetter(s: string, c: char)
    requires 'a' <= c <= 'z'
    ensures ToLowerInvariant(s) == [c] <==> s == [c] || s == [(c as int - 32) as char]
  {
    if ToLowerInvariant(s) == [c] {
      assert |s| == 1;
      assert ToLowerInvariant(s)[0] == LowerChar(s[0]) == c;
    }
  }

  // ---------------------------------------------------------------- ASCII encoding

  predicate IsAscii(s: string)
  {
    forall i :: 0 <= i < |s| ==> s[i] as int < 128
  }

  /** `Encoding.ASCII.GetBytes(s)`: a character outside ASCII becomes `?`. */
  function AsciiEncode(s: string): (bs: seq<byte>)
    ensures |bs| == |s|
    ensures forall i :: 0 <= i < |s| ==> bs[i] < 128
  {
    seq(|s|, i requires 0 <= i < |s| => if s[i] as int < 128 then s[i] as int else '?' as int)
  }

  /** `Encoding.ASCII.GetString(bs)`: a byte above 127 becomes `?`. */
  function AsciiDecode(bs: seq<byte>): (s: string)
    ensures |s| == |bs| && IsAscii(s)
  {
    seq(|bs|, i requires 0 <= i < |bs| => if bs[i] < 128 then bs[i] as char else '?')
  }

  /** Decoding the ASCII encoding of ASCII text gives that text back. */
  lemma AsciiRoundTrip(s: string)
    requires IsAscii(s)
    ensures AsciiDecode(AsciiEncode(s)) == s
  {
  }

  lemma AsciiEncodeAppend(a: string, b: string)
    ensures AsciiEncode(a + b) == AsciiEncode(a) + AsciiEncode(b)
  {
  }

  lemma AsciiDecodeAppend(a: seq<byte>, b: seq<byte>)
    ensures AsciiDecode(a + b) == AsciiDecode(a) + AsciiDecode(b)
  {
  }
}
