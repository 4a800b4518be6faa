/** The string operations of the Java and Guava libraries that the configuration
    class relies on: String.trim, String.equalsIgnoreCase, Integer.parseInt and
    Long.parseLong, and Guava's Splitter with trimResults and omitEmptyStrings. */
module Text {
  import opened Common

  // ---------------------------------------------------------------------------
  // Trimming

  /** The characters String.trim() removes: every code point up to U+0020. */
  predicate IsJavaSpace(c: char) {
    c <= ' '
  }

  /** The table of Guava's CharMatcher.whitespace(), which Splitter.trimResults() uses. */
  predicate IsGuavaWhitespace(c: char) {
    || ('\t' <= c <= '\r')
    || c == ' ' || c == '\U{85}' || c == '\U{A0}' || c == '\U{1680}'
    || ('\U{2000}' <= c <= '\U{200A}')
    || c == '\U{2028}' || c == '\U{2029}' || c == '\U{202F}' || c == '\U{205F}' || c == '\U{3000}'
  }

  /** Which trimming: String.trim() or Guava's trimResults(). */
  datatype Space = JavaSpace | GuavaSpace

  /** The characters the trimming of that kind removes. */
  predicate Drops(kind: Space, c: char) {
    match kind
    case JavaSpace => IsJavaSpace(c)
    case GuavaSpace => IsGuavaWhitespace(c)
  }

  /** The first index from i on whose character the trimming keeps (|s| if none). */
  function SkipLeft(s: string, kind: Space, i: nat): (j: nat)
    requires i <= |s|
    ensures i <= j <= |s|
    ensures forall k :: i <= k < j ==> Drops(kind, s[k])
    ensures j == |s| || !Drops(kind, s[j])
    decreases |s| - i
  {
    if i == |s| || !Drops(kind, s[i]) then i else SkipLeft(s, kind, i + 1)
  }

  /** The end of s[lo..hi] once its trailing dropped characters are cut off. */
  function SkipRight(s: string, kind: Space, lo: nat, hi: nat): (j: nat)
    requires lo <= hi <= |s|
    ensures lo <= j <= hi
    ensures forall k :: j <= k < hi ==> Drops(kind, s[k])
    ensures j == lo || !Drops(kind, s[j - 1])
    decreases hi - lo
  {
    if hi == lo || !Drops(kind, s[hi - 1]) then hi else SkipRight(s, kind, lo, hi - 1)
  }

  /** s with the dropped characters removed from both ends. */
  function Strip(s: string, kind: Space): (r: string)
    ensures |r| <= |s|
    ensures r == [] || (!Drops(kind, r[0]) && !Drops(kind, r[|r| - 1]))
    ensures (s == [] || (!Drops(kind, s[0]) && !Drops(kind, s[|s| - 1]))) ==> r == s
    ensures r == [] <==> forall i :: 0 <= i < |s| ==> Drops(kind, s[i])
    ensures exists i, j ::
              && 0 <= i <= j <= |s| && r == s[i..j]
              && (forall k :: 0 <= k < i ==> Drops(kind, s[k]))
              && (forall k :: j <= k < |s| ==> Drops(kind, s[k]))
  {
    var i := SkipLeft(s, kind, 0);
    var j := SkipRight(s, kind, i, |s|);
    assert i < j ==> !Drops(kind, s[i]);
    assert s == [] || (!Drops(kind, s[0]) && !Drops(kind, s[|s| - 1])) ==> i == 0 && j == |s|;
    s[i..j]
  }

  /** Java's String.trim(). */
  function JavaTrim(s: string): string {
    Strip(s, JavaSpace)
  }

  /** A string String.trim() leaves alone: no code point up to U+0020 at either end. */
  predicate JavaTrimmed(s: string) {
    s == [] || (!IsJavaSpace(s[0]) && !IsJavaSpace(s[|s| - 1]))
  }

  lemma JavaTrimmedTrim(s: string)
    requires JavaTrimmed(s)
    ensures JavaTrim(s) == s
  {
  }

  /** The trimming of Guava's Splitter.trimResults(). */
  function GuavaTrim(s: string): string {
    Strip(s, GuavaSpace)
  }

  // ---------------------------------------------------------------------------
  // Case-insensitive comparison

  /** Character.toUpperCase, for ASCII letters and for LATIN SMALL LETTER LONG S. */
  function UpperCase(c: char): char {
    if 'a' <= c <= 'z' then (c as int - 32) as char
    else if c == '\U{17F}' then 'S'
    else c
  }

  /** Character.toLowerCase, for ASCII letters. */
  function LowerCase(c: char): char {
    if 'A' <= c <= 'Z' then (c as int + 32) as char else c
  }

  /** The character test of String.regionMatches with ignoreCase set. */
  predicate CharsEqualIgnoreCase(a: char, b: char) {
    a == b || UpperCase(a) == UpperCase(b) || LowerCase(UpperCase(a)) == LowerCase(UpperCase(b))
  }

  /** String.equalsIgnoreCase. */
  predicate EqualsIgnoreCase(a: string, b: string) {
    |a| == |b| && forall i :: 0 <= i < |a| ==> CharsEqualIgnoreCase(a[i], b[i])
  }

  /** The strings equal to "true" ignoring case are exactly its sixteen spellings in
      upper and lower case. */
  lemma EqualsTrueIgnoreCase(s: string)
    ensures EqualsIgnoreCase(s, "true") <==>
      && |s| == 4
      && (s[0] == 't' || s[0] == 'T') && (s[1] == 'r' || s[1] == 'R')
      && (s[2] == 'u' || s[2] == 'U') && (s[3] == 'e' || s[3] == 'E')
  {
    if |s| == 4 && EqualsIgnoreCase(s, "true") {
      assert CharsEqualIgnoreCase(s[0], 't');
      assert CharsEqualIgnoreCase(s[1], 'r');
      assert CharsEqualIgnoreCase(s[2], 'u');
      assert CharsEqualIgnoreCase(s[3], 'e');
    }
  }

  /** The strings equal to "false" ignoring case: its spellings in upper and lower case,
      where the long s (U+017F) also stands for an s, because it upper-cases to S. */
  lemma EqualsFalseIgnoreCase(s: string)
    ensures EqualsIgnoreCase(s, "false") <==>
      && |s| == 5
      && (s[0] == 'f' || s[0] == 'F') && (s[1] == 'a' || s[1] == 'A')
      && (s[2] == 'l' || s[2] == 'L') && (s[3] == 's' || s[3] == 'S' || s[3] == '\U{17F}')
      && (s[4] == 'e' || s[4] == 'E')
  {
    if |s| == 5 && EqualsIgnoreCase(s, "false") {
      assert CharsEqualIgnoreCase(s[0], 'f');
      assert CharsEqualIgnoreCase(s[1], 'a');
      assert CharsEqualIgnoreCase(s[2], 'l');
      assert CharsEqualIgnoreCase(s[3], 's');
      assert CharsEqualIgnoreCase(s[4], 'e');
    }
  }

  // ---------------------------------------------------------------------------
  // Decimal numbers

  predicate IsDigit(c: char) {
    '0' <= c <= '9'
  }

  predicate AllDigits(s: string) {
    forall i :: 0 <= i < |s| ==> IsDigit(s[i])
  }

  /** The value of a string of decimal digits, most significant first. */
  function DigitsValue(ds: string): nat
    requires AllDigits(ds)
    decreases |ds|
  {
    if ds == [] then 0 else DigitsValue(ds[..|ds| - 1]) * 10 + (ds[|ds| - 1] as int - '0' as int)
  }

  /** The number Integer.parseInt and Long.parseLong read before their range check:
      an optional '-' or '+' followed by one or more decimal digits. */
  function ParseDecimal(s: string): Option<int> {
    if |s| > 0 && (s[0] == '-' || s[0] == '+') then
      if |s| > 1 && AllDigits(s[1..]) then
        var magnitude: int := DigitsValue(s[1..]);
        Some(if s[0] == '-' then -magnitude else magnitude)
      else None
    else if |s| > 0 && AllDigits(s) then Some(DigitsValue(s))
    else None
  }

  /** Integer.parseInt(s): None where it throws NumberFormatException. */
  function ParseInt(s: string): (r: Option<Int32>)
    ensures r.Some? <==> ParseDecimal(s).Some? && MinInt <= ParseDecimal(s).value <= MaxInt
    ensures r.Some? ==> r.value == ParseDecimal(s).value
  {
    match ParseDecimal(s)
    case Some(n) => if MinInt <= n <= MaxInt then Some(n) else None
    case None => None
  }

  /** Long.parseLong(s): None where it throws NumberFormatException. */
  function ParseLong(s: string): (r: Option<Long>)
    ensures r.Some? <==> ParseDecimal(s).Some? && MinLong <= ParseDecimal(s).value <= MaxLong
    ensures r.Some? ==> r.value == ParseDecimal(s).value
  {
    match ParseDecimal(s)
    case Some(n) => if MinLong <= n <= MaxLong then Some(n) else None
    case None => None
  }

  /** The decimal digits of n without leading zeros (Integer.toString for n >= 0). */
  function FormatNat(n: nat): (r: string)
    ensures |r| > 0 && AllDigits(r)
    decreases n
  {
    if n < 10 then [('0' as int + n) as char]
    else FormatNat(n / 10) + [('0' as int + n % 10) as char]
  }

  /** Integer.toString / Long.toString. */
  function FormatDecimal(n: int): string {
    if n < 0 then "-" + FormatNat(-n) else FormatNat(n)
  }

  lemma {:induction false} FormatNatValue(n: nat)
    ensures DigitsValue(FormatNat(n)) == n
    decreases n
  {
    if n >= 10 {
      var prefix := FormatNat(n / 10);
      var s := FormatNat(n);
      assert s[..|s| - 1] == prefix;
      FormatNatValue(n / 10);
    }
  }

  /** Parsing reads back every number written in decimal. */
  lemma ParseFormatDecimal(n: int)
    ensures ParseDecimal(FormatDecimal(n)) == Some(n)
  {
    var s := FormatDecimal(n);
    if n < 0 {
      var f := FormatNat(-n);
      assert s == "-" + f;
      assert s[0] == '-' && |s| > 1;
      assert s[1..] == f;
      FormatNatValue(-n);
    } else {
      var f := FormatNat(n);
      assert s == f;
      assert IsDigit(f[0]);
      FormatNatValue(n);
    }
  }

  /** Every int written in decimal is read back by Integer.parseInt. */
  lemma ParseIntFormat(n: Int32)
    ensures ParseInt(FormatDecimal(n)) == Some(n)
  {
    ParseFormatDecimal(n);
  }

  // ---------------------------------------------------------------------------
  // Splitting

  /** d occurs in s at position i. */
  predicate OccursAt(s: string, d: string, i: nat) {
    i + |d| <= |s| && s[i..i + |d|] == d
  }

  /** d occurs nowhere in s. */
  predicate Free(s: string, d: string) {
    forall j :: 0 <= j < |s| ==> !OccursAt(s, d, j)
  }

  /** The first occurrence of d in s at or after from, as Guava's separator search finds it. */
  function IndexOf(s: string, d: string, from: nat): (r: Option<nat>)
    requires |d| > 0
    ensures r.Some? ==> from <= r.value && OccursAt(s, d, r.value)
    ensures r.Some? ==> forall j: nat :: from <= j < r.value ==> !OccursAt(s, d, j)
    ensures r.None? ==> forall j: nat :: from <= j ==> !OccursAt(s, d, j)
    decreases |s| - from
  {
    if from + |d| > |s| then None
    else if s[from..from + |d|] == d then Some(from)
    else IndexOf(s, d, from + 1)
  }

  /** The pieces are joined with d between consecutive ones. */
  function Join(pieces: seq<string>, d: string): string
    decreases |pieces|
  {
    if |pieces| == 0 then ""
    else if |pieces| == 1 then pieces[0]
    else pieces[0] + d + Join(pieces[1..], d)
  }

  /** Splitter.on(d).split(s): the pieces of s between the occurrences of d, found left
      to right. Joining them back with d gives s, no piece contains d, and the first piece
      ends at the leftmost occurrence of d (there is one piece exactly when d does not
      occur). */
  function Split(s: string, d: string): (r: seq<string>)
    requires |d| > 0
    ensures |r| > 0
    ensures |r| == 1 <==> IndexOf(s, d, 0).None?
    ensures |r| > 1 ==> IndexOf(s, d, 0) == Some(|r[0]|)
    ensures Join(r, d) == s
    ensures forall k :: 0 <= k < |r| ==> Free(r[k], d)
    ensures forall k :: 0 <= k < |r| - 1 ==> Clear(r[k], d)
    decreases |s|
  {
    match IndexOf(s, d, 0)
    case None =>
      assert forall j: nat :: !OccursAt(s, d, j) by {
        forall j: nat ensures !OccursAt(s, d, j) { }
      }
      [s]
    case Some(i) =>
      var head := s[..i];
      var rest := Split(s[i + |d|..], d);
      HeadClear(s, d, i);
      ClearFree(head, d);
      var r := [head] + rest;
      assert r[1..] == rest;
      assert s == head + d + s[i + |d|..];
      r
  }

  /** The piece before the leftmost occurrence of d is clear of d: an occurrence inside
      it, or one running on into that d, would start further left. */
  lemma HeadClear(s: string, d: string, i: nat)
    requires |d| > 0 && IndexOf(s, d, 0) == Some(i)
    ensures Clear(s[..i], d)
  {
    var y := s[..i] + d[..|d| - 1];
    assert y == s[..i + |d| - 1] by {
      assert s[i..i + |d|] == d;
    }
    forall j | 0 <= j < |y| ensures !OccursAt(y, d, j) {
      if j + |d| <= |y| {
        assert y[j..j + |d|] == s[j..j + |d|];
        assert !OccursAt(s, d, j);
      }
    }
  }

  /** A piece trimResults().omitEmptyStrings() lets through: non-empty, with no Guava
      whitespace at either end, so that trimming it changes nothing (TidyTrimmed). */
  predicate Tidy(x: string) {
    x != [] && !IsGuavaWhitespace(x[0]) && !IsGuavaWhitespace(x[|x| - 1])
  }

  lemma TidyTrimmed(x: string)
    requires Tidy(x)
    ensures GuavaTrim(x) == x
  {
  }

  /** Splitter.trimResults().omitEmptyStrings(): every piece trimmed, the empty ones dropped. */
  function Cleaned(parts: seq<string>): (r: seq<string>)
    ensures |r| <= |parts|
    ensures forall k :: 0 <= k < |r| ==> Tidy(r[k])
    decreases |parts|
  {
    if parts == [] then []
    else
      var t := GuavaTrim(parts[0]);
      (if t == [] then [] else [t]) + Cleaned(parts[1..])
  }

  lemma CleanedCons(parts: seq<string>)
    requires parts != []
    ensures Cleaned(parts) == Cleaned([parts[0]]) + Cleaned(parts[1..])
  {
    assert [parts[0]][1..] == [];
  }

  /** Cleaning keeps the pieces in order, one piece at a time (so duplicates stay). */
  lemma {:induction false} CleanedAppend(a: seq<string>, b: seq<string>)
    ensures Cleaned(a + b) == Cleaned(a) + Cleaned(b)
    decreases |a|
  {
    if a != [] {
      assert (a + b)[0] == a[0] && (a + b)[1..] == a[1..] + b;
      CleanedCons(a + b);
      CleanedCons(a);
      CleanedAppend(a[1..], b);
    } else {
      assert a + b == b;
    }
  }

  /** A piece that is already trimmed and non-empty is kept as it is. */
  lemma CleanedSingle(x: string)
    ensures Cleaned([x]) == if GuavaTrim(x) == [] then [] else [GuavaTrim(x)]
  {
    assert [x][1..] == [];
  }

  /** x can be followed by the delimiter d without d being found earlier: no occurrence
      of d starts inside x, not even one that runs on into the d after it. For a
      one-character delimiter this is just that x does not contain it. */
  predicate Clear(x: string, d: string) {
    |d| > 0 && Free(x + d[..|d| - 1], d)
  }

  /** No occurrence of d inside a clear piece, either. */
  lemma ClearFree(x: string, d: string)
    requires Clear(x, d)
    ensures Free(x, d)
  {
    var y := x + d[..|d| - 1];
    forall j | 0 <= j < |x| && OccursAt(x, d, j) ensures false {
      assert y[j..j + |d|] == x[j..j + |d|];
      assert OccursAt(y, d, j);
    }
  }

  /** A piece without the character c is clear of the one-character delimiter [c]. */
  lemma ClearSingle(x: string, c: char)
    requires forall j :: 0 <= j < |x| ==> x[j] != c
    ensures Clear(x, [c]) && Free(x, [c])
  {
    assert x + [c][..0] == x;
    forall j | 0 <= j < |x| ensures !OccursAt(x, [c], j) {
      assert j + 1 <= |x| ==> x[j..j + 1][0] == x[j];
    }
  }

  /** A string free of the delimiter splits into itself. */
  lemma SplitFree(x: string, d: string)
    requires |d| > 0 && Free(x, d)
    ensures Split(x, d) == [x]
  {
  }

  /** The first delimiter of x + d + tail is the one after x, when x is clear of it. */
  lemma SplitFirst(x: string, d: string, tail: string)
    requires Clear(x, d)
    ensures Split(x + d + tail, d) == [x] + Split(tail, d)
  {
    var s := x + d + tail;
    var y := x + d[..|d| - 1];
    assert OccursAt(s, d, |x|) by {
      assert s[|x|..|x| + |d|] == d;
    }
    forall j: nat | j < |x| ensures !OccursAt(s, d, j) {
      assert j + |d| <= |y|;
      assert s[j..j + |d|] == y[j..j + |d|];
      assert !OccursAt(y, d, j);
    }
    assert IndexOf(s, d, 0) == Some(|x|);
    assert s[..|x|] == x;
    assert s[|x| + |d|..] == tail;
  }

  /** Splitting the pieces joined by d gives them back, when every piece but the last is
      clear of d and the last one is free of it. */
  lemma {:induction false} SplitJoin(pieces: seq<string>, d: string)
    requires |d| > 0 && |pieces| > 0
    requires forall k :: 0 <= k < |pieces| - 1 ==> Clear(pieces[k], d)
    requires Free(pieces[|pieces| - 1], d)
    ensures Split(Join(pieces, d), d) == pieces
    decreases |pieces|
  {
    if |pieces| == 1 {
      SplitFree(pieces[0], d);
    } else {
      var x, rest := pieces[0], pieces[1..];
      forall k | 0 <= k < |rest| - 1 ensures Clear(rest[k], d) {
        assert rest[k] == pieces[k + 1];
      }
      assert rest[|rest| - 1] == pieces[|pieces| - 1];
      SplitJoin(rest, d);
      assert Join(pieces, d) == x + d + Join(rest, d);
      SplitFirst(x, d, Join(rest, d));
      assert pieces == [x] + rest;
    }
  }

  /** Pieces that are already trimmed and non-empty are kept as they are. */
  lemma {:induction false} CleanedClean(pieces: seq<string>)
    requires forall k :: 0 <= k < |pieces| ==> Tidy(pieces[k])
    ensures Cleaned(pieces) == pieces
    decreases |pieces|
  {
    if pieces != [] {
      var x, rest := pieces[0], pieces[1..];
      TidyTail(pieces);
      CleanedClean(rest);
      TidyTrimmed(x);
      assert Cleaned(pieces) == [x] + Cleaned(rest);
      assert pieces == [x] + rest;
    }
  }

  lemma TidyTail(pieces: seq<string>)
    requires |pieces| > 0 && forall k :: 0 <= k < |pieces| ==> Tidy(pieces[k])
    ensures forall k :: 0 <= k < |pieces| - 1 ==> Tidy(pieces[1..][k])
  {
    forall k | 0 <= k < |pieces| - 1 ensures Tidy(pieces[1..][k]) {
      assert pieces[1..][k] == pieces[k + 1];
    }
  }

  /** Splitting the pieces joined by d and cleaning them gives the pieces back, when they
      are trimmed and non-empty, every piece but the last is clear of d and the last one
      is free of it. */
  lemma CleanedSplitJoin(pieces: seq<string>, d: string)
    requires |d| > 0
    requires forall k :: 0 <= k < |pieces| ==> Tidy(pieces[k])
    requires forall k :: 0 <= k < |pieces| - 1 ==> Clear(pieces[k], d)
    requires |pieces| > 0 ==> Free(pieces[|pieces| - 1], d)
    ensures Cleaned(Split(Join(pieces, d), d)) == pieces
  {
    if |pieces| == 0 {
      assert Split("", d) == [""];
      CleanedSingle("");
    } else {
      SplitJoin(pieces, d);
      CleanedClean(pieces);
    }
  }
}
