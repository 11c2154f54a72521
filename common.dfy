// Shared value types and the Java string operations the backend relies on.
// Java strings are sequences of UTF-16 code units; here a string is a
// sequence of Unicode scalar values.  Every operation below cuts strings at
// ASCII delimiters, where both views agree.

module Common {

  datatype Option<T> = None | Some(value: T)

  datatype Result<T, E> = Ok(value: T) | Err(error: E)

  /** The Java exceptions the modelled code raises or lets escape. */
  datatype Exception =
    | NullPointer
    | IllegalState
    | IllegalArgument
    | NoSuchElement
    | Runtime
    | AccessDenied
    | NumberFormat
    | IncorrectResultSize
    | IndexOutOfBounds
    | ResponseStatus(status: int)

  /** The greater of two integers (Math.max). */
  function Max(a: int, b: int): (r: int)
    ensures r >= a && r >= b && (r == a || r == b)
  {
    if a >= b then a else b
  }

  /** The smaller of two integers (Math.min). */
  function Min(a: int, b: int): (r: int)
    ensures r <= a && r <= b && (r == a || r == b)
  {
    if a <= b then a else b
  }

  /** Position of the first element satisfying `p` (Stream.findFirst over an
      ordered source, or a repository lookup returning the first match). */
  function FirstIndex<T>(s: seq<T>, p: T -> bool): (r: Option<nat>)
    ensures r.Some? ==> r.value < |s| && p(s[r.value])
                        && forall j :: 0 <= j < r.value ==> !p(s[j])
    ensures r.None? ==> forall j :: 0 <= j < |s| ==> !p(s[j])
  {
    if s == [] then None
    else if p(s[0]) then Some(0)
    else match FirstIndex(s[1..], p)
      case None => None
      case Some(k) => Some(k + 1)
  }

  /** The first element satisfying `p`, if any. */
  function FindFirst<T>(s: seq<T>, p: T -> bool): (r: Option<T>)
    ensures r.Some? ==> r.value in s && p(r.value)
    ensures r.None? ==> forall j :: 0 <= j < |s| ==> !p(s[j])
  {
    match FirstIndex(s, p)
    case None => None
    case Some(i) => Some(s[i])
  }

  /** A finder declared to return one row (an Optional or a single
      entity): none for no match, the match for exactly one, and
      IncorrectResultSizeDataAccessException for two or more. */
  function SingleMatch<T>(s: seq<T>, p: T -> bool): (r: Result<Option<T>, Exception>)
    ensures r == Ok(None) <==> forall j :: 0 <= j < |s| ==> !p(s[j])
    ensures r.Ok? && r.value.Some? ==>
              r.value.value in s && p(r.value.value) && forall j :: 0 <= j < |s| && p(s[j]) ==> s[j] == r.value.value
    ensures r.Err? <==> exists i, j :: 0 <= i < j < |s| && p(s[i]) && p(s[j])
    ensures r.Err? ==> r.error == IncorrectResultSize
  {
    if s == [] then Ok(None)
    else
      var rest := SingleMatch(s[1..], p);
      assert forall j :: 1 <= j < |s| ==> s[j] == s[1..][j - 1];
      if !p(s[0]) then rest
      else if rest == Ok(None) then Ok(Some(s[0]))
      else Err(IncorrectResultSize)
  }

  /** The elements satisfying `p`, in order (Stream.filter, or a query's
      matches in natural order). */
  function Filter<T>(s: seq<T>, p: T -> bool): (r: seq<T>)
    ensures |r| <= |s|
    ensures forall i :: 0 <= i < |r| ==> r[i] in s && p(r[i])
    ensures forall i :: 0 <= i < |s| && p(s[i]) ==> s[i] in r
  {
    if s == [] then [] else (if p(s[0]) then [s[0]] else []) + Filter(s[1..], p)
  }

  /** `idx` places each element of `r` in `s`, at strictly increasing
      positions: `r` is `s` with some elements left out and the rest kept
      in their order. */
  ghost predicate OrderedPositions<T>(r: seq<T>, s: seq<T>, idx: seq<nat>)
  {
    && |idx| == |r|
    && (forall k :: 0 <= k < |idx| ==> idx[k] < |s| && s[idx[k]] == r[k])
    && (forall k, l :: 0 <= k < l < |idx| ==> idx[k] < idx[l])
  }

  /** The positions in `s` of the elements Filter keeps. */
  function FilterPositions<T>(s: seq<T>, p: T -> bool): (idx: seq<nat>)
    ensures OrderedPositions(Filter(s, p), s, idx)
  {
    if s == [] then []
    else
      var rest := FilterPositions(s[1..], p);
      assert Filter(s, p) == (if p(s[0]) then [s[0]] else []) + Filter(s[1..], p);
      ConsPositions(s, Filter(s[1..], p), rest, p(s[0]));
      (if p(s[0]) then [0] else []) + Shift(rest)
  }

  /** Every position one further on. */
  function Shift(idx: seq<nat>): (r: seq<nat>)
    ensures |r| == |idx| && forall k :: 0 <= k < |r| ==> r[k] == idx[k] + 1
  {
    seq(|idx|, k requires 0 <= k < |idx| => idx[k] + 1)
  }

  /** Positions in the tail of `s`, shifted, are positions in `s`; the head
      may be put in front at position 0. */
  lemma ConsPositions<T>(s: seq<T>, tail: seq<T>, rest: seq<nat>, keep: bool)
    requires s != [] && OrderedPositions(tail, s[1..], rest)
    ensures OrderedPositions((if keep then [s[0]] else []) + tail, s, (if keep then [0] else []) + Shift(rest))
  {
    ShiftPositions(s, tail, rest);
    if keep {
      PrependHead(s, tail, Shift(rest));
    } else {
      assert [] + tail == tail;
      assert [] + Shift(rest) == Shift(rest);
    }
  }

  lemma ShiftPositions<T>(s: seq<T>, tail: seq<T>, rest: seq<nat>)
    requires s != [] && OrderedPositions(tail, s[1..], rest)
    ensures OrderedPositions(tail, s, Shift(rest))
    ensures forall k :: 0 <= k < |rest| ==> Shift(rest)[k] > 0
  {
    var shifted := Shift(rest);
    forall k | 0 <= k < |shifted| ensures shifted[k] < |s| && s[shifted[k]] == tail[k] {
      assert s[shifted[k]] == s[1..][rest[k]];
    }
    forall k, l | 0 <= k < l < |shifted| ensures shifted[k] < shifted[l] {
      assert rest[k] < rest[l];
    }
  }

  lemma PrependHead<T>(s: seq<T>, tail: seq<T>, idx: seq<nat>)
    requires s != [] && OrderedPositions(tail, s, idx)
    requires forall k :: 0 <= k < |idx| ==> idx[k] > 0
    ensures OrderedPositions([s[0]] + tail, s, [0] + idx)
  {
    var r := [s[0]] + tail;
    var ix := [0] + idx;
    forall k | 0 <= k < |ix| ensures ix[k] < |s| && s[ix[k]] == r[k] {
      if k > 0 { assert ix[k] == idx[k - 1] && r[k] == tail[k - 1]; }
    }
    forall k, l | 0 <= k < l < |ix| ensures ix[k] < ix[l] {
      assert ix[l] == idx[l - 1];
      if k > 0 { assert ix[k] == idx[k - 1]; }
    }
  }

  lemma {:induction false} FilterAppend<T>(a: seq<T>, b: seq<T>, p: T -> bool)
    ensures Filter(a + b, p) == Filter(a, p) + Filter(b, p)
  {
    if a == [] {
      assert a + b == b;
    } else {
      assert (a + b)[1..] == a[1..] + b;
      FilterAppend(a[1..], b, p);
    }
  }

  /** Filtering by a predicate that agrees with another on every element
      gives the same result. */
  lemma {:induction false} FilterAgrees<T>(s: seq<T>, p: T -> bool, q: T -> bool)
    requires forall i :: 0 <= i < |s| ==> p(s[i]) == q(s[i])
    ensures Filter(s, p) == Filter(s, q)
  {
    if s != [] {
      FilterAgrees(s[1..], p, q);
    }
  }

  /** Filtering keeps any relation that holds between every element and
      each later one. */
  lemma {:induction false} FilterPairwise<T>(s: seq<T>, p: T -> bool, rel: (T, T) -> bool)
    requires forall i, j :: 0 <= i < j < |s| ==> rel(s[i], s[j])
    ensures forall i, j :: 0 <= i < j < |Filter(s, p)| ==> rel(Filter(s, p)[i], Filter(s, p)[j])
  {
    if s != [] {
      var tail := s[1..];
      forall i, j | 0 <= i < j < |tail| ensures rel(tail[i], tail[j]) {
        assert tail[i] == s[i + 1] && tail[j] == s[j + 1];
      }
      FilterPairwise(tail, p, rel);
      var rest := Filter(tail, p);
      var t := Filter(s, p);
      if p(s[0]) {
        assert t == [s[0]] + rest;
        forall k | 0 <= k < |rest| ensures rel(s[0], rest[k]) {
          var m :| 0 <= m < |tail| && tail[m] == rest[k];
          assert tail[m] == s[m + 1];
        }
        forall i, j | 0 <= i < j < |t| ensures rel(t[i], t[j]) {
          assert t[j] == rest[j - 1];
          if i != 0 {
            assert t[i] == rest[i - 1];
          }
        }
      } else {
        assert t == rest;
      }
    }
  }

  /** Stream.filter followed by a map that can throw, collected: the images
      of the kept elements in order, or the exception of the first kept
      element whose image fails. */
  function FilterMapOk<A, B, E>(xs: seq<A>, keep: A -> bool, f: A -> Result<B, E>): Result<seq<B>, E>
    decreases |xs|
  {
    if xs == [] then Ok([])
    else
      var rest := FilterMapOk(xs[1..], keep, f);
      if !keep(xs[0]) then rest
      else
        match f(xs[0])
        case Err(e) => Err(e)
        case Ok(b) => if rest.Err? then rest else Ok([b] + rest.value)
  }

  /** `b` is the image of a kept element of `xs`. */
  ghost predicate ImageOf<A, B, E>(xs: seq<A>, keep: A -> bool, f: A -> Result<B, E>, b: B)
  {
    exists k :: 0 <= k < |xs| && keep(xs[k]) && f(xs[k]) == Ok(b)
  }

  /** The collection succeeds exactly when every kept element's image does,
      and then holds exactly those images. */
  lemma {:induction false} FilterMapOkProperties<A, B, E>(xs: seq<A>, keep: A -> bool, f: A -> Result<B, E>)
    ensures FilterMapOk(xs, keep, f).Ok? <==> forall k :: 0 <= k < |xs| && keep(xs[k]) ==> f(xs[k]).Ok?
    ensures FilterMapOk(xs, keep, f).Ok? ==>
              forall i :: 0 <= i < |FilterMapOk(xs, keep, f).value| ==> ImageOf(xs, keep, f, FilterMapOk(xs, keep, f).value[i])
    ensures FilterMapOk(xs, keep, f).Ok? ==>
              forall k :: 0 <= k < |xs| && keep(xs[k]) ==> f(xs[k]).value in FilterMapOk(xs, keep, f).value
    decreases |xs|
  {
    if xs != [] {
      var tail := xs[1..];
      FilterMapOkProperties(tail, keep, f);
      var r := FilterMapOk(xs, keep, f);
      var rest := FilterMapOk(tail, keep, f);
      assert forall k :: 1 <= k < |xs| ==> xs[k] == tail[k - 1];
      var shift := if keep(xs[0]) then 1 else 0;
      if r.Ok? {
        assert rest.Ok?;
        if keep(xs[0]) {
          assert f(xs[0]).Ok? && r.value == [f(xs[0]).value] + rest.value;
        } else {
          assert r == rest;
        }
        forall i | 0 <= i < |r.value| ensures ImageOf(xs, keep, f, r.value[i]) {
          if keep(xs[0]) && i == 0 {
            assert keep(xs[0]) && f(xs[0]) == Ok(r.value[0]);
          } else {
            assert r.value[i] == rest.value[i - shift];
            assert ImageOf(tail, keep, f, rest.value[i - shift]);
            var k :| 0 <= k < |tail| && keep(tail[k]) && f(tail[k]) == Ok(rest.value[i - shift]);
            assert xs[k + 1] == tail[k] && keep(xs[k + 1]) && f(xs[k + 1]) == Ok(r.value[i]);
          }
        }
        forall k | 0 <= k < |xs| && keep(xs[k]) ensures f(xs[k]).Ok? && f(xs[k]).value in r.value {
          if k > 0 {
            assert xs[k] == tail[k - 1];
            assert f(tail[k - 1]).value in rest.value;
          }
        }
      }
    }
  }

  /** Stream.distinct: the first occurrence of each element, in order. */
  function Distinct<T(==,!new)>(s: seq<T>): (r: seq<T>)
    ensures forall x :: x in r <==> x in s
    ensures forall i, j :: 0 <= i < j < |r| ==> r[i] != r[j]
  {
    if s == [] then []
    else
      var d := Distinct(s[..|s| - 1]);
      if s[|s| - 1] in d then d else d + [s[|s| - 1]]
  }

  /** Java's rendering of a possibly-null string in a concatenation. */
  function Text(s: Option<string>): string
  {
    if s.Some? then s.value else "null"
  }

  // ---------------------------------------------------------------------
  // Prefixes, substrings and character search

  predicate StartsWith(s: string, prefix: string)
  {
    |prefix| <= |s| && s[..|prefix|] == prefix
  }

  /** String.contains: `needle` occurs somewhere in `s`. */
  predicate Contains(s: string, needle: string)
  {
    exists i :: 0 <= i <= |s| && StartsWith(s[i..], needle)
  }

  /** String.indexOf(needle): the first position where `needle` occurs, or
      -1. */
  function IndexOf(s: string, needle: string): (r: int)
    ensures -1 <= r <= |s|
    ensures r >= 0 ==> StartsWith(s[r..], needle) && forall j :: 0 <= j < r ==> !StartsWith(s[j..], needle)
    ensures r == -1 <==> !Contains(s, needle)
  {
    if StartsWith(s, needle) then 0
    else if s == [] then
      assert forall i :: 0 <= i <= |s| ==> s[i..] == s;
      -1
    else
      var k := IndexOf(s[1..], needle);
      assert forall j :: 1 <= j <= |s| ==> s[j..] == s[1..][j - 1..];
      if k < 0 then -1 else k + 1
  }

  /** Number of occurrences of `c` in `s`. */
  function CountChar(s: string, c: char): (n: nat)
    ensures n <= |s|
    ensures n == 0 <==> c !in s
  {
    if s == [] then 0
    else CountChar(s[..|s| - 1], c) + (if s[|s| - 1] == c then 1 else 0)
  }

  /** String.lastIndexOf(char): the last index holding `c`, or -1. */
  function LastIndexOf(s: string, c: char): (r: int)
    ensures -1 <= r < |s|
    ensures r >= 0 ==> s[r] == c && forall j :: r < j < |s| ==> s[j] != c
    ensures r == -1 ==> c !in s
  {
    if s == [] then -1
    else if s[|s| - 1] == c then |s| - 1
    else LastIndexOf(s[..|s| - 1], c)
  }

  /** The part of `s` after the last `c`; all of `s` when `c` does not occur. */
  function AfterLast(s: string, c: char): (r: string)
    ensures c !in r
    ensures |r| <= |s| && r == s[|s| - |r|..]
    ensures c in s ==> |r| < |s| && s[|s| - |r| - 1] == c
  {
    s[LastIndexOf(s, c) + 1..]
  }

  // ---------------------------------------------------------------------
  // Whitespace: Character.isWhitespace (String.isBlank, StringUtils.hasText)
  // and the code-point-at-most-space rule of String.trim

  /** Character.isWhitespace: the Unicode space, line and paragraph
      separators other than the no-break spaces, plus the ASCII controls
      U+0009..U+000D and U+001C..U+001F. */
  predicate IsWhitespace(c: char)
  {
    c == ' ' || ('\t' <= c <= '\r') || ('\U{1C}' <= c <= '\U{1F}')
    || c == '\U{1680}' || ('\U{2000}' <= c <= '\U{2006}') || ('\U{2008}' <= c <= '\U{200A}')
    || c == '\U{2028}' || c == '\U{2029}' || c == '\U{205F}' || c == '\U{3000}'
  }

  /** String.isBlank: every character is whitespace (true for ""). */
  predicate IsBlank(s: string)
  {
    forall i :: 0 <= i < |s| ==> IsWhitespace(s[i])
  }

  /** StringUtils.hasText: non-null and holding a non-whitespace character. */
  predicate HasText(s: Option<string>)
  {
    s.Some? && !IsBlank(s.value)
  }

  /** The characters String.trim removes: code points up to U+0020. */
  predicate IsTrimmed(c: char)
  {
    c <= ' '
  }

  function TrimStart(s: string): (r: string)
    ensures |r| <= |s| && r == s[|s| - |r|..]
    ensures forall i :: 0 <= i < |s| - |r| ==> IsTrimmed(s[i])
    ensures r == [] || !IsTrimmed(r[0])
  {
    if s != [] && IsTrimmed(s[0]) then TrimStart(s[1..]) else s
  }

  function TrimEnd(s: string): (r: string)
    ensures |r| <= |s| && r == s[..|r|]
    ensures forall i :: |r| <= i < |s| ==> IsTrimmed(s[i])
    ensures r == [] || !IsTrimmed(r[|r| - 1])
  {
    if s != [] && IsTrimmed(s[|s| - 1]) then TrimEnd(s[..|s| - 1]) else s
  }

  /** String.trim. */
  function Trim(s: string): (r: string)
    ensures r == [] || (!IsTrimmed(r[0]) && !IsTrimmed(r[|r| - 1]))
    ensures |r| <= |s|
  {
    TrimEnd(TrimStart(s))
  }

  lemma {:induction false} TrimEmptyIffAllTrimmed(s: string)
    ensures Trim(s) == [] <==> forall i :: 0 <= i < |s| ==> IsTrimmed(s[i])
  {
    var t := TrimStart(s);
    if t != [] {
      assert !IsTrimmed(t[0]);
      assert TrimEnd(t) != [];
      assert s[|s| - |t|] == t[0];
    }
  }

  // ---------------------------------------------------------------------
  // String.equalsIgnoreCase against a lower-case ASCII word

  /** Java's case-insensitive character match of `c` against the lower-case
      ASCII letter `lower`: equal, equal in upper case, or equal after
      folding the upper case back to lower case.  Besides the ASCII pair this
      admits U+0130 and U+0131 for 'i', U+017F for 's' and U+212A for 'k'. */
  predicate SameLetterIgnoringCase(c: char, lower: char)
    requires 'a' <= lower <= 'z'
  {
    c == lower || c as int == lower as int - 32
    || (lower == 'i' && (c == '\U{130}' || c == '\U{131}'))
    || (lower == 's' && c == '\U{17F}')
    || (lower == 'k' && c == '\U{212A}')
  }

  predicate IsLowerAsciiWord(w: string)
  {
    forall i :: 0 <= i < |w| ==> 'a' <= w[i] <= 'z'
  }

  /** `word`.equalsIgnoreCase(s) for a lower-case ASCII `word`; a null `s`
      never matches. */
  predicate EqualsIgnoreCase(s: Option<string>, word: string)
    requires IsLowerAsciiWord(word)
  {
    s.Some? && |s.value| == |word|
    && forall i :: 0 <= i < |word| ==> SameLetterIgnoringCase(s.value[i], word[i])
  }

  // ---------------------------------------------------------------------
  // Long.parseLong / Long.valueOf on decimal text

  const MinLong: int := -0x8000_0000_0000_0000
  const MaxLong: int := 0x7FFF_FFFF_FFFF_FFFF

  predicate IsDigit(c: char)
  {
    '0' <= c <= '9'
  }

  predicate AllDigits(s: string)
  {
    forall i :: 0 <= i < |s| ==> IsDigit(s[i])
  }

  function DigitsValue(s: string): (n: nat)
    requires AllDigits(s)
  {
    if s == [] then 0
    else DigitsValue(s[..|s| - 1]) * 10 + (s[|s| - 1] as int - '0' as int)
  }

  /** Long.parseLong: an optional '+' or '-', then one or more ASCII digits,
      with a value inside the signed 64-bit range; None where Java throws
      NumberFormatException (including a null argument). */
  function ParseLong(s: Option<string>): (r: Option<int>)
    ensures r.Some? ==> MinLong <= r.value <= MaxLong
    ensures r.Some? ==> s.Some? && s.value != []
  {
    if s.None? || s.value == [] then None
    else
      var t := s.value;
      var negative := t[0] == '-';
      var digits := if t[0] == '-' || t[0] == '+' then t[1..] else t;
      if digits == [] || !AllDigits(digits) then None
      else
        var magnitude: int := DigitsValue(digits);
        var v := if negative then 0 - magnitude else magnitude;
        if MinLong <= v <= MaxLong then Some(v) else None
  }

  /** Decimal rendering of a natural number (Long.toString of a
      non-negative value). */
  function NatToString(n: nat): (s: string)
    ensures s != [] && AllDigits(s)
    ensures DigitsValue(s) == n
    decreases n
  {
    if n < 10 then [('0' as int + n) as char]
    else
      var s := NatToString(n / 10) + [('0' as int + n % 10) as char];
      assert s[..|s| - 1] == NatToString(n / 10);
      s
  }

  lemma ParseLongOfNatToString(n: nat)
    requires n <= MaxLong
    ensures ParseLong(Some(NatToString(n))) == Some(n)
  {
    var t := NatToString(n);
    assert t[0] != '-' && t[0] != '+' by { assert IsDigit(t[0]); }
  }
}
