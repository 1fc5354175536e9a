/** Failure-carrying wrappers shared by every module. */
module Wrappers {

  /** Python's `None` or a present value. */
  datatype Option<+T> = None | Some(value: T)

  /** A value, or the exception a call raised instead. */
  datatype Result<+T, +E> = Ok(value: T) | Err(error: E)
}

/**
 * The string primitives of Python that the scripts rely on: `str.isspace`,
 * `str.split()`, `str.strip()`, `str.isdigit`, `str.replace(c, "")`,
 * `int(str)` and the slice `s[:n]`, each written out over `seq<char>`.
 */
module Text {
  import opened Wrappers

  /** The characters for which Python's `str.isspace()` holds. */
  predicate IsSpace(c: char) {
    || c == ' '
    || ('\t' <= c <= '\r')
    || ('\U{1c}' <= c <= '\U{1f}')
    || c == '\U{85}' || c == '\U{a0}' || c == '\U{1680}'
    || ('\U{2000}' <= c <= '\U{200a}')
    || c == '\U{2028}' || c == '\U{2029}' || c == '\U{202f}' || c == '\U{205f}' || c == '\U{3000}'
  }

  predicate NoSpace(s: string) {
    forall i :: 0 <= i < |s| ==> !IsSpace(s[i])
  }

  /** The characters of `s` that are not whitespace, in order. */
  function NonSpace(s: string): (r: string)
    ensures NoSpace(r) && |r| <= |s|
  {
    if s == [] then []
    else (if IsSpace(s[0]) then [] else [s[0]]) + NonSpace(s[1..])
  }

  /** The concatenation of a sequence of strings. */
  function Concat(ss: seq<string>): string {
    if ss == [] then [] else ss[0] + Concat(ss[1..])
  }

  // ---------------------------------------------------------------------
  // str.split() with no separator

  function Flush(word: string): seq<string> {
    if word == [] then [] else [word]
  }

  /** The tokens of `word + s`, where `word` is a token still being read. */
  function SplitFrom(s: string, word: string): seq<string> {
    if s == [] then Flush(word)
    else if IsSpace(s[0]) then Flush(word) + SplitFrom(s[1..], [])
    else SplitFrom(s[1..], word + [s[0]])
  }

  /** Python's `s.split()`: the maximal runs of non-whitespace characters, in order. */
  function Split(s: string): seq<string> {
    SplitFrom(s, [])
  }

  ghost predicate WellFormedTokens(ts: seq<string>) {
    forall i :: 0 <= i < |ts| ==> |ts[i]| > 0 && NoSpace(ts[i])
  }

  lemma ConcatAppend(a: seq<string>, b: seq<string>)
    ensures Concat(a + b) == Concat(a) + Concat(b)
  {
    if a == [] {
      assert a + b == b;
    } else {
      assert (a + b)[0] == a[0];
      assert (a + b)[1..] == a[1..] + b;
      ConcatAppend(a[1..], b);
    }
  }

  lemma WellFormedAppend(a: seq<string>, b: seq<string>)
    requires WellFormedTokens(a) && WellFormedTokens(b)
    ensures WellFormedTokens(a + b)
  {
    forall i | 0 <= i < |a + b| ensures |(a + b)[i]| > 0 && NoSpace((a + b)[i]) {
      if i < |a| {
        assert (a + b)[i] == a[i];
      } else {
        assert (a + b)[i] == b[i - |a|];
      }
    }
  }

  lemma {:induction false} SplitFromTokens(s: string, word: string)
    requires NoSpace(word)
    ensures WellFormedTokens(SplitFrom(s, word))
    ensures Concat(SplitFrom(s, word)) == word + NonSpace(s)
    decreases |s|
  {
    if s == [] {
    } else if IsSpace(s[0]) {
      var rest := SplitFrom(s[1..], []);
      SplitFromTokens(s[1..], []);
      assert SplitFrom(s, word) == Flush(word) + rest;
      WellFormedAppend(Flush(word), rest);
      ConcatAppend(Flush(word), rest);
      assert Concat(Flush(word)) == word by {
        if word != [] {
          assert Concat([word]) == word + Concat([]);
        }
      }
      assert NonSpace(s) == NonSpace(s[1..]);
    } else {
      SplitFromTokens(s[1..], word + [s[0]]);
      assert NonSpace(s) == [s[0]] + NonSpace(s[1..]);
      assert word + [s[0]] + NonSpace(s[1..]) == word + NonSpace(s);
    }
  }

  /** Every token is non-empty and free of whitespace, and together the tokens
      hold exactly the non-whitespace characters of `s`, in order. */
  lemma SplitTokens(s: string)
    ensures WellFormedTokens(Split(s))
    ensures Concat(Split(s)) == NonSpace(s)
  {
    SplitFromTokens(s, []);
  }

  /** The tokens alone, without what they add up to. */
  lemma SplitWellFormed(s: string)
    ensures WellFormedTokens(Split(s))
  {
    SplitTokens(s);
  }

  lemma {:induction false} SplitFromAtSpace(x: string, c: char, y: string, word: string)
    requires IsSpace(c)
    ensures SplitFrom(x + [c] + y, word) == SplitFrom(x, word) + SplitFrom(y, [])
    decreases |x|
  {
    if x == [] {
      assert x + [c] + y == [c] + y;
    } else {
      assert (x + [c] + y)[1..] == x[1..] + [c] + y;
      if IsSpace(x[0]) {
        SplitFromAtSpace(x[1..], c, y, []);
      } else {
        SplitFromAtSpace(x[1..], c, y, word + [x[0]]);
      }
    }
  }

  /** A whitespace character separates: splitting distributes over it. */
  lemma SplitAtSpace(x: string, c: char, y: string)
    requires IsSpace(c)
    ensures Split(x + [c] + y) == Split(x) + Split(y)
  {
    SplitFromAtSpace(x, c, y, []);
  }

  lemma {:induction false} SplitFromWord(w: string, word: string)
    requires NoSpace(w)
    ensures SplitFrom(w, word) == Flush(word + w)
    decreases |w|
  {
    if w == [] {
      assert word + w == word;
    } else {
      assert !IsSpace(w[0]);
      SplitFromWord(w[1..], word + [w[0]]);
      assert word + [w[0]] + w[1..] == word + w;
    }
  }

  /** A run without whitespace is one token (none when it is empty). */
  lemma SplitWord(w: string)
    requires NoSpace(w)
    ensures Split(w) == Flush(w)
  {
    SplitFromWord(w, []);
    assert [] + w == w;
  }

  /** Empty or all-whitespace text has no tokens. */
  lemma {:induction false} SplitBlank(s: string)
    requires forall i :: 0 <= i < |s| ==> IsSpace(s[i])
    ensures Split(s) == []
  {
    SplitTokens(s);
    BlankNonSpace(s);
  }

  lemma {:induction false} BlankNonSpace(s: string)
    requires forall i :: 0 <= i < |s| ==> IsSpace(s[i])
    ensures NonSpace(s) == []
    decreases |s|
  {
    if s != [] {
      BlankNonSpace(s[1..]);
    }
  }

  // ---------------------------------------------------------------------
  // str.strip() with no argument

  /** The number of whitespace characters at the front of `s`. */
  function LeadingSpace(s: string): (n: nat)
    ensures n <= |s|
    ensures forall k :: 0 <= k < n ==> IsSpace(s[k])
    ensures n < |s| ==> !IsSpace(s[n])
  {
    if s != [] && IsSpace(s[0]) then 1 + LeadingSpace(s[1..]) else 0
  }

  /** Where the whitespace at the back of `s` begins. */
  function TrailingStart(s: string): (n: nat)
    ensures n <= |s|
    ensures forall k :: n <= k < |s| ==> IsSpace(s[k])
    ensures n > 0 ==> !IsSpace(s[n - 1])
  {
    if s != [] && IsSpace(s[|s| - 1]) then TrailingStart(s[..|s| - 1]) else |s|
  }

  /** Python's `s.strip()`: the part of `s` from its first to its last
      non-whitespace character, with only whitespace around it. */
  function Strip(s: string): (r: string)
    ensures LeadingSpace(s) + |r| <= |s|
    ensures forall k :: 0 <= k < |r| ==> r[k] == s[LeadingSpace(s) + k]
    ensures forall k :: LeadingSpace(s) + |r| <= k < |s| ==> IsSpace(s[k])
    ensures r != [] ==> !IsSpace(r[0]) && !IsSpace(r[|r| - 1])
  {
    var a := LeadingSpace(s);
    TrailingSpaceFrom(s, a);
    s[a..a + TrailingStart(s[a..])]
  }

  /** The trailing whitespace of a suffix is trailing whitespace of the whole. */
  lemma TrailingSpaceFrom(s: string, a: nat)
    requires a <= |s|
    ensures forall k :: a + TrailingStart(s[a..]) <= k < |s| ==> IsSpace(s[k])
  {
    forall k | a + TrailingStart(s[a..]) <= k < |s| ensures IsSpace(s[k]) {
      assert s[a..][k - a] == s[k];
    }
  }

  /** Stripping a whitespace-free string changes nothing. */
  lemma StripNoSpace(s: string)
    requires NoSpace(s)
    ensures Strip(s) == s
  {
    assert LeadingSpace(s) == 0 by {
      if s != [] {
        assert !IsSpace(s[0]);
      }
    }
    assert TrailingStart(s) == |s| by {
      if s != [] {
        assert !IsSpace(s[|s| - 1]);
      }
    }
  }

  /** Every character that is not whitespace survives `strip()`, in its place
      among the others: shifted left by the leading whitespace. */
  lemma StripKeeps(s: string, i: nat)
    requires i < |s| && !IsSpace(s[i])
    ensures LeadingSpace(s) <= i < LeadingSpace(s) + |Strip(s)|
    ensures Strip(s)[i - LeadingSpace(s)] == s[i]
    ensures s[i] in Strip(s)
  {
    KeptInside(s, LeadingSpace(s), Strip(s), i);
  }

  /** A non-whitespace character lies inside a slice that has only
      whitespace around it. */
  lemma KeptInside(s: string, n: nat, r: string, i: nat)
    requires n + |r| <= |s|
    requires forall k :: 0 <= k < n ==> IsSpace(s[k])
    requires forall k :: n + |r| <= k < |s| ==> IsSpace(s[k])
    requires forall k :: 0 <= k < |r| ==> r[k] == s[n + k]
    requires i < |s| && !IsSpace(s[i])
    ensures n <= i < n + |r| && r[i - n] == s[i]
  {
  }

  // ---------------------------------------------------------------------
  // digits and int()

  /** An ASCII decimal digit. */
  predicate IsDigit(c: char) {
    '0' <= c <= '9'
  }

  predicate AllDigits(s: string) {
    forall i :: 0 <= i < |s| ==> IsDigit(s[i])
  }

  /** Python's `s.isdigit()`, restricted to ASCII digits: non-empty and all digits. */
  predicate IsDigitString(s: string) {
    |s| > 0 && AllDigits(s)
  }

  function DigitValue(c: char): (d: nat)
    requires IsDigit(c)
    ensures d < 10
  {
    c as int - '0' as int
  }

  function DigitChar(d: nat): (c: char)
    requires d < 10
    ensures IsDigit(c) && DigitValue(c) == d
  {
    ('0' as int + d) as char
  }

  /** The value of a string of decimal digits, most significant first. */
  function DecimalValue(s: string): nat
    requires AllDigits(s)
  {
    if s == [] then 0 else 10 * DecimalValue(s[..|s| - 1]) + DigitValue(s[|s| - 1])
  }

  /** The shortest decimal rendering of `n`. */
  function DecimalString(n: nat): string {
    if n < 10 then [DigitChar(n)] else DecimalString(n / 10) + [DigitChar(n % 10)]
  }

  /** Rendering a number and reading it back gives the number. */
  lemma {:induction false} DecimalRoundTrip(n: nat)
    ensures IsDigitString(DecimalString(n))
    ensures DecimalValue(DecimalString(n)) == n
  {
    if n >= 10 {
      DecimalRoundTrip(n / 10);
      var s := DecimalString(n);
      assert s[..|s| - 1] == DecimalString(n / 10);
    }
  }

  /** Every occurrence of `c` removed from `s`: Python's `s.replace(c, "")`. */
  function Remove(s: string, c: char): (r: string)
    ensures c !in r && |r| <= |s|
  {
    if s == [] then [] else (if s[0] == c then [] else [s[0]]) + Remove(s[1..], c)
  }

  /** Removing a character that does not occur changes nothing. */
  lemma {:induction false} RemoveAbsent(s: string, c: char)
    requires c !in s
    ensures Remove(s, c) == s
  {
    if s != [] {
      RemoveAbsent(s[1..], c);
    }
  }

  /** Digits grouped by single underscores, as `int()` accepts them: `[0-9](_?[0-9])*`. */
  predicate IsGroupedDigits(s: string) {
    && |s| > 0
    && IsDigit(s[0]) && IsDigit(s[|s| - 1])
    && (forall i :: 0 <= i < |s| ==> IsDigit(s[i]) || s[i] == '_')
    && (forall i :: 0 <= i < |s| - 1 ==> s[i] == '_' ==> s[i + 1] != '_')
  }

  lemma RemoveKeepsDigits(s: string, c: char)
    requires forall i :: 0 <= i < |s| ==> IsDigit(s[i]) || s[i] == c
    ensures AllDigits(Remove(s, c))
  {
  }

  /** The unsigned part of `int()`'s accepted syntax. */
  function UnsignedValue(s: string): Option<nat> {
    if IsGroupedDigits(s) then
      RemoveKeepsDigits(s, '_');
      Some(DecimalValue(Remove(s, '_')))
    else None
  }

  /** Python's `int(s)` for base 10, on ASCII text: surrounding whitespace is
      ignored, one optional sign, digits with single underscores between them;
      anything else raises `ValueError`, modelled as `None`. */
  function PyInt(s: string): (r: Option<int>)
    ensures r.Some? ==> Strip(s) != []
  {
    var t := Strip(s);
    if t != [] && (t[0] == '+' || t[0] == '-') then
      match UnsignedValue(t[1..])
      case None => None
      case Some(v) => Some(if t[0] == '-' then 0 - v else v)
    else
      match UnsignedValue(t)
      case None => None
      case Some(v) => Some(v)
  }

  /** A non-empty string of ASCII digits is accepted unsigned, with its decimal value. */
  lemma UnsignedDigits(s: string)
    requires IsDigitString(s)
    ensures UnsignedValue(s) == Some(DecimalValue(s))
  {
    assert '_' !in s;
    RemoveAbsent(s, '_');
  }

  /** `int()` of a non-empty string of ASCII digits is its decimal value; `int("")` raises. */
  lemma PyIntDigits(s: string)
    requires AllDigits(s)
    ensures PyInt(s) == if s == [] then None else Some(DecimalValue(s))
  {
    if s != [] {
      assert NoSpace(s) by {
        forall i | 0 <= i < |s| ensures !IsSpace(s[i]) {
          assert IsDigit(s[i]);
        }
      }
      StripNoSpace(s);
      assert !(s[0] == '+' || s[0] == '-') by {
        assert IsDigit(s[0]);
      }
      UnsignedDigits(s);
    }
  }

  // ---------------------------------------------------------------------
  // slicing

  /** Python's `s[:n]`: a negative `n` counts from the end, and the bound is clamped. */
  function SliceTo<T>(s: seq<T>, n: int): (r: seq<T>)
    ensures r <= s
    ensures |r| == if n >= 0 then (if n <= |s| then n else |s|)
                   else (if |s| + n >= 0 then |s| + n else 0)
  {
    if n >= |s| then s
    else if n >= 0 then s[..n]
    else if |s| + n >= 0 then s[..|s| + n]
    else []
  }
}
