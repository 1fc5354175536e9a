/**
 * The text-to-count logic of the job-count providers. The page download and
 * the HTML lookup are inputs: the text of the element the provider looks
 * for, or `None` when the page has no such element.
 */
module JobCounts {
  import opened Wrappers
  import opened Text

  /** The `ValueError` that `int()` raises on text that is not a number. */
  datatype CountError = ValueError

  /** `int(s)` with its exception as a value. */
  function ToCount(v: Option<int>): Result<int, CountError> {
    match v
    case None => Err(ValueError)
    case Some(n) => Ok(n)
  }

  function Pow10(k: nat): (r: nat)
    ensures r >= 1
  {
    if k == 0 then 1 else 10 * Pow10(k - 1)
  }

  /** Digits written after digits shift the first ones `|b|` places left. */
  lemma {:induction false} DecimalValueAppend(a: string, b: string)
    requires AllDigits(a) && AllDigits(b)
    ensures AllDigits(a + b)
    ensures DecimalValue(a + b) == DecimalValue(a) * Pow10(|b|) + DecimalValue(b)
    decreases |b|
  {
    if b == [] {
      assert a + b == a;
    } else {
      var b' := b[..|b| - 1];
      var ab := a + b;
      assert ab[..|ab| - 1] == a + b';
      assert ab[|ab| - 1] == b[|b| - 1];
      DecimalValueAppend(a, b');
      assert Pow10(|b|) == 10 * Pow10(|b'|);
      ShiftDigit(DecimalValue(a), Pow10(|b'|), DecimalValue(b'), DigitValue(b[|b| - 1]));
    }
  }

  lemma ShiftDigit(x: int, p: int, y: int, d: int)
    ensures 10 * (x * p + y) + d == x * (10 * p) + (10 * y + d)
  {
    calc {
      10 * (x * p + y) + d;
      10 * (x * p) + 10 * y + d;
      { assert 10 * (x * p) == x * (10 * p); }
      x * (10 * p) + (10 * y + d);
    }
  }

  // ---------------------------------------------------------------------
  // HH: the leading run of all-digit words of the heading

  /** The number of leading words that are all digits. */
  function DigitRun(words: seq<string>): (n: nat)
    ensures n <= |words|
    ensures forall j :: 0 <= j < n ==> IsDigitString(words[j])
    ensures n < |words| ==> !IsDigitString(words[n])
  {
    if words == [] || !IsDigitString(words[0]) then 0 else 1 + DigitRun(words[1..])
  }

  /** The leading run of all-digit words, joined without separators. */
  function LeadingDigits(words: seq<string>): string {
    Concat(words[..DigitRun(words)])
  }

  /** The HH count of the heading text; no heading counts as 0. */
  function HHCount(heading: Option<string>): Result<int, CountError> {
    match heading
    case None => Ok(0)
    case Some(text) => ToCount(PyInt(LeadingDigits(Split(text))))
  }

  lemma ConcatPrefixStep(words: seq<string>, i: nat)
    requires i < |words|
    ensures Concat(words[..i + 1]) == Concat(words[..i]) + words[i]
  {
    assert words[..i + 1] == words[..i] + [words[i]];
    ConcatAppend(words[..i], [words[i]]);
    assert Concat([words[i]]) == words[i] + Concat([]);
  }

  /** `HHProvider.get_jobs_count` once the heading has been looked up: the
      words of the heading are joined while they are all digits, and the
      result is read with `int()`. */
  method HHJobsCount(heading: Option<string>) returns (r: Result<int, CountError>)
    ensures r == HHCount(heading)
  {
    if heading.None? {
      return Ok(0);
    }
    var count := "";
    var words := Split(heading.value);
    var i := 0;
    while i < |words|
      invariant 0 <= i <= |words|
      invariant forall j :: 0 <= j < i ==> IsDigitString(words[j])
      invariant count == Concat(words[..i])
    {
      if IsDigitString(words[i]) {
        ConcatPrefixStep(words, i);
        count := count + words[i];
      } else {
        break;
      }
      i := i + 1;
    }
    assert i == DigitRun(words);
    r := ToCount(PyInt(count));
  }

  lemma {:induction false} ConcatDigits(words: seq<string>)
    requires forall j :: 0 <= j < |words| ==> IsDigitString(words[j])
    ensures AllDigits(Concat(words))
    ensures |words| > 0 ==> |Concat(words)| > 0
  {
    if words != [] {
      ConcatDigits(words[1..]);
      assert Concat(words) == words[0] + Concat(words[1..]);
    }
  }

  /** The count is read when the heading's first word is all digits, and is
      then the non-negative decimal value of the joined digits; otherwise
      the joined text is empty and `int("")` raises. */
  lemma HHCountValue(text: string)
    ensures AllDigits(LeadingDigits(Split(text)))
    ensures HHCount(Some(text)).Ok? <==> Split(text) != [] && IsDigitString(Split(text)[0])
    ensures HHCount(Some(text)).Ok? ==>
      HHCount(Some(text)).value == DecimalValue(LeadingDigits(Split(text))) >= 0
  {
    var words := Split(text);
    var n := DigitRun(words);
    ConcatDigits(words[..n]);
    PyIntDigits(LeadingDigits(words));
    if n == 0 {
      assert words[..n] == [];
    }
  }

  /** Words cannot move the first non-digit word: the run stops there. */
  lemma DigitRunAppend(a: seq<string>, b: seq<string>)
    requires DigitRun(a) < |a|
    ensures DigitRun(a + b) == DigitRun(a)
    ensures (a + b)[..DigitRun(a)] == a[..DigitRun(a)]
  {
    var n, m := DigitRun(a), DigitRun(a + b);
    assert (a + b)[n] == a[n];
    assert (a + b)[..n] == a[..n];
  }

  /** Once a heading has a word that is not all digits, whatever follows it
      does not change the count. */
  lemma HHIgnoresRest(x: string, c: char, y1: string, y2: string)
    requires IsSpace(c)
    requires DigitRun(Split(x)) < |Split(x)|
    ensures HHCount(Some(x + [c] + y1)) == HHCount(Some(x + [c] + y2))
  {
    SplitAtSpace(x, c, y1);
    SplitAtSpace(x, c, y2);
    DigitRunAppend(Split(x), Split(y1));
    DigitRunAppend(Split(x), Split(y2));
  }

  /** A count written in groups separated by whitespace, as in `12 345`
      followed by a word, reads as the number with the groups joined. */
  lemma HHGroupedCount(text: string, a: string, c: char, b: string, d: char, rest: string)
    requires text == a + [c] + b + [d] + rest
    requires IsDigitString(a) && IsDigitString(b)
    requires IsSpace(c) && IsSpace(d)
    requires Split(rest) == [] || !IsDigitString(Split(rest)[0])
    ensures HHCount(Some(text)) == Ok(DecimalValue(a + b))
    ensures DecimalValue(a + b) == DecimalValue(a) * Pow10(|b|) + DecimalValue(b)
  {
    SplitTwoWords(a, c, b, d, rest);
    LeadingTwoDigitWords(a, b, Split(rest));
    DecimalValueAppend(a, b);
    HHCountOf(text, a + b);
  }

  /** A heading whose leading digit words join to `digits` counts as their value. */
  lemma HHCountOf(text: string, digits: string)
    requires LeadingDigits(Split(text)) == digits && IsDigitString(digits)
    ensures HHCount(Some(text)) == Ok(DecimalValue(digits))
  {
    PyIntDigits(digits);
  }

  /** Two words, each followed by whitespace, are the first two tokens. */
  lemma SplitTwoWords(a: string, c: char, b: string, d: char, rest: string)
    requires NoSpace(a) && NoSpace(b) && a != [] && b != []
    requires IsSpace(c) && IsSpace(d)
    ensures Split(a + [c] + b + [d] + rest) == [a, b] + Split(rest)
  {
    SplitAtSpace(a + [c] + b, d, rest);
    SplitAtSpace(a, c, b);
    SplitWord(a);
    SplitWord(b);
  }

  /** Two digit words before a non-digit word (or none) are the joined digits. */
  lemma LeadingTwoDigitWords(a: string, b: string, more: seq<string>)
    requires IsDigitString(a) && IsDigitString(b)
    requires more == [] || !IsDigitString(more[0])
    ensures LeadingDigits([a, b] + more) == a + b
  {
    var words := [a, b] + more;
    assert words[0] == a && words[1] == b;
    assert words[1..][1..] == more;
    assert DigitRun(words) == 2;
    assert words[..2] == [a, b];
    assert Concat([b]) == b + Concat([]);
  }

  // ---------------------------------------------------------------------
  // Indeed: re.search(r"Page 1 of (.+) jobs", text)

  /** The literal in front of the group. */
  const PageHead: string := "Page 1 of "

  /** The literal after the group. */
  const JobsTail: string := " jobs"

  /** The literal `lit` stands at `p`. */
  predicate LitAt(t: string, p: nat, lit: string) {
    p + |lit| <= |t| && t[p..p + |lit|] == lit
  }

  /** `(.+) jobs` with the group from `q` to `e`: at least one character, no
      line break (`.` does not match one), then ` jobs`. */
  predicate GroupAt(t: string, q: nat, e: nat) {
    && q < e <= |t|
    && (forall k :: q <= k < e ==> t[k] != '\n')
    && LitAt(t, e, JobsTail)
  }

  /** The whole pattern matches at `p` with its group ending at `e`. */
  predicate MatchesAt(t: string, p: nat, e: nat) {
    LitAt(t, p, PageHead) && GroupAt(t, p + |PageHead|, e)
  }

  /** The end of the line that holds position `q`. */
  function LineEnd(t: string, q: nat): (n: nat)
    requires q <= |t|
    ensures q <= n <= |t|
    ensures forall k :: q <= k < n ==> t[k] != '\n'
    ensures n < |t| ==> t[n] == '\n'
    decreases |t| - q
  {
    if q == |t| || t[q] == '\n' then q else LineEnd(t, q + 1)
  }

  /** Greedy backtracking: the largest `e` in `(q, top]` where ` jobs` stands. */
  function LastTail(t: string, q: nat, top: nat): (r: Option<nat>)
    ensures r.Some? ==> q < r.value <= top && LitAt(t, r.value, JobsTail)
    ensures forall e :: (if r.Some? then r.value else q) < e <= top ==> !LitAt(t, e, JobsTail)
    decreases top
  {
    if top <= q then None
    else if LitAt(t, top, JobsTail) then Some(top)
    else LastTail(t, q, top - 1)
  }

  /** A match: where the pattern starts and where its group ends. */
  datatype Match = Match(start: nat, groupEnd: nat)

  /** `re.search` from position `p`: the leftmost start where the pattern
      matches, with the longest group there. */
  function SearchFrom(t: string, p: nat): Option<Match>
    decreases |t| - p
  {
    if p >= |t| then None
    else if LitAt(t, p, PageHead) then
      var q := p + |PageHead|;
      match LastTail(t, q, LineEnd(t, q))
      case Some(e) => Some(Match(p, e))
      case None => SearchFrom(t, p + 1)
    else SearchFrom(t, p + 1)
  }

  /** The group's text, `match[1]`. */
  function Group(t: string, m: Match): string
    requires m.start + |PageHead| <= m.groupEnd <= |t|
  {
    t[m.start + |PageHead|..m.groupEnd]
  }

  /** A group never runs past its line, so it ends at or before `LineEnd`. */
  lemma GroupsInLine(t: string, q: nat)
    requires q <= |t|
    ensures forall e: nat :: GroupAt(t, q, e) ==> e <= LineEnd(t, q)
  {
  }

  /** Where the head stands and a tail follows on its line, the last such
      tail ends the longest group there. */
  lemma LongestAt(t: string, p: nat)
    requires LitAt(t, p, PageHead)
    requires LastTail(t, p + |PageHead|, LineEnd(t, p + |PageHead|)).Some?
    ensures var e0 := LastTail(t, p + |PageHead|, LineEnd(t, p + |PageHead|)).value;
      MatchesAt(t, p, e0) && forall e: nat :: MatchesAt(t, p, e) ==> e <= e0
  {
    GroupsInLine(t, p + |PageHead|);
  }

  /** Without the head, or without a tail on its line, nothing matches at `p`. */
  lemma NoMatchAt(t: string, p: nat)
    requires !(LitAt(t, p, PageHead) && LastTail(t, p + |PageHead|, LineEnd(t, p + |PageHead|)).Some?)
    ensures forall e: nat :: !MatchesAt(t, p, e)
  {
    if LitAt(t, p, PageHead) {
      GroupsInLine(t, p + |PageHead|);
    }
  }

  /** What the search finds is a match; no match starts further left; and at
      its start no match has a longer group. */
  lemma {:induction false} SearchSound(t: string, p: nat)
    ensures SearchFrom(t, p).Some? ==>
      var m := SearchFrom(t, p).value;
      && p <= m.start
      && MatchesAt(t, m.start, m.groupEnd)
      && (forall e: nat :: MatchesAt(t, m.start, e) ==> e <= m.groupEnd)
      && (forall s: nat, e: nat :: p <= s < m.start ==> !MatchesAt(t, s, e))
    decreases |t| - p
  {
    if p < |t| {
      var q := p + |PageHead|;
      if LitAt(t, p, PageHead) && LastTail(t, q, LineEnd(t, q)).Some? {
        LongestAt(t, p);
        assert SearchFrom(t, p) == Some(Match(p, LastTail(t, q, LineEnd(t, q)).value));
      } else {
        NoMatchAt(t, p);
        SearchSound(t, p + 1);
        assert SearchFrom(t, p) == SearchFrom(t, p + 1);
      }
    }
  }

  /** Wherever the pattern matches from `p` on, the search finds a match. */
  lemma {:induction false} SearchComplete(t: string, p: nat, s: nat, e: nat)
    requires p <= s && MatchesAt(t, s, e)
    ensures SearchFrom(t, p).Some?
    decreases |t| - p
  {
    var q := p + |PageHead|;
    if p < s {
      if !(LitAt(t, p, PageHead) && LastTail(t, q, LineEnd(t, q)).Some?) {
        SearchComplete(t, p + 1, s, e);
      }
    } else {
      GroupsInLine(t, q);
    }
  }

  /** The Indeed count of the page-count text; no such element, or text
      without `Page 1 of … jobs`, counts as 0. */
  function IndeedCount(pages: Option<string>): (r: Result<int, CountError>)
    ensures pages.None? ==> r == Ok(0)
  {
    match pages
    case None => Ok(0)
    case Some(t) =>
      SearchSound(t, 0);
      match SearchFrom(t, 0)
      case None => Ok(0)
      case Some(m) => ToCount(PyInt(Remove(Group(t, m), ',')))
  }

  /** Text where the pattern matches nowhere counts as 0. */
  lemma IndeedNoMatch(t: string)
    requires forall s: nat, e: nat :: !MatchesAt(t, s, e)
    ensures IndeedCount(Some(t)) == Ok(0)
  {
    SearchSound(t, 0);
  }

  // ---------------------------------------------------------------------
  // reading a group written with thousands separators

  /** Removing `c` distributes over concatenation. */
  lemma {:induction false} RemoveAppend(a: string, b: string, c: char)
    ensures Remove(a + b, c) == Remove(a, c) + Remove(b, c)
  {
    if a == [] {
      assert a + b == b;
    } else {
      var head := if a[0] == c then [] else [a[0]];
      assert (a + b)[0] == a[0];
      assert (a + b)[1..] == a[1..] + b;
      assert Remove(a + b, c) == head + Remove(a[1..] + b, c);
      RemoveAppend(a[1..], b, c);
      assert Remove(a, c) == head + Remove(a[1..], c);
    }
  }

  /** A character other than `c` survives removing `c`. */
  lemma {:induction false} RemoveKeeps(s: string, c: char, i: nat)
    requires i < |s| && s[i] != c
    ensures s[i] in Remove(s, c)
  {
    if i > 0 {
      RemoveKeeps(s[1..], c, i - 1);
    }
  }

  /** `int()` raises on text holding a character that is neither a digit,
      an underscore, a sign nor whitespace. */
  lemma PyIntRejects(s: string, i: nat)
    requires i < |s|
    requires !IsDigit(s[i]) && s[i] != '_' && s[i] != '+' && s[i] != '-' && !IsSpace(s[i])
    ensures PyInt(s) == None
  {
    StripKeeps(s, i);
    var t := Strip(s);
    var k :| 0 <= k < |t| && t[k] == s[i];
    if t != [] && (t[0] == '+' || t[0] == '-') {
      assert t[1..][k - 1] == t[k];
    }
  }

  /** A group that, besides its commas, holds anything that `int()` does not
      accept raises. */
  lemma IndeedRejects(g: string, i: nat)
    requires i < |g|
    requires !IsDigit(g[i]) && g[i] != ',' && g[i] != '_' && g[i] != '+' && g[i] != '-' && !IsSpace(g[i])
    ensures PyInt(Remove(g, ',')) == None
  {
    RemoveKeeps(g, ',', i);
    var s := Remove(g, ',');
    var k :| 0 <= k < |s| && s[k] == g[i];
    PyIntRejects(s, k);
  }

  /** Three digits, with leading zeros. */
  function Digits3(k: nat): (r: string)
    requires k < 1000
    ensures |r| == 3 && AllDigits(r) && DecimalValue(r) == k
  {
    var r := [DigitChar(k / 100), DigitChar(k / 10 % 10), DigitChar(k % 10)];
    assert r[..2] == [DigitChar(k / 100), DigitChar(k / 10 % 10)];
    assert r[..2][..1] == [DigitChar(k / 100)];
    assert r[..2][..1][..0] == [];
    assert DecimalValue(r[..2][..1]) == k / 100;
    assert DecimalValue(r[..2]) == 10 * (k / 100) + k / 10 % 10;
    r
  }

  /** `f"{n:,}"`: the decimal digits of `n`, with a comma between groups of three. */
  function Thousands(n: nat): (r: string)
    ensures forall i :: 0 <= i < |r| ==> IsDigit(r[i]) || r[i] == ','
    ensures |r| > 0 && IsDigit(r[0])
  {
    if n < 1000 then DecimalRoundTrip(n); DecimalString(n) else Thousands(n / 1000) + [','] + Digits3(n % 1000)
  }

  lemma RemoveGroup(a: string, d: string)
    requires AllDigits(d)
    ensures Remove(a + [','] + d, ',') == Remove(a, ',') + d
  {
    RemoveAppend(a + [','], d, ',');
    RemoveLast(a, ',');
    assert ',' !in d;
    RemoveAbsent(d, ',');
  }

  /** A trailing `c` is removed. */
  lemma RemoveLast(a: string, c: char)
    ensures Remove(a + [c], c) == Remove(a, c)
  {
    RemoveAppend(a, [c], c);
    assert [c][1..] == [];
    assert Remove([c], c) == [];
    assert Remove(a, c) + [] == Remove(a, c);
  }

  /** Removing the commas from `f"{n:,}"` leaves digits worth `n`. */
  lemma {:induction false} ThousandsDigits(n: nat)
    ensures IsDigitString(Remove(Thousands(n), ','))
    ensures DecimalValue(Remove(Thousands(n), ',')) == n
  {
    if n < 1000 {
      DecimalRoundTrip(n);
      assert ',' !in DecimalString(n);
      RemoveAbsent(DecimalString(n), ',');
    } else {
      ThousandsDigits(n / 1000);
      var ra, d := Remove(Thousands(n / 1000), ','), Digits3(n % 1000);
      RemoveGroup(Thousands(n / 1000), d);
      DecimalValueAppend(ra, d);
      assert Pow10(3) == 1000;
    }
  }

  /** The group's commas are dropped before `int()`, so a count written as
      `f"{n:,}"` (such as `1,234`) reads back as `n`. */
  lemma IndeedReadsThousands(n: nat)
    ensures PyInt(Remove(Thousands(n), ',')) == Some(n)
  {
    ThousandsDigits(n);
    PyIntDigits(Remove(Thousands(n), ','));
  }

  /** `Page 1 of <n with separators> jobs` counts as `n`. */
  lemma IndeedCountsPage(n: nat)
    ensures IndeedCount(Some(PageHead + Thousands(n) + JobsTail)) == Ok(n)
  {
    var g := Thousands(n);
    var t := PageHead + g + JobsTail;
    var q := |PageHead|;
    var e := q + |g|;
    assert t[..q] == PageHead;
    assert t[q..e] == g;
    assert t[e..] == JobsTail;
    assert LitAt(t, 0, PageHead);
    forall k | q <= k < e ensures t[k] != '\n' {
      assert t[k] == g[k - q];
    }
    assert MatchesAt(t, 0, e);
    SearchSound(t, 0);
    var m := SearchFrom(t, 0).value;
    assert m.start == 0;
    assert m.groupEnd == e;
    assert Group(t, m) == g;
    IndeedReadsThousands(n);
  }
}
