/**
 * The link harvesting of the awesome-list sorter: `regex.findall` with the
 * pattern `\(https://github\.com/([^\s/]+?/[^\s/]+?)/?\)` over a README,
 * written out as a left-to-right scanner over the text.
 */
module AwesomeLinks {
  import opened Wrappers
  import opened Text

  /** The literal part of the pattern in front of the captured `owner/name`. */
  const LinkHead: string := "(https://github.com/"

  /** The regex class `[^\s/]`, with `\s` taken as the `str.isspace` set. */
  predicate InClass(c: char) {
    !IsSpace(c) && c != '/'
  }

  /** `[^\s/]+?` followed by `/`: the owner runs up to the first `/`. */
  predicate ValidOwner(o: string) {
    |o| > 0 && forall i :: 0 <= i < |o| ==> InClass(o[i])
  }

  /** `[^\s/]+?` followed by `/?\)`: the quantifier is lazy, so after its first
      character the name stops at the first `)`. */
  predicate ValidName(n: string) {
    && |n| > 0
    && (forall i :: 0 <= i < |n| ==> InClass(n[i]))
    && (forall i :: 1 <= i < |n| ==> n[i] != ')')
  }

  /** The text the whole pattern matches, with or without the optional `/`. */
  function LinkText(owner: string, name: string, slash: bool): string {
    LinkHead + owner + "/" + name + (if slash then "/)" else ")")
  }

  /** One match of the pattern: it starts at `start`, captures `owner + "/" + name`,
      and `slash` tells whether the optional `/` before the `)` was present. */
  datatype Link = Link(start: nat, owner: string, name: string, slash: bool) {
    function FullName(): string {
      owner + "/" + name
    }

    /** The position just after the match. */
    function End(): nat {
      start + |LinkHead| + |owner| + 1 + |name| + (if slash then 2 else 1)
    }
  }

  /** The literal head of the pattern stands at `p`. */
  predicate HeadAt(t: string, p: nat) {
    p + |LinkHead| <= |t| && t[p..p + |LinkHead|] == LinkHead
  }

  /** The text of `Link(p, owner, name, slash)` stands at `p`, part by part:
      the head, the owner, `/`, the name, then `)` or `/)`. */
  predicate LinkAt(t: string, p: nat, owner: string, name: string, slash: bool) {
    var q := p + |LinkHead|;
    var o := q + |owner|;
    var n := o + 1 + |name|;
    && n + (if slash then 2 else 1) <= |t|
    && HeadAt(t, p)
    && t[q..o] == owner
    && t[o] == '/'
    && t[o + 1..n] == name
    && if slash then t[n] == '/' && t[n + 1] == ')' else t[n] == ')'
  }

  /** The first index from `i` on that does not continue a run of class
      characters (a `)` also ends the run when `stopAtParen` holds). */
  function RunEnd(t: string, i: nat, stopAtParen: bool): (j: nat)
    requires i <= |t|
    ensures i <= j <= |t|
    ensures forall k :: i <= k < j ==> InClass(t[k]) && (stopAtParen ==> t[k] != ')')
    ensures j < |t| ==> !InClass(t[j]) || (stopAtParen && t[j] == ')')
    decreases |t| - i
  {
    if i == |t| || !InClass(t[i]) || (stopAtParen && t[i] == ')') then i
    else RunEnd(t, i + 1, stopAtParen)
  }

  /** The pattern tried at position `p` of `t`. A match found there is the
      pattern's text, with a valid owner and name. */
  function MatchAt(t: string, p: nat): (r: Option<Link>)
    ensures r.Some? ==> r.value.start == p
    ensures r.Some? ==> ValidOwner(r.value.owner) && ValidName(r.value.name)
    ensures r.Some? ==> LinkAt(t, p, r.value.owner, r.value.name, r.value.slash)
  {
    if !HeadAt(t, p) then None
    else
      var q := p + |LinkHead|;
      var o := RunEnd(t, q, false);
      if !(o > q && o + 1 < |t| && t[o] == '/' && InClass(t[o + 1])) then None
      else
        var n := RunEnd(t, o + 2, true);
        var slash := !(n < |t| && t[n] == ')');
        if slash && !(n + 1 < |t| && t[n] == '/' && t[n + 1] == ')') then None
        else
          RunsMakeLink(t, p, o, n, slash);
          Some(Link(p, t[q..o], t[o + 1..n], slash))
  }

  /** The runs `MatchAt` finds make a valid owner and name, and the link's text. */
  lemma RunsMakeLink(t: string, p: nat, o: nat, n: nat, slash: bool)
    requires HeadAt(t, p)
    requires p + |LinkHead| < o < o + 1 < n
    requires n + (if slash then 2 else 1) <= |t|
    requires forall k :: p + |LinkHead| <= k < o ==> InClass(t[k])
    requires t[o] == '/' && InClass(t[o + 1])
    requires forall k :: o + 2 <= k < n ==> InClass(t[k]) && t[k] != ')'
    requires if slash then t[n] == '/' && t[n + 1] == ')' else t[n] == ')'
    ensures ValidOwner(t[p + |LinkHead|..o]) && ValidName(t[o + 1..n])
    ensures LinkAt(t, p, t[p + |LinkHead|..o], t[o + 1..n], slash)
  {
    var owner, name := t[p + |LinkHead|..o], t[o + 1..n];
    assert forall i :: 0 <= i < |owner| ==> owner[i] == t[p + |LinkHead| + i];
    assert forall i :: 0 <= i < |name| ==> name[i] == t[o + 1 + i];
  }

  lemma {:induction false} RunEndAt(t: string, i: nat, j: nat, stopAtParen: bool)
    requires i <= j <= |t|
    requires forall k :: i <= k < j ==> InClass(t[k]) && (stopAtParen ==> t[k] != ')')
    requires j < |t| ==> !InClass(t[j]) || (stopAtParen && t[j] == ')')
    ensures RunEnd(t, i, stopAtParen) == j
    decreases j - i
  {
    if i < j {
      RunEndAt(t, i + 1, j, stopAtParen);
    }
  }

  /** Wherever the pattern's text stands, the scanner finds exactly that match:
      together with the contract of `MatchAt`, a match is found at `p` if and
      only if a valid link's text stands there. */
  lemma MatchAtComplete(t: string, p: nat, owner: string, name: string, slash: bool)
    requires ValidOwner(owner) && ValidName(name)
    requires LinkAt(t, p, owner, name, slash)
    ensures MatchAt(t, p) == Some(Link(p, owner, name, slash))
  {
    var q := p + |LinkHead|;
    var o := q + |owner|;
    var n := o + 1 + |name|;
    forall k | q <= k < o ensures InClass(t[k]) {
      assert t[k] == t[q..o][k - q];
    }
    RunEndAt(t, q, o, false);
    assert t[o + 1] == t[o + 1..n][0];
    forall k | o + 2 <= k < n ensures InClass(t[k]) && t[k] != ')' {
      assert t[k] == t[o + 1..n][k - o - 1];
    }
    RunEndAt(t, o + 2, n, true);
  }

  /** Part by part is the same as the concatenated text. */
  lemma LinkAtText(t: string, p: nat, owner: string, name: string, slash: bool)
    requires LinkAt(t, p, owner, name, slash)
    ensures Link(p, owner, name, slash).End() == p + |LinkText(owner, name, slash)| <= |t|
    ensures t[p..p + |LinkText(owner, name, slash)|] == LinkText(owner, name, slash)
  {
    var q := p + |LinkHead|;
    var o := q + |owner|;
    var n := o + 1 + |name|;
    var e := n + (if slash then 2 else 1);
    var tail := if slash then "/)" else ")";
    SliceSplit(t, p, q, o);
    SliceSplit(t, p, o, o + 1);
    SliceSplit(t, p, o + 1, n);
    SliceSplit(t, p, n, e);
    assert t[o..o + 1] == "/";
    assert t[n..e] == tail;
  }

  lemma SliceSplit(t: string, a: nat, b: nat, c: nat)
    requires a <= b <= c <= |t|
    ensures t[a..c] == t[a..b] + t[b..c]
  {
  }

  /** The pattern tried at every position of `t`. */
  function Attempts(t: string): seq<Option<Link>> {
    seq(|t|, i requires 0 <= i < |t| => MatchAt(t, i))
  }

  /** A match found at a position starts there. */
  predicate StartsAtOwnIndex(ms: seq<Option<Link>>) {
    forall i :: 0 <= i < |ms| && ms[i].Some? ==> ms[i].value.start == i
  }

  lemma AttemptsStartAtOwnIndex(t: string)
    ensures StartsAtOwnIndex(Attempts(t))
  {
  }

  /** `regex.findall`'s scan from position `i`: where the pattern matches,
      report the match and resume at its end, otherwise move one position on. */
  function Scan(ms: seq<Option<Link>>, i: nat): seq<Link>
    requires StartsAtOwnIndex(ms)
    decreases |ms| - i
  {
    if i >= |ms| then []
    else match ms[i]
      case Some(l) => [l] + Scan(ms, l.End())
      case None => Scan(ms, i + 1)
  }

  /** The matches `findall` reports from position `i` on. */
  function FindLinks(t: string, i: nat): seq<Link> {
    AttemptsStartAtOwnIndex(t);
    Scan(Attempts(t), i)
  }

  /** The captured groups of a list of matches. */
  function FullNames(links: seq<Link>): (r: seq<string>)
    ensures |r| == |links|
    ensures forall k :: 0 <= k < |r| ==> r[k] == links[k].FullName()
  {
    if links == [] then [] else [links[0].FullName()] + FullNames(links[1..])
  }

  /** `findall(github_repo_regex, readme_text)`: the identifiers of the
      README's GitHub links, in order of appearance, repeats kept. */
  function ExtractFullNames(text: string): seq<string> {
    FullNames(FindLinks(text, 0))
  }

  /** The matches the scan reports from `i` on are matches found at their
      start, in increasing order and pairwise disjoint. */
  lemma {:induction false} ScanSound(ms: seq<Option<Link>>, i: nat)
    requires StartsAtOwnIndex(ms)
    ensures forall k :: 0 <= k < |Scan(ms, i)| ==>
      i <= Scan(ms, i)[k].start < |ms| && ms[Scan(ms, i)[k].start] == Some(Scan(ms, i)[k])
    ensures forall k :: 0 <= k < |Scan(ms, i)| - 1 ==> Scan(ms, i)[k].End() <= Scan(ms, i)[k + 1].start
    decreases |ms| - i
  {
    if i < |ms| {
      match ms[i]
      case Some(l) =>
        ScanSound(ms, l.End());
      case None =>
        ScanSound(ms, i + 1);
    }
  }

  /** Position `p` is the start of one of `links` or lies inside it. */
  predicate Covers(links: seq<Link>, p: nat) {
    exists k :: 0 <= k < |links| && links[k].start <= p < links[k].End()
  }

  lemma CoversCons(l: Link, rest: seq<Link>, p: nat)
    requires Covers(rest, p) || l.start <= p < l.End()
    ensures Covers([l] + rest, p)
  {
    if l.start <= p < l.End() {
      assert ([l] + rest)[0] == l;
    } else {
      var k :| 0 <= k < |rest| && rest[k].start <= p < rest[k].End();
      assert ([l] + rest)[k + 1] == rest[k];
    }
  }

  /** The scan skips no match: every position from `i` on where a match was
      found is the start of a reported match or lies inside one. */
  lemma {:induction false} ScanComplete(ms: seq<Option<Link>>, i: nat, p: nat)
    requires StartsAtOwnIndex(ms)
    requires i <= p < |ms| && ms[p].Some?
    ensures Covers(Scan(ms, i), p)
    decreases |ms| - i
  {
    match ms[i]
    case None =>
      ScanComplete(ms, i + 1, p);
    case Some(l) =>
      if l.End() <= p {
        ScanComplete(ms, l.End(), p);
      }
      CoversCons(l, Scan(ms, l.End()), p);
  }

  /** The matches found from `i` on are real matches, in increasing order and
      pairwise disjoint. */
  lemma FindLinksSound(t: string, i: nat)
    ensures forall k :: 0 <= k < |FindLinks(t, i)| ==>
      i <= FindLinks(t, i)[k].start && MatchAt(t, FindLinks(t, i)[k].start) == Some(FindLinks(t, i)[k])
    ensures forall k :: 0 <= k < |FindLinks(t, i)| - 1 ==>
      FindLinks(t, i)[k].End() <= FindLinks(t, i)[k + 1].start
  {
    AttemptsStartAtOwnIndex(t);
    ScanSound(Attempts(t), i);
  }

  /** No match is skipped: every position from `i` on where the pattern
      matches is the start of a found match or lies inside one. */
  lemma FindLinksComplete(t: string, i: nat, p: nat)
    requires i <= p < |t| && MatchAt(t, p).Some?
    ensures Covers(FindLinks(t, i), p)
  {
    AttemptsStartAtOwnIndex(t);
    ScanComplete(Attempts(t), i, p);
  }

  /** `id` is `owner/name`, with a non-empty, whitespace-free owner and name
      and no other `/`, read from the link text `(https://github.com/owner/name)`,
      with or without a `/` before the `)`, found at some position of `t`. */
  ghost predicate ReadFromLink(t: string, id: string) {
    exists p: nat, owner, name, slash ::
      && id == owner + "/" + name
      && ValidOwner(owner) && ValidName(name)
      && LinkAt(t, p, owner, name, slash)
  }

  /** Every extracted identifier is `owner/name` read from a link of the text. */
  lemma ExtractedFullNames(t: string)
    ensures forall k :: 0 <= k < |ExtractFullNames(t)| ==> ReadFromLink(t, ExtractFullNames(t)[k])
  {
    var links := FindLinks(t, 0);
    FindLinksSound(t, 0);
    forall k | 0 <= k < |links|
      ensures ReadFromLink(t, links[k].FullName())
    {
      var l := links[k];
      assert MatchAt(t, l.start) == Some(l);
      assert LinkAt(t, l.start, l.owner, l.name, l.slash);
    }
  }

  /** Text in which `(https://github.com/` never occurs yields no identifiers, and no error. */
  lemma ExtractWithoutLinks(t: string)
    requires forall p: nat :: !HeadAt(t, p)
    ensures ExtractFullNames(t) == []
  {
    FindLinksSound(t, 0);
  }
}
