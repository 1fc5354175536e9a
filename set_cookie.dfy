/**
 * The Set-Cookie tokenizer of the Fivlytics keyword-analytics client and the
 * token lookups that consume it. The HTTP request and the HTML parsing are
 * inputs: the `set-cookie` header (absent or present) and the attributes of
 * the `csrf-token` meta element (absent or present).
 */
module SetCookie {
  import opened Wrappers
  import opened Text

  /** The parsed header: a cookie name maps to its value, or to `None` for a bare token. */
  type Cookies = map<string, Option<string>>

  /** The index of the first `c` in `s`, or `|s|` when there is none. */
  function IndexOf(s: string, c: char): (i: nat)
    ensures i <= |s| && c !in s[..i]
    ensures i < |s| ==> s[i] == c
  {
    if s == [] then 0
    else if s[0] == c then 0
    else
      var i := 1 + IndexOf(s[1..], c);
      assert s[..i] == [s[0]] + s[1..][..i - 1];
      i
  }

  /** The name an item assigns: the text before its first `=`, or all of it. */
  function CookieName(item: string): string {
    if '=' in item then item[..IndexOf(item, '=')] else item
  }

  /** The value an item assigns: the text after its first `=`, or `None`. */
  function CookieValue(item: string): Option<string> {
    if '=' in item then Some(item[IndexOf(item, '=') + 1..]) else None
  }

  /** The name holds no `=`, and name, `=` and value put back together give
      the item: `item.split("=", 1)` loses nothing. */
  lemma CookieNameValue(item: string)
    ensures '=' !in CookieName(item)
    ensures CookieValue(item).None? ==> CookieName(item) == item
    ensures CookieValue(item).Some? ==> CookieName(item) + "=" + CookieValue(item).value == item
  {
    if '=' in item {
      var i := IndexOf(item, '=');
      assert item == item[..i] + [item[i]] + item[i + 1..];
    }
  }

  /** One pass of the loop body: strip the item, skip it when empty,
      otherwise assign its value to its name. */
  function Assign(results: Cookies, raw: string): Cookies {
    var item := Strip(raw);
    if item == [] then results else results[CookieName(item) := CookieValue(item)]
  }

  /** An item that starts with `=` assigns the empty name: names are not
      always non-empty. */
  lemma EmptyName(value: string)
    ensures CookieName(['='] + value) == []
    ensures CookieValue(['='] + value) == Some(value)
  {
    assert (['='] + value)[1..] == value;
  }

  /** The dictionary after the loop has handled `items`, in order. */
  function ParseItems(items: seq<string>): Cookies {
    if items == [] then map[] else Assign(ParseItems(items[..|items| - 1]), items[|items| - 1])
  }

  /** The three branches of the loop body. */
  lemma AssignCases(results: Cookies, raw: string)
    ensures Strip(raw) == [] ==> Assign(results, raw) == results
    ensures Strip(raw) != [] && '=' !in Strip(raw) ==> Assign(results, raw) == results[Strip(raw) := None]
    ensures '=' in Strip(raw) ==>
      var item, i := Strip(raw), IndexOf(Strip(raw), '=');
      Assign(results, raw) == results[item[..i] := Some(item[i + 1..])]
  {
  }

  /** `parse_set_cookie`: one assignment per whitespace-separated item, in order. */
  method ParseSetCookie(setCookie: string) returns (results: Cookies)
    ensures results == ParseItems(Split(setCookie))
  {
    results := map[];
    var items := Split(setCookie);
    for k := 0 to |items|
      invariant results == ParseItems(items[..k])
    {
      ParseItemsStep(items, k);
      var item := Strip(items[k]);
      AssignCases(results, items[k]);
      if item == [] {
        continue;
      }
      if '=' !in item {
        results := results[item := None];
        continue;
      }
      var i := IndexOf(item, '=');
      var name, value := item[..i], item[i + 1..];
      results := results[name := Some(value)];
    }
    assert items[..|items|] == items;
  }

  /** One more item is one more pass of the loop body. */
  lemma ParseItemsStep(items: seq<string>, k: nat)
    requires k < |items|
    ensures ParseItems(items[..k + 1]) == Assign(ParseItems(items[..k]), items[k])
  {
    assert items[..k + 1][..k] == items[..k];
  }

  // ---------------------------------------------------------------------
  // what the parsed header holds

  /** The items of a split header are already stripped and never empty, so
      the `if not item` guard of the loop never fires. */
  lemma SplitItemsStripped(setCookie: string)
    ensures forall i :: 0 <= i < |Split(setCookie)| ==>
      Strip(Split(setCookie)[i]) == Split(setCookie)[i] != []
  {
    SplitWellFormed(setCookie);
    forall i | 0 <= i < |Split(setCookie)| ensures Strip(Split(setCookie)[i]) == Split(setCookie)[i] {
      StripNoSpace(Split(setCookie)[i]);
    }
  }

  /** For a split item the loop body is a plain assignment. */
  lemma AssignItem(results: Cookies, item: string)
    requires NoSpace(item) && item != []
    ensures Assign(results, item) == results[CookieName(item) := CookieValue(item)]
  {
    StripNoSpace(item);
  }

  /** The names the items assign, in order. */
  function Names(items: seq<string>): (r: seq<string>)
    ensures |r| == |items|
    ensures forall i :: 0 <= i < |items| ==> r[i] == CookieName(items[i])
  {
    if items == [] then [] else Names(items[..|items| - 1]) + [CookieName(items[|items| - 1])]
  }

  /** A name is a key exactly when some item assigns it. */
  lemma {:induction false} ParseItemsKeys(items: seq<string>)
    requires WellFormedTokens(items)
    ensures forall name :: name in ParseItems(items) <==> name in Names(items)
  {
    if items != [] {
      var init, last := items[..|items| - 1], items[|items| - 1];
      ParseItemsKeys(init);
      AssignItem(ParseItems(init), last);
    }
  }

  /** The last item that assigns a name decides its value. */
  lemma {:induction false} ParseItemsLastWins(items: seq<string>, i: nat)
    requires WellFormedTokens(items)
    requires i < |items|
    requires forall j :: i < j < |items| ==> CookieName(items[j]) != CookieName(items[i])
    ensures CookieName(items[i]) in ParseItems(items)
    ensures ParseItems(items)[CookieName(items[i])] == CookieValue(items[i])
    decreases |items|
  {
    var init, last := items[..|items| - 1], items[|items| - 1];
    AssignItem(ParseItems(init), last);
    if i < |items| - 1 {
      ParseItemsLastWins(init, i);
    }
  }

  /** No more names than items. */
  lemma {:induction false} ParseItemsSize(items: seq<string>)
    ensures |ParseItems(items)| <= |items|
  {
    if items != [] {
      var init := items[..|items| - 1];
      ParseItemsSize(init);
      var item := Strip(items[|items| - 1]);
      if item != [] {
        var m := ParseItems(init);
        assert m[CookieName(item) := CookieValue(item)].Keys == m.Keys + {CookieName(item)};
      }
    }
  }

  /** Every name is a prefix of some item of the header, and holds neither
      whitespace nor `=`; separators such as `;` are not removed. */
  lemma ParsedNames(setCookie: string)
    ensures forall name :: name in ParseItems(Split(setCookie)) ==>
      && NoSpace(name) && '=' !in name
      && exists i :: 0 <= i < |Split(setCookie)| && name <= Split(setCookie)[i]
    ensures |ParseItems(Split(setCookie))| <= |Split(setCookie)|
  {
    var items := Split(setCookie);
    SplitWellFormed(setCookie);
    ParseItemsKeys(items);
    ParseItemsSize(items);
    forall name | name in ParseItems(items)
      ensures NoSpace(name) && '=' !in name && exists i :: 0 <= i < |items| && name <= items[i]
    {
      var i :| 0 <= i < |items| && Names(items)[i] == name;
      NamePrefix(items[i]);
    }
  }

  /** The name of a whitespace-free item is a prefix of it, free of
      whitespace and of `=`. */
  lemma NamePrefix(item: string)
    requires NoSpace(item)
    ensures CookieName(item) <= item
    ensures NoSpace(CookieName(item)) && '=' !in CookieName(item)
  {
    CookieNameValue(item);
    if '=' in item {
      var n := CookieName(item);
      assert forall k :: 0 <= k < |n| ==> n[k] == item[k];
    }
  }

  /** An empty or all-whitespace header gives an empty dictionary. */
  lemma ParseBlank(setCookie: string)
    requires forall i :: 0 <= i < |setCookie| ==> IsSpace(setCookie[i])
    ensures ParseItems(Split(setCookie)) == map[]
  {
    SplitBlank(setCookie);
  }

  // ---------------------------------------------------------------------
  // get_tokens

  /** `cookies.get(name)`: the value, or `None` both for an absent name and for a bare item. */
  function CookieGet(cookies: Cookies, name: string): Option<string> {
    if name in cookies then cookies[name] else None
  }

  /** `.get` of a name that no item of the header assigns gives `None`. */
  lemma GetUnassigned(setCookie: string, name: string)
    requires forall i :: 0 <= i < |Split(setCookie)| ==> CookieName(Split(setCookie)[i]) != name
    ensures CookieGet(ParseItems(Split(setCookie)), name) == None
  {
    SplitWellFormed(setCookie);
    ParseItemsKeys(Split(setCookie));
  }

  /** `.get` of a name gives the value of the last item that assigns it:
      `None` when that item is bare. */
  lemma GetAssigned(setCookie: string, i: nat)
    requires i < |Split(setCookie)|
    requires forall j :: i < j < |Split(setCookie)| ==>
      CookieName(Split(setCookie)[j]) != CookieName(Split(setCookie)[i])
    ensures CookieGet(ParseItems(Split(setCookie)), CookieName(Split(setCookie)[i])) == CookieValue(Split(setCookie)[i])
  {
    SplitWellFormed(setCookie);
    ParseItemsLastWins(Split(setCookie), i);
  }

  /** The three tokens the analytics request needs. */
  datatype Tokens = Tokens(xsrfToken: Option<string>, session: Option<string>, csrfToken: string)

  /** Where `get_tokens` fails: the header or the meta element or its
      `content` attribute is missing (`KeyError`, `AttributeError`). */
  datatype TokenError = MissingSetCookieHeader | MissingCsrfMeta | MissingCsrfContent

  /** `get_tokens` after the page has been fetched: `setCookie` is the
      `set-cookie` header, `csrfMeta` the attributes of the `csrf-token` meta
      element. */
  method GetTokens(setCookie: Option<string>, csrfMeta: Option<map<string, string>>)
    returns (r: Result<Tokens, TokenError>)
    ensures setCookie.None? ==> r == Err(MissingSetCookieHeader)
    ensures setCookie.Some? && csrfMeta.None? ==> r == Err(MissingCsrfMeta)
    ensures setCookie.Some? && csrfMeta.Some? && "content" !in csrfMeta.value ==> r == Err(MissingCsrfContent)
    ensures r.Ok? <==> setCookie.Some? && csrfMeta.Some? && "content" in csrfMeta.value
    ensures r.Ok? ==>
      var cookies := ParseItems(Split(setCookie.value));
      r.value == Tokens(CookieGet(cookies, "XSRF-TOKEN"), CookieGet(cookies, "fivlytics_session"), csrfMeta.value["content"])
  {
    if setCookie.None? {
      return Err(MissingSetCookieHeader);
    }
    var cookies := ParseSetCookie(setCookie.value);
    var xsrfToken := CookieGet(cookies, "XSRF-TOKEN");
    var session := CookieGet(cookies, "fivlytics_session");
    if csrfMeta.None? {
      return Err(MissingCsrfMeta);
    }
    if "content" !in csrfMeta.value {
      return Err(MissingCsrfContent);
    }
    r := Ok(Tokens(xsrfToken, session, csrfMeta.value["content"]));
  }
}
