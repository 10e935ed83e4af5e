/**
  The paginated listing of core/backup/s3.py against an arbitrary server: the
  n-th request, which may carry a continuation token, gets any answer at all.
*/
module S3List {
  import opened Wrappers
  import opened PyText

  const MAX_LIST_PAGES: nat := 100
  const MAX_LIST_OBJECTS: nat := 100_000

  type Token = string
  type Key = string

  // ---------- a page ----------

  /** The elements of a response that decide about continuation, in document order. */
  datatype Element = IsTruncated(text: string) | NextToken(text: string)

  /** A response: unusable (too large, bad status, not XML), or a page of objects and elements. */
  datatype Response = Broken | Page(items: seq<Key>, elements: seq<Element>)

  type Server = (nat, Option<Token>) -> Response

  predicate SaysTrue(e: Element) {
    e.IsTruncated? && Lower(Strip(e.text)) == "true"
  }

  predicate Truncated(elements: seq<Element>) {
    elements != [] && (SaysTrue(elements[|elements| - 1]) || Truncated(elements[..|elements| - 1]))
  }

  /** The last non-empty token element, stripped; None when there is none. */
  function TokenOf(elements: seq<Element>): Option<Token> {
    if elements == [] then None
    else
      var last := elements[|elements| - 1];
      if last.NextToken? && last.text != "" then Some(Strip(last.text)) else TokenOf(elements[..|elements| - 1])
  }

  /** What a page says about the next one. */
  datatype Next = Complete | More(token: Token) | Malformed

  function NextOf(elements: seq<Element>): Next {
    if !Truncated(elements) then Complete
    else if TokenOf(elements).None? || TokenOf(elements).value == "" then Malformed
    else More(TokenOf(elements).value)
  }

  /** `_parse_continuation`: a loop over all elements. */
  method ParseContinuation(elements: seq<Element>) returns (next: Next)
    ensures next == NextOf(elements)
  {
    var truncated, token := false, None;
    for i := 0 to |elements|
      invariant truncated == Truncated(elements[..i])
      invariant token == TokenOf(elements[..i])
    {
      var e := elements[i];
      assert elements[..i + 1] == elements[..i] + [e];
      if e.IsTruncated? {
        if Lower(Strip(e.text)) == "true" {
          truncated := true;
        }
      } else if e.text != "" {
        token := Some(Strip(e.text));
      }
    }
    assert elements[..|elements|] == elements;
    if truncated && (token.None? || token.value == "") {
      return Malformed;
    }
    return if truncated then More(token.value) else Complete;
  }

  // ---------- what a page says, in its own words ----------

  /** Some element says that the listing is truncated. */
  ghost predicate SaysTruncated(elements: seq<Element>) {
    exists i :: 0 <= i < |elements| && elements[i].IsTruncated? && Says(elements[i].text, "true")
  }

  /** The last token that is not empty, blanks around it taken off, is t. */
  ghost predicate LastToken(elements: seq<Element>, t: Token) {
    exists i, a, b :: 0 <= i < |elements| && Blank(a) && Blank(b) && Trimmed(t)
      && elements[i] == NextToken(a + t + b) && a + t + b != ""
      && forall j | i < j < |elements| && elements[j].NextToken? :: elements[j].text == ""
  }

  lemma SaysTrueExactly(e: Element)
    ensures SaysTrue(e) <==> e.IsTruncated? && Says(e.text, "true")
  {
    SaysExactly(e.text, "true");
  }

  lemma {:induction false} TruncatedExactly(elements: seq<Element>)
    ensures Truncated(elements) <==> SaysTruncated(elements)
  {
    hide SaysTrue, Says;
    if elements != [] {
      var front, last := elements[..|elements| - 1], elements[|elements| - 1];
      TruncatedExactly(front);
      SaysTrueExactly(last);
      assert elements == front + [last];
      if SaysTruncated(front) {
        var i :| 0 <= i < |front| && front[i].IsTruncated? && Says(front[i].text, "true");
        assert elements[i] == front[i];
      }
      if SaysTruncated(elements) && !Says(last.text, "true") {
        var i :| 0 <= i < |elements| && elements[i].IsTruncated? && Says(elements[i].text, "true");
        assert front[i] == elements[i];
      }
    }
  }

  lemma {:induction false} TokenOfAt(elements: seq<Element>, i: nat)
    requires i < |elements| && elements[i].NextToken? && elements[i].text != ""
    requires forall j | i < j < |elements| && elements[j].NextToken? :: elements[j].text == ""
    ensures TokenOf(elements) == Some(Strip(elements[i].text))
  {
    if i < |elements| - 1 {
      TokenOfAt(elements[..|elements| - 1], i);
    }
  }

  lemma {:induction false} NoTokenAtAll(elements: seq<Element>)
    requires forall j | 0 <= j < |elements| && elements[j].NextToken? :: elements[j].text == ""
    ensures TokenOf(elements) == None
  {
    if elements != [] { NoTokenAtAll(elements[..|elements| - 1]); }
  }

  lemma {:induction false} TokenOfSome(elements: seq<Element>)
    requires exists j :: 0 <= j < |elements| && elements[j].NextToken? && elements[j].text != ""
    ensures TokenOf(elements).Some? && LastToken(elements, TokenOf(elements).value)
  {
    var last := elements[|elements| - 1];
    if last.NextToken? && last.text != "" {
      var a, b := StripParts(last.text);
      assert elements[|elements| - 1] == NextToken(a + Strip(last.text) + b);
    } else {
      var front := elements[..|elements| - 1];
      TokenOfSome(front);
      var t := TokenOf(front).value;
      var i, a, b :| 0 <= i < |front| && Blank(a) && Blank(b) && Trimmed(t)
        && front[i] == NextToken(a + t + b) && a + t + b != ""
        && forall j | i < j < |front| && front[j].NextToken? :: front[j].text == "";
      assert elements[i] == NextToken(a + t + b);
      assert forall j | i < j < |elements| && elements[j].NextToken? :: elements[j].text == "";
    }
  }

  /**
    What a page means for the next request: it is the last one exactly when no
    element says it is truncated; else the next token is the last one given, and
    a page without a usable token is refused.
  */
  lemma PageMeans(elements: seq<Element>, t: Token)
    ensures NextOf(elements) == Complete <==> !SaysTruncated(elements)
    ensures NextOf(elements) == More(t) <==> SaysTruncated(elements) && t != "" && LastToken(elements, t)
  {
    TruncatedExactly(elements);
    if LastToken(elements, t) {
      var i, a, b :| 0 <= i < |elements| && Blank(a) && Blank(b) && Trimmed(t)
        && elements[i] == NextToken(a + t + b) && a + t + b != ""
        && forall j | i < j < |elements| && elements[j].NextToken? :: elements[j].text == "";
      TokenOfAt(elements, i);
      StripAround(a, t, b);
    }
    if j :| 0 <= j < |elements| && elements[j].NextToken? && elements[j].text != "" {
      TokenOfSome(elements);
    } else {
      NoTokenAtAll(elements);
    }
  }

  // ---------- the chain of pages a server offers ----------

  /** The token request n carries when all n earlier pages continued, or None when the chain is over before. */
  function TokenAt(server: Server, n: nat): Option<Option<Token>> {
    if n == 0 then Some(None)
    else
      match TokenAt(server, n - 1)
      case None => None
      case Some(token) =>
        match server(n - 1, token)
        case Broken => None
        case Page(_, elements) =>
          match NextOf(elements) case More(t) => Some(Some(t)) case _ => None
  }

  /** Request n is on the chain and is answered by a page. */
  predicate HasPage(server: Server, n: nat) {
    TokenAt(server, n).Some? && server(n, TokenAt(server, n).value).Page?
  }

  function PageAt(server: Server, n: nat): Response
    requires HasPage(server, n)
  {
    server(n, TokenAt(server, n).value)
  }

  /** The objects of the first n pages, in order. */
  function Items(server: Server, n: nat): seq<Key> {
    if n == 0 then []
    else Items(server, n - 1) + (if HasPage(server, n - 1) then PageAt(server, n - 1).items else [])
  }

  /** No two of the first n pages name the same next token. */
  ghost predicate TokensDistinct(server: Server, n: nat) {
    forall i: nat, j: nat | 1 <= i < j <= n :: TokenAt(server, i) != TokenAt(server, j)
  }

  /** After none of the first n pages are there too many objects. */
  ghost predicate Bounded(server: Server, n: nat) {
    forall i: nat | i <= n :: |Items(server, i)| <= MAX_LIST_OBJECTS
  }

  /**
    The server's chain of pages ends properly with page n within the limits:
    every page is whole, no token repeats, the object count stays in bounds.
  */
  ghost predicate CompleteChain(server: Server, n: nat) {
    && 1 <= n <= MAX_LIST_PAGES
    && HasPage(server, n - 1) && NextOf(PageAt(server, n - 1).elements) == Complete
    && TokensDistinct(server, n - 1)
    && Bounded(server, n)
  }

  ghost predicate NeverComplete(server: Server) {
    forall n: nat :: !CompleteChain(server, n)
  }

  lemma {:induction false} ChainReaches(server: Server, n: nat, i: nat)
    requires TokenAt(server, n).Some? && i < n
    ensures HasPage(server, i) && NextOf(PageAt(server, i).elements).More?
    ensures TokenAt(server, i + 1) == Some(Some(NextOf(PageAt(server, i).elements).token))
    decreases n - i
  {
    if i + 1 < n {
      ChainReaches(server, n, i + 1);
    }
  }

  // ---------- the listing ----------

  lemma NextRequest(server: Server, k: nat, t: Token)
    requires HasPage(server, k) && NextOf(PageAt(server, k).elements) == More(t)
    ensures TokenAt(server, k + 1) == Some(Some(t))
  {}

  lemma NextItems(server: Server, k: nat)
    requires HasPage(server, k)
    ensures Items(server, k + 1) == Items(server, k) + PageAt(server, k).items
  {}

  /** Once page k rules a complete chain out, nothing after it helps. */
  lemma NotComplete(server: Server, k: nat)
    requires TokenAt(server, k).Some?
    requires k >= MAX_LIST_PAGES
      || !HasPage(server, k)
      || |Items(server, k + 1)| > MAX_LIST_OBJECTS
      || NextOf(PageAt(server, k).elements).Malformed?
      || (NextOf(PageAt(server, k).elements).More? && !TokensDistinct(server, k + 1))
    ensures NeverComplete(server)
  {
    forall n: nat ensures !CompleteChain(server, n) {
      hide TokenAt, Items, NextOf;
      if CompleteChain(server, n) {
        if n <= k {
          ChainReaches(server, k, n - 1);
        } else if n - 1 > k {
          ChainReaches(server, n - 1, k);
        }
      }
    }
  }

  /** The tokens seen are those of requests 1..n. */
  ghost predicate SeenUpTo(server: Server, seen: set<Token>, n: nat) {
    && (forall i: nat | 1 <= i <= n :: TokenAt(server, i).Some? && TokenAt(server, i).value.Some? && TokenAt(server, i).value.value in seen)
    && (forall t | t in seen :: exists i: nat :: 1 <= i <= n && TokenAt(server, i) == Some(Some(t)))
  }

  /** What the loop has after n requests that all continued. */
  ghost predicate Progress(server: Server, n: nat, out: seq<Key>, token: Option<Token>, seen: set<Token>) {
    && TokenAt(server, n) == Some(token)
    && out == Items(server, n)
    && Bounded(server, n) && TokensDistinct(server, n) && SeenUpTo(server, seen, n)
  }

  lemma NoProgressYet(server: Server)
    ensures Progress(server, 0, [], None, {})
  {}

  lemma SeenAgain(server: Server, seen: set<Token>, n: nat, t: Token)
    requires SeenUpTo(server, seen, n) && TokensDistinct(server, n) && TokenAt(server, n + 1) == Some(Some(t))
    ensures t in seen ==> !TokensDistinct(server, n + 1)
    ensures t !in seen ==> TokensDistinct(server, n + 1) && SeenUpTo(server, seen + {t}, n + 1)
  {
    hide TokenAt;
    if t !in seen {
      forall u | u in seen + {t} ensures exists i: nat :: 1 <= i <= n + 1 && TokenAt(server, i) == Some(Some(u)) {
        if u == t {
          assert 1 <= n + 1 && TokenAt(server, n + 1) == Some(Some(u));
        }
      }
    }
  }

  lemma PageFails(server: Server, n: nat, out: seq<Key>, token: Option<Token>, seen: set<Token>)
    requires Progress(server, n, out, token, seen)
    requires server(n, token).Page?
    requires var next := NextOf(server(n, token).elements);
             |out + server(n, token).items| > MAX_LIST_OBJECTS || next.Malformed? || (next.More? && next.token in seen)
    ensures NeverComplete(server)
  {
    NextItems(server, n);
    var next := NextOf(server(n, token).elements);
    if next.More? {
      NextRequest(server, n, next.token);
      SeenAgain(server, seen, n, next.token);
    }
    NotComplete(server, n);
  }

  lemma BoundedNext(server: Server, n: nat)
    requires Bounded(server, n) && |Items(server, n + 1)| <= MAX_LIST_OBJECTS
    ensures Bounded(server, n + 1)
  {
    hide Items;
  }

  lemma PageContinues(server: Server, n: nat, out: seq<Key>, token: Option<Token>, seen: set<Token>)
    requires Progress(server, n, out, token, seen) && n < MAX_LIST_PAGES
    requires server(n, token).Page?
    requires |out + server(n, token).items| <= MAX_LIST_OBJECTS
    ensures var more := out + server(n, token).items;
            var next := NextOf(server(n, token).elements);
            && (next.Complete? ==> CompleteChain(server, n + 1) && more == Items(server, n + 1))
            && (next.More? && next.token !in seen ==>
                  Progress(server, n + 1, more, Some(next.token), seen + {next.token}))
  {
    hide TokenAt, Items, NextOf;
    var next := NextOf(server(n, token).elements);
    NextItems(server, n);
    BoundedNext(server, n);
    if next.More? {
      NextRequest(server, n, next.token);
      SeenAgain(server, seen, n, next.token);
    }
  }

  lemma TooManyPages(server: Server, n: nat, out: seq<Key>, token: Option<Token>, seen: set<Token>)
    requires Progress(server, n, out, token, seen) && n >= MAX_LIST_PAGES
    ensures NeverComplete(server)
  {
    NotComplete(server, n);
  }

  /** The four ways a page ends the call or leads on. */
  lemma PageDecides(server: Server, n: nat, out: seq<Key>, token: Option<Token>, seen: set<Token>)
    requires Progress(server, n, out, token, seen) && n < MAX_LIST_PAGES
    ensures server(n, token).Broken? ==> NeverComplete(server)
    ensures server(n, token).Page? ==>
      var more := out + server(n, token).items;
      var next := NextOf(server(n, token).elements);
      if |more| > MAX_LIST_OBJECTS || next.Malformed? || (next.More? && next.token in seen) then NeverComplete(server)
      else if next.Complete? then CompleteChain(server, n + 1) && more == Items(server, n + 1)
      else Progress(server, n + 1, more, Some(next.token), seen + {next.token})
  {
    if server(n, token).Broken? {
      NotComplete(server, n);
    } else {
      hide Progress, CompleteChain, NeverComplete, TokenAt, Items, NextOf;
      var next := NextOf(server(n, token).elements);
      if |out + server(n, token).items| > MAX_LIST_OBJECTS || next.Malformed? || (next.More? && next.token in seen) {
        PageFails(server, n, out, token, seen);
      } else {
        PageContinues(server, n, out, token, seen);
      }
    }
  }

  /**
    `list_objects`: it returns exactly when the server's chain is complete
    within the limits, with all its objects in order, and raises otherwise.
  */
  method ListObjects(server: Server) returns (r: Option<seq<Key>>, requests: nat)
    ensures requests <= MAX_LIST_PAGES
    ensures r.Some? ==> CompleteChain(server, requests) && r.value == Items(server, requests)
    ensures r.None? ==> NeverComplete(server)
  {
    var out: seq<Key>, token: Option<Token>, seen: set<Token>, pages := [], None, {}, 0;
    hide *;
    NoProgressYet(server);
    while true
      invariant pages <= MAX_LIST_PAGES
      invariant Progress(server, pages, out, token, seen)
      decreases MAX_LIST_PAGES - pages
    {
      if pages >= MAX_LIST_PAGES {
        TooManyPages(server, pages, out, token, seen);
        return None, pages;
      }
      PageDecides(server, pages, out, token, seen);
      var response := server(pages, token);
      pages := pages + 1;
      if response.Broken? {
        return None, pages;
      }
      out := out + response.items;
      if |out| > MAX_LIST_OBJECTS {
        return None, pages;
      }
      var next := ParseContinuation(response.elements);
      if next.Malformed? {
        return None, pages;
      }
      if next.Complete? {
        return Some(out), pages;
      }
      if next.token in seen {
        return None, pages;
      }
      seen := seen + {next.token};
      token := Some(next.token);
    }
  }

  // ---------- a faithful server ----------

  /** Request i carries the token that stands for page i; the first carries none. */
  function Ask(tokens: seq<Token>, i: nat): Option<Token>
    requires i < |tokens|
  {
    if i == 0 then None else Some(tokens[i])
  }

  /** The i-th answer holds the i-th page; it says it is truncated, with the next token, exactly when another page follows. */
  ghost predicate ServesPage(server: Server, pages: seq<seq<Key>>, tokens: seq<Token>, i: nat)
    requires i < |pages| == |tokens|
  {
    var r := server(i, Ask(tokens, i));
    && r.Page? && r.items == pages[i]
    && if i + 1 < |pages|
       then SaysTruncated(r.elements) && tokens[i + 1] != "" && LastToken(r.elements, tokens[i + 1])
       else !SaysTruncated(r.elements)
  }

  /** Serves a fixed listing in pages. */
  ghost predicate Serves(server: Server, pages: seq<seq<Key>>, tokens: seq<Token>) {
    && pages != [] && |tokens| == |pages|
    && forall i: nat | i < |pages| :: ServesPage(server, pages, tokens, i)
  }

  function Flatten(pages: seq<seq<Key>>): seq<Key> {
    if pages == [] then [] else Flatten(pages[..|pages| - 1]) + pages[|pages| - 1]
  }

  lemma {:induction false} FaithfulChain(server: Server, pages: seq<seq<Key>>, tokens: seq<Token>, n: nat)
    requires Serves(server, pages, tokens) && n < |pages|
    ensures TokenAt(server, n) == Some(Ask(tokens, n))
    ensures HasPage(server, n) && PageAt(server, n).items == pages[n]
    ensures NextOf(PageAt(server, n).elements) == if n + 1 < |pages| then More(tokens[n + 1]) else Complete
    ensures Items(server, n + 1) == Flatten(pages[..n + 1])
  {
    assert ServesPage(server, pages, tokens, n);
    PageMeans(server(n, Ask(tokens, n)).elements, if n + 1 < |pages| then tokens[n + 1] else "");
    hide NextOf, SaysTruncated, LastToken;
    if n > 0 {
      FaithfulChain(server, pages, tokens, n - 1);
      NextRequest(server, n - 1, tokens[n]);
    }
    assert pages[..n + 1][..n] == pages[..n];
  }

  /**
    A faithful server is listed completely if and only if it stays within the
    limits and its tokens differ.  No other number of pages is ever a complete
    answer, so the method then returns Flatten(pages) and never a part of it.
  */
  lemma FaithfulListing(server: Server, pages: seq<seq<Key>>, tokens: seq<Token>)
    requires Serves(server, pages, tokens)
    ensures Items(server, |pages|) == Flatten(pages)
    ensures CompleteChain(server, |pages|) <==>
      && |pages| <= MAX_LIST_PAGES && |Flatten(pages)| <= MAX_LIST_OBJECTS
      && (forall i, j | 1 <= i < j < |pages| :: tokens[i] != tokens[j])
    ensures CompleteChain(server, |pages|) <==> !NeverComplete(server)
    ensures forall m: nat | CompleteChain(server, m) :: m == |pages|
  {
    var n := |pages|;
    FaithfulChain(server, pages, tokens, n - 1);
    assert pages[..n] == pages;
    LimitsDecide(server, pages, tokens);
    forall m: nat | CompleteChain(server, m) ensures m == n {
      OnlyEnd(server, n, m);
    }
  }

  /** Where a chain ends no other length can be complete. */
  lemma OnlyEnd(server: Server, n: nat, m: nat)
    requires n >= 1 && HasPage(server, n - 1) && NextOf(PageAt(server, n - 1).elements) == Complete
    requires CompleteChain(server, m)
    ensures m == n
  {
    hide TokenAt, Items, NextOf;
    if m < n {
      ChainReaches(server, n - 1, m - 1);
    } else if n < m {
      ChainReaches(server, m - 1, n - 1);
    }
  }

  lemma LimitsDecide(server: Server, pages: seq<seq<Key>>, tokens: seq<Token>)
    requires Serves(server, pages, tokens)
    requires HasPage(server, |pages| - 1) && NextOf(PageAt(server, |pages| - 1).elements) == Complete
    requires Items(server, |pages|) == Flatten(pages)
    ensures CompleteChain(server, |pages|) <==>
      && |pages| <= MAX_LIST_PAGES && |Flatten(pages)| <= MAX_LIST_OBJECTS
      && (forall i, j | 1 <= i < j < |pages| :: tokens[i] != tokens[j])
  {
    var n := |pages|;
    forall i: nat | i < n ensures TokenAt(server, i) == Some(Ask(tokens, i)) {
      FaithfulChain(server, pages, tokens, i);
    }
    forall i: nat | i <= n ensures |Items(server, i)| <= |Items(server, n)| {
      ItemsGrow(server, i, n);
    }
    hide TokenAt, Items, NextOf, Serves, Flatten;
    if CompleteChain(server, n) {
      forall i, j | 1 <= i < j < n ensures tokens[i] != tokens[j] {
        assert TokenAt(server, i) != TokenAt(server, j);
      }
    }
  }

  lemma {:induction false} ItemsGrow(server: Server, i: nat, n: nat)
    requires i <= n
    ensures |Items(server, i)| <= |Items(server, n)|
    decreases n
  {
    if i < n { ItemsGrow(server, i, n - 1); }
  }
}
