/** Reading one model source: the pages of an account's model list are followed by cursor until a page
    names no further one, or the source's published metadata is read in one piece. */
module CatalogPaging {
  import opened Text

  /** A listed model: its id if that is a text, and whether it can generate content. */
  datatype Entry = Entry(identifier: Option<string>, generates: bool)

  /** What a request meets: the deadline or a shutdown, a network failure, or an answer. */
  datatype Reply =
    | Interrupted
    | Unreachable
    | NotAList
    | Page(entries: seq<Entry>, nextPageToken: string, hasMore: bool, lastId: string)
    | Metadata(rows: seq<string>)

  /** The answer to the request with a given number and cursor. */
  type Fetch = (nat, string) -> Reply

  datatype Fault = Timeout | Network | Invalid

  datatype ReadResult = Listing(values: seq<string>) | Fault(fault: Fault)

  const PAGE_LIMIT: nat := 100

  predicate GoodEntry(e: Entry) {
    e.identifier.Some? && !Blank(e.identifier.value)
  }

  function ModelValue(name: string, id: string): string {
    if name == "gemini" then "gemini/" + RemovePrefix(id, "models/")
    else if name == "portkey" then "portkey/" + RemovePrefix(id, "portkey/")
    else id
  }

  /** The values a page adds; models that generate no content are passed over. */
  function PageValues(name: string, entries: seq<Entry>): seq<string>
    requires forall i :: 0 <= i < |entries| ==> GoodEntry(entries[i])
  {
    if entries == [] then []
    else
      var rest := PageValues(name, entries[1..]);
      assert GoodEntry(entries[0]);
      if name == "gemini" && !entries[0].generates then rest
      else [ModelValue(name, entries[0].identifier.value)] + rest
  }

  predicate GoodPage(r: Reply) {
    r.Page? && forall i :: 0 <= i < |r.entries| ==> GoodEntry(r.entries[i])
  }

  /** The cursor a page names, empty at the end; none if a further page is announced without one. */
  function NextCursor(name: string, r: Reply): Option<string>
    requires GoodPage(r)
  {
    if name == "gemini" then Some(r.nextPageToken)
    else if !r.hasMore then Some("")
    else
      var cursor := if r.lastId != "" then r.lastId
                    else if r.entries != [] then Last(r.entries).identifier.value else "";
      if cursor == "" then None else Some(cursor)
  }

  function FaultOf(r: Reply): Fault {
    match r
    case Interrupted => Timeout
    case Unreachable => Network
    case _ => Invalid
  }

  /** The listing loop from its `i`-th request on. */
  function ReadFrom(name: string, fetch: Fetch, i: nat, token: string, seen: set<string>, rows: seq<string>): ReadResult
    decreases PAGE_LIMIT - i
  {
    if i >= PAGE_LIMIT then Fault(Invalid)
    else
      var r := fetch(i, token);
      if !GoodPage(r) then Fault(FaultOf(r))
      else
        var more := rows + PageValues(name, r.entries);
        match NextCursor(name, r)
        case None => Fault(Invalid)
        case Some(next) =>
          if next == "" then Listing(more)
          else if next in seen then Fault(Invalid)
          else ReadFrom(name, fetch, i + 1, next, seen + {next}, more)
  }

  function ReadAccount(name: string, fetch: Fetch): ReadResult {
    ReadFrom(name, fetch, 0, "", {}, [])
  }

  method ReadAccountPages(name: string, fetch: Fetch) returns (r: ReadResult)
    ensures r == ReadAccount(name, fetch)
  {
    var rows: seq<string>, token, seen: set<string> := [], "", {};
    var i: nat := 0;
    hide GoodPage, NextCursor, PageValues;
    while i < PAGE_LIMIT
      invariant i <= PAGE_LIMIT
      invariant ReadFrom(name, fetch, i, token, seen, rows) == ReadAccount(name, fetch)
    {
      var page := fetch(i, token);
      if !GoodPage(page) {
        return Fault(FaultOf(page));
      }
      rows := rows + PageValues(name, page.entries);
      var next := NextCursor(name, page);
      if next.None? {
        return Fault(Invalid);
      }
      token := next.value;
      if token == "" {
        return Listing(rows);
      }
      if token in seen {
        return Fault(Invalid);
      }
      seen := seen + {token};
      i := i + 1;
    }
    return Fault(Invalid);
  }

  // ---------- page chains ----------

  /** The cursor sent with the `i`-th request, if every page before named one. */
  function CursorAt(name: string, fetch: Fetch, i: nat): string {
    if i == 0 then ""
    else
      var r := fetch(i - 1, CursorAt(name, fetch, i - 1));
      if GoodPage(r) && NextCursor(name, r).Some? then NextCursor(name, r).value else ""
  }

  function PageAt(name: string, fetch: Fetch, i: nat): Reply {
    fetch(i, CursorAt(name, fetch, i))
  }

  predicate Linked(name: string, r: Reply) {
    GoodPage(r) && NextCursor(name, r).Some?
  }

  function ValuesOf(name: string, r: Reply): seq<string> {
    if GoodPage(r) then PageValues(name, r.entries) else []
  }

  /** `n` valid pages from the first to the last one: each is fetched with the cursor its predecessor
      named, the last names none, and no cursor occurs twice. */
  ghost predicate CompleteChain(name: string, fetch: Fetch, n: nat) {
    && 1 <= n <= PAGE_LIMIT
    && (forall i :: 0 <= i < n ==> Linked(name, PageAt(name, fetch, i)))
    && (forall i :: 1 <= i < n ==> CursorAt(name, fetch, i) != "")
    && (forall i, j :: 1 <= i < j < n ==> CursorAt(name, fetch, i) != CursorAt(name, fetch, j))
    && CursorAt(name, fetch, n) == ""
  }

  function ChainValues(name: string, fetch: Fetch, n: nat): seq<string> {
    if n == 0 then [] else ChainValues(name, fetch, n - 1) + ValuesOf(name, PageAt(name, fetch, n - 1))
  }

  /** One of the first `i` pages named this cursor. */
  ghost predicate Used(name: string, fetch: Fetch, i: nat, t: string) {
    exists k: nat :: 1 <= k <= i && CursorAt(name, fetch, k) == t
  }

  lemma UsedStep(name: string, fetch: Fetch, i: nat, t: string)
    ensures Used(name, fetch, i + 1, t) <==> Used(name, fetch, i, t) || t == CursorAt(name, fetch, i + 1)
  {
    if Used(name, fetch, i, t) {
      var k: nat :| 1 <= k <= i && CursorAt(name, fetch, k) == t;
      assert 1 <= k <= i + 1;
    }
  }

  /** The loop has `i` linked pages behind it and the next cursor in hand. */
  ghost predicate Underway(name: string, fetch: Fetch, i: nat, token: string, seen: set<string>, rows: seq<string>) {
    && token == CursorAt(name, fetch, i)
    && (forall k :: 0 <= k < i ==> Linked(name, PageAt(name, fetch, k)))
    && (forall k :: 1 <= k <= i ==> CursorAt(name, fetch, k) != "")
    && (forall j, k :: 1 <= j < k <= i ==> CursorAt(name, fetch, j) != CursorAt(name, fetch, k))
    && (forall t :: t in seen <==> Used(name, fetch, i, t))
    && rows == ChainValues(name, fetch, i)
  }

  lemma CursorStep(name: string, fetch: Fetch, i: nat, r: Reply)
    requires r == PageAt(name, fetch, i) && Linked(name, r)
    ensures CursorAt(name, fetch, i + 1) == NextCursor(name, r).value
  {
  }

  lemma UnderwayStep(name: string, fetch: Fetch, i: nat, token: string, seen: set<string>, rows: seq<string>)
    requires Underway(name, fetch, i, token, seen, rows) && Linked(name, fetch(i, token))
    requires CursorAt(name, fetch, i + 1) != "" && CursorAt(name, fetch, i + 1) !in seen
    ensures var next := CursorAt(name, fetch, i + 1);
      Underway(name, fetch, i + 1, next, seen + {next}, rows + ValuesOf(name, fetch(i, token)))
  {
    hide Linked, NextCursor, GoodPage, ValuesOf;
    var next := CursorAt(name, fetch, i + 1);
    assert PageAt(name, fetch, i) == fetch(i, token);
    forall j, k | 1 <= j < k <= i + 1
      ensures CursorAt(name, fetch, j) != CursorAt(name, fetch, k)
    {
      assert k == i + 1 ==> Used(name, fetch, i, CursorAt(name, fetch, j));
    }
    hide Used;
    forall t
      ensures t in seen + {next} <==> Used(name, fetch, i + 1, t)
    {
      UsedStep(name, fetch, i, t);
    }
  }

  /** A chain that goes on from here is not over yet. */
  lemma ChainIsLonger(name: string, fetch: Fetch, i: nat, token: string, seen: set<string>, rows: seq<string>, n: nat)
    requires Underway(name, fetch, i, token, seen, rows) && CompleteChain(name, fetch, n)
    ensures i < n && Linked(name, fetch(i, token))
    ensures CursorAt(name, fetch, i + 1) == "" <==> n == i + 1
    ensures CursorAt(name, fetch, i + 1) != "" ==> CursorAt(name, fetch, i + 1) !in seen
  {
    hide Linked, CursorAt;
    assert n <= i ==> CursorAt(name, fetch, n) != "";
    assert PageAt(name, fetch, i) == fetch(i, token);
  }

  /** What the rest of the loop does: it lists exactly when the pages form a complete chain. */
  ghost predicate ReadsChain(name: string, fetch: Fetch, r: ReadResult) {
    && (r.Listing? ==> exists n :: CompleteChain(name, fetch, n))
    && (forall n :: CompleteChain(name, fetch, n) ==> r == Listing(ChainValues(name, fetch, n)))
  }

  lemma ChainEnds(name: string, fetch: Fetch, i: nat, token: string, seen: set<string>, rows: seq<string>)
    requires Underway(name, fetch, i, token, seen, rows) && i < PAGE_LIMIT && Linked(name, fetch(i, token))
    requires CursorAt(name, fetch, i + 1) == ""
    ensures CompleteChain(name, fetch, i + 1)
    ensures ChainValues(name, fetch, i + 1) == rows + ValuesOf(name, fetch(i, token))
  {
    hide Linked, CursorAt, PageValues;
    assert PageAt(name, fetch, i) == fetch(i, token);
  }

  lemma {:induction false} LoopReadsChain(name: string, fetch: Fetch, i: nat, token: string, seen: set<string>,
      rows: seq<string>)
    requires Underway(name, fetch, i, token, seen, rows)
    ensures ReadsChain(name, fetch, ReadFrom(name, fetch, i, token, seen, rows))
    decreases PAGE_LIMIT - i
  {
    forall n | CompleteChain(name, fetch, n)
      ensures i < n && Linked(name, fetch(i, token))
      ensures CursorAt(name, fetch, i + 1) == "" <==> n == i + 1
      ensures CursorAt(name, fetch, i + 1) != "" ==> CursorAt(name, fetch, i + 1) !in seen
    {
      ChainIsLonger(name, fetch, i, token, seen, rows, n);
    }
    if i < PAGE_LIMIT && Linked(name, fetch(i, token)) {
      CursorStep(name, fetch, i, fetch(i, token));
      var next := CursorAt(name, fetch, i + 1);
      hide CursorAt, Underway;
      if next == "" {
        ChainEnds(name, fetch, i, token, seen, rows);
      } else if next !in seen {
        UnderwayStep(name, fetch, i, token, seen, rows);
        LoopReadsChain(name, fetch, i + 1, next, seen + {next}, rows + ValuesOf(name, fetch(i, token)));
      }
    }
  }

  /** An account list is read exactly if the pages form a complete chain of at most a hundred pages
      without a repeated cursor, and it is then what those pages list, in order. */
  lemma ListsExactlyCompleteChains(name: string, fetch: Fetch)
    ensures ReadAccount(name, fetch).Listing? <==> exists n :: CompleteChain(name, fetch, n)
    ensures forall n :: CompleteChain(name, fetch, n) ==>
      ReadAccount(name, fetch) == Listing(ChainValues(name, fetch, n))
  {
    assert forall t :: !Used(name, fetch, 0, t);
    LoopReadsChain(name, fetch, 0, "", {}, []);
  }

  // ---------- any source ----------

  const METADATA: string := "metadata"

  /** One read of a source; metadata with fewer than a hundred rows is incomplete. */
  function ReadSource(name: string, fetch: Fetch): ReadResult {
    if name == METADATA then
      var r := fetch(0, "");
      if !r.Metadata? then Fault(FaultOf(r))
      else if |r.rows| < 100 then Fault(Invalid)
      else Listing(r.rows)
    else ReadAccount(name, fetch)
  }
}
