/** The listing side of `src/zoom_client.py`: token-driven pagination of
    the group-member and user-recording endpoints, and the aggregation of
    every member's recordings into a map keyed by e-mail.

    A listing is driven by a finite script of pages: page `k` is the reply
    to the `k`-th request. */
module Listing {
  import opened Base
  import Naming

  /** The page size both listings ask for. */
  const PageSize: nat := 300

  /** The fixed query parameters of a listing: the page size and, for
      recordings, the date window. */
  datatype Query = Query(pageSize: nat, from: Option<string>, to: Option<string>)

  /** One GET of a listing: the endpoint, the fixed parameters and the
      continuation token, if any. */
  datatype Request = Request(endpoint: string, query: Query, token: Option<string>)

  /** What a listing reads from a reply: the status, the listed items (an
      absent list reads as empty) and `next_page_token`. */
  datatype Page<T> = Page(status: int, items: seq<T>, nextToken: Option<string>)

  /** How a pagination stopped: a page without a continuation token, a
      tolerated 404, a raised HTTP error, or the end of the page script
      before the listing stopped. */
  datatype Ending = Finished | NotFoundEnd | Failed(status: int) | OutOfPages

  /** The items gathered, the requests sent, and how it stopped. */
  datatype Fetched<T> = Fetched(items: seq<T>, requests: seq<Request>, ending: Ending)

  /** All items of the pages, in page order. */
  function Collected<T>(pages: seq<Page<T>>): seq<T>
  {
    if |pages| == 0 then [] else pages[0].items + Collected(pages[1..])
  }

  /** The `while True` loop shared by both listings, from the request that
      carries `token` on: a failing status raises (or, when tolerated, a 404
      ends the listing), otherwise the page's items are appended and the
      loop goes on exactly when the page has a non-empty token, which the
      next request carries. */
  function Paginate<T>(endpoint: string, query: Query, pages: seq<Page<T>>, token: Option<string>,
                       tolerate404: bool): (f: Fetched<T>)
    ensures |f.requests| <= |pages|
    ensures forall k :: 0 <= k < |f.requests| ==> f.requests[k].endpoint == endpoint && f.requests[k].query == query
    ensures |f.requests| > 0 ==> f.requests[0].token == token
    ensures f.ending != OutOfPages ==> |f.requests| > 0
    ensures f.ending == OutOfPages ==> |f.requests| == |pages|
    ensures f.ending == NotFoundEnd ==> tolerate404
    decreases |pages|
  {
    if |pages| == 0 then Fetched([], [], OutOfPages)
    else
      var request := Request(endpoint, query, token);
      var page := pages[0];
      if RaisesForStatus(page.status) then
        Fetched([], [request], if tolerate404 && page.status == 404 then NotFoundEnd else Failed(page.status))
      else if !Truthy(page.nextToken) then Fetched(page.items, [request], Finished)
      else
        var rest := Paginate(endpoint, query, pages[1..], page.nextToken, tolerate404);
        var requests := [request] + rest.requests;
        assert forall k :: 1 <= k < |requests| ==> requests[k] == rest.requests[k - 1];
        Fetched(page.items + rest.items, requests, rest.ending)
  }

  /** Every request after the first carries the token of the page before
      it, and that page was a success with a non-empty token. */
  predicate FollowsTokens<T>(requests: seq<Request>, pages: seq<Page<T>>)
    requires |requests| <= |pages|
  {
    forall k :: 1 <= k < |requests| ==>
      && requests[k].token == pages[k - 1].nextToken
      && Truthy(pages[k - 1].nextToken)
      && !RaisesForStatus(pages[k - 1].status)
  }

  /** The listing goes on only while there is a token to follow, and it
      follows the token it was given. */
  lemma {:induction false} PaginateFollowsTokens<T>(endpoint: string, query: Query, pages: seq<Page<T>>,
                                                    token: Option<string>, tolerate404: bool)
    ensures FollowsTokens(Paginate(endpoint, query, pages, token, tolerate404).requests, pages)
    decreases |pages|
  {
    if |pages| > 0 && !RaisesForStatus(pages[0].status) && Truthy(pages[0].nextToken) {
      PaginateFollowsTokens(endpoint, query, pages[1..], pages[0].nextToken, tolerate404);
      var rest := Paginate(endpoint, query, pages[1..], pages[0].nextToken, tolerate404);
      var f := Paginate(endpoint, query, pages, token, tolerate404);
      forall k | 1 <= k < |f.requests|
        ensures f.requests[k].token == pages[k - 1].nextToken
        ensures Truthy(pages[k - 1].nextToken) && !RaisesForStatus(pages[k - 1].status)
      {
        assert f.requests[k] == rest.requests[k - 1];
        if k > 1 {
          assert pages[1..][k - 2] == pages[k - 1];
        }
      }
      assert FollowsTokens(f.requests, pages);
    }
  }

  /** What the listing returns: on a normal stop, the items of every page
      read, the last of which had no token; on a tolerated 404, the items of
      the pages before it; on a raised error, the failing status of the last
      page. */
  lemma {:induction false} PaginateItems<T>(endpoint: string, query: Query, pages: seq<Page<T>>,
                                            token: Option<string>, tolerate404: bool)
    ensures var f := Paginate(endpoint, query, pages, token, tolerate404);
      var n := |f.requests|;
      && (f.ending == Finished ==>
            && f.items == Collected(pages[..n])
            && !RaisesForStatus(pages[n - 1].status) && !Truthy(pages[n - 1].nextToken))
      && (f.ending == NotFoundEnd ==>
            pages[n - 1].status == 404 && f.items == Collected(pages[..n - 1]))
      && (f.ending.Failed? ==>
            && f.ending.status == pages[n - 1].status && RaisesForStatus(f.ending.status)
            && !(tolerate404 && f.ending.status == 404))
    decreases |pages|
  {
    if |pages| > 0 {
      var f := Paginate(endpoint, query, pages, token, tolerate404);
      var n := |f.requests|;
      if RaisesForStatus(pages[0].status) {
        assert pages[..0] == [];
      } else if !Truthy(pages[0].nextToken) {
        assert pages[..1] == [pages[0]];
      } else {
        PaginateItems(endpoint, query, pages[1..], pages[0].nextToken, tolerate404);
        var rest := Paginate(endpoint, query, pages[1..], pages[0].nextToken, tolerate404);
        assert n == |rest.requests| + 1;
        if f.ending != OutOfPages {
          assert pages[1..][|rest.requests| - 1] == pages[n - 1];
          assert pages[..n][1..] == pages[1..][..n - 1];
          if n > 1 {
            assert pages[..n - 1][1..] == pages[1..][..n - 2];
          }
        }
      }
    }
  }

  /** Why a listing gave no result: a raised HTTP error, or a page script
      that ran out while the listing still had a token to follow. */
  datatype ListingError = HttpError(status: int) | PagesExhausted

  /** The fixed parameters of `get_group_members`. */
  const MembersQuery: Query := Query(PageSize, None, None)

  /** `get_group_members`: every page's members in page order; any failing
      status propagates. */
  function GroupMembers<T>(groupId: string, pages: seq<Page<T>>): (r: Result<seq<T>, ListingError>)
    ensures var f := Paginate("groups/" + groupId + "/members", MembersQuery, pages, None, false);
      && (r.Ok? <==> f.ending == Finished)
      && (r.Ok? ==> r.value == f.items)
      && (f.ending.Failed? ==> r == Err(HttpError(f.ending.status)))
  {
    var f := Paginate("groups/" + groupId + "/members", MembersQuery, pages, None, false);
    match f.ending
    case Finished => Ok(f.items)
    case Failed(status) => Err(HttpError(status))
    case _ => Err(PagesExhausted)
  }

  /** The fixed parameters of `get_user_recordings`: the page size and the
      date window, sent with every request. */
  function RecordingsQuery(from: string, to: string): Query {
    Query(PageSize, Some(from), Some(to))
  }

  /** The endpoint of `get_user_recordings`; a member without an id is
      formatted as "None", as an f-string does. */
  function RecordingsEndpoint(userId: Option<string>): string {
    "users/" + userId.GetOr("None") + "/recordings"
  }

  /** `get_user_recordings`: every page's meetings in page order; a 404
      ends the listing with what was gathered so far, and any other failing
      status propagates. */
  function UserRecordings<T>(userId: Option<string>, from: string, to: string, pages: seq<Page<T>>): (r: Result<seq<T>, ListingError>)
    ensures var f := Paginate(RecordingsEndpoint(userId), RecordingsQuery(from, to), pages, None, true);
      && (r.Ok? <==> f.ending == Finished || f.ending == NotFoundEnd)
      && (r.Ok? ==> r.value == f.items)
      && (f.ending.Failed? ==> r == Err(HttpError(f.ending.status)) && f.ending.status != 404)
  {
    var f := Paginate(RecordingsEndpoint(userId), RecordingsQuery(from, to), pages, None, true);
    PaginateItems(RecordingsEndpoint(userId), RecordingsQuery(from, to), pages, None, true);
    match f.ending
    case Finished => Ok(f.items)
    case NotFoundEnd => Ok(f.items)
    case Failed(status) => Err(HttpError(status))
    case OutOfPages => Err(PagesExhausted)
  }

  /** The first request of a listing carries no token, and every later one
      the token of the page before it; the recordings requests all carry the
      page size and the date window. */
  lemma RecordingsRequests<T>(userId: Option<string>, from: string, to: string, pages: seq<Page<T>>)
    ensures var f := Paginate(RecordingsEndpoint(userId), RecordingsQuery(from, to), pages, None, true);
      && (|f.requests| > 0 ==> f.requests[0].token == None)
      && (forall k :: 0 <= k < |f.requests| ==>
            f.requests[k].query == Query(300, Some(from), Some(to)))
      && FollowsTokens(f.requests, pages)
  {
    PaginateFollowsTokens(RecordingsEndpoint(userId), RecordingsQuery(from, to), pages, None, true);
  }

  /** A 404 on a later page keeps the meetings of the pages before it. */
  lemma NotFoundKeepsEarlierPages<T>(userId: Option<string>, from: string, to: string, pages: seq<Page<T>>)
    requires Paginate(RecordingsEndpoint(userId), RecordingsQuery(from, to), pages, None, true).ending == NotFoundEnd
    ensures var n := |Paginate(RecordingsEndpoint(userId), RecordingsQuery(from, to), pages, None, true).requests|;
      && pages[n - 1].status == 404
      && UserRecordings(userId, from, to, pages) == Ok(Collected(pages[..n - 1]))
  {
    PaginateItems(RecordingsEndpoint(userId), RecordingsQuery(from, to), pages, None, true);
  }

  // ---------------------------------------------------------------------
  // Aggregation by e-mail

  /** A group member as the aggregation reads it. */
  datatype Member = Member(id: Option<string>, email: Option<string>)

  /** The result of `get_group_recordings`: a Python dict from e-mail (which
      may be absent) to meetings, as its entries in insertion order. */
  type RecordingMap = seq<(Option<string>, seq<Naming.Meeting>)>

  /** No e-mail appears twice. */
  predicate UniqueKeys(d: RecordingMap) {
    forall i, j :: 0 <= i < j < |d| ==> d[i].0 != d[j].0
  }

  /** `d.get(key)`. */
  function Lookup(d: RecordingMap, key: Option<string>): Option<seq<Naming.Meeting>> {
    if |d| == 0 then None
    else if d[0].0 == key then Some(d[0].1)
    else Lookup(d[1..], key)
  }

  /** `d[key] = value`: an existing key keeps its place and takes the new
      value, a new key goes at the end. */
  function Put(d: RecordingMap, key: Option<string>, value: seq<Naming.Meeting>): (r: RecordingMap)
    ensures |r| == if Lookup(d, key).Some? then |d| else |d| + 1
    ensures forall i :: 0 <= i < |d| ==> r[i].0 == d[i].0
    ensures Lookup(d, key).None? ==> r[|d|] == (key, value)
    ensures forall i :: 0 <= i < |r| ==> r[i] == (key, value) || (i < |d| && r[i] == d[i])
    ensures Lookup(r, key) == Some(value)
  {
    if |d| == 0 then [(key, value)]
    else if d[0].0 == key then [(key, value)] + d[1..]
    else
      var rest := Put(d[1..], key, value);
      assert ([d[0]] + rest)[1..] == rest;
      [d[0]] + rest
  }

  /** After an assignment the key holds the new value and every other key
      what it held before; the keys stay unique. */
  lemma {:induction false} PutLookup(d: RecordingMap, key: Option<string>, value: seq<Naming.Meeting>, other: Option<string>)
    requires UniqueKeys(d)
    ensures UniqueKeys(Put(d, key, value))
    ensures Lookup(Put(d, key, value), other) == if other == key then Some(value) else Lookup(d, other)
    decreases |d|
  {
    if |d| > 0 && d[0].0 != key {
      assert UniqueKeys(d[1..]) by {
        forall i, j | 0 <= i < j < |d[1..]| ensures d[1..][i].0 != d[1..][j].0 {
          assert d[1..][i] == d[i + 1] && d[1..][j] == d[j + 1];
        }
      }
      PutLookup(d[1..], key, value, other);
      var r := Put(d, key, value);
      assert r[1..] == Put(d[1..], key, value);
      LookupAbsent(d[1..], d[0].0);
      forall i, j | 0 <= i < j < |r| ensures r[i].0 != r[j].0 {
        if i == 0 {
          if j - 1 < |d[1..]| {
            assert r[j].0 == d[1..][j - 1].0;
            assert d[1..][j - 1] == d[j];
          } else {
            assert r[j].0 == key;
          }
        } else {
          assert r[i] == r[1..][i - 1] && r[j] == r[1..][j - 1];
        }
      }
    } else if |d| > 0 {
      var r := Put(d, key, value);
      forall i, j | 0 <= i < j < |r| ensures r[i].0 != r[j].0 {
        assert r[j].0 == d[j].0;
      }
      if other != key {
        assert r[1..] == d[1..];
      }
    }
  }

  /** A key that no entry carries is not found. */
  lemma {:induction false} LookupAbsent(d: RecordingMap, key: Option<string>)
    requires forall i :: 0 <= i < |d| ==> d[i].0 != key
    ensures Lookup(d, key).None?
    decreases |d|
  {
    if |d| > 0 {
      assert forall i :: 0 <= i < |d[1..]| ==> d[1..][i] == d[i + 1];
      LookupAbsent(d[1..], key);
    }
  }

  /** The listing of member `k`, on the page script that answers it. */
  function MemberListing(members: seq<Member>, from: string, to: string,
                         pagesOf: nat -> seq<Page<Naming.Meeting>>, k: nat): Result<seq<Naming.Meeting>, ListingError>
    requires k < |members|
  {
    UserRecordings(members[k].id, from, to, pagesOf(k))
  }

  /** Member `k` adds an entry: its listing returned and is non-empty. */
  predicate Contributes(members: seq<Member>, from: string, to: string,
                        pagesOf: nat -> seq<Page<Naming.Meeting>>, k: nat)
    requires k < |members|
  {
    var r := MemberListing(members, from, to, pagesOf, k);
    r.Ok? && |r.value| > 0
  }

  /** The loop of `get_group_recordings` over the first `n` members: a
      member whose listing fails is skipped, an empty listing adds nothing,
      and a non-empty one is stored under the member's e-mail. So the map
      has at most one entry per member and no e-mail twice. */
  function GroupRecordings(members: seq<Member>, from: string, to: string,
                           pagesOf: nat -> seq<Page<Naming.Meeting>>, n: nat): (d: RecordingMap)
    requires n <= |members|
    ensures |d| <= n
    ensures UniqueKeys(d)
  {
    if n == 0 then []
    else
      var d := GroupRecordings(members, from, to, pagesOf, n - 1);
      if Contributes(members, from, to, pagesOf, n - 1) then
        var key := members[n - 1].email;
        PutLookup(d, key, MemberListing(members, from, to, pagesOf, n - 1).value, key);
        Put(d, key, MemberListing(members, from, to, pagesOf, n - 1).value)
      else d
  }

  /** The reference meaning of the map: under each e-mail, the listing of
      the last of the first `n` members with that e-mail whose listing
      returned something. */
  function LastContribution(members: seq<Member>, from: string, to: string,
                            pagesOf: nat -> seq<Page<Naming.Meeting>>, key: Option<string>, n: nat): Option<seq<Naming.Meeting>>
    requires n <= |members|
  {
    if n == 0 then None
    else if members[n - 1].email == key && Contributes(members, from, to, pagesOf, n - 1) then
      Some(MemberListing(members, from, to, pagesOf, n - 1).value)
    else LastContribution(members, from, to, pagesOf, key, n - 1)
  }

  /** The map holds each e-mail once, and under it the listing of the last
      member with that e-mail that returned a non-empty one. Failing members
      never contribute, and the members after them still do. */
  lemma {:induction false} GroupRecordingsMeaning(members: seq<Member>, from: string, to: string,
                                                  pagesOf: nat -> seq<Page<Naming.Meeting>>, key: Option<string>, n: nat)
    requires n <= |members|
    ensures UniqueKeys(GroupRecordings(members, from, to, pagesOf, n))
    ensures Lookup(GroupRecordings(members, from, to, pagesOf, n), key) == LastContribution(members, from, to, pagesOf, key, n)
  {
    if n > 0 {
      GroupRecordingsMeaning(members, from, to, pagesOf, key, n - 1);
      if Contributes(members, from, to, pagesOf, n - 1) {
        var d := GroupRecordings(members, from, to, pagesOf, n - 1);
        PutLookup(d, members[n - 1].email, MemberListing(members, from, to, pagesOf, n - 1).value, key);
      }
    }
  }

  /** No entry of the map holds an empty listing. */
  lemma {:induction false} GroupRecordingsNonEmpty(members: seq<Member>, from: string, to: string,
                                                   pagesOf: nat -> seq<Page<Naming.Meeting>>, n: nat)
    requires n <= |members|
    ensures forall i :: 0 <= i < |GroupRecordings(members, from, to, pagesOf, n)| ==>
      |GroupRecordings(members, from, to, pagesOf, n)[i].1| > 0
  {
    if n > 0 {
      GroupRecordingsNonEmpty(members, from, to, pagesOf, n - 1);
    }
  }

  /** `get_group_recordings`: list the members, then aggregate their
      recordings. A failure of the member listing is not caught. */
  function GetGroupRecordings(groupId: string, memberPages: seq<Page<Member>>, from: string, to: string,
                              pagesOf: nat -> seq<Page<Naming.Meeting>>): (r: Result<RecordingMap, ListingError>)
    ensures r.Ok? <==> GroupMembers(groupId, memberPages).Ok?
    ensures r.Ok? ==>
      var members := GroupMembers(groupId, memberPages).value;
      r.value == GroupRecordings(members, from, to, pagesOf, |members|)
  {
    var members :- GroupMembers(groupId, memberPages);
    Ok(GroupRecordings(members, from, to, pagesOf, |members|))
  }
}
