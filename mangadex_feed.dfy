/**
 * The paging loop of `MangaDex.get_manga_chapters`
 * (src/mangadlmao/apis/mangadex.py). Each request asks for `PageLimit`
 * entries at the current offset; the server's answers are given as a
 * sequence, the i-th answer being the reply to the i-th request.
 */
module MangaDexFeed {

  const PageLimit := 500

  /** The fields of one feed response the loop reads. */
  datatype FeedPage<T> = FeedPage(data: seq<T>, limit: int, offset: int, total: int)

  /** The loop stops after this response. */
  predicate IsFinal<T>(p: FeedPage<T>)
  {
    p.limit + p.offset >= p.total
  }

  /** How many of the responses from index `i` on the loop reads: up to and including the first final one. */
  function PagesFrom<T>(rs: seq<FeedPage<T>>, i: nat): (n: nat)
    requires i <= |rs|
    ensures i <= n <= |rs|
    ensures forall j :: i <= j < n - 1 ==> !IsFinal(rs[j])
    ensures (n > i && IsFinal(rs[n - 1])) || n == |rs|
    decreases |rs| - i
  {
    if i == |rs| then i
    else if IsFinal(rs[i]) then i + 1
    else PagesFrom(rs, i + 1)
  }

  function Flatten<T>(rs: seq<FeedPage<T>>): seq<T>
  {
    if rs == [] then [] else Flatten(rs[..|rs| - 1]) + rs[|rs| - 1].data
  }

  /** The offset sent with request `i`: 0 first, then the previous answer's limit plus offset. */
  function RequestedOffset<T>(rs: seq<FeedPage<T>>, i: nat): int
    requires i <= |rs|
  {
    if i == 0 then 0 else rs[i - 1].limit + rs[i - 1].offset
  }

  /**
   * The loop. `offsets` are the offsets of the requests answered; the result
   * is the data of those answers in request order. `complete` is false only
   * when the given answers run out before a final one.
   */
  method GetMangaChapters<T>(responses: seq<FeedPage<T>>)
    returns (chapters: seq<T>, offsets: seq<int>, complete: bool)
    ensures |offsets| == PagesFrom(responses, 0)
    ensures chapters == Flatten(responses[..|offsets|])
    ensures forall i :: 0 <= i < |offsets| ==> offsets[i] == RequestedOffset(responses, i)
    ensures complete <==> |offsets| > 0 && IsFinal(responses[|offsets| - 1])
  {
    chapters, offsets := [], [];
    var offset := 0;
    var i := 0;
    while i < |responses|
      invariant i <= |responses| && |offsets| == i
      invariant PagesFrom(responses, 0) == PagesFrom(responses, i)
      invariant chapters == Flatten(responses[..i])
      invariant offset == RequestedOffset(responses, i)
      invariant forall j :: 0 <= j < i ==> !IsFinal(responses[j])
      invariant forall j :: 0 <= j < i ==> offsets[j] == RequestedOffset(responses, j)
    {
      var page := responses[i];
      offsets := offsets + [offset];
      assert responses[..i + 1][..i] == responses[..i];
      chapters := chapters + page.data;
      offset := page.limit + page.offset;
      i := i + 1;
      if offset >= page.total {
        return chapters, offsets, true;
      }
    }
    return chapters, offsets, false;
  }

  /** A server that answers each request as asked, with a fixed total. */
  predicate Honest<T>(rs: seq<FeedPage<T>>, total: int)
  {
    forall i :: 0 <= i < |rs| ==> rs[i].limit == PageLimit && rs[i].offset == PageLimit * i && rs[i].total == total
  }

  /** Against an honest server the offsets advance by one page each time. */
  lemma HonestOffsets<T>(rs: seq<FeedPage<T>>, total: int, i: nat)
    requires Honest(rs, total) && i <= |rs|
    ensures RequestedOffset(rs, i) == PageLimit * i
  {
  }

  /** Against an honest server the loop reads ceil(total / 500) pages, and at least one. */
  lemma HonestPageCount<T>(rs: seq<FeedPage<T>>, total: nat)
    requires Honest(rs, total) && |rs| >= PagesNeeded(total)
    ensures PagesFrom(rs, 0) == PagesNeeded(total)
  {
    HonestPagesFrom(rs, total, 0);
  }

  function PagesNeeded(total: nat): (n: nat)
    ensures n >= 1 && (n - 1) * PageLimit < total + PageLimit && n * PageLimit >= total
  {
    if total <= PageLimit then 1 else (total + PageLimit - 1) / PageLimit
  }

  lemma {:induction false} HonestPagesFrom<T>(rs: seq<FeedPage<T>>, total: nat, i: nat)
    requires Honest(rs, total) && |rs| >= PagesNeeded(total) && i < PagesNeeded(total)
    ensures PagesFrom(rs, i) == PagesNeeded(total)
    decreases |rs| - i
  {
    if i + 1 < PagesNeeded(total) {
      assert !IsFinal(rs[i]);
      HonestPagesFrom(rs, total, i + 1);
    } else {
      assert IsFinal(rs[i]);
    }
  }
}
