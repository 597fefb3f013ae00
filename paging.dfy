/**
 * Page requests and pages as the services use them: `PageRequest.of`, the
 * list-to-page slicing of `BookService.getPageFromList`, and the page a
 * repository returns for `findAll(pageable)`.
 */
module Paging {
  import opened Outcomes

  /** A page request: a page index and a page size of at least one. */
  datatype Pageable = Pageable(page: nat, size: nat)

  datatype PageError = IllegalPageRequest

  /** A page of content and the total number of elements it was cut from. */
  datatype Page<T> = Page(content: seq<T>, totalElements: nat)

  /** `PageRequest.of(page, size)`: a negative page or a size below one is refused. */
  function PageRequestOf(page: int, size: int): (r: Result<Pageable, PageError>)
    ensures r.Success? <==> page >= 0 && size >= 1
    ensures r.Success? ==> r.value.page == page && r.value.size == size && r.value.size >= 1
  {
    if page < 0 || size < 1 then Failure(IllegalPageRequest)
    else Success(Pageable(page, size))
  }

  function Offset(p: Pageable): nat
  {
    p.page * p.size
  }

  function Min(a: int, b: int): int
  {
    if a <= b then a else b
  }

  /**
   * `getPageFromList`: the slice from the request's offset, at most one page
   * long; an offset past the end gives the empty page with a total of 0.
   */
  function GetPageFromList<T>(items: seq<T>, p: Pageable): Page<T>
  {
    var start := Offset(p);
    var end := Min(start + p.size, |items|);
    if start > |items| then Page([], 0)
    else Page(items[start..end], |items|)
  }

  /** `findAll(pageable)` of a repository: the slice of the table in store order and the table's size. */
  function RepositoryPage<T>(items: seq<T>, p: Pageable): Page<T>
  {
    var start := Min(Offset(p), |items|);
    Page(items[start..Min(start + p.size, |items|)], |items|)
  }

  // ---------------------------------------------------------------------------
  // Properties
  // ---------------------------------------------------------------------------

  /** A page never holds more than its size, and its content is a run of the list. */
  lemma PageShape<T>(items: seq<T>, p: Pageable)
    ensures |GetPageFromList(items, p).content| <= p.size
    ensures Offset(p) <= |items| ==>
      && GetPageFromList(items, p).totalElements == |items|
      && GetPageFromList(items, p).content == items[Offset(p)..Min(Offset(p) + p.size, |items|)]
    ensures Offset(p) > |items| ==> GetPageFromList(items, p) == Page([], 0)
  {
  }

  /** Asking for the page that starts exactly at the end gives an empty page that still reports the total. */
  lemma PageAtEnd<T>(items: seq<T>, p: Pageable)
    requires Offset(p) == |items|
    ensures GetPageFromList(items, p) == Page([], |items|)
  {
  }

  /** With a page size of at least one, item `k` is on page `k / size` at position `k % size`. */
  lemma ItemOnItsPage<T>(items: seq<T>, size: nat, k: nat)
    requires size >= 1 && k < |items|
    ensures var pg := GetPageFromList(items, Pageable(k / size, size));
      && k % size < |pg.content|
      && pg.content[k % size] == items[k]
  {
    var p := Pageable(k / size, size);
    assert Offset(p) + k % size == k;
    assert Offset(p) <= k < Offset(p) + size;
  }

  /** The contents of pages `0 .. m-1`, one after the other. */
  function PagesBefore<T>(items: seq<T>, size: nat, m: nat): seq<T>
  {
    if m == 0 then [] else PagesBefore(items, size, m - 1) + GetPageFromList(items, Pageable(m - 1, size)).content
  }

  /** Reading pages in order from the first yields the list itself, cut at the end of the last page read. */
  lemma {:induction false} PagesBeforeIsPrefix<T>(items: seq<T>, size: nat, m: nat)
    requires size >= 1
    ensures PagesBefore(items, size, m) == items[..Min(m * size, |items|)]
  {
    if m > 0 {
      PagesBeforeIsPrefix(items, size, m - 1);
      var n := |items|;
      var lo := (m - 1) * size;
      var hi := m * size;
      NextPageOffset(m, size);
      assert Offset(Pageable(m - 1, size)) == lo;
      var page := GetPageFromList(items, Pageable(m - 1, size)).content;
      if lo <= n {
        assert page == items[lo..Min(hi, n)];
        assert items[..Min(hi, n)] == items[..lo] + items[lo..Min(hi, n)];
      } else {
        assert page == [];
      }
    }
  }

  /** Page `m - 1` ends where page `m` starts. */
  lemma NextPageOffset(m: nat, size: nat)
    requires m > 0
    ensures (m - 1) * size + size == m * size
  {
  }

  lemma AtLeastOnce(n: nat, size: nat)
    requires size >= 1
    ensures n * size >= n
  {
    if n > 0 {
      assert n * size == n * (size - 1) + n;
    }
  }

  /** Pages of one size cover the whole list once enough of them are read. */
  lemma AllPagesCoverList<T>(items: seq<T>, size: nat)
    requires size >= 1
    ensures PagesBefore(items, size, |items|) == items
  {
    PagesBeforeIsPrefix(items, size, |items|);
    AtLeastOnce(|items|, size);
  }

  /** A repository page never fails, never holds more than its size, and always reports the table size. */
  lemma RepositoryPageShape<T>(items: seq<T>, p: Pageable)
    ensures |RepositoryPage(items, p).content| <= p.size
    ensures RepositoryPage(items, p).totalElements == |items|
    ensures Offset(p) <= |items| ==> RepositoryPage(items, p).content == GetPageFromList(items, p).content
  {
  }
}
