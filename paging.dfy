/** Spring Data's `Pageable` and `Page`, reduced to what the services use. */
module Paging {

  /** `PageRequest.of` refuses a size below one. */
  type PageSize = n: int | n >= 1 witness 1

  /** The order a page request asks for. */
  datatype Sort = Unsorted | DateDescending

  datatype PageRequest = PageRequest(pageNumber: nat, pageSize: PageSize, sort: Sort)

  /** One page of a query: its content, the request it answers and the size of the whole result. */
  datatype Page<T> = Page(content: seq<T>, pageable: PageRequest, totalElements: nat)

  function Offset(pr: PageRequest): nat {
    pr.pageNumber * pr.pageSize
  }

  /** Page `n` of size `z` of an ordered result: its elements `n*z .. n*z+z-1` that exist. */
  function Slice<T>(s: seq<T>, pr: PageRequest): (r: seq<T>)
    ensures |r| <= pr.pageSize
    ensures |r| == if Offset(pr) >= |s| then 0 else Min(pr.pageSize, |s| - Offset(pr))
    ensures forall i :: 0 <= i < |r| ==> Offset(pr) + i < |s| && r[i] == s[Offset(pr) + i]
  {
    var lo := Min(Offset(pr), |s|);
    var hi := Min(lo + pr.pageSize, |s|);
    s[lo..hi]
  }

  function Min(a: int, b: int): int {
    if a <= b then a else b
  }

  /** The page a repository returns for an ordered result. */
  function PageOf<T>(s: seq<T>, pr: PageRequest): (p: Page<T>)
    ensures p.pageable == pr && p.totalElements == |s|
  {
    Page(Slice(s, pr), pr, |s|)
  }

  /** `Page.getTotalPages`: the total divided by the page size, rounded up. */
  function TotalPages<T>(p: Page<T>): (n: nat)
    ensures n * p.pageable.pageSize >= p.totalElements
    ensures n == 0 || (n - 1) * p.pageable.pageSize < p.totalElements
  {
    var z := p.pageable.pageSize;
    DivBounds(p.totalElements + z - 1, z);
    var n := (p.totalElements + z - 1) / z;
    assert n == 0 || (n - 1) * z == n * z - z;
    n
  }

  /** `new PageImpl<>(list, page.getPageable(), page.getTotalElements())` with
      `list` the page's content mapped one to one. */
  function MapPage<T, U>(p: Page<T>, f: T -> U): (r: Page<U>)
    ensures |r.content| == |p.content|
    ensures forall i :: 0 <= i < |p.content| ==> r.content[i] == f(p.content[i])
    ensures r.pageable == p.pageable && r.totalElements == p.totalElements
  {
    Page(seq(|p.content|, i requires 0 <= i < |p.content| => f(p.content[i])), p.pageable, p.totalElements)
  }

  /** A page has content exactly when its number is below the page count, so
      asking past the last page yields an empty page, never an error. */
  lemma PageEmptyIffPastLast<T>(s: seq<T>, pr: PageRequest)
    ensures PageOf(s, pr).content == [] <==> pr.pageNumber >= TotalPages(PageOf(s, pr))
  {
    var z := pr.pageSize;
    var n := pr.pageNumber;
    var t := TotalPages(PageOf(s, pr));
    DivBounds(|s| + z - 1, z);
    assert t * z <= |s| + z - 1 < t * z + z;
    if n >= t {
      MulMono(t, n, z);
    } else {
      MulMono(n + 1, t, z);
    }
  }

  lemma DivBounds(a: nat, b: PageSize)
    ensures (a / b) * b <= a < (a / b) * b + b
  {
  }

  lemma MulMono(a: nat, b: nat, c: nat)
    requires a <= b
    ensures a * c <= b * c
  {
  }

  /** The pages, taken in order, lay out the whole result: an element at
      position `k` is element `k mod z` of page `k div z`. */
  lemma ElementOnItsPage<T>(s: seq<T>, z: PageSize, k: nat, sort: Sort)
    requires k < |s|
    ensures var pr := PageRequest(k / z, z, sort);
      k % z < |Slice(s, pr)| && Slice(s, pr)[k % z] == s[k]
  {
    var pr := PageRequest(k / z, z, sort);
    assert Offset(pr) + k % z == k;
  }
}
