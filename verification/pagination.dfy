/** The pagination value object, and the pages a listing links to. */
module Paging {
  import opened Arithmetic
  import opened Wrappers

  datatype PaginationError = BadPage | BadSize

  datatype PageRequest = PageRequest(page: U32, size: U32)

  ghost predicate ValidPage(p: PageRequest) {
    1 <= p.page && 1 <= p.size <= 100
  }

  type Pagination = p: PageRequest | ValidPage(p) witness PageRequest(1, 20)

  function NewPagination(page: U32, size: U32): (r: Result<Pagination, PaginationError>)
    ensures r.Success? <==> 1 <= page && 1 <= size <= 100
    ensures r.Success? ==> r.value == PageRequest(page, size)
    ensures r == Failure(BadPage) <==> page == 0
  {
    if page < 1 then Failure(BadPage)
    else if !(1 <= size <= 100) then Failure(BadSize)
    else Success(PageRequest(page, size))
  }

  function Offset(p: Pagination): nat {
    (p.page - 1) * p.size
  }

  /** Pages a list of `total` rows has. */
  function PageCount(total: nat, size: nat): (n: nat)
    requires size > 0
    ensures n > 0 && (total > 0 ==> (n - 1) * size < total <= n * size)
    ensures total == 0 ==> n == 1
  {
    if total == 0 then 1 else (total + size - 1) / size
  }

  // --- The Link header ---

  datatype Rel = First | Prev | Next | Last

  datatype Link = Link(rel: Rel, page: U32)

  /** The low 32 bits of a number. */
  function AsU32(n: nat): U32 {
    n % 0x1_0000_0000
  }

  /** The quotient rounded up, and at least 1. */
  function DivCeil(total: nat, size: nat): nat
    requires size > 0
  {
    var q := if total % size == 0 then total / size else total / size + 1;
    if q < 1 then 1 else q
  }

  /** The page `next` links to: only when the list goes on after this page. */
  function NextOf(page: U32, size: U32, total: nat): Option<U32> {
    if page * size < total then Some(AsU32(page + 1)) else None
  }

  /** The page `last` links to. */
  function LastOf(size: U32, total: nat): Option<U32>
    requires size > 0
  {
    if total > 0 then Some(AsU32(DivCeil(total, size))) else None
  }

  function LinkTo(rel: Rel, page: Option<U32>): seq<Link> {
    if page.Some? then [Link(rel, page.value)] else []
  }

  /** The links of a page, in order. */
  function LinksOf(page: U32, size: U32, total: nat): seq<Link>
    requires size > 0
  {
    [Link(First, 1)] + LinkTo(Prev, if page > 1 then Some(page - 1) else None)
    + LinkTo(Next, NextOf(page, size, total)) + LinkTo(Last, LastOf(size, total))
  }

  lemma DivCeilIsPageCount(total: nat, size: nat)
    requires size > 0
    ensures DivCeil(total, size) == PageCount(total, size)
  {
    var q, r := total / size, total % size;
    assert total == q * size + r;
    if total > 0 {
      if r == 0 {
        DivUnique(total + size - 1, size, q, size - 1);
      } else {
        assert (q + 1) * size == q * size + size;
        DivUnique(total + size - 1, size, q + 1, r - 1);
      }
    }
  }

  // --- Walking the pages ---

  /** All of a list can be reached: its last page has a 32-bit number. */
  ghost predicate Addressable(size: U32, total: nat) {
    total <= size * 0xFFFF_FFFF
  }

  lemma PageCountFits(size: U32, total: nat)
    requires size > 0
    ensures Addressable(size, total) <==> PageCount(total, size) <= 0xFFFF_FFFF
  {
    var n: nat := PageCount(total, size);
    if n <= 0xFFFF_FFFF {
      MulMonotone(n, 0xFFFF_FFFF, size);
    } else {
      MulMonotone(0xFFFF_FFFF, n - 1, size);
    }
  }

  /** `last` names the last page exactly when all of the list can be reached. */
  lemma LastIsLastIff(size: U32, total: nat)
    requires size > 0 && total > 0
    ensures LastOf(size, total) == Some(PageCount(total, size)) <==> Addressable(size, total)
  {
    DivCeilIsPageCount(total, size);
    PageCountFits(size, total);
  }

  /** There is a next page exactly before the last one, and its link is exact: no overflow of
      the 32-bit page number. */
  lemma NextIsExact(page: U32, size: U32, total: nat)
    requires 1 <= page && 0 < size && Addressable(size, total)
    ensures NextOf(page, size, total) == if page < PageCount(total, size) then Some(page + 1) else None
  {
    PageCountFits(size, total);
    var n := PageCount(total, size);
    if page < n {
      MulMonotone(page, n - 1, size);
    } else {
      MulMonotone(n, page, size);
    }
  }

  // --- Slices ---

  /** LIMIT and OFFSET of a page. */
  function Slice<T>(s: seq<T>, p: Pagination): seq<T> {
    var lo := if Offset(p) < |s| then Offset(p) else |s|;
    var hi := if lo + p.size < |s| then lo + p.size else |s|;
    s[lo..hi]
  }

  /** The first `n` pages, one after the other. */
  ghost function PagesJoined<T>(s: seq<T>, size: U32, n: nat): seq<T>
    requires 1 <= size <= 100 && n <= 0xFFFF_FFFF
  {
    if n == 0 then [] else PagesJoined(s, size, n - 1) + Slice(s, PageRequest(n, size))
  }

  /** The first rows of a list, and then those of one slice more. */
  lemma OneMoreSlice<T>(s: seq<T>, p: Pagination)
    ensures var lo, hi := Offset(p), Offset(p) + p.size;
            s[..if lo < |s| then lo else |s|] + Slice(s, p) == s[..if hi < |s| then hi else |s|]
  {
    hide Offset;
  }

  lemma {:induction false} PagesArePrefix<T>(s: seq<T>, size: U32, n: nat)
    requires 1 <= size <= 100 && n <= 0xFFFF_FFFF
    ensures PagesJoined(s, size, n) == s[..if n * size < |s| then n * size else |s|]
    decreases n
  {
    hide Slice;
    if n > 0 {
      PagesArePrefix(s, size, n - 1);
      MulSucc(size, n - 1);
      OneMoreSlice(s, PageRequest(n, size));
    }
  }

  /** The pages of a list, joined, are the list. */
  lemma PagesJoinToAll<T>(s: seq<T>, size: U32)
    requires 1 <= size <= 100 && Addressable(size, |s|)
    ensures PageCount(|s|, size) <= 0xFFFF_FFFF
    ensures PagesJoined(s, size, PageCount(|s|, size)) == s
  {
    PageCountFits(size, |s|);
    PagesArePrefix(s, size, PageCount(|s|, size));
  }

  /** Offset and limit fit the 64-bit integers they are bound as. */
  lemma BindsFit(p: Pagination)
    ensures Offset(p) + p.size < 0x8000_0000_0000_0000
  {
    MulMonotone(p.page - 1, 0xFFFF_FFFE, p.size);
  }
}
