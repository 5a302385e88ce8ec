/** The list handlers (`GET /api/items`, `GET /api/users`): sanitising the
    `page` and `limit` query parameters, the skip offset, the page count and
    the window of records returned. */
module Listing {
  import opened Js
  import opened Documents

  const DefaultPage: int := 1
  const DefaultLimit: int := 10
  const MaxLimit: int := 100

  function Min(a: int, b: int): int { if a <= b then a else b }
  function Max(a: int, b: int): int { if a >= b then a else b }

  /** `safePage`: the parsed `page` parameter when it is a positive integer,
      otherwise 1. An absent or empty parameter parses as "1". */
  function SafePage(param: Option<string>): (page: int)
    ensures page >= 1
    ensures page == DefaultPage || ParseInt(ParamOr(param, "1")) == Int(page)
    ensures ParseInt(ParamOr(param, "1")).Int? && ParseInt(ParamOr(param, "1")).value > 0
            ==> page == ParseInt(ParamOr(param, "1")).value
  {
    var p := ParseInt(ParamOr(param, "1"));
    if p.Int? && p.value > 0 then p.value else DefaultPage
  }

  /** `safeLimit`: the parsed `limit` parameter when it lies in 1..100,
      otherwise 10. An absent or empty parameter parses as "10". */
  function SafeLimit(param: Option<string>): (limit: int)
    ensures 1 <= limit <= MaxLimit
    ensures limit == DefaultLimit || ParseInt(ParamOr(param, "10")) == Int(limit)
    ensures ParseInt(ParamOr(param, "10")).Int? && 0 < ParseInt(ParamOr(param, "10")).value <= MaxLimit
            ==> limit == ParseInt(ParamOr(param, "10")).value
  {
    var p := ParseInt(ParamOr(param, "10"));
    if p.Int? && p.value > 0 && p.value <= MaxLimit then p.value else DefaultLimit
  }

  /** `skip = (safePage - 1) * safeLimit`: a whole number of pages, from
      which the page number can be read back. */
  function Skip(page: int, limit: int): (skip: nat)
    requires page >= 1 && limit >= 1
    ensures skip % limit == 0 && skip / limit == page - 1
    ensures skip == 0 <==> page == 1
  {
    var k := (page - 1) * limit;
    assert k >= 0;
    assert k / limit == page - 1 && k % limit == 0 by {
      LemmaDivExact(page - 1, limit);
    }
    k
  }

  lemma LemmaDivExact(q: nat, d: int)
    requires d >= 1
    ensures (q * d) / d == q && (q * d) % d == 0
  {
    var k := q * d;
    var a, b := k / d, k % d;
    assert k == a * d + b;
    assert (q - a) * d == b;
    LemmaMultipleBelowDivisor(q - a, d, b);
  }

  lemma LemmaMultipleBelowDivisor(x: int, d: int, b: int)
    requires d >= 1 && x * d == b && 0 <= b < d
    ensures x == 0
  {
    if x >= 1 {
      LemmaMulMono(1, x, d);
    } else if x <= -1 {
      LemmaMulMono(x, -1, d);
    }
  }

  lemma LemmaMulMono(x: int, y: int, d: int)
    requires x <= y && d >= 0
    ensures x * d <= y * d
  {
  }

  /** `totalPages = Math.ceil(total / safeLimit)`: the least number of pages
      of `limit` records that holds all `total` records. */
  function TotalPages(total: nat, limit: int): (pages: nat)
    requires limit >= 1
    ensures total <= pages * limit
    ensures pages == 0 || (pages - 1) * limit < total
    ensures pages == 0 <==> total == 0
  {
    var q := (total + limit - 1) / limit;
    assert q * limit + (total + limit - 1) % limit == total + limit - 1;
    assert (q - 1) * limit == q * limit - limit;
    q
  }

  /** `.skip(skip).limit(limit)` on a sequence: at most `limit` elements,
      starting at position `skip`; empty when `skip` is past the end. */
  function Window<T>(s: seq<T>, skip: nat, limit: nat): (w: seq<T>)
    requires limit >= 1
    ensures |w| == Min(limit, Max(0, |s| - skip))
    ensures forall i :: 0 <= i < |w| ==> w[i] == s[skip + i]
  {
    s[Min(skip, |s|)..Min(skip + limit, |s|)]
  }

  /** The JSON body of a successful list response. */
  datatype ListResponse = ListResponse(
    data: seq<Document>,
    page: int,
    limit: int,
    total: nat,
    totalPages: nat)

  /** The list handler over a collection `stored`, given the database's
      newest-first answer `ranked` to `find({}).sort({ createdAt: -1 })`. */
  function List(ranked: seq<Document>, stored: seq<Document>,
                pageParam: Option<string>, limitParam: Option<string>): (r: ListResponse)
    requires IsRanking(ranked, stored)
    ensures r.page == SafePage(pageParam) && r.limit == SafeLimit(limitParam)
    ensures r.total == |stored|
    ensures r.totalPages == TotalPages(r.total, r.limit)
    ensures r.data == Window(ranked, Skip(r.page, r.limit), r.limit)
    ensures |r.data| == Min(r.limit, Max(0, r.total - Skip(r.page, r.limit)))
    ensures NewestFirst(r.data) && multiset(r.data) <= multiset(stored)
    ensures r.total == 0 ==> r.totalPages == 0 && r.data == []
  {
    RankingSize(ranked, stored);
    var page := SafePage(pageParam);
    var limit := SafeLimit(limitParam);
    var skip := Skip(page, limit);
    WindowOfRanking(ranked, stored, skip, limit);
    ListResponse(Window(ranked, skip, limit), page, limit, |stored|, TotalPages(|stored|, limit))
  }

  /** A window of a ranking is itself newest first and holds only records of
      the collection. */
  lemma WindowOfRanking(ranked: seq<Document>, stored: seq<Document>, skip: nat, limit: nat)
    requires IsRanking(ranked, stored) && limit >= 1
    ensures NewestFirst(Window(ranked, skip, limit))
    ensures multiset(Window(ranked, skip, limit)) <= multiset(stored)
  {
    var a, b := Min(skip, |ranked|), Min(skip + limit, |ranked|);
    assert ranked == ranked[..a] + ranked[a..b] + ranked[b..];
    assert Window(ranked, skip, limit) == ranked[a..b];
  }

  /** The records of pages 1..n, one page after another. */
  function Pages<T>(s: seq<T>, limit: int, n: nat): seq<T>
    requires limit >= 1
  {
    if n == 0 then [] else Pages(s, limit, n - 1) + Window(s, Skip(n, limit), limit)
  }

  lemma {:induction false} PagesArePrefix<T>(s: seq<T>, limit: int, n: nat)
    requires limit >= 1
    ensures Pages(s, limit, n) == s[..Min(n * limit, |s|)]
  {
    if n > 0 {
      PagesArePrefix(s, limit, n - 1);
      assert Skip(n, limit) == (n - 1) * limit;
      assert (n - 1) * limit + limit == n * limit;
      var a, b := Min((n - 1) * limit, |s|), Min(n * limit, |s|);
      assert s[..a] + s[a..b] == s[..b];
    }
  }

  /** Walking pages 1..totalPages of one ranking yields every record exactly
      once, in ranking order. Each page is a separate request, so this holds
      when the database answers every request with the same ranking; see
      `PagesMayRepeatAcrossRequests` for what happens otherwise. */
  lemma PagesCoverRanking<T>(s: seq<T>, limit: int)
    requires limit >= 1
    ensures Pages(s, limit, TotalPages(|s|, limit)) == s
  {
    PagesArePrefix(s, limit, TotalPages(|s|, limit));
  }

  /** Any page after the last one is empty. */
  lemma PageBeyondLastIsEmpty<T>(s: seq<T>, page: int, limit: int)
    requires limit >= 1 && page > TotalPages(|s|, limit)
    ensures Window(s, Skip(page, limit), limit) == []
  {
    var tp := TotalPages(|s|, limit);
    assert (page - 1) * limit >= tp * limit by { LemmaMulMono(tp, page - 1, limit); }
  }

  /** Records with equal `createdAt` may be ranked differently by two
      requests: with two such records and a limit of 1, pages 1 and 2 can
      both list the first record, so the second is never listed. */
  lemma PagesMayRepeatAcrossRequests(a: Document, b: Document)
    requires a.createdAt == b.createdAt
    ensures List([a, b], [a, b], Some("1"), Some("1")).totalPages == 2
    ensures List([a, b], [a, b], Some("1"), Some("1")).data == [a]
    ensures List([b, a], [a, b], Some("2"), Some("1")).data == [a]
  {
    SmallNumerals();
    TiedRecordsRankEitherWay(a, b);
    var first, second := List([a, b], [a, b], Some("1"), Some("1")), List([b, a], [a, b], Some("2"), Some("1"));
    assert first.data == Window([a, b], Skip(1, 1), 1);
    assert second.data == Window([b, a], Skip(2, 1), 1);
    assert Skip(1, 1) == 0 && Skip(2, 1) == 1;
  }

  /** Two records with the same `createdAt` may be listed in either order. */
  lemma TiedRecordsRankEitherWay(a: Document, b: Document)
    requires a.createdAt == b.createdAt
    ensures IsRanking([a, b], [a, b]) && IsRanking([b, a], [a, b])
  {
    assert multiset([b, a]) == multiset([a, b]);
  }

  /** The parameters "1" and "2" are taken as they are. */
  lemma SmallNumerals()
    ensures SafePage(Some("1")) == 1 && SafePage(Some("2")) == 2 && SafeLimit(Some("1")) == 1
  {
    assert Decimal(1) == "1" && Decimal(2) == "2";
    PageOfNumeral(1);
    PageOfNumeral(2);
    LimitOfNumeral(1);
  }

  /** A numeral between 1 and 100 is taken as the limit; any other numeral
      falls back to 10. */
  lemma LimitOfNumeral(n: nat)
    ensures SafeLimit(Some(Decimal(n))) == if 1 <= n <= MaxLimit then n else DefaultLimit
  {
    NumeralParses(n);
    assert ParamOr(Some(Decimal(n)), "10") == Decimal(n);
  }

  /** A positive numeral is taken as the page; "0" falls back to page 1. */
  lemma PageOfNumeral(n: nat)
    ensures SafePage(Some(Decimal(n))) == if n >= 1 then n else DefaultPage
  {
    NumeralParses(n);
    assert ParamOr(Some(Decimal(n)), "1") == Decimal(n);
  }

  lemma NumeralParses(n: nat)
    ensures ParseInt(Decimal(n)) == Int(n)
  {
    ParseIntOfDecimal([], n, []);
    assert [] + Decimal(n) + [] == Decimal(n);
  }

  /** Without query parameters the first ten records are listed. */
  lemma DefaultsWithoutParameters()
    ensures SafePage(None) == 1 && SafeLimit(None) == 10
  {
    assert Decimal(1) == "1";
    assert Decimal(10) == "10";
    PageOfNumeral(1);
    LimitOfNumeral(10);
  }
}
