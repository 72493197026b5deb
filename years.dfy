/**
  The year loop of `run`: one request per year from -yearstart to -yearend
  inclusive, every failure fatal, the names of all pages merged into one set.
  The service is a parameter: `fetch(year, top)` is the answer it gives to the
  form `year=<year>&top=<top>`.
*/
module Years {
  import opened Wrappers
  import opened Errors
  import opened Extract

  /** The body of a response, as the document parser sees it. */
  datatype Body = Parsed(doc: Document) | Unreadable(reason: string)

  /** The outcome of one POST. */
  datatype Response =
    | RequestFailed(reason: string)
    | Response(statusCode: int, status: string, body: Body)

  const StatusOK: int := 200

  /** The checks made on one response, in the order `run` makes them: the page, or the error. */
  function PageOf(resp: Response): (r: Result<Document, Error>)
    ensures r.Success? <==> resp.Response? && resp.statusCode == StatusOK && resp.body.Parsed?
    ensures r.Success? ==> r.value == resp.body.doc
    ensures resp.RequestFailed? ==> r == Failure(Transport(resp.reason))
    ensures resp.Response? && resp.statusCode != StatusOK ==> r == Failure(BadStatus(resp.status))
    ensures resp.Response? && resp.statusCode == StatusOK && resp.body.Unreadable? ==>
      r == Failure(Unparsable(resp.body.reason))
  {
    match resp
    case RequestFailed(reason) => Failure(Transport(reason))
    case Response(code, status, body) =>
      if code != StatusOK then Failure(BadStatus(status))
      else match body
        case Unreadable(reason) => Failure(Unparsable(reason))
        case Parsed(doc) => Success(doc)
  }

  /** `acc` merged into a result that may be an error; an error stays as it is. */
  function Prepend(acc: set<string>, r: Result<set<string>, Error>): Result<set<string>, Error> {
    match r
    case Success(s) => Success(acc + s)
    case Failure(e) => Failure(e)
  }

  lemma PrependTwice(a: set<string>, b: set<string>, r: Result<set<string>, Error>)
    ensures Prepend(a, Prepend(b, r)) == Prepend(a + b, r)
    ensures Prepend({}, r) == r
  {
    if r.Success? {
      assert {} + r.value == r.value;
      assert a + (b + r.value) == (a + b) + r.value;
    }
  }

  /** The names of years `year..yearEnd`, or the error of the first year whose request fails. */
  function YearNames(fetch: (int, int) -> Response, year: int, yearEnd: int, top: int, offset: nat)
    : Result<set<string>, Error>
    decreases yearEnd - year
  {
    if year > yearEnd then Success({})
    else match PageOf(fetch(year, top))
      case Failure(e) => Failure(e)
      case Success(doc) => Prepend(PageNames(doc, top, offset), YearNames(fetch, year + 1, yearEnd, top, offset))
  }

  /** Every year of the range is answered with a readable page. */
  ghost predicate AllPagesRead(fetch: (int, int) -> Response, yearStart: int, yearEnd: int, top: int) {
    forall y :: yearStart <= y <= yearEnd ==> PageOf(fetch(y, top)).Success?
  }

  /** A name is collected when it is taken from the page of some year of the range. */
  ghost predicate InSomeYear(fetch: (int, int) -> Response, yearStart: int, yearEnd: int, top: int, offset: nat, x: string) {
    exists y :: yearStart <= y <= yearEnd && PageOf(fetch(y, top)).Success? &&
      x in PageNames(PageOf(fetch(y, top)).value, top, offset)
  }

  /** An empty range (`yearStart > yearEnd`) makes no request and collects nothing. */
  lemma EmptyRange(fetch: (int, int) -> Response, yearStart: int, yearEnd: int, top: int, offset: nat)
    requires yearStart > yearEnd
    ensures YearNames(fetch, yearStart, yearEnd, top, offset) == Success({})
  {
  }

  /**
    The loop succeeds exactly when every year's page is read, and then the set is
    the union of the names of all years of the range.
  */
  lemma {:induction false} YearNamesUnion(fetch: (int, int) -> Response, yearStart: int, yearEnd: int, top: int, offset: nat)
    ensures YearNames(fetch, yearStart, yearEnd, top, offset).Success? <==> AllPagesRead(fetch, yearStart, yearEnd, top)
    ensures YearNames(fetch, yearStart, yearEnd, top, offset).Success? ==>
      forall x :: x in YearNames(fetch, yearStart, yearEnd, top, offset).value <==>
        InSomeYear(fetch, yearStart, yearEnd, top, offset, x)
    decreases yearEnd - yearStart
  {
    if yearStart <= yearEnd {
      var rest := YearNames(fetch, yearStart + 1, yearEnd, top, offset);
      YearNamesUnion(fetch, yearStart + 1, yearEnd, top, offset);
      var first := PageOf(fetch(yearStart, top));
      if first.Success? {
        if rest.Success? {
          forall x
            ensures x in YearNames(fetch, yearStart, yearEnd, top, offset).value <==>
              InSomeYear(fetch, yearStart, yearEnd, top, offset, x)
          {
            if InSomeYear(fetch, yearStart, yearEnd, top, offset, x) && x !in PageNames(first.value, top, offset) {
              var y :| yearStart <= y <= yearEnd && PageOf(fetch(y, top)).Success? &&
                x in PageNames(PageOf(fetch(y, top)).value, top, offset);
              assert y != yearStart;
              assert InSomeYear(fetch, yearStart + 1, yearEnd, top, offset, x);
            }
          }
        } else {
          var y :| yearStart + 1 <= y <= yearEnd && !PageOf(fetch(y, top)).Success?;
          assert !AllPagesRead(fetch, yearStart, yearEnd, top);
        }
      }
    }
  }

  /** On failure the error is that of the earliest failing year; the years before it were all read. */
  lemma {:induction false} FirstFailureReported(fetch: (int, int) -> Response, yearStart: int, yearEnd: int, top: int, offset: nat)
    requires YearNames(fetch, yearStart, yearEnd, top, offset).Failure?
    ensures exists y :: (yearStart <= y <= yearEnd && AllPagesRead(fetch, yearStart, y - 1, top) &&
                         PageOf(fetch(y, top)) == Failure(YearNames(fetch, yearStart, yearEnd, top, offset).error))
    decreases yearEnd - yearStart
  {
    var e := YearNames(fetch, yearStart, yearEnd, top, offset).error;
    if PageOf(fetch(yearStart, top)).Success? {
      FirstFailureReported(fetch, yearStart + 1, yearEnd, top, offset);
      var y :| yearStart + 1 <= y <= yearEnd && AllPagesRead(fetch, yearStart + 1, y - 1, top) &&
        PageOf(fetch(y, top)) == Failure(e);
      assert AllPagesRead(fetch, yearStart, y - 1, top);
    } else {
      assert AllPagesRead(fetch, yearStart, yearStart - 1, top);
    }
  }

  /** The loop over the years of the range, in increasing order, with each year's request, checks and extraction. */
  method CollectNames(fetch: (int, int) -> Response, yearStart: int, yearEnd: int, top: int, offset: nat)
    returns (r: Result<set<string>, Error>)
    ensures r == YearNames(fetch, yearStart, yearEnd, top, offset)
  {
    var names: set<string> := {};
    var year := yearStart;
    PrependTwice({}, {}, YearNames(fetch, year, yearEnd, top, offset));
    while year <= yearEnd
      invariant YearNames(fetch, yearStart, yearEnd, top, offset) ==
        Prepend(names, YearNames(fetch, year, yearEnd, top, offset))
      decreases yearEnd - year
    {
      var page := PageOf(fetch(year, top));
      if page.Failure? {
        return Failure(page.error);
      }
      PrependTwice(names, PageNames(page.value, top, offset), YearNames(fetch, year + 1, yearEnd, top, offset));
      names := AddPageNames(names, page.value, top, offset);
      year := year + 1;
    }
    return Success(names);
  }
}
