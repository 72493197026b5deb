/**
  `run` of the baby-names command: validate the flags, collect the names of
  every year in the range, refuse an empty result, and list the names sorted.
  The four flags are plain parameters and the service is `fetch`; the listing
  returned on success is what `main` prints, one name per line, and the error
  returned on failure is what it prints instead.
*/
module BabyNames {
  import opened Wrappers
  import opened Errors
  import opened Flags
  import opened Years
  import opened Listing

  /** The set of names the run lists, or the error it stops with. */
  function Names(sex: string, yearStart: int, yearEnd: int, top: int, fetch: (int, int) -> Response)
    : (r: Result<set<string>, Error>)
    ensures r.Success? ==> r.value != {}
  {
    match Validate(sex, top)
    case Failure(e) => Failure(e)
    case Success(offset) =>
      match YearNames(fetch, yearStart, yearEnd, top, offset)
      case Failure(e) => Failure(e)
      case Success(names) => if names == {} then Failure(NoNames) else Success(names)
  }

  method Run(sex: string, yearStart: int, yearEnd: int, top: int, fetch: (int, int) -> Response)
    returns (r: Result<seq<string>, Error>)
    ensures Names(sex, yearStart, yearEnd, top, fetch).Failure? ==>
      r == Failure(Names(sex, yearStart, yearEnd, top, fetch).error)
    ensures Names(sex, yearStart, yearEnd, top, fetch).Success? ==>
      r.Success? && StrictlyAscending(r.value) && Elements(r.value) == Names(sex, yearStart, yearEnd, top, fetch).value
  {
    var tableMod := Validate(sex, top);
    if tableMod.Failure? {
      return Failure(tableMod.error);
    }
    var names := CollectNames(fetch, yearStart, yearEnd, top, tableMod.value);
    if names.Failure? {
      return Failure(names.error);
    }
    if |names.value| == 0 {
      return Failure(NoNames);
    }
    var nameList := FillList(names.value);
    SortStrings(nameList);
    OnceEach(nameList[..], names.value);
    SortedDistinctAscending(nameList[..]);
    return Success(nameList[..]);
  }

  /** A bad flag is reported before any request: the service's answers make no difference. */
  lemma FlagsCheckedFirst(sex: string, yearStart: int, yearEnd: int, top: int, f: (int, int) -> Response, g: (int, int) -> Response)
    requires Validate(sex, top).Failure?
    ensures Names(sex, yearStart, yearEnd, top, f) == Names(sex, yearStart, yearEnd, top, g)
    ensures Names(sex, yearStart, yearEnd, top, f) == Failure(Validate(sex, top).error)
  {
  }

  /** With valid flags and a reversed range no year is fetched, so the run ends with "no names found". */
  lemma ReversedRangeFindsNothing(sex: string, yearStart: int, yearEnd: int, top: int, fetch: (int, int) -> Response)
    requires sex in {"boy", "girl"} && top in TopSizes && yearStart > yearEnd
    ensures Names(sex, yearStart, yearEnd, top, fetch) == Failure(NoNames)
  {
    EmptyRange(fetch, yearStart, yearEnd, top, Validate(sex, top).value);
  }

  /**
    With valid flags and every page read, the run lists exactly the names some
    year's matching tables hold in the sex's column, and fails with "no names
    found" exactly when there are none.
  */
  lemma NamesAreUnionOfYears(sex: string, yearStart: int, yearEnd: int, top: int, fetch: (int, int) -> Response)
    requires Validate(sex, top).Success? && AllPagesRead(fetch, yearStart, yearEnd, top)
    ensures var offset := Validate(sex, top).value;
      (Names(sex, yearStart, yearEnd, top, fetch).Success? ||
       Names(sex, yearStart, yearEnd, top, fetch) == Failure(NoNames)) &&
      (forall x :: (Names(sex, yearStart, yearEnd, top, fetch).Success? && x in Names(sex, yearStart, yearEnd, top, fetch).value)
        <==> InSomeYear(fetch, yearStart, yearEnd, top, offset, x))
  {
    var offset := Validate(sex, top).value;
    YearNamesUnion(fetch, yearStart, yearEnd, top, offset);
  }

  /**
    Two runs on the same flags and the same answers give the same listing, whatever
    order the name map happens to be walked in.
  */
  lemma ListingDeterministic(sex: string, yearStart: int, yearEnd: int, top: int, fetch: (int, int) -> Response,
                             a: seq<string>, b: seq<string>)
    requires Names(sex, yearStart, yearEnd, top, fetch).Success?
    requires StrictlyAscending(a) && Elements(a) == Names(sex, yearStart, yearEnd, top, fetch).value
    requires StrictlyAscending(b) && Elements(b) == Names(sex, yearStart, yearEnd, top, fetch).value
    ensures a == b && a != []
  {
    AscendingListingUnique(a, b);
    assert |a| == 0 ==> Elements(a) == {};
  }
}
