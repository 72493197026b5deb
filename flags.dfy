/** The checks `run` makes on its flags before any request is sent. */
module Flags {
  import opened Wrappers
  import opened Errors

  /** The result-page layout repeats three cells per rank: rank, boy's name, girl's name. */
  const BoyColumn: nat := 1
  const GirlColumn: nat := 2

  /** The sizes of ranking the service publishes. */
  const TopSizes: set<int> := {20, 50, 100, 500, 1000}

  /** The switch on -sex: the column holding that sex's names, or the error. */
  function TableMod(sex: string): (r: Result<nat, Error>)
    ensures r == Success(BoyColumn) <==> sex == "boy"
    ensures r == Success(GirlColumn) <==> sex == "girl"
    ensures r == Failure(SexRequired) <==> sex == ""
    ensures r == Failure(UnknownSex) <==> sex !in {"", "boy", "girl"}
  {
    if sex == "boy" then Success(BoyColumn)
    else if sex == "girl" then Success(GirlColumn)
    else if sex == "" then Failure(SexRequired)
    else Failure(UnknownSex)
  }

  predicate ValidTop(top: int) {
    top != 20 ==> top != 50 ==> top != 100 ==> top != 500 ==> top == 1000
  }

  /** Both checks in the order `run` makes them: the column offset, or the first error. */
  function Validate(sex: string, top: int): (r: Result<nat, Error>)
    ensures r.Success? <==> (sex == "boy" || sex == "girl") && top in TopSizes
    ensures r.Success? ==> r.value in {BoyColumn, GirlColumn} && r == TableMod(sex)
    // the sex flag is checked first, so a bad -sex is reported whatever -top is
    ensures sex == "" ==> r == Failure(SexRequired)
    ensures sex !in {"", "boy", "girl"} ==> r == Failure(UnknownSex)
    ensures sex in {"boy", "girl"} && top !in TopSizes ==> r == Failure(BadTop)
  {
    match TableMod(sex)
    case Failure(e) => Failure(e)
    case Success(offset) => if ValidTop(top) then Success(offset) else Failure(BadTop)
  }
}
