/** How the survey file spells the yes/no answers (`toYesNo`, used by
    `writeCSV` for the survey questions that are not numeric scales). */
module Survey {

  /** The spelling of a yes/no survey answer: 1 is "YES", anything else "NO". */
  function ToYesNo(selection: int): (r: string)
    ensures r == "YES" <==> selection == 1
    ensures r == "NO" <==> selection != 1
  {
    if selection == 1 then "YES" else "NO"
  }
}
