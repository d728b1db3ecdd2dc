/** Direction parsing and the choice of the LINQ ordering method for one sort criterion. */
module SortSelection {
  import opened Wrappers
  import Text

  datatype SortType = ASC | DESC

  /** Whether a criterion is the primary ordering or a tie-breaking one. */
  datatype OrderType = Order | Then

  /** A caller's sort criterion: a property path and a direction token, which may be null (None). */
  datatype Sorting = Sorting(propertyName: string, orderType: Option<string>)

  const AscendingTokens: set<string> := {"asc", "ascending", "a"}
  const DescendingTokens: set<string> := {"desc", "descending", "d"}

  /** Parses a direction token. Only the exact lower-case descending tokens give DESC;
      a null or empty token, the ascending tokens and every other string give ASC. */
  function GetSortType(token: Option<string>): (r: SortType)
    ensures r == DESC <==> token.Some? && token.value in DescendingTokens
  {
    if token.None? || token.value == "" then ASC
    else if token.value in AscendingTokens then ASC
    else if token.value in DescendingTokens then DESC
    else ASC
  }

  /** Boundary cases of the parser: the comparison is exact and case-sensitive. */
  lemma GetSortTypeBoundaries()
    ensures GetSortType(None) == ASC && GetSortType(Some("")) == ASC
    ensures GetSortType(Some("desc")) == DESC && GetSortType(Some("descending")) == DESC
    ensures GetSortType(Some("d")) == DESC
    ensures GetSortType(Some("DESC")) == ASC && GetSortType(Some("Desc")) == ASC
    ensures GetSortType(Some("sideways")) == ASC && GetSortType(Some("asc")) == ASC
  {
  }

  /** The name of the ordering method a criterion maps to. It starts with "OrderBy" exactly
      for the primary criterion and with "ThenBy" otherwise, and ends with "Descending"
      exactly when the token parses to DESC. */
  function GetSortMethodName(sorting: Sorting, orderType: OrderType): (name: string)
    ensures name in {"OrderBy", "ThenBy", "OrderByDescending", "ThenByDescending"}
    ensures "OrderBy" <= name <==> orderType.Order?
    ensures "ThenBy" <= name <==> orderType.Then?
    ensures Text.EndsWith(name, "Descending") <==> GetSortType(sorting.orderType) == DESC
  {
    MethodNamePrefixes();
    if GetSortType(sorting.orderType) == ASC then
      (if orderType == Order then "OrderBy" else "ThenBy")
    else
      (if orderType == Order then "OrderByDescending" else "ThenByDescending")
  }

  /** Which of the four method names start with which position prefix. */
  lemma MethodNamePrefixes()
    ensures "OrderBy" <= "OrderBy" && "OrderBy" <= "OrderByDescending"
    ensures "ThenBy" <= "ThenBy" && "ThenBy" <= "ThenByDescending"
    ensures !("ThenBy" <= "OrderBy") && !("ThenBy" <= "OrderByDescending")
    ensures !("OrderBy" <= "ThenBy") && !("OrderBy" <= "ThenByDescending")
  {
    assert "OrderByDescending"[..7] == "OrderBy" && "ThenByDescending"[..6] == "ThenBy";
    assert "OrderBy"[..6][0] == 'O' && "OrderByDescending"[..6][0] == 'O';
    assert "ThenBy"[0] == 'T' && "ThenByDescending"[..7][0] == 'T';
  }

  /** Reads the position and direction back from a method name. */
  function ParseSortMethodName(name: string): Option<(OrderType, SortType)>
  {
    if name == "OrderBy" then Some((Order, ASC))
    else if name == "ThenBy" then Some((Then, ASC))
    else if name == "OrderByDescending" then Some((Order, DESC))
    else if name == "ThenByDescending" then Some((Then, DESC))
    else None
  }

  /** The method name determines the position and the direction, so the four
      (position, direction) pairs map to four distinct names. */
  lemma SortMethodNameRoundTrip(sorting: Sorting, orderType: OrderType)
    ensures ParseSortMethodName(GetSortMethodName(sorting, orderType))
         == Some((orderType, GetSortType(sorting.orderType)))
  {
  }
}
