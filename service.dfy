/**
 * The service-name filter of `get_service` in main.cpp: a line made only of
 * spaces (the empty line included) becomes the empty service name; any other
 * line is kept exactly as read.
 */
module Service {
  import opened Wrappers

  /** Every character of `line` is a space; true of the empty line. */
  predicate IsBlank(line: string)
  {
    forall k :: 0 <= k < |line| ==> line[k] == ' '
  }

  /**
   * `std::string::find_first_not_of(c)`: the position of the first character
   * other than `c`, or `None` where the library returns `npos`.
   */
  function FindFirstNotOf(s: string, c: char): (r: Option<nat>)
    ensures r.None? <==> forall k :: 0 <= k < |s| ==> s[k] == c
    ensures r.Some? ==> r.value < |s| && s[r.value] != c
    ensures r.Some? ==> forall k :: 0 <= k < r.value ==> s[k] == c
  {
    if s == [] then None
    else if s[0] != c then Some(0)
    else match FindFirstNotOf(s[1..], c)
      case None => None
      case Some(i) => Some(i + 1)
  }

  /** The filter applied to the line `getline` read. */
  function GetService(line: string): (service: string)
    ensures service == "" <==> IsBlank(line)
    ensures service != "" ==> service == line
  {
    if FindFirstNotOf(line, ' ') == None then "" else line
  }

  /** A line of tabs is not blank: it passes through as the service name. */
  lemma TabOnlyLinePassesThrough()
    ensures GetService("\t\t") == "\t\t"
  {
    assert !IsBlank("\t\t") by { assert "\t\t"[0] != ' '; }
  }

  /** Leading and trailing spaces are not trimmed. */
  lemma PaddedLineIsNotTrimmed()
    ensures GetService("  mail ") == "  mail "
  {
    assert !IsBlank("  mail ") by { assert "  mail "[2] != ' '; }
  }
}
