/**
 * The race name, which both decoders read the same way from the header, the first line of the
 * feed: its second `|`-separated field, when that field carries the marker `hN=U=`, with the
 * first marker removed and the rest trimmed; otherwise "Ski Race".
 */
module RaceHeader {
  import opened JsText

  const Marker: string := "hN=U="
  const DefaultName: string := "Ski Race"

  /** The header's fields: the first line split on `|`. */
  function HeaderParts(data: string): seq<string> {
    Split(Split(data, "\n")[0], "|")
  }

  predicate HasName(data: string) {
    var parts := HeaderParts(data);
    |parts| > 1 && Contains(parts[1], Marker)
  }

  /**
   * The race name. With the marker, it is the marked field without its first marker, trimmed:
   * no longer than the field less the marker, and with no white space at either end.
   */
  function RaceName(data: string): (name: string)
    ensures !HasName(data) ==> name == DefaultName
    ensures HasName(data) ==> name == Trim(RemoveFirst(HeaderParts(data)[1], Marker))
    ensures HasName(data) ==> |name| <= |HeaderParts(data)[1]| - |Marker|
    ensures name == [] || (!IsWhitespace(name[0]) && !IsWhitespace(name[|name| - 1]))
  {
    var parts := HeaderParts(data);
    if |parts| > 1 && Contains(parts[1], Marker) then Trim(RemoveFirst(parts[1], Marker))
    else DefaultName
  }

  /** Empty input has the default name. */
  lemma RaceNameEmpty()
    ensures RaceName("") == DefaultName
  {
    assert Split("", "\n") == [""];
    assert Split("", "|") == [""];
  }

  /** Only the first line matters: whatever follows the first newline never changes the name. */
  lemma RaceNameFirstLine(first: string, rest: string)
    requires !Contains(first, "\n")
    ensures RaceName(first + "\n" + rest) == RaceName(first)
  {
    var s := first + "\n" + rest;
    assert OccursAt(s, "\n", |first|);
    assert forall j :: 0 <= j < |first| ==> !OccursAt(s, "\n", j) by {
      forall j | 0 <= j < |first| ensures !OccursAt(s, "\n", j) {
        assert s[j..j + 1] == first[j..j + 1];
        assert !OccursAt(first, "\n", j);
      }
    }
    assert IndexOf(s, "\n") == |first|;
    assert Split(s, "\n")[0] == first;
  }
}
