/**
 * The text recorded for an event marker: "Frame <n>: <name>", where <n> is the
 * frame counter in decimal. ParseMarkerString is its inverse.
 */
module MarkerText {
  import opened Wrappers
  import opened Decimal

  const FRAME_PREFIX: string := "Frame "
  const NAME_SEPARATOR: string := ": "

  /** The marker text for event `markerString` recorded during frame `frame`. */
  function CreateMarkerStringForFrame(frame: nat, markerString: string): (s: string)
    ensures |s| > |FRAME_PREFIX| && s[..|FRAME_PREFIX|] == FRAME_PREFIX
    ensures |s| >= |markerString| && s[|s| - |markerString|..] == markerString
  {
    FRAME_PREFIX + Digits(frame) + NAME_SEPARATOR + markerString
  }

  /** The first position of `c` in `s`, or |s| when there is none. */
  function IndexOf(s: string, c: char): (i: nat)
    ensures i <= |s|
    ensures i < |s| ==> s[i] == c
    ensures forall j :: 0 <= j < i ==> s[j] != c
  {
    if s == [] then 0 else if s[0] == c then 0 else 1 + IndexOf(s[1..], c)
  }

  /**
   * Recovers the frame number and the event name from a marker text, or None
   * when the text is not of the form "Frame <canonical decimal>: <name>".
   */
  function ParseMarkerString(s: string): Option<(nat, string)> {
    if |s| < |FRAME_PREFIX| || s[..|FRAME_PREFIX|] != FRAME_PREFIX then None
    else
      var rest := s[|FRAME_PREFIX|..];
      var i := IndexOf(rest, ':');
      if i + |NAME_SEPARATOR| <= |rest| && rest[i..i + |NAME_SEPARATOR|] == NAME_SEPARATOR && Canonical(rest[..i])
      then Some((Value(rest[..i]), rest[i + |NAME_SEPARATOR|..]))
      else None
  }

  /** Parsing a marker text gives back the frame number and the event name. */
  lemma ParseCreated(frame: nat, markerString: string)
    ensures ParseMarkerString(CreateMarkerStringForFrame(frame, markerString)) == Some((frame, markerString))
  {
    var d := Digits(frame);
    var s := CreateMarkerStringForFrame(frame, markerString);
    var rest := d + NAME_SEPARATOR + markerString;
    assert s[..|FRAME_PREFIX|] == FRAME_PREFIX;
    assert s[|FRAME_PREFIX|..] == rest;
    var i := IndexOf(rest, ':');
    assert rest[|d|] == ':';
    assert forall j :: 0 <= j < |d| ==> rest[j] == d[j];
    assert i == |d|;
    assert rest[..i] == d;
    assert rest[i..i + |NAME_SEPARATOR|] == NAME_SEPARATOR;
    assert rest[i + |NAME_SEPARATOR|..] == markerString;
    ValueOfDigits(frame);
  }

  /** Every text the parser accepts is exactly the marker text of its result. */
  lemma CreatedFromParse(s: string, frame: nat, markerString: string)
    requires ParseMarkerString(s) == Some((frame, markerString))
    ensures s == CreateMarkerStringForFrame(frame, markerString)
  {
    var rest := s[|FRAME_PREFIX|..];
    var i := IndexOf(rest, ':');
    DigitsOfValue(rest[..i]);
    assert rest == rest[..i] + rest[i..i + |NAME_SEPARATOR|] + rest[i + |NAME_SEPARATOR|..];
    assert s == s[..|FRAME_PREFIX|] + rest;
  }

  /** Different frames or different event names give different marker texts. */
  lemma MarkerStringInjective(f1: nat, n1: string, f2: nat, n2: string)
    requires CreateMarkerStringForFrame(f1, n1) == CreateMarkerStringForFrame(f2, n2)
    ensures f1 == f2 && n1 == n2
  {
    ParseCreated(f1, n1);
    ParseCreated(f2, n2);
  }
}
