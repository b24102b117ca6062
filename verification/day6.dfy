/** Day 6, "Tuning Trouble", second part: the start-of-message marker is the
    first window of 14 consecutive characters that are all different; the
    answer is the number of characters read up to the end of that window. */
module Day6Marker {
  const MarkerLength: nat := 14

  /** No character occurs twice. */
  predicate NoRepeats(chars: seq<char>) {
    forall i, j | 0 <= i < j < |chars| :: chars[i] != chars[j]
  }

  /** The distinct characters of `chars`: what sorting and removing
      adjacent duplicates keeps. */
  function Distinct(chars: seq<char>): (r: set<char>)
    ensures forall c :: c in r <==> c in chars
    ensures |r| <= |chars|
  {
    if chars == [] then {}
    else
      var prefix := chars[..|chars| - 1];
      assert chars == prefix + [chars[|chars| - 1]];
      Distinct(prefix) + {chars[|chars| - 1]}
  }

  /** `all_chars_are_different`: the sorted, de-duplicated copy is as long
      as the original. */
  function AllCharsAreDifferent(chars: seq<char>): bool {
    |Distinct(chars)| == |chars|
  }

  /** A sequence with one more character has no repeats when the shorter
      one has none and the new character is not in it. */
  lemma NoRepeatsSnoc(prefix: seq<char>, last: char)
    ensures NoRepeats(prefix + [last]) <==> NoRepeats(prefix) && last !in prefix
  {
    var chars := prefix + [last];
    if NoRepeats(chars) {
      forall i, j | 0 <= i < j < |prefix| ensures prefix[i] != prefix[j] {
        assert chars[i] == prefix[i] && chars[j] == prefix[j];
      }
      forall i | 0 <= i < |prefix| ensures prefix[i] != last {
        assert chars[i] == prefix[i] && chars[|prefix|] == last;
      }
    }
  }

  /** Keeping one copy of each character loses nothing exactly when no
      character repeats. */
  lemma {:induction false} AllCharsAreDifferentIffNoRepeats(chars: seq<char>)
    ensures AllCharsAreDifferent(chars) <==> NoRepeats(chars)
    decreases |chars|
  {
    if chars != [] {
      var n := |chars| - 1;
      var prefix, last := chars[..n], chars[n];
      assert chars == prefix + [last];
      AllCharsAreDifferentIffNoRepeats(prefix);
      NoRepeatsSnoc(prefix, last);
      assert Distinct(chars) == Distinct(prefix) + {last};
      if last in prefix {
        assert Distinct(chars) == Distinct(prefix);
      } else {
        assert |Distinct(chars)| == |Distinct(prefix)| + 1;
      }
    }
  }

  /** The window of 14 characters ending just before position `end`. */
  function Window(input: seq<char>, end: nat): seq<char>
    requires MarkerLength <= end <= |input|
  {
    input[end - MarkerLength..end]
  }

  /** No window ending before `end` (and after the first 14 characters)
      is free of repeats. */
  ghost predicate NoMarkerBefore(input: seq<char>, end: nat)
    requires end <= |input|
  {
    forall k | MarkerLength <= k < end :: !NoRepeats(Window(input, k))
  }

  lemma NoMarkerBeforeNext(input: seq<char>, end: nat)
    requires MarkerLength <= end < |input|
    requires NoMarkerBefore(input, end) && !NoRepeats(Window(input, end))
    ensures NoMarkerBefore(input, end + 1)
  { }

  datatype Outcome =
    | TooShort           // fewer than 14 characters: the initial drain panics
    | NoMarker           // the loop runs out without printing
    | Marker(count: nat) // the printed number of characters read

  /** `run`: the first 14 characters are the window; for each further
      character, an all-different window ends the search, otherwise the
      oldest character is dropped and the new one appended. The window that
      ends with the last character is never checked. */
  method FindMarker(input: seq<char>) returns (r: Outcome)
    ensures r == TooShort <==> |input| < MarkerLength
    ensures r.Marker? ==> MarkerLength <= r.count < |input| && NoRepeats(Window(input, r.count))
    ensures r.Marker? ==> NoMarkerBefore(input, r.count)
    ensures r == NoMarker ==> NoMarkerBefore(input, |input|)
  {
    if |input| < MarkerLength {
      return TooShort;
    }
    var seenChars := input[..MarkerLength];
    var chars := input[MarkerLength..];
    var countedChars := MarkerLength;
    for n := 0 to |chars|
      invariant countedChars == MarkerLength + n
      invariant seenChars == Window(input, countedChars)
      invariant NoMarkerBefore(input, countedChars)
    {
      AllCharsAreDifferentIffNoRepeats(seenChars);
      if AllCharsAreDifferent(seenChars) {
        return Marker(countedChars);
      }
      NoMarkerBeforeNext(input, countedChars);
      assert seenChars[1..] + [chars[n]] == Window(input, countedChars + 1);
      seenChars := seenChars[1..] + [chars[n]];
      countedChars := countedChars + 1;
    }
    return NoMarker;
  }
}
