/**
 * Field extraction from recognised OCR text, as done by the DocHistory upload
 * handler: the heading scanner over the text's lines and the
 * `Date of Event: DD/MM/YYYY` pattern match.
 */
module Extract {
  import opened Optional
  import opened Text

  const DatePrefix: string := "Date: "
  const EventPrefix: string := "Date of Event: "

  /** A line arms the heading scanner when its trimmed form starts with `"Date: "`. */
  predicate Arms(line: string) {
    StartsWith(Trim(line), DatePrefix)
  }

  /**
   * The two-state line scanner from line `i` on: `armed` is the
   * `foundNoticeDate` flag. An unarmed scanner arms on a `"Date: "` line; an
   * armed one returns the current line, trimmed, whatever it holds. Running
   * out of lines leaves `""`.
   */
  function Scan(lines: seq<string>, i: nat, armed: bool): string
    requires i <= |lines|
    decreases |lines| - i
  {
    if i == |lines| then ""
    else if !armed && Arms(lines[i]) then Scan(lines, i + 1, true)
    else if armed then Trim(lines[i])
    else Scan(lines, i + 1, false)
  }

  /** The heading: the scanner run over the lines of the text. */
  function Heading(text: string): string {
    Scan(Split(text, '\n'), 0, false)
  }

  /** The index of the first arming line at or after `from`, if any. */
  function FirstArmingFrom(lines: seq<string>, from: nat): (r: Option<nat>)
    requires from <= |lines|
    ensures r.Some? ==> from <= r.value < |lines| && Arms(lines[r.value])
    ensures r.Some? ==> forall k :: from <= k < r.value ==> !Arms(lines[k])
    ensures r.None? ==> forall k :: from <= k < |lines| ==> !Arms(lines[k])
    decreases |lines| - from
  {
    if from == |lines| then None
    else if Arms(lines[from]) then Some(from)
    else FirstArmingFrom(lines, from + 1)
  }

  /** The index of the first arming line, if any. */
  function FirstArming(lines: seq<string>): (r: Option<nat>)
    ensures r.Some? ==> r.value < |lines| && Arms(lines[r.value])
    ensures r.Some? ==> forall k :: 0 <= k < r.value ==> !Arms(lines[k])
    ensures r.None? ==> forall k :: 0 <= k < |lines| ==> !Arms(lines[k])
  {
    FirstArmingFrom(lines, 0)
  }

  /** The trimmed line after line `a`, or `""` when there is none. */
  function LineAfter(lines: seq<string>, a: Option<nat>): string {
    if a.Some? && a.value + 1 < |lines| then Trim(lines[a.value + 1]) else ""
  }

  lemma ScanAfterArming(lines: seq<string>, from: nat)
    requires from < |lines| && Arms(lines[from])
    ensures Scan(lines, from, false) == LineAfter(lines, Some(from))
  {
    assert Scan(lines, from, false) == Scan(lines, from + 1, true);
    if from + 1 < |lines| {
      assert Scan(lines, from + 1, true) == Trim(lines[from + 1]);
    }
  }

  /**
   * From line `from` on, the scanner returns the trimmed line right after
   * the first arming line, and `""` when no line arms it or the arming line
   * is the last one.
   */
  lemma {:induction false} ScanIsLineAfterFirstArming(lines: seq<string>, from: nat)
    requires from <= |lines|
    ensures Scan(lines, from, false) == LineAfter(lines, FirstArmingFrom(lines, from))
    decreases |lines| - from
  {
    if from < |lines| {
      if Arms(lines[from]) {
        ScanAfterArming(lines, from);
      } else {
        ScanIsLineAfterFirstArming(lines, from + 1);
      }
    }
  }

  /**
   * The heading of a text: after the first line whose trimmed form starts
   * with `"Date: "`, the following line trimmed, or `""`.
   */
  lemma HeadingCharacterization(text: string)
    ensures Heading(text) == LineAfter(Split(text, '\n'), FirstArming(Split(text, '\n')))
  {
    ScanIsLineAfterFirstArming(Split(text, '\n'), 0);
  }

  /** A heading never holds a line break and is already trimmed. */
  lemma HeadingIsTrimmedLine(text: string)
    ensures '\n' !in Heading(text)
    ensures Trim(Heading(text)) == Heading(text)
  {
    var lines := Split(text, '\n');
    HeadingCharacterization(text);
    match FirstArming(lines)
    case None =>
    case Some(i) =>
      if i + 1 < |lines| {
        TrimIdempotent(lines[i + 1]);
        TrimKeepsInfix(lines[i + 1]);
      }
  }

  /**
   * The scan is armed once: the line after the first arming line is taken
   * even when it is blank or arms itself, and later `"Date: "` lines are ignored.
   */
  lemma FirstArmingWins(before: seq<string>, dateLine: string, next: string, after: seq<string>)
    requires forall k :: 0 <= k < |before| ==> !Arms(before[k])
    requires Arms(dateLine)
    ensures Scan(before + [dateLine, next] + after, 0, false) == Trim(next)
  {
    var lines := before + [dateLine, next] + after;
    ScanIsLineAfterFirstArming(lines, 0);
    assert lines[|before|] == dateLine;
    assert lines[|before| + 1] == next;
    assert forall k :: 0 <= k < |before| ==> lines[k] == before[k];
  }

  /** A `"Date of Event: "` line never arms the heading scanner. */
  lemma EventLineDoesNotArm(line: string)
    requires StartsWith(Trim(line), EventPrefix)
    ensures !Arms(line)
  {
    var t := Trim(line);
    assert t[4] == EventPrefix[4] == ' ';
    assert DatePrefix[4] == ':';
  }

  /** `text[p..]` starts with `"Date of Event: "` followed by `\d{2}/\d{2}/\d{4}`. */
  predicate MatchesAt(text: string, p: nat) {
    && p + |EventPrefix| + 10 <= |text|
    && text[p..p + |EventPrefix|] == EventPrefix
    && var d := text[p + |EventPrefix|..p + |EventPrefix| + 10];
       IsDigit(d[0]) && IsDigit(d[1]) && d[2] == '/'
       && IsDigit(d[3]) && IsDigit(d[4]) && d[5] == '/'
       && IsDigit(d[6]) && IsDigit(d[7]) && IsDigit(d[8]) && IsDigit(d[9])
  }

  /** The leftmost match position at or after `from`. */
  function FindMatch(text: string, from: nat): (r: Option<nat>)
    ensures r.Some? ==> from <= r.value && MatchesAt(text, r.value)
    ensures r.Some? ==> forall p :: from <= p < r.value ==> !MatchesAt(text, p)
    ensures r.None? ==> forall p :: from <= p ==> !MatchesAt(text, p)
    decreases |text| - from
  {
    if from + |EventPrefix| + 10 > |text| then None
    else if MatchesAt(text, from) then Some(from)
    else FindMatch(text, from + 1)
  }

  /**
   * `text.match(/Date of Event: (\d{2}\/\d{2}\/\d{4})/)[1]`: the ten
   * characters after the leftmost `"Date of Event: "` that the date shape
   * follows; earlier occurrences without a date are skipped.
   */
  function EventDate(text: string): (r: Option<string>)
    ensures r.Some? <==> exists p: nat :: MatchesAt(text, p)
    ensures r.Some? ==> exists p: nat ::
      && MatchesAt(text, p)
      && (forall q :: 0 <= q < p ==> !MatchesAt(text, q))
      && r.value == text[p + |EventPrefix|..p + |EventPrefix| + 10]
    ensures r.Some? ==> |r.value| == 10 && r.value[2] == '/' && r.value[5] == '/'
  {
    match FindMatch(text, 0)
    case None => None
    case Some(p) => Some(text[p + |EventPrefix|..p + |EventPrefix| + 10])
  }

  /** The component's `eventDate` state after a recognition: replaced on a match, kept otherwise. */
  function NextEventDate(current: string, text: string): (r: string)
    ensures EventDate(text).None? ==> r == current
    ensures EventDate(text).Some? ==> r == EventDate(text).value
  {
    EventDate(text).ValueOr(current)
  }
}
