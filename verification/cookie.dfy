/**
 * Extraction of the session token from the `Cookie` header of the upgrade request
 * (index.js:166-171): split on `;`, take the first segment that starts with exactly
 * `token=`, and take the text between its first and second `=`. An absent or empty
 * header, no such segment, or an empty value all mean "no token".
 */
module Cookie {
  import opened Wrappers
  import opened Text

  const TOKEN_PREFIX: string := "token="

  /** Segment `k` is the first one that starts with `token=`. */
  predicate IsFirstTokenSegment(segments: seq<string>, k: int)
  {
    && 0 <= k < |segments|
    && StartsWith(segments[k], TOKEN_PREFIX)
    && forall j :: 0 <= j < k ==> !StartsWith(segments[j], TOKEN_PREFIX)
  }

  /** `segments.find(str => str.startsWith('token='))`, giving the position found. */
  function FirstTokenSegment(segments: seq<string>): (k: Option<nat>)
    ensures k.Some? ==> IsFirstTokenSegment(segments, k.value)
    ensures k.None? <==> forall i :: 0 <= i < |segments| ==> !StartsWith(segments[i], TOKEN_PREFIX)
  {
    if |segments| == 0 then None
    else if StartsWith(segments[0], TOKEN_PREFIX) then Some(0)
    else
      match FirstTokenSegment(segments[1..])
      case None => None
      case Some(k) => Some(k + 1)
  }

  /** The first segment satisfying the test is unique. */
  lemma FirstTokenSegmentUnique(segments: seq<string>, k: int, m: int)
    requires IsFirstTokenSegment(segments, k) && IsFirstTokenSegment(segments, m)
    ensures k == m
  {
  }

  /**
   * `tokenString.split('=')[1]`: the text after `token=` up to the next `=`, or to the
   * end of the segment when no `=` follows.
   */
  function ValueOf(segment: string): (value: string)
    requires StartsWith(segment, TOKEN_PREFIX)
    ensures '=' !in value
    ensures StartsWith(segment, TOKEN_PREFIX + value)
    ensures |segment| == |TOKEN_PREFIX| + |value| || segment[|TOKEN_PREFIX| + |value|] == '='
  {
    var rest := segment[|TOKEN_PREFIX|..];
    assert segment == "token" + ['='] + rest;
    SplitAtSeparator("token", rest, '=');
    SplitHead(rest, '=');
    assert Split(segment, '=')[1] == Split(rest, '=')[0];
    Split(segment, '=')[1]
  }

  /** `token=` followed by a `;`-free text is a `;`-free segment starting with `token=`. */
  lemma TokenSegment(rest: string)
    requires ';' !in rest
    ensures StartsWith(TOKEN_PREFIX + rest, TOKEN_PREFIX)
    ensures ';' !in TOKEN_PREFIX + rest
  {
    assert (TOKEN_PREFIX + rest)[..|TOKEN_PREFIX|] == TOKEN_PREFIX;
  }

  /** A segment reading `token=`, then nothing or `=`, has the empty value. */
  lemma ValueOfEmpty(tail: string)
    requires tail == "" || tail[0] == '='
    ensures ValueOf(TOKEN_PREFIX + tail) == ""
  {
    assert TOKEN_PREFIX + "" + tail == TOKEN_PREFIX + tail;
    ValueOfExact("", tail);
  }

  /** A segment reading `token=` + value, then nothing or `=`, has exactly that value. */
  lemma ValueOfExact(value: string, tail: string)
    requires '=' !in value
    requires tail == "" || tail[0] == '='
    ensures ValueOf(TOKEN_PREFIX + value + tail) == value
  {
    var segment := TOKEN_PREFIX + value + tail;
    var v := ValueOf(segment);
    assert segment[|TOKEN_PREFIX|..|TOKEN_PREFIX| + |value|] == value;
    assert segment[|TOKEN_PREFIX|..|TOKEN_PREFIX| + |v|] == v;
  }

  /**
   * The token among the `;`-separated segments of a non-empty header: the value of the
   * first segment that starts with `token=`, unless that value is empty.
   */
  function TokenIn(segments: seq<string>): (token: Option<string>)
    requires forall i :: 0 <= i < |segments| ==> ';' !in segments[i]
    ensures token.Some? ==> token.value != "" && ';' !in token.value && '=' !in token.value
    ensures token.Some? ==>
      exists k :: IsFirstTokenSegment(segments, k) && token.value == ValueOf(segments[k])
    ensures forall k :: IsFirstTokenSegment(segments, k) ==>
      token == if ValueOf(segments[k]) == "" then None else Some(ValueOf(segments[k]))
    ensures (forall i :: 0 <= i < |segments| ==> !StartsWith(segments[i], TOKEN_PREFIX)) ==> token.None?
  {
    match FirstTokenSegment(segments)
    case None => None
    case Some(k) =>
      var value := ValueOf(segments[k]);
      assert forall i :: 0 <= i < |value| ==> value[i] == segments[k][|TOKEN_PREFIX| + i];
      assert forall j :: IsFirstTokenSegment(segments, j) ==> j == k by {
        forall j | IsFirstTokenSegment(segments, j) {
          FirstTokenSegmentUnique(segments, j, k);
        }
      }
      if value == "" then None else Some(value)
  }

  /**
   * `req.headers.cookie` to token (index.js:166-171): nothing when the header is absent or
   * empty, otherwise the value of the first segment starting with `token=`, when that
   * value is not empty.
   */
  function ExtractToken(header: Option<string>): (token: Option<string>)
    ensures header.None? || header.value == "" ==> token.None?
    ensures token.Some? ==> token.value != "" && ';' !in token.value && '=' !in token.value
    ensures token.Some? ==>
      && header.Some?
      && exists k :: IsFirstTokenSegment(Split(header.value, ';'), k)
                     && token.value == ValueOf(Split(header.value, ';')[k])
    ensures header.Some? && header.value != "" ==>
      forall k :: IsFirstTokenSegment(Split(header.value, ';'), k) ==>
        token == if ValueOf(Split(header.value, ';')[k]) == "" then None else Some(ValueOf(Split(header.value, ';')[k]))
    ensures header.Some? && (forall i :: 0 <= i < |Split(header.value, ';')| ==>
                               !StartsWith(Split(header.value, ';')[i], TOKEN_PREFIX))
            ==> token.None?
  {
    if header.None? || header.value == "" then None else TokenIn(Split(header.value, ';'))
  }

  /** A header glued from segments yields the value of its first `token=` segment. */
  lemma ExtractFromSegments(segments: seq<string>, k: int)
    requires forall i :: 0 <= i < |segments| ==> ';' !in segments[i]
    requires IsFirstTokenSegment(segments, k)
    ensures ExtractToken(Some(Join(segments, ';'))) ==
            if ValueOf(segments[k]) == "" then None else Some(ValueOf(segments[k]))
  {
    SplitJoin(segments, ';');
    JoinLength(segments, ';', k);
  }

  /**
   * Completeness: a header whose segments are `before`, then `token=<value>` (optionally
   * followed by `=...`), then `after`, where no earlier segment starts with `token=`,
   * yields exactly `value`.
   */
  lemma TokenFound(before: seq<string>, value: string, tail: string, after: seq<string>)
    requires forall i :: 0 <= i < |before| ==> ';' !in before[i] && !StartsWith(before[i], TOKEN_PREFIX)
    requires forall i :: 0 <= i < |after| ==> ';' !in after[i]
    requires value != "" && ';' !in value && '=' !in value
    requires ';' !in tail && (tail == "" || tail[0] == '=')
    ensures ExtractToken(Some(Join(before + [TOKEN_PREFIX + value + tail] + after, ';'))) == Some(value)
  {
    var segment := TOKEN_PREFIX + value + tail;
    assert segment == TOKEN_PREFIX + (value + tail);
    TokenSegment(value + tail);
    ValueOfExact(value, tail);
    FoundAfter(before, segment, after);
  }

  /** The segment placed after `before` is the first `token=` segment of the glued header. */
  lemma FoundAfter(before: seq<string>, segment: string, after: seq<string>)
    requires forall i :: 0 <= i < |before| ==> ';' !in before[i] && !StartsWith(before[i], TOKEN_PREFIX)
    requires forall i :: 0 <= i < |after| ==> ';' !in after[i]
    requires ';' !in segment && StartsWith(segment, TOKEN_PREFIX)
    ensures ExtractToken(Some(Join(before + [segment] + after, ';'))) ==
            if ValueOf(segment) == "" then None else Some(ValueOf(segment))
  {
    var segments := before + [segment] + after;
    GluedSegments(before, segment, after);
    ExtractFromSegments(segments, |before|);
  }

  /** Gluing keeps every segment free of `;` and makes the middle one the first `token=` segment. */
  lemma GluedSegments(before: seq<string>, segment: string, after: seq<string>)
    requires forall i :: 0 <= i < |before| ==> ';' !in before[i] && !StartsWith(before[i], TOKEN_PREFIX)
    requires forall i :: 0 <= i < |after| ==> ';' !in after[i]
    requires ';' !in segment && StartsWith(segment, TOKEN_PREFIX)
    ensures forall i :: 0 <= i < |before + [segment] + after| ==> ';' !in (before + [segment] + after)[i]
    ensures IsFirstTokenSegment(before + [segment] + after, |before|)
  {
    var segments := before + [segment] + after;
    forall i | 0 <= i < |segments|
      ensures ';' !in segments[i]
      ensures i < |before| ==> !StartsWith(segments[i], TOKEN_PREFIX)
    {
      if i < |before| {
        assert segments[i] == before[i];
      } else if i > |before| {
        assert segments[i] == after[i - |before| - 1];
      }
    }
  }

  /** A cookie written after `; ` keeps its leading space and is not recognised. */
  lemma SpaceBeforeTokenHidesIt()
    ensures ExtractToken(Some("a=1; token=x")) == None
  {
    var segments := ["a=1", " token=x"];
    assert Join(segments, ';') == "a=1; token=x";
    SplitJoin(segments, ';');
    assert !StartsWith(segments[0], TOKEN_PREFIX) by { assert segments[0][0] != TOKEN_PREFIX[0]; }
    assert !StartsWith(segments[1], TOKEN_PREFIX) by { assert segments[1][0] != TOKEN_PREFIX[0]; }
  }

  /**
   * An empty value in the first `token=` segment (`token=` followed by `;`, `=` or the end)
   * gives no token, even when a later segment carries one.
   */
  lemma EmptyValueGivesNoToken(before: seq<string>, tail: string, after: seq<string>)
    requires forall i :: 0 <= i < |before| ==> ';' !in before[i] && !StartsWith(before[i], TOKEN_PREFIX)
    requires forall i :: 0 <= i < |after| ==> ';' !in after[i]
    requires ';' !in tail && (tail == "" || tail[0] == '=')
    ensures ExtractToken(Some(Join(before + [TOKEN_PREFIX + tail] + after, ';'))) == None
  {
    var segment := TOKEN_PREFIX + tail;
    TokenSegment(tail);
    ValueOfEmpty(tail);
    FoundAfter(before, segment, after);
  }
}
