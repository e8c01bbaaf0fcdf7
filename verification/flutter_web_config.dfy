/** The deep-link route resolver of the Flutter web configuration script.

    The script reads the page path, decides whether it is a public form page
    (a plain substring test for `/forms/public/`), extracts the form id with
    the unanchored regular expression `/\/forms\/public\/([a-f0-9]{24})/`,
    and, when both succeed, sets the initial Flutter route to
    `/forms/public/<formId>`. The browser location is the `path` parameter
    and the initial-route global is the `Option` result. */
module FlutterWebConfig {
  import opened Wrappers
  import TextSearch

  /** The literal segment both the substring test and the pattern look for. */
  const Segment: string := "/forms/public/"

  /** The repetition count of `[a-f0-9]{24}`. */
  const IdLength: nat := 24

  /** Length of the whole text one match consumes: segment plus form id. */
  const MatchLength: nat := |Segment| + IdLength

  /** The character class `[a-f0-9]`: lower-case hex digits only. */
  predicate IsLowerHexDigit(c: char)
  {
    '0' <= c <= '9' || 'a' <= c <= 'f'
  }

  /** A well-formed form id: exactly 24 characters of `[a-f0-9]`. */
  ghost predicate IsFormId(id: string)
  {
    && |id| == IdLength
    && forall k :: 0 <= k < |id| ==> IsLowerHexDigit(id[k])
  }

  /** The pattern matches starting at index `i` of `path`: the segment occurs
      there and is followed by (at least) 24 lower-case hex digits. Nothing is
      required of the characters after those 24. */
  ghost predicate MatchesAt(path: string, i: int)
  {
    && TextSearch.OccursAt(path, Segment, i)
    && i + MatchLength <= |path|
    && IsFormId(path[i + |Segment| .. i + MatchLength])
  }

  /** `i` is the leftmost index at which the pattern matches. */
  ghost predicate IsLeftmostMatch(path: string, i: int)
  {
    && MatchesAt(path, i)
    && forall j :: 0 <= j < i ==> !MatchesAt(path, j)
  }

  /** The text of capture group 1 for a match starting at `i`. */
  function Capture(path: string, i: nat): string
    requires i + MatchLength <= |path|
  {
    path[i + |Segment| .. i + MatchLength]
  }

  /** The parts of a JavaScript match array this model keeps: `match.index`
      and `match[1]`, the captured form id. The whole match `match[0]` is
      always `Segment` followed by the id, and the script never reads it. */
  datatype RegexMatch = RegexMatch(index: nat, formId: string)

  /** Every character of `s` is in `[a-f0-9]`. */
  function AllLowerHex(s: string): (r: bool)
    ensures r <==> forall k :: 0 <= k < |s| ==> IsLowerHexDigit(s[k])
  {
    if |s| == 0 then true
    else IsLowerHexDigit(s[0]) && AllLowerHex(s[1..])
  }

  /** One attempt of the regular expression anchored at index `i`. */
  function TryMatchAt(path: string, i: nat): (r: Option<RegexMatch>)
    ensures r.Some? <==> MatchesAt(path, i)
    ensures r.Some? ==> r.value.index == i && i + MatchLength <= |path|
    ensures r.Some? ==> r.value.formId == Capture(path, i)
  {
    if i + MatchLength <= |path| then
      TextSearch.OccursAtSlice(path, Segment, i);
      if path[i .. i + |Segment|] == Segment && AllLowerHex(path[i + |Segment| .. i + MatchLength]) then
        Some(RegexMatch(i, path[i + |Segment| .. i + MatchLength]))
      else
        None
    else
      None
  }

  /** The regular-expression search from start position `from` on: the
      engine tries each start position in turn, so the first success is the
      least matching index at or after `from`. */
  function MatchFrom(path: string, from: nat): (r: Option<RegexMatch>)
    ensures r.Some? ==> from <= r.value.index && MatchesAt(path, r.value.index)
    ensures r.Some? ==> forall j :: from <= j < r.value.index ==> !MatchesAt(path, j)
    ensures r.Some? ==> r.value.index + MatchLength <= |path|
    ensures r.Some? ==> r.value.formId == Capture(path, r.value.index)
    ensures r.None? ==> forall j :: from <= j ==> !MatchesAt(path, j)
    decreases |path| - from
  {
    if from + MatchLength > |path| then
      None
    else
      match TryMatchAt(path, from)
      case Some(m) => Some(m)
      case None => MatchFrom(path, from + 1)
  }

  /** `path.match(/\/forms\/public\/([a-f0-9]{24})/)`: the leftmost match,
      or `null` when the pattern matches nowhere. */
  function Match(path: string): (r: Option<RegexMatch>)
    ensures r.Some? ==> IsLeftmostMatch(path, r.value.index)
    ensures r.Some? ==> r.value.index + MatchLength <= |path|
    ensures r.Some? ==> r.value.formId == Capture(path, r.value.index)
    ensures r.None? <==> forall j :: !MatchesAt(path, j)
  {
    MatchFrom(path, 0)
  }

  /** `isPublicFormPage()`: the path contains `/forms/public/` anywhere. */
  function IsPublicFormPage(path: string): (r: bool)
    ensures r <==> exists i :: TextSearch.OccursAt(path, Segment, i)
  {
    TextSearch.Includes(path, Segment)
  }

  /** `extractFormId()`: capture group 1 of the leftmost match, or `null`. */
  function ExtractFormId(path: string): (r: Option<string>)
    ensures r.Some? <==> exists i :: MatchesAt(path, i)
    ensures r.Some? ==> IsFormId(r.value)
    ensures forall i :: IsLeftmostMatch(path, i) ==> r == Some(Capture(path, i))
  {
    match Match(path)
    case Some(m) => Some(m.formId)
    case None => None
  }

  /** A match of the pattern is in particular an occurrence of the segment,
      so a page with a form id is always a public form page. */
  lemma ExtractImpliesPublicPage(path: string)
    ensures ExtractFormId(path).Some? ==> IsPublicFormPage(path)
  {
    var m := Match(path);
    if m.Some? {
      assert TextSearch.OccursAt(path, Segment, m.value.index);
    }
  }

  /** JavaScript truthiness of `formId`: `null` and the empty string are
      falsy, every other string is truthy. */
  predicate IsTruthy(v: Option<string>)
  {
    v.Some? && |v.value| > 0
  }

  /** The value the script leaves in `window.flutter_web_initial_route`:
      set to `/forms/public/<formId>` only when the page is a public form
      page and a form id was extracted, unset otherwise. */
  function InitialRoute(path: string): (r: Option<string>)
    ensures r.Some? <==> exists i :: MatchesAt(path, i)
    ensures r.Some? ==> |r.value| == MatchLength
    ensures r.Some? ==> r.value[..|Segment|] == Segment && IsFormId(r.value[|Segment|..])
    ensures forall i :: IsLeftmostMatch(path, i) ==> r == Some(Segment + Capture(path, i))
  {
    if IsPublicFormPage(path) then
      var formId := ExtractFormId(path);
      if IsTruthy(formId) then Some(Segment + formId.value) else None
    else
      None
  }
}
