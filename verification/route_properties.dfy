/** Properties of the deep-link route resolver: the guard structure of the
    initial-route decision, the unanchored and unbounded nature of the
    pattern, and worked examples of matching and non-matching paths. */
module RouteProperties {
  import opened Wrappers
  import opened FlutterWebConfig
  import TextSearch

  /** The route decision depends on the extracted id only: the
      `isPublicFormPage()` guard never rejects a page whose id was extracted,
      so the route is set exactly when an id is extracted, and is then the
      segment followed by that id. */
  lemma RouteSetIffIdExtracted(path: string)
    ensures InitialRoute(path).Some? <==> ExtractFormId(path).Some?
    ensures ExtractFormId(path).Some? ==>
      InitialRoute(path) == Some(Segment + ExtractFormId(path).value)
  {
    ExtractImpliesPublicPage(path);
  }

  /** A path without the segment at all is not a public form page, and so
      gets no route. */
  lemma NoSegmentNoRoute(path: string)
    requires !IsPublicFormPage(path)
    ensures ExtractFormId(path) == None
    ensures InitialRoute(path) == None
  {
    ExtractImpliesPublicPage(path);
  }

  /** Within the first part of a concatenation, matching does not look at
      what follows. */
  lemma MatchesAtPrefix(p: string, s: string, j: nat)
    requires j + MatchLength <= |p|
    ensures MatchesAt(p + s, j) <==> MatchesAt(p, j)
  {
    TextSearch.OccursAtSlice(p + s, Segment, j);
    TextSearch.OccursAtSlice(p, Segment, j);
    assert (p + s)[j .. j + |Segment|] == p[j .. j + |Segment|];
    assert (p + s)[j + |Segment| .. j + MatchLength] == p[j + |Segment| .. j + MatchLength];
  }

  /** Matching at an index of the second part of a concatenation is
      matching in that part alone, shifted by the first part's length. */
  lemma MatchesAtShift(pre: string, p: string, j: nat)
    ensures MatchesAt(pre + p, |pre| + j) <==> MatchesAt(p, j)
  {
    if j + MatchLength <= |p| {
      TextSearch.OccursAtSlice(pre + p, Segment, |pre| + j);
      TextSearch.OccursAtSlice(p, Segment, j);
      assert (pre + p)[|pre| + j .. |pre| + j + |Segment|] == p[j .. j + |Segment|];
      assert (pre + p)[|pre| + j + |Segment| .. |pre| + j + MatchLength]
          == p[j + |Segment| .. j + MatchLength];
    }
  }

  /** The segment followed by a form id matches at its first character,
      whatever comes after. */
  lemma MatchesAtSegmentStart(id: string, rest: string)
    requires IsFormId(id)
    ensures MatchesAt(Segment + id + rest, 0)
    ensures Capture(Segment + id + rest, 0) == id
  {
    var p := Segment + id + rest;
    TextSearch.OccursAtSlice(p, Segment, 0);
    assert p[0 .. |Segment|] == Segment;
    assert p[|Segment| .. MatchLength] == id;
  }

  /** The pattern has no boundary after `{24}`: any text after a valid id,
      including further hex digits, is ignored and only the first 24
      characters are captured. */
  lemma TrailingTextIgnored(id: string, rest: string)
    requires IsFormId(id)
    ensures ExtractFormId(Segment + id + rest) == Some(id)
    ensures InitialRoute(Segment + id + rest) == Some(Segment + id)
  {
    MatchesAtSegmentStart(id, rest);
    assert IsLeftmostMatch(Segment + id + rest, 0);
  }

  /** Appending text never changes an extracted id: the leftmost match lies
      wholly inside the original path, and no earlier index can start a
      match that reaches into the appended text. */
  lemma SuffixKeepsId(path: string, suffix: string)
    requires ExtractFormId(path).Some?
    ensures ExtractFormId(path + suffix) == ExtractFormId(path)
    ensures InitialRoute(path + suffix) == InitialRoute(path)
  {
    var i := Match(path).value.index;
    MatchesAtPrefix(path, suffix, i);
    forall j | 0 <= j < i
      ensures !MatchesAt(path + suffix, j)
    {
      MatchesAtPrefix(path, suffix, j);
    }
    assert IsLeftmostMatch(path + suffix, i);
    assert Capture(path + suffix, i) == Capture(path, i);
    RouteSetIffIdExtracted(path);
    RouteSetIffIdExtracted(path + suffix);
  }

  /** No match can start inside a prefix that holds no `/`, since every
      match starts with one. */
  lemma SlashFreePrefixStartsNoMatch(prefix: string, path: string, j: nat)
    requires forall k :: 0 <= k < |prefix| ==> prefix[k] != '/'
    requires j < |prefix|
    ensures !MatchesAt(prefix + path, j)
  {
    assert (prefix + path)[j + 0] == prefix[j] != Segment[0];
  }

  /** The pattern is not anchored at the start: prepending a prefix inside
      which no match of the combined path starts leaves the outcome
      unchanged, match or not. A base path such as `/app` is one such
      prefix. */
  lemma PrefixKeepsOutcome(prefix: string, path: string)
    requires forall j :: 0 <= j < |prefix| ==> !MatchesAt(prefix + path, j)
    ensures ExtractFormId(prefix + path) == ExtractFormId(path)
    ensures InitialRoute(prefix + path) == InitialRoute(path)
  {
    var p := prefix + path;
    match Match(path)
    case Some(m) =>
      MatchesAtShift(prefix, path, m.index);
      forall j | |prefix| <= j < |prefix| + m.index
        ensures !MatchesAt(p, j)
      {
        MatchesAtShift(prefix, path, j - |prefix|);
      }
      assert IsLeftmostMatch(p, |prefix| + m.index);
      assert Capture(p, |prefix| + m.index) == Capture(path, m.index);
    case None =>
      forall j | |prefix| <= j
        ensures !MatchesAt(p, j)
      {
        MatchesAtShift(prefix, path, j - |prefix|);
      }
    RouteSetIffIdExtracted(path);
    RouteSetIffIdExtracted(p);
  }

  /** A prefix that holds no `/` cannot start a match, so it leaves the
      outcome unchanged. */
  lemma SlashFreePrefixKeepsOutcome(prefix: string, path: string)
    requires forall k :: 0 <= k < |prefix| ==> prefix[k] != '/'
    ensures ExtractFormId(prefix + path) == ExtractFormId(path)
    ensures InitialRoute(prefix + path) == InitialRoute(path)
  {
    forall j | 0 <= j < |prefix|
      ensures !MatchesAt(prefix + path, j)
    {
      SlashFreePrefixStartsNoMatch(prefix, path, j);
    }
    PrefixKeepsOutcome(prefix, path);
  }

  /** Why the prefix must not start a match: a prefix holding a match of its
      own wins, because the leftmost match is taken. Here the path alone
      yields `id1`, but with the prefix `/forms/public/<id2>` it yields
      `id2`. */
  lemma MatchingPrefixWins(id1: string, id2: string)
    requires IsFormId(id1) && IsFormId(id2)
    ensures ExtractFormId(Segment + id1) == Some(id1)
    ensures ExtractFormId(Segment + id2 + (Segment + id1)) == Some(id2)
  {
    TrailingTextIgnored(id1, "");
    assert Segment + id1 + "" == Segment + id1;
    TrailingTextIgnored(id2, Segment + id1);
  }

  /** A valid segment-and-id anywhere in the path always yields a route:
      whatever surrounds it, the resolver finds a match (possibly an earlier
      one), so the route is set and has the public-form shape. */
  lemma EmbeddedIdAlwaysRoutes(prefix: string, id: string, suffix: string)
    requires IsFormId(id)
    ensures ExtractFormId(prefix + Segment + id + suffix).Some?
    ensures InitialRoute(prefix + Segment + id + suffix).Some?
  {
    MatchesAtSegmentStart(id, suffix);
    MatchesAtShift(prefix, Segment + id + suffix, 0);
    assert prefix + Segment + id + suffix == prefix + (Segment + id + suffix);
    assert MatchesAt(prefix + Segment + id + suffix, |prefix|);
  }

  /** A canonical public form link resolves to itself. */
  lemma ExampleCanonicalLink(path: string)
    requires path == "/forms/public/5f2e1a9b7c3d4e6f8a1b2c3d"
    ensures InitialRoute(path) == Some(path)
  {
    var id := path[|Segment|..];
    assert IsFormId(id);
    assert path[..|Segment|] == Segment;
    assert path == Segment + id + "";
    TrailingTextIgnored(id, "");
    assert Segment + id + "" == Segment + id;
  }

  /** A too-short id is a public form page but gets no route. */
  lemma ExampleShortId(path: string)
    requires path == "/forms/public/short123"
    ensures IsPublicFormPage(path)
    ensures ExtractFormId(path) == None
    ensures InitialRoute(path) == None
  {
    assert TextSearch.OccursAt(path, Segment, 0);
  }

  /** An unrelated page gets no route. */
  lemma ExampleOtherPage(path: string)
    requires path == "/dashboard/settings"
    ensures InitialRoute(path) == None
  {
  }

  /** Upper-case hex digits are outside `[a-f0-9]`: the id is rejected. */
  lemma ExampleUppercaseRejected(path: string)
    requires path == "/forms/public/5F2E1A9B7C3D4E6F8A1B2C3D"
    ensures IsPublicFormPage(path)
    ensures InitialRoute(path) == None
  {
    assert TextSearch.OccursAt(path, Segment, 0);
    assert |Segment| == 14 && MatchLength == 38;
    assert path[14..38][1] == path[15] == 'F';
    assert !MatchesAt(path, 0);
  }

  /** In `/forms/public/abc` followed by text starting with `/`, no match
      starts within the first 17 characters: at index 0 the id is cut short
      by that `/`, and no other index there starts with the segment. */
  lemma MalformedHeadStartsNoMatch(bad: string, rest: string, j: nat)
    requires bad == "/forms/public/abc"
    requires |rest| > 0 && rest[0] == '/'
    requires j < |bad|
    ensures !MatchesAt(bad + rest, j)
  {
    var path := bad + rest;
    assert |Segment| == 14 && MatchLength == 38;
    if j == 0 {
      if 38 <= |path| {
        assert path[j + |Segment| .. j + MatchLength][3] == path[17] == rest[0];
      }
    } else if j == 6 || j == 13 {
      assert path[j + 1] != Segment[1];
    } else {
      assert path[j + 0] != Segment[0];
    }
  }

  /** The leftmost match is not the first occurrence of the segment: here
      the segment first occurs at index 0 with a malformed id, and the route
      is taken from the match at index 17. */
  lemma ExampleLeftmostMatchNotFirstOccurrence(bad: string, id: string)
    requires bad == "/forms/public/abc"
    requires id == "5f2e1a9b7c3d4e6f8a1b2c3d"
    ensures TextSearch.OccursAt(bad + Segment + id, Segment, 0)
    ensures !MatchesAt(bad + Segment + id, 0)
    ensures IsLeftmostMatch(bad + Segment + id, 17)
    ensures InitialRoute(bad + Segment + id) == Some(Segment + id)
  {
    var path := bad + (Segment + id);
    assert path == bad + Segment + id;
    assert |bad| == 17;
    assert IsFormId(id);
    assert TextSearch.OccursAt(path, Segment, 0);
    MatchesAtSegmentStart(id, "");
    assert Segment + id + "" == Segment + id;
    MatchesAtShift(bad, Segment + id, 0);
    forall j | 0 <= j < |bad|
      ensures !MatchesAt(path, j)
    {
      MalformedHeadStartsNoMatch(bad, Segment + id, j);
    }
    assert IsLeftmostMatch(path, |bad|);
    assert Capture(path, |bad|) == id;
  }
}
