/** The client tag that the SharePoint tagging behaviour derives from a request's URL
    path: a fixed library prefix, then a short form of the REST path that follows the
    first `_api/`, cut to 32 characters. */
module ClientTags {
  import opened JsStrings

  /** The library name and version every tag starts with. */
  const TagPrefix: string := "PnPCoreJS:3.0.0-exp:"

  /** The marker in front of the REST path; what comes before it is discarded. */
  const ApiMarker: string := "_api/"

  /** The longest tag that is sent. */
  const MaxTagLength: nat := 32

  /** `pathname.substr(pathname.indexOf("_api/") + 5)`: the text after the first marker,
      or, when there is no marker, the text from index 4 on (-1 + 5). */
  function ApiRemainder(pathname: string): (rest: string)
    ensures forall i :: IsFirstOccurrence(pathname, ApiMarker, i) ==> rest == pathname[i + |ApiMarker|..]
    ensures (forall k :: !OccursAt(pathname, ApiMarker, k)) ==>
              rest == if |pathname| >= 4 then pathname[4..] else ""
  {
    SubstrFrom(pathname, IndexOf(pathname, ApiMarker) + |ApiMarker|)
  }

  /** `.map((value, index, arr) => index === arr.length - 1 ? value : value[0])`: every
      segment but the last shrinks to its first character (`undefined` when it is empty),
      the last stays whole. */
  function Collapse(segments: seq<string>): (pieces: seq<Piece>)
    ensures |pieces| == |segments|
    ensures forall i :: 0 <= i < |segments| - 1 ==> pieces[i] == CharAt(segments[i], 0)
    ensures |segments| > 0 ==> pieces[|segments| - 1] == Text(segments[|segments| - 1])
    decreases |segments|
  {
    if |segments| <= 1 then Texts(segments)
    else [CharAt(segments[0], 0)] + Collapse(segments[1..])
  }

  /** `rest.split("/").map(...).join(".")`: the short form of a REST path. */
  function TagPath(rest: string): string
  {
    Join(Collapse(Split(rest, '/')), '.')
  }

  /** The tag for a REST path remainder: the prefix, then as much of the short path as
      fits in 32 characters.  The prefix is 20 characters long, so the cut never reaches
      into it and keeps at most the first 12 characters of the short path. */
  function TagFromRemainder(rest: string): (tag: string)
    ensures |tag| <= MaxTagLength
    ensures |tag| >= |TagPrefix| && tag[..|TagPrefix|] == TagPrefix
    ensures tag == TagPrefix + TagPath(rest)[..Min(|TagPath(rest)|, MaxTagLength - |TagPrefix|)]
  {
    var clientTag := TagPrefix + TagPath(rest);
    if |clientTag| > MaxTagLength then Substr(clientTag, 0, MaxTagLength) else clientTag
  }

  /** The `X-ClientService-ClientTag` value for a request whose URL has this path. */
  function ClientTag(pathname: string): (tag: string)
    ensures |tag| <= MaxTagLength
    ensures StartsWith(tag, TagPrefix)
    ensures StartsWith(TagPrefix + TagPath(ApiRemainder(pathname)), tag)
  {
    TagFromRemainder(ApiRemainder(pathname))
  }

  /** Line 20's length test: a tag that fits is the prefix and the short path unchanged,
      a longer one is its first 32 characters. */
  lemma TruncationCases(pathname: string)
    ensures var full := TagPrefix + TagPath(ApiRemainder(pathname));
            && (|full| <= MaxTagLength ==> ClientTag(pathname) == full)
            && (|full| > MaxTagLength ==> ClientTag(pathname) == full[..MaxTagLength])
  {
  }

  /** The shape of the short path: one piece per segment of the remainder, so one more
      piece than there are `/`; every piece but the last is the first character of its
      segment, or nothing for an empty segment; the last segment is kept whole. */
  lemma SegmentShapes(rest: string)
    ensures var segments := Split(rest, '/');
            var pieces := Collapse(segments);
            && |pieces| == Count(rest, '/') + 1
            && Join(Texts(segments), '/') == rest
            && EndsWith(TagPath(rest), segments[|segments| - 1])
            && Render(pieces[|pieces| - 1]) == segments[|segments| - 1]
            && forall i :: 0 <= i < |pieces| - 1 ==>
                 |Render(pieces[i])| <= 1
                 && (segments[i] == "" <==> Render(pieces[i]) == "")
                 && (segments[i] != "" ==> Render(pieces[i]) == segments[i][..1])
  {
    var segments := Split(rest, '/');
    var pieces := Collapse(segments);
    SplitThenJoin(rest, '/');
    JoinEndsWithLast(pieces, '.');
    forall i | 0 <= i < |pieces| - 1 {
      CollapsedPieceShape(segments, i);
    }
  }

  /** One non-last piece of a collapsed path: at most the segment's first character. */
  lemma CollapsedPieceShape(segments: seq<string>, i: nat)
    requires i < |segments| - 1
    ensures var r := Render(Collapse(segments)[i]);
            && |r| <= 1
            && (segments[i] == "" <==> r == "")
            && (segments[i] != "" ==> r == segments[i][..1])
  {
    var r := Render(CharAt(segments[i], 0));
    if segments[i] != "" {
      assert r == [segments[i][0]];
    }
  }

  /** When the remainder holds no `.`, every `.` of the short path is a separator, and
      there is exactly one for each `/` of the remainder. */
  lemma {:induction false} SeparatorCount(rest: string)
    requires '.' !in rest
    ensures Count(TagPath(rest), '.') == Count(rest, '/')
  {
    var segments := Split(rest, '/');
    var pieces := Collapse(segments);
    SplitKeepsAbsent(rest, '/', '.');
    forall i | 0 <= i < |pieces|
      ensures '.' !in Render(pieces[i])
    {
      assert '.' !in segments[i];
      if i < |pieces| - 1 && segments[i] != "" {
        assert Render(pieces[i]) == [segments[i][0]];
      }
    }
    JoinSeparatorCount(pieces, '.');
  }

  /** Text in front of the first marker is cut away: a pathname made of a marker-free
      head, the marker and a remainder is tagged from that remainder alone. */
  lemma {:induction false} OnlyTextAfterMarkerMatters(head: string, rest: string)
    requires forall k :: !OccursAt(head, ApiMarker, k)
    ensures ApiRemainder(head + ApiMarker + rest) == rest
    ensures ClientTag(head + ApiMarker + rest) == TagFromRemainder(rest)
  {
    var p := head + ApiMarker + rest;
    assert p[|head|..|head| + |ApiMarker|] == ApiMarker;
    forall k | 0 <= k < |head|
      ensures !OccursAt(p, ApiMarker, k)
    {
      if k + |ApiMarker| <= |head| {
        assert head[k..k + |ApiMarker|] == p[k..k + |ApiMarker|];
        assert !OccursAt(head, ApiMarker, k);
      } else {
        // A marker at k would overlap the one at |head|, whose `_` is not among
        // the later characters `api/` of the marker.
        var j := |head| - k;
        if k + |ApiMarker| <= |p| {
          assert p[k..k + |ApiMarker|][j] == p[|head|] == '_';
          assert ApiMarker[j] != '_';
        }
      }
    }
    assert IsFirstOccurrence(p, ApiMarker, |head|);
    assert p[|head| + |ApiMarker|..] == rest;
  }

  /** Two pathnames that agree after their first marker get the same tag. */
  lemma SameRemainderSameTag(p1: string, i1: nat, p2: string, i2: nat)
    requires IsFirstOccurrence(p1, ApiMarker, i1) && IsFirstOccurrence(p2, ApiMarker, i2)
    requires p1[i1 + |ApiMarker|..] == p2[i2 + |ApiMarker|..]
    ensures ClientTag(p1) == ClientTag(p2)
  {
  }

  /** Without a marker the remainder starts at index 4 of the pathname. */
  lemma NoMarkerStartsAtFour(pathname: string)
    requires forall k :: !OccursAt(pathname, ApiMarker, k)
    ensures ClientTag(pathname) == TagFromRemainder(if |pathname| >= 4 then pathname[4..] else "")
  {
  }

  /** A text without `_` cannot hold the marker. */
  lemma NoUnderscoreNoMarker(s: string)
    requires '_' !in s
    ensures forall k :: !OccursAt(s, ApiMarker, k)
  {
    forall k
      ensures !OccursAt(s, ApiMarker, k)
    {
      if 0 <= k && k + |ApiMarker| <= |s| {
        assert s[k] != '_';
        assert s[k..k + |ApiMarker|][0] == s[k];
      }
    }
  }

  /** The short path of a remainder with exactly one `/`. */
  lemma TwoSegmentPath(a: string, b: string)
    requires '/' !in a && '/' !in b
    ensures TagPath(a + "/" + b) == Render(CharAt(a, 0)) + "." + b
  {
    SplitAtFirstSeparator(a, b, '/');
    SplitPrepend(b, "", '/');
    assert b + "" == b;
    assert a + "/" + b == a + ['/'] + b;
    assert Split(a + "/" + b, '/') == [a, b];
    var pieces := Collapse([a, b]);
    assert pieces == [CharAt(a, 0), Text(b)];
    JoinCons(CharAt(a, 0), [Text(b)], '.');
    assert [CharAt(a, 0), Text(b)] == [CharAt(a, 0)] + [Text(b)];
  }

  /** A short path of at most 12 characters is kept whole after the prefix. */
  lemma ShortPathKept(rest: string, path: string)
    requires TagPath(rest) == path && |path| <= MaxTagLength - |TagPrefix|
    ensures TagFromRemainder(rest) == TagPrefix + path
  {
    assert path[..|path|] == path;
  }

  /** A short path longer than 12 characters loses everything after its 12th. */
  lemma LongPathCut(rest: string, path: string)
    requires TagPath(rest) == path && |path| > MaxTagLength - |TagPrefix|
    ensures TagFromRemainder(rest) == TagPrefix + path[..MaxTagLength - |TagPrefix|]
  {
  }

  // Worked tags.  Each input is assembled from short parameters fixed by the
  // precondition, which keeps the verifier from unfolding the tag functions on one long
  // literal character by character.

  /** A remainder that opens with `/` has an empty first segment, whose `value[0]` is
      `undefined` and renders as nothing: the short path is a bare `.` and the rest. */
  lemma EmptySegmentRemainder(b: string)
    requires '/' !in b && 1 + |b| <= MaxTagLength - |TagPrefix|
    ensures TagFromRemainder("/" + b) == TagPrefix + ("." + b)
  {
    assert "" + "/" + b == "/" + b;
    TwoSegmentPath("", b);
    ShortPathKept("/" + b, "." + b);
  }

  /** A two-segment remainder whose first segment is not empty and whose short path fits. */
  lemma ShortTwoSegmentRemainder(a: string, b: string)
    requires a != "" && '/' !in a && '/' !in b && 2 + |b| <= MaxTagLength - |TagPrefix|
    ensures TagFromRemainder(a + "/" + b) == TagPrefix + ([a[0]] + "." + b)
  {
    TwoSegmentPath(a, b);
    assert Render(CharAt(a, 0)) == [a[0]];
    ShortPathKept(a + "/" + b, [a[0]] + "." + b);
  }

  /** An empty segment right after the marker contributes nothing but its `.`. */
  lemma EmptyFirstSegment(head: string, b: string)
    requires forall k :: !OccursAt(head, ApiMarker, k)
    requires '/' !in b && 1 + |b| <= MaxTagLength - |TagPrefix|
    ensures ClientTag(head + ApiMarker + "/" + b) == TagPrefix + ("." + b)
  {
    assert head + ApiMarker + "/" + b == head + ApiMarker + ("/" + b);
    OnlyTextAfterMarkerMatters(head, "/" + b);
    EmptySegmentRemainder(b);
  }

  /** A pathname without a marker loses its first four characters, here part of its first
      segment, and keeps a `/` and a short last segment. */
  lemma NoMarkerTwoSegments(head: string, a: string, b: string)
    requires |head| == 4 && '_' !in head + a + "/" + b
    requires a != "" && '/' !in a && '/' !in b && 2 + |b| <= MaxTagLength - |TagPrefix|
    ensures ClientTag(head + a + "/" + b) == TagPrefix + ([a[0]] + "." + b)
  {
    var p := head + a + "/" + b;
    NoUnderscoreNoMarker(p);
    NoMarkerStartsAtFour(p);
    assert p[4..] == a + "/" + b;
    ShortTwoSegmentRemainder(a, b);
  }

  /** The pathname `/_api//web`. */
  lemma ExampleEmptySegment(head: string, b: string)
    requires head == "/" && b == "web"
    ensures ClientTag(head + ApiMarker + "/" + b) == TagPrefix + ".web"
  {
    NoUnderscoreNoMarker(head);
    EmptyFirstSegment(head, b);
  }

  /** The pathname `/sites/dev`: the remainder starts at index 4, inside the first
      segment. */
  lemma ExampleNoMarker(head: string, a: string, b: string)
    requires head == "/sit" && a == "es" && b == "dev"
    ensures ClientTag(head + a + "/" + b) == TagPrefix + "e.dev"
  {
    NoMarkerTwoSegments(head, a, b);
  }

  /** The remainder `web/currentuser`: a long last segment, cut at 32 characters. */
  lemma ExampleTruncated(a: string, b: string)
    requires a == "web" && b == "currentuser"
    ensures TagFromRemainder(a + "/" + b) == TagPrefix + "w.currentuse"
  {
    TwoSegmentPath(a, b);
    var path := Render(CharAt(a, 0)) + "." + b;
    LongPathCut(a + "/" + b, path);
    assert Render(CharAt(a, 0)) == [a[0]];
    KeepTwelve(a[0], b);
  }

  /** The 12 characters of `w.currentuser` that fit after the prefix. */
  lemma KeepTwelve(c: char, b: string)
    requires c == 'w' && b == "currentuser"
    ensures ([c] + "." + b)[..MaxTagLength - |TagPrefix|] == "w.currentuse"
  {
  }
}
