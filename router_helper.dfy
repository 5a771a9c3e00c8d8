/** The URL-pattern segment grammar of the router: turning URLs into segment
    lists and back, and reading the parts of one pattern token such as
    `:name?default|regex` or `:path*`. */
module RouterHelper {
  import opened Wrappers
  import opened Text

  // ---------------------------------------------------------------------------
  // Whole URLs

  /** normalizeUrl(): the URL with a leading '/' added when missing and ONE
      trailing '/' removed; an empty result becomes "/". */
  function Normalized(url: string): (r: string)
    ensures |r| > 0 && r[0] == '/'
    ensures |url| > 0 && url[0] == '/' && url[|url| - 1] != '/' ==> r == url
    ensures |url| > 1 && url[0] == '/' && url[|url| - 1] == '/' ==> r == url[..|url| - 1]
    ensures |url| > 0 && url[0] != '/' && url[|url| - 1] != '/' ==> r == "/" + url
    ensures |url| > 1 && url[0] != '/' && url[|url| - 1] == '/' ==> r == "/" + url[..|url| - 1]
    ensures url == "" || url == "/" ==> r == "/"
  {
    var withLead := if StartsWith(url, '/') then url else "/" + url;
    var stripped := if withLead[|withLead| - 1] == '/' then withLead[..|withLead| - 1] else withLead;
    if |stripped| == 0 then "/" else stripped
  }

  /** Normalizing twice changes the URL again exactly when the first pass
      left a trailing '/' behind, as it does for "/a//". */
  lemma NormalizedIdempotentIff(url: string)
    ensures var n := Normalized(url);
      Normalized(n) == n <==> (n == "/" || n[|n| - 1] != '/')
  {
    var n := Normalized(url);
    if n != "/" && n[|n| - 1] == '/' {
      assert |Normalized(n)| < |n|;
    }
  }

  lemma NormalizedStripsOneSlash()
    ensures Normalized("/a//") == "/a/"
    ensures Normalized("/a/") == "/a"
  {
  }

  /** The non-empty '/'-separated segments of the normalized URL. */
  function Segmentized(url: string): seq<string>
  {
    NonEmpty(Explode(Normalized(url), '/'))
  }

  method SegmentizeUrl(url: string) returns (result: seq<string>)
    ensures result == Segmentized(url)
    ensures forall i :: 0 <= i < |result| ==> result[i] != "" && '/' !in result[i]
  {
    var normalized := Normalized(url);
    var segments := Explode(normalized, '/');
    result := [];
    for i := 0 to |segments|
      invariant result == NonEmpty(segments[..i])
    {
      assert segments[..i + 1][..i] == segments[..i];
      if |segments[i]| > 0 {
        result := result + [segments[i]];
      }
    }
    assert segments[..|segments|] == segments;
    ExplodePieces(normalized, '/');
    NonEmptyKeeps(segments, '/');
  }

  /** Normalizing does not change which non-empty segments a URL has. */
  lemma NormalizedKeepsSegments(url: string)
    ensures NonEmpty(Explode(Normalized(url), '/')) == NonEmpty(Explode(url, '/'))
  {
    var withLead := if StartsWith(url, '/') then url else "/" + url;
    LeadingSlashKeepsSegments(url, withLead);
    var stripped := if withLead[|withLead| - 1] == '/' then withLead[..|withLead| - 1] else withLead;
    var n := Normalized(url);
    if |stripped| == 0 {
      assert n == withLead;
    } else if withLead[|withLead| - 1] == '/' {
      TrailingSlashKeepsSegments(withLead);
      assert n == stripped;
    } else {
      assert n == withLead;
    }
  }

  lemma LeadingSlashKeepsSegments(url: string, withLead: string)
    requires withLead == if StartsWith(url, '/') then url else "/" + url
    ensures NonEmpty(Explode(withLead, '/')) == NonEmpty(Explode(url, '/'))
  {
    if !StartsWith(url, '/') {
      assert withLead[1..] == url;
      assert Explode(withLead, '/') == [""] + Explode(url, '/');
      NonEmptyAppend([""], Explode(url, '/'));
      assert NonEmpty([""]) == [];
    }
  }

  lemma TrailingSlashKeepsSegments(url: string)
    requires |url| > 0 && url[|url| - 1] == '/'
    ensures NonEmpty(Explode(url, '/')) == NonEmpty(Explode(url[..|url| - 1], '/'))
  {
    var stripped := url[..|url| - 1];
    assert url == stripped + ['/'] + "";
    ExplodeAppend(stripped, '/', "");
    var pieces := Explode(stripped, '/') + [""];
    assert pieces[..|pieces| - 1] == Explode(stripped, '/');
  }

  lemma SegmentizedRoot()
    ensures Segmentized("/") == []
    ensures Segmentized("") == []
  {
    NormalizedKeepsSegments("/");
    NormalizedKeepsSegments("");
    assert Explode("/", '/') == ["", ""];
  }

  /** The text rebuildUrl accumulates before normalizing: "/" and the trimmed
      segment for every non-empty segment. */
  function Joined(segments: seq<string>): string
  {
    if |segments| == 0 then ""
    else
      var last := segments[|segments| - 1];
      Joined(segments[..|segments| - 1]) + (if |last| > 0 then "/" + Trim(last) else "")
  }

  function Rebuilt(segments: seq<string>): string
  {
    Normalized(Joined(segments))
  }

  method RebuildUrl(urlArray: seq<string>) returns (r: string)
    ensures r == Rebuilt(urlArray)
    ensures |r| > 0 && r[0] == '/'
  {
    var url := "";
    for i := 0 to |urlArray|
      invariant url == Joined(urlArray[..i])
    {
      assert urlArray[..i + 1][..i] == urlArray[..i];
      if |urlArray[i]| > 0 {
        url := url + "/" + Trim(urlArray[i]);
      }
    }
    assert urlArray[..|urlArray|] == urlArray;
    r := Normalized(url);
  }

  function TrimAll(segments: seq<string>): (r: seq<string>)
    ensures |r| == |segments|
  {
    seq(|segments|, i requires 0 <= i < |segments| => Trim(segments[i]))
  }

  /** No segment holds a '/'. */
  predicate SlashFree(segments: seq<string>)
  {
    forall i :: 0 <= i < |segments| ==> '/' !in segments[i]
  }

  lemma {:induction false} JoinedSegments(segments: seq<string>)
    requires SlashFree(segments)
    ensures NonEmpty(Explode(Joined(segments), '/')) == NonEmpty(TrimAll(segments))
    decreases |segments|
  {
    if |segments| == 0 {
      assert Explode("", '/') == [""];
    } else {
      var init := segments[..|segments| - 1];
      JoinedSegments(init);
      JoinedStep(init, segments[|segments| - 1], segments);
    }
  }

  lemma JoinedStep(init: seq<string>, last: string, segments: seq<string>)
    requires segments == init + [last] && '/' !in last
    requires NonEmpty(Explode(Joined(init), '/')) == NonEmpty(TrimAll(init))
    ensures NonEmpty(Explode(Joined(segments), '/')) == NonEmpty(TrimAll(segments))
  {
    var t := Trim(last);
    TrimAllSnoc(init, last, segments);
    NonEmptyAppend(TrimAll(init), [t]);
    JoinedSnoc(init, last, segments);
    if |last| > 0 {
      TrimWithout(last, '/');
      ExplodeAppend(Joined(init), '/', t);
      NonEmptyAppend(Explode(Joined(init), '/'), [t]);
    } else {
      assert NonEmpty([t]) == [];
    }
  }

  lemma TrimAllSnoc(init: seq<string>, last: string, segments: seq<string>)
    requires segments == init + [last]
    ensures TrimAll(segments) == TrimAll(init) + [Trim(last)]
  {
  }

  lemma JoinedSnoc(init: seq<string>, last: string, segments: seq<string>)
    requires segments == init + [last]
    ensures |last| > 0 ==> Joined(segments) == Joined(init) + ['/'] + Trim(last)
    ensures |last| == 0 ==> Joined(segments) == Joined(init)
  {
    assert segments[..|segments| - 1] == init && segments[|segments| - 1] == last;
    if |last| > 0 {
      var t := Trim(last);
      assert Joined(segments) == Joined(init) + ("/" + t);
      ConcatAssoc(Joined(init), t);
    }
  }

  lemma ConcatAssoc(a: string, t: string)
    ensures a + ("/" + t) == a + ['/'] + t
  {
  }

  /** Rebuilding and splitting again gives the trimmed, non-empty segments. */
  lemma SegmentizeRebuild(segments: seq<string>)
    requires SlashFree(segments)
    ensures Segmentized(Rebuilt(segments)) == NonEmpty(TrimAll(segments))
  {
    NormalizedKeepsSegments(Joined(segments));
    NormalizedKeepsSegments(Rebuilt(segments));
    JoinedSegments(segments);
  }

  /** Trimming drops the white space of a padded segment: " post" is
      trimmed to "post". */
  lemma TrimAllPaddedExample()
    ensures NonEmpty(TrimAll(["blog", " post"])) == ["blog", "post"]
  {
    TrimPaddedExample();
    hide Trim, TrimLeft, TrimRight;
    var trimmed := TrimAll(["blog", " post"]);
    assert trimmed[0] == "blog" && trimmed[1] == "post";
    assert trimmed == ["blog", "post"];
    NonEmptyAll(trimmed);
  }

  /** The round trip: non-empty, '/'-free, trimmed segments survive
      rebuildUrl followed by segmentizeUrl. */
  lemma SegmentizeRebuildRoundTrip(segments: seq<string>)
    requires forall i :: 0 <= i < |segments| ==> segments[i] != "" && '/' !in segments[i] && Trimmed(segments[i])
    ensures Segmentized(Rebuilt(segments)) == segments
  {
    assert SlashFree(segments);
    SegmentizeRebuild(segments);
    TrimAllTrimmed(segments);
    NonEmptyAll(segments);
  }

  lemma TrimAllTrimmed(segments: seq<string>)
    requires forall i :: 0 <= i < |segments| ==> Trimmed(segments[i])
    ensures TrimAll(segments) == segments
  {
    var trimmed := TrimAll(segments);
    assert forall i :: 0 <= i < |segments| ==> trimmed[i] == segments[i];
  }

  /** No segments, or only empty ones, rebuild to the root URL. */
  lemma RebuiltRoot(segments: seq<string>)
    requires forall i :: 0 <= i < |segments| ==> segments[i] == ""
    ensures Rebuilt(segments) == "/"
  {
    JoinedEmpty(segments);
    assert Normalized("") == "/";
  }

  lemma {:induction false} JoinedEmpty(segments: seq<string>)
    requires forall i :: 0 <= i < |segments| ==> segments[i] == ""
    ensures Joined(segments) == ""
    decreases |segments|
  {
    if |segments| > 0 {
      var init := segments[..|segments| - 1];
      assert forall i :: 0 <= i < |init| ==> init[i] == segments[i];
      JoinedEmpty(init);
    }
  }

  // ---------------------------------------------------------------------------
  // One pattern token

  /** segmentIsWildcard(): the token starts with ':' and ends with '*'. */
  function SegmentIsWildcard(segment: string): bool
  {
    StartsWith(segment, ':') && segment[|segment| - 1] == '*'
  }

  /** A wildcard token has at least two characters, ':' first and '*' last,
      so its name part holds a '*'; no other token is a wildcard. */
  lemma WildcardShape(segment: string)
    ensures SegmentIsWildcard(segment) <==> |segment| >= 2 && segment[0] == ':' && segment[|segment| - 1] == '*'
    ensures SegmentIsWildcard(segment) ==> '*' in From(segment, 1)
  {
    if SegmentIsWildcard(segment) {
      assert From(segment, 1)[|segment| - 2] == '*';
    }
  }

  /** The name of a wildcard token without '?' is the text between the ':'
      and the first '*', so it never holds the marker. */
  lemma WildcardParameterName(segment: string)
    requires SegmentIsWildcard(segment) && '?' !in segment
    ensures var p := GetParameterName(segment);
      && '*' !in p && 1 + |p| < |segment| && segment[1 + |p|] == '*'
      && p == segment[1..1 + |p|]
  {
    WildcardShape(segment);
    var name := From(segment, 1);
    assert '?' !in name by {
      forall i | 0 <= i < |name| ensures name[i] != '?' {
        assert name[i] == segment[i + 1];
      }
    }
  }

  /** `:path*` is a wildcard named `path` that is not optional, so a URL
      must supply at least its first segment. */
  lemma WildcardExample()
    ensures SegmentIsWildcard(":path*") && !SegmentIsOptional(":path*")
    ensures GetParameterName(":path*") == "path"
  {
    WildcardParameterName(":path*");
    assert From(":path*", 1) == "path*";
    assert ":path*"[1..5] == "path";
  }

  /** A '?' occurs after the first character with no '|' before it. The
      leading ':' is not checked. */
  function SegmentIsOptional(segment: string): (r: bool)
    ensures var name := From(segment, 1);
      r <==> exists i :: 0 <= i < |name| && name[i] == '?' && '|' !in name[..i]
  {
    var name := From(segment, 1);
    match Find(name, '?')
    case None => false
    case Some(opt) =>
      match Find(name, '|')
      case None => true
      case Some(regex) =>
        assert regex != opt;
        if opt < regex then
          assert '|' !in name[..opt] by { assert name[..opt] == name[..regex][..opt]; }
          true
        else
          assert forall i :: 0 <= i < |name| && name[i] == '?' ==> '|' in name[..i] by {
            forall i | 0 <= i < |name| && name[i] == '?' ensures '|' in name[..i] {
              assert opt <= i;
              assert name[..i][regex] == '|';
            }
          }
          false
  }

  /** The parameter name: the token without its first character, cut at the
      first '?' or '|' (whichever comes first) when it has no '*', and cut at
      the first '?', or else the first '*', when it has one. */
  function GetParameterName(segment: string): (r: string)
    ensures var name := From(segment, 1);
      && |r| <= |name| && r == name[..|r|]
      && ('*' !in name ==> '?' !in r && '|' !in r
                           && (|r| == |name| || name[|r|] == '?' || name[|r|] == '|'))
      && ('*' in name && '?' in name ==> '?' !in r && |r| < |name| && name[|r|] == '?')
      && ('*' in name && '?' !in name ==> '*' !in r && |r| < |name| && name[|r|] == '*')
  {
    var name := From(segment, 1);
    var opt := Find(name, '?');
    var wild := Find(name, '*');
    var regex := Find(name, '|');
    if wild.Some? then
      if opt.Some? then name[..opt.value] else name[..wild.value]
    else if opt.Some? && regex.Some? then
      if opt.value < regex.value then
        assert '|' !in name[..opt.value] by {
          assert name[..opt.value] == name[..regex.value][..opt.value];
        }
        name[..opt.value]
      else
        assert '?' !in name[..regex.value] by {
          assert name[..regex.value] == name[..opt.value][..regex.value];
        }
        name[..regex.value]
    else if opt.Some? then name[..opt.value]
    else if regex.Some? then name[..regex.value]
    else name
  }

  /** The constraint after the first '|', written as `/…/`; None (PHP FALSE)
      when there is no '|' or nothing follows the first one. */
  function GetSegmentRegExp(segment: string): (r: Option<string>)
    ensures r.None? <==> ('|' !in segment || Find(segment, '|') == Some(|segment| - 1))
    ensures r.Some? ==> exists p :: 0 <= p < |segment| - 1 && segment[p] == '|'
                                    && '|' !in segment[..p] && r.value == "/" + segment[p + 1..] + "/"
  {
    match Find(segment, '|')
    case None => None
    case Some(p) =>
      var regexp := From(segment, p + 1);
      if |regexp| == 0 then None else Some("/" + regexp + "/")
  }

  /** Some(text) for a non-empty text, None (PHP FALSE) for an empty one. */
  function NonEmptyText(text: string): (r: Option<string>)
    ensures r.Some? <==> text != ""
    ensures r.Some? ==> r.value == text
  {
    if |text| > 0 then Some(text) else None
  }

  /** The default value of an optional token: the text after the first '?'
      up to the first '|' if there is one, else up to the first '*', else to
      the end; None (PHP FALSE) when there is no '?' or that text is empty. */
  function GetSegmentDefaultValue(segment: string): (r: Option<string>)
    ensures '?' !in segment ==> r.None?
    ensures r.Some? ==> r.value != ""
    ensures var opt := Find(segment, '?'); var regex := Find(segment, '|');
      opt.Some? && regex.Some? && opt.value < regex.value
      ==> r == NonEmptyText(segment[opt.value + 1..regex.value])
    ensures var opt := Find(segment, '?'); var wild := Find(segment, '*');
      opt.Some? && '|' !in segment && wild.Some? && opt.value < wild.value
      ==> r == NonEmptyText(segment[opt.value + 1..wild.value])
    ensures var opt := Find(segment, '?');
      opt.Some? && '|' !in segment && '*' !in segment
      ==> r == NonEmptyText(segment[opt.value + 1..])
  {
    match Find(segment, '?')
    case None => None
    case Some(opt) => NonEmptyText(DefaultText(segment, opt, Find(segment, '|'), Find(segment, '*')))
  }

  /** The text between the '?' at `opt` and the first '|', else the first
      '*', else the end, as mb_substr cuts it. */
  function DefaultText(segment: string, opt: nat, regex: Option<nat>, wild: Option<nat>): string
  {
    if regex.Some? then SubstrLen(segment, opt + 1, regex.value - opt - 1)
    else if wild.Some? then SubstrLen(segment, opt + 1, wild.value - opt - 1)
    else From(segment, opt + 1)
  }

  /** When the first '|' comes before the first '?', mb_substr is given a
      negative length: the default value then runs from after the '?' to
      `opt - regex + 1` characters before the end of the token, so it can
      take in characters of the regular expression. */
  lemma DefaultValueRegexBeforeOptional(segment: string, opt: nat, regex: nat)
    requires Find(segment, '?') == Some(opt) && Find(segment, '|') == Some(regex)
    requires regex < opt
    ensures var end := |segment| - (opt - regex + 1);
      GetSegmentDefaultValue(segment)
        == NonEmptyText(if opt + 1 <= end then segment[opt + 1..end] else "")
  {
    DefaultTextNegativeLength(segment, opt, regex, Find(segment, '*'));
  }

  /** The same happens when there is no '|' and the first '*' comes before
      the first '?': the length `wild - opt - 1` is negative again. */
  lemma DefaultValueWildBeforeOptional(segment: string, opt: nat, wild: nat)
    requires Find(segment, '?') == Some(opt) && '|' !in segment && Find(segment, '*') == Some(wild)
    requires wild < opt
    ensures var end := |segment| - (opt - wild + 1);
      GetSegmentDefaultValue(segment)
        == NonEmptyText(if opt + 1 <= end then segment[opt + 1..end] else "")
  {
    DefaultTextWildNegativeLength(segment, opt, wild);
  }

  lemma DefaultTextWildNegativeLength(segment: string, opt: nat, wild: nat)
    requires wild < opt < |segment|
    ensures var end := |segment| - (opt - wild + 1);
      DefaultText(segment, opt, None, Some(wild))
        == if opt + 1 <= end then segment[opt + 1..end] else ""
  {
  }

  lemma DefaultTextNegativeLength(segment: string, opt: nat, regex: nat, wild: Option<nat>)
    requires regex < opt < |segment|
    ensures var end := |segment| - (opt - regex + 1);
      DefaultText(segment, opt, Some(regex), wild)
        == if opt + 1 <= end then segment[opt + 1..end] else ""
  {
  }
}
