/** One router rule: a pattern split into segments, counted into static,
    dynamic and wildcard segments, and matched against concrete URLs
    segment by segment. */
module Router {
  import opened Wrappers
  import opened Text
  import opened RouterHelper

  /** The outcome of preg_match on a segment's constraint: a match, no match
      (preg_match returned 0 or FALSE), or an exception, which resolveUrl
      catches and ignores. */
  datatype RegexResult = Matched | NoMatch | Raised

  /** A parameter value: the URL text, or PHP FALSE for a missing optional
      segment without a default. */
  datatype ParamValue = Text(text: string) | False

  /** The argument of condition() / afterMatch(): a PHP callable, identified
      by an opaque id, or some other value with its gettype() name. */
  datatype CallbackArg = Callable(id: nat) | NotCallable(typeName: string)

  /** What an accessor such as name() returns: the current value when called
      without an argument, or the rule itself (for chaining) after a set. */
  datatype Accessed<T> = Current(value: T) | Chained

  // ---------------------------------------------------------------------------
  // Counting the pattern's segments

  /** A segment whose first character is ':' is dynamic; any other is static. */
  predicate IsDynamic(segment: string)
  {
    StartsWith(segment, ':')
  }

  /** The static segments, in order. */
  function StaticSegments(segments: seq<string>): (r: seq<string>)
    ensures |r| <= |segments|
  {
    if |segments| == 0 then []
    else
      var last := segments[|segments| - 1];
      StaticSegments(segments[..|segments| - 1]) + (if IsDynamic(last) then [] else [last])
  }

  function DynamicCount(segments: seq<string>): nat
  {
    if |segments| == 0 then 0
    else DynamicCount(segments[..|segments| - 1]) + (if IsDynamic(segments[|segments| - 1]) then 1 else 0)
  }

  /** Dynamic segments that are also wildcards; every wildcard starts with ':'. */
  function WildCount(segments: seq<string>): nat
  {
    if |segments| == 0 then 0
    else
      var last := segments[|segments| - 1];
      WildCount(segments[..|segments| - 1]) + (if IsDynamic(last) && SegmentIsWildcard(last) then 1 else 0)
  }

  /** Static and dynamic segments partition the pattern, and there are no
      more wildcards than dynamic segments. */
  lemma {:induction false} CountsPartition(segments: seq<string>)
    ensures |StaticSegments(segments)| + DynamicCount(segments) == |segments|
    ensures WildCount(segments) <= DynamicCount(segments)
    decreases |segments|
  {
    if |segments| > 0 {
      CountsPartition(segments[..|segments| - 1]);
    }
  }

  /** Counting one more segment. */
  lemma CountsSnoc(segments: seq<string>, i: nat)
    requires i < |segments|
    ensures StaticSegments(segments[..i + 1])
      == StaticSegments(segments[..i]) + (if IsDynamic(segments[i]) then [] else [segments[i]])
    ensures DynamicCount(segments[..i + 1]) == DynamicCount(segments[..i]) + (if IsDynamic(segments[i]) then 1 else 0)
    ensures WildCount(segments[..i + 1])
      == WildCount(segments[..i]) + (if IsDynamic(segments[i]) && SegmentIsWildcard(segments[i]) then 1 else 0)
  {
    assert segments[..i + 1][..i] == segments[..i];
  }

  /** A pattern without dynamic segments is its own static part. */
  lemma {:induction false} StaticSegmentsAllStatic(segments: seq<string>)
    requires forall i :: 0 <= i < |segments| ==> !IsDynamic(segments[i])
    ensures StaticSegments(segments) == segments
    ensures DynamicCount(segments) == 0
    decreases |segments|
  {
    if |segments| > 0 {
      var n := |segments| - 1;
      var init := segments[..n];
      forall i | 0 <= i < |init| ensures !IsDynamic(init[i]) {
        assert init[i] == segments[i];
      }
      StaticSegmentsAllStatic(init);
      assert !IsDynamic(segments[n]);
      assert StaticSegments(segments) == init + [segments[n]];
      assert init + [segments[n]] == segments;
    }
  }

  /** Every static segment is a segment of the pattern that is not dynamic. */
  lemma {:induction false} StaticSegmentsAreStatic(segments: seq<string>)
    ensures forall i :: 0 <= i < |StaticSegments(segments)| ==>
      StaticSegments(segments)[i] in segments && !IsDynamic(StaticSegments(segments)[i])
    decreases |segments|
  {
    if |segments| > 0 {
      var init := segments[..|segments| - 1];
      var last := segments[|segments| - 1];
      StaticSegmentsAreStatic(init);
      var front := StaticSegments(init);
      var r := StaticSegments(segments);
      assert r == front + (if IsDynamic(last) then [] else [last]);
      forall i | 0 <= i < |r| ensures r[i] in segments && !IsDynamic(r[i]) {
        if i < |front| {
          assert r[i] == front[i];
          assert front[i] in init;
        } else {
          assert r[i] == last;
        }
      }
    }
  }

  // ---------------------------------------------------------------------------
  // Capturing the segments a wildcard absorbs

  /** The first index below `n` (and inside the pattern) of a wildcard segment. */
  function WildcardIndex(pattern: seq<string>, n: nat): (r: Option<nat>)
    ensures r.Some? ==> r.value < n && r.value < |pattern| && SegmentIsWildcard(pattern[r.value])
    ensures r.Some? ==> forall j :: 0 <= j < r.value ==> !SegmentIsWildcard(pattern[j])
    ensures r.None? ==> forall j :: 0 <= j < n && j < |pattern| ==> !SegmentIsWildcard(pattern[j])
  {
    if n == 0 then None
    else
      match WildcardIndex(pattern, n - 1)
      case Some(w) => Some(w)
      case None =>
        if n - 1 < |pattern| && SegmentIsWildcard(pattern[n - 1]) then Some(n - 1) else None
  }

  /** How many URL segments the wildcard absorbs: the excess of the URL over
      the pattern, or none. */
  function Excess(pattern: seq<string>, url: seq<string>): nat
  {
    if |url| > |pattern| then |url| - |pattern| else 0
  }

  /** captureWildcardSegments: the absorbed segments (those right after the
      wildcard's index, as many as the URL has in excess) and the URL
      segments that remain, re-indexed. */
  function Capture(pattern: seq<string>, url: seq<string>): (seq<string>, seq<string>)
  {
    match WildcardIndex(pattern, |url|)
    case None => ([], url)
    case Some(w) => CutAfter(url, w, Excess(pattern, url))
  }

  /** The `k` segments after index `w`, and the segments around them. */
  function CutAfter(url: seq<string>, w: nat, k: nat): (seq<string>, seq<string>)
    requires w + 1 + k <= |url|
  {
    (url[w + 1..w + 1 + k], url[..w + 1] + url[w + 1 + k..])
  }

  /** The capture takes at most the excess, in order, right after the
      wildcard, and what remains is the URL with that slice cut out; when the
      URL reaches the wildcard, what remains is no longer than the pattern. */
  lemma CaptureSlices(pattern: seq<string>, url: seq<string>)
    ensures |Capture(pattern, url).0| <= Excess(pattern, url)
    ensures |Capture(pattern, url).0| + |Capture(pattern, url).1| == |url|
    ensures WildcardIndex(pattern, |url|).None? ==> Capture(pattern, url) == ([], url)
    ensures WildcardIndex(pattern, |url|).Some? ==>
      var w, k := WildcardIndex(pattern, |url|).value, |Capture(pattern, url).0|;
      && w + 1 + k <= |url|
      && Capture(pattern, url).0 == url[w + 1..w + 1 + k]
      && Capture(pattern, url).1 == url[..w + 1] + url[w + 1 + k..]
      && |Capture(pattern, url).1| <= |pattern|
  {
    hide Capture, WildcardIndex;
    var found := WildcardIndex(pattern, |url|);
    if found.None? {
      CaptureNone(pattern, url);
    } else {
      CaptureWild(pattern, url, found.value);
    }
  }

  // ---------------------------------------------------------------------------
  // Matching a URL

  /** A default value read from the token, or FALSE. */
  function DefaultParam(d: Option<string>): (r: ParamValue)
    ensures r.Text? <==> d.Some?
    ensures d.Some? ==> r.text == d.value
  {
    match d
    case None => False
    case Some(v) => Text(v)
  }

  /** The segment at `i` counts as optional: it is marked optional and so is
      every later segment. */
  predicate EffectivelyOptional(pattern: seq<string>, i: nat)
    requires i < |pattern|
  {
    SegmentIsOptional(pattern[i]) && forall j :: i < j < |pattern| ==> SegmentIsOptional(pattern[j])
  }

  /** The value a present dynamic segment takes: the URL segment, followed by
      the rebuilt absorbed segments for the wildcard. */
  function SegmentValue(p: string, s: string, wild: seq<string>): string
  {
    if SegmentIsWildcard(p) && |wild| > 0 then s + Rebuilt(wild) else s
  }

  /** The comparison loop of resolveUrl from pattern index `i` on, with the
      parameters set so far: whether it accepts, and the parameters it
      leaves behind (also when it stops early). */
  function ResolveFrom(pattern: seq<string>, u: seq<string>, wild: seq<string>,
                       rx: (string, string) -> RegexResult, i: nat,
                       params: map<string, ParamValue>): (bool, map<string, ParamValue>)
    decreases |pattern| - i
  {
    if i >= |pattern| then (true, params)
    else
      var p := pattern[i];
      if !IsDynamic(p) then
        if i >= |u| || !LooseEquals(Lower(p), Lower(u[i])) then (false, params)
        else ResolveFrom(pattern, u, wild, rx, i + 1, params)
      else
        var name := GetParameterName(p);
        var initial := params[name := False];
        if i >= |u| then
          if EffectivelyOptional(pattern, i) then
            ResolveFrom(pattern, u, wild, rx, i + 1, initial[name := DefaultParam(GetSegmentDefaultValue(p))])
          else (false, initial)
        else
          var regexp := GetSegmentRegExp(p);
          if regexp.Some? && rx(regexp.value, u[i]) == NoMatch then (false, initial)
          else ResolveFrom(pattern, u, wild, rx, i + 1, initial[name := Text(SegmentValue(p, u[i], wild))])
  }

  /** resolveUrl on a rule with the given segments and wildcard count. */
  function Resolve(pattern: seq<string>, wildCount: nat, url: string,
                   rx: (string, string) -> RegexResult): (bool, map<string, ParamValue>)
  {
    var urlSegments := Segmentized(url);
    var (wild, rest) := if wildCount == 1 then Capture(pattern, urlSegments) else ([], urlSegments);
    if |rest| > |pattern| then (false, map[])
    else ResolveFrom(pattern, rest, wild, rx, 0, map[])
  }

  /** Whether the pattern segment at `i` accepts the URL segments: a static
      one needs an equal URL segment after lower-casing (PHP's loose `==`); a
      dynamic one without a URL segment must count as optional; a dynamic one
      with a URL segment must not be refused by its constraint. */
  predicate SegmentAccepts(pattern: seq<string>, u: seq<string>,
                           rx: (string, string) -> RegexResult, i: nat)
    requires i < |pattern|
  {
    var p := pattern[i];
    if !IsDynamic(p) then i < |u| && LooseEquals(Lower(p), Lower(u[i]))
    else if i >= |u| then EffectivelyOptional(pattern, i)
    else
      var regexp := GetSegmentRegExp(p);
      !(regexp.Some? && rx(regexp.value, u[i]) == NoMatch)
  }

  /** The loop accepts exactly when every remaining pattern segment accepts. */
  lemma {:induction false} ResolveFromAccepts(pattern: seq<string>, u: seq<string>, wild: seq<string>,
                                              rx: (string, string) -> RegexResult, i: nat,
                                              params: map<string, ParamValue>)
    ensures ResolveFrom(pattern, u, wild, rx, i, params).0
      <==> forall j :: i <= j < |pattern| ==> SegmentAccepts(pattern, u, rx, j)
    decreases |pattern| - i
  {
    if i < |pattern| {
      var p := pattern[i];
      assert (forall j :: i <= j < |pattern| ==> SegmentAccepts(pattern, u, rx, j))
        <==> SegmentAccepts(pattern, u, rx, i) && (forall j :: i + 1 <= j < |pattern| ==> SegmentAccepts(pattern, u, rx, j));
      if !IsDynamic(p) {
        ResolveFromAccepts(pattern, u, wild, rx, i + 1, params);
      } else {
        var name := GetParameterName(p);
        var initial := params[name := False];
        if i >= |u| {
          ResolveFromAccepts(pattern, u, wild, rx, i + 1, initial[name := DefaultParam(GetSegmentDefaultValue(p))]);
        } else {
          ResolveFromAccepts(pattern, u, wild, rx, i + 1, initial[name := Text(SegmentValue(p, u[i], wild))]);
        }
      }
    }
  }

  /** A URL matches exactly when, after the wildcard capture, it has no more
      segments than the pattern and every pattern segment accepts it. */
  lemma ResolveAccepts(pattern: seq<string>, wildCount: nat, url: string,
                       rx: (string, string) -> RegexResult)
    ensures var urlSegments := Segmentized(url);
      var rest := if wildCount == 1 then Capture(pattern, urlSegments).1 else urlSegments;
      var accepted := Resolve(pattern, wildCount, url, rx).0;
      accepted <==> |rest| <= |pattern| && forall j :: 0 <= j < |pattern| ==> SegmentAccepts(pattern, rest, rx, j)
  {
    var urlSegments := Segmentized(url);
    var (wild, rest) := if wildCount == 1 then Capture(pattern, urlSegments) else ([], urlSegments);
    ResolveFromAccepts(pattern, rest, wild, rx, 0, map[]);
  }

  /** One step of the comparison loop at a static segment: it fails on a
      missing or different URL segment and moves on otherwise. */
  lemma StepStatic(pattern: seq<string>, u: seq<string>, wild: seq<string>,
                   rx: (string, string) -> RegexResult, i: nat, params: map<string, ParamValue>)
    requires i < |pattern| && !IsDynamic(pattern[i])
    ensures ResolveFrom(pattern, u, wild, rx, i, params)
      == if i >= |u| || !LooseEquals(Lower(pattern[i]), Lower(u[i])) then (false, params)
         else ResolveFrom(pattern, u, wild, rx, i + 1, params)
  {
  }

  /** One step of the comparison loop at a dynamic segment: the parameter is
      reset to FALSE, then takes the default, fails the match, or takes the
      URL segment. */
  lemma StepDynamic(pattern: seq<string>, u: seq<string>, wild: seq<string>,
                    rx: (string, string) -> RegexResult, i: nat, params: map<string, ParamValue>)
    requires i < |pattern| && IsDynamic(pattern[i])
    ensures var p := pattern[i];
      var initial := params[GetParameterName(p) := False];
      ResolveFrom(pattern, u, wild, rx, i, params)
        == if i >= |u| then
             if EffectivelyOptional(pattern, i) then
               ResolveFrom(pattern, u, wild, rx, i + 1, initial[GetParameterName(p) := DefaultParam(GetSegmentDefaultValue(p))])
             else (false, initial)
           else if GetSegmentRegExp(p).Some? && rx(GetSegmentRegExp(p).value, u[i]) == NoMatch then (false, initial)
           else ResolveFrom(pattern, u, wild, rx, i + 1, initial[GetParameterName(p) := Text(SegmentValue(p, u[i], wild))])
  {
  }

  /** A dynamic segment that the URL leaves out sets its parameter to FALSE
      or to a non-empty default, and only a token with '?' has a default. */
  lemma MissingParamValue(segment: string)
    ensures var v := DefaultParam(GetSegmentDefaultValue(segment));
      && (v.False? <==> GetSegmentDefaultValue(segment).None?)
      && (v.Text? ==> v.text != "" && '?' in segment)
  {
  }

  /** The parameter names of the dynamic segments from index `i` on. */
  function DynamicNames(pattern: seq<string>, i: nat): set<string>
    decreases |pattern| - i
  {
    if i >= |pattern| then {}
    else (if IsDynamic(pattern[i]) then {GetParameterName(pattern[i])} else {}) + DynamicNames(pattern, i + 1)
  }

  /** No later dynamic segment shares the parameter name of the one at `j`,
      so its value is the one left in the map. */
  predicate LastNamed(pattern: seq<string>, j: nat)
    requires j < |pattern|
  {
    forall k :: j < k < |pattern| && IsDynamic(pattern[k]) ==> GetParameterName(pattern[k]) != GetParameterName(pattern[j])
  }

  /** The value the dynamic segment at `j` leaves on a successful match: the
      URL segment (with the absorbed segments for the wildcard), or the
      default value or FALSE when the URL has no segment there. */
  function ParamAt(pattern: seq<string>, u: seq<string>, wild: seq<string>, j: nat): ParamValue
    requires j < |pattern|
  {
    if j < |u| then Text(SegmentValue(pattern[j], u[j], wild))
    else DefaultParam(GetSegmentDefaultValue(pattern[j]))
  }

  /** On success the map has one key per dynamic segment's parameter name
      (besides those it started with), and the last segment with a given
      name decides its value. */
  lemma {:induction false} ResolveFromParams(pattern: seq<string>, u: seq<string>, wild: seq<string>,
                                             rx: (string, string) -> RegexResult, i: nat,
                                             params: map<string, ParamValue>)
    requires ResolveFrom(pattern, u, wild, rx, i, params).0
    ensures ResolveFrom(pattern, u, wild, rx, i, params).1.Keys == params.Keys + DynamicNames(pattern, i)
    ensures forall j :: i <= j < |pattern| && IsDynamic(pattern[j]) && LastNamed(pattern, j) ==>
      && GetParameterName(pattern[j]) in ResolveFrom(pattern, u, wild, rx, i, params).1
      && ResolveFrom(pattern, u, wild, rx, i, params).1[GetParameterName(pattern[j])] == ParamAt(pattern, u, wild, j)
    decreases |pattern| - i
  {
    if i < |pattern| {
      var p := pattern[i];
      var result := ResolveFrom(pattern, u, wild, rx, i, params).1;
      if !IsDynamic(p) {
        ResolveFromParams(pattern, u, wild, rx, i + 1, params);
        forall j | i <= j < |pattern| && IsDynamic(pattern[j]) && LastNamed(pattern, j)
          ensures GetParameterName(pattern[j]) in result && result[GetParameterName(pattern[j])] == ParamAt(pattern, u, wild, j)
        {
          assert j != i;
        }
      } else {
        var name := GetParameterName(p);
        var next := (params[name := False])[name := ParamAt(pattern, u, wild, i)];
        assert ResolveFrom(pattern, u, wild, rx, i, params) == ResolveFrom(pattern, u, wild, rx, i + 1, next);
        ResolveFromParams(pattern, u, wild, rx, i + 1, next);
        forall j | i <= j < |pattern| && IsDynamic(pattern[j]) && LastNamed(pattern, j)
          ensures GetParameterName(pattern[j]) in result && result[GetParameterName(pattern[j])] == ParamAt(pattern, u, wild, j)
        {
          if j == i {
            assert name !in DynamicNames(pattern, i + 1) by {
              LastNamedNotLater(pattern, i);
            }
            KeptWhenNotLater(pattern, u, wild, rx, i + 1, next, name);
          }
        }
      }
    }
  }

  /** The name of a last-named segment is not among the later names. */
  lemma {:induction false} LastNamedNotLater(pattern: seq<string>, i: nat)
    requires i < |pattern| && LastNamed(pattern, i)
    ensures GetParameterName(pattern[i]) !in DynamicNames(pattern, i + 1)
  {
    NamesFrom(pattern, i + 1);
  }

  /** Every name from index `i` on belongs to a dynamic segment at or after `i`. */
  lemma {:induction false} NamesFrom(pattern: seq<string>, i: nat)
    ensures forall n :: n in DynamicNames(pattern, i) ==>
      exists k :: i <= k < |pattern| && IsDynamic(pattern[k]) && GetParameterName(pattern[k]) == n
    decreases |pattern| - i
  {
    if i < |pattern| {
      NamesFrom(pattern, i + 1);
    }
  }

  /** A key that no remaining dynamic segment sets keeps its value. */
  lemma {:induction false} KeptWhenNotLater(pattern: seq<string>, u: seq<string>, wild: seq<string>,
                                            rx: (string, string) -> RegexResult, i: nat,
                                            params: map<string, ParamValue>, name: string)
    requires name in params && name !in DynamicNames(pattern, i)
    ensures name in ResolveFrom(pattern, u, wild, rx, i, params).1
    ensures ResolveFrom(pattern, u, wild, rx, i, params).1[name] == params[name]
    decreases |pattern| - i
  {
    if i < |pattern| {
      var p := pattern[i];
      if !IsDynamic(p) {
        StepStatic(pattern, u, wild, rx, i, params);
        KeptWhenNotLater(pattern, u, wild, rx, i + 1, params, name);
      } else {
        var n := GetParameterName(p);
        assert n != name;
        StepDynamic(pattern, u, wild, rx, i, params);
        var initial := params[n := False];
        if i >= |u| {
          if EffectivelyOptional(pattern, i) {
            KeptWhenNotLater(pattern, u, wild, rx, i + 1, initial[n := DefaultParam(GetSegmentDefaultValue(p))], name);
          }
        } else if !(GetSegmentRegExp(p).Some? && rx(GetSegmentRegExp(p).value, u[i]) == NoMatch) {
          KeptWhenNotLater(pattern, u, wild, rx, i + 1, initial[n := Text(SegmentValue(p, u[i], wild))], name);
        }
      }
    }
  }

  /** The static URL splits back into the static segments, trimmed and
      without the ones that trim to nothing: rebuildUrl trims while
      segmentizeUrl does not. Segments that are already trimmed and
      non-empty come back exactly. */
  lemma StaticUrlSegments(segments: seq<string>)
    requires SlashFree(segments)
    ensures Segmentized(Rebuilt(StaticSegments(segments))) == NonEmpty(TrimAll(StaticSegments(segments)))
    ensures (forall i :: 0 <= i < |segments| ==> segments[i] != "" && Trimmed(segments[i]))
            ==> Segmentized(Rebuilt(StaticSegments(segments))) == StaticSegments(segments)
  {
    hide Normalized, Segmentized, Rebuilt;
    StaticSegmentsAreStatic(segments);
    var st := StaticSegments(segments);
    assert SlashFree(st) by {
      forall i | 0 <= i < |st| ensures '/' !in st[i] { assert st[i] in segments; }
    }
    SegmentizeRebuild(st);
    if forall i :: 0 <= i < |segments| ==> segments[i] != "" && Trimmed(segments[i]) {
      forall i | 0 <= i < |st| ensures st[i] != "" && Trimmed(st[i]) { assert st[i] in segments; }
      TrimAllTrimmed(st);
      NonEmptyAll(st);
    }
  }

  /** A static segment with white space comes back trimmed: the pattern
      "/blog/ post" has the static URL "/blog/post". */
  lemma StaticUrlTrimsExample()
    ensures Segmentized(Rebuilt(StaticSegments(["blog", " post"]))) == ["blog", "post"]
  {
    PaddedSegmentsStatic();
    StaticUrlSegments(["blog", " post"]);
    TrimAllPaddedExample();
  }

  /** Neither "blog" nor " post" is dynamic or holds '/'. */
  lemma PaddedSegmentsStatic()
    ensures StaticSegments(["blog", " post"]) == ["blog", " post"]
    ensures SlashFree(["blog", " post"])
  {
    var segments := ["blog", " post"];
    assert !IsDynamic(segments[0]) && !IsDynamic(segments[1]);
    StaticSegmentsAllStatic(segments);
  }

  /** The counting loop of the Rule constructor: walks the segments once,
      collecting the static ones and counting dynamic and wildcard ones. */
  method CountSegments(segments: seq<string>)
    returns (staticSegments: seq<string>, staticCount: nat, dynamicCount: nat, wildCount: nat)
    ensures staticSegments == StaticSegments(segments) && staticCount == |staticSegments|
    ensures dynamicCount == DynamicCount(segments) && wildCount == WildCount(segments)
    ensures staticCount + dynamicCount == |segments| && wildCount <= dynamicCount
  {
    staticSegments := [];
    staticCount := 0;
    dynamicCount := 0;
    wildCount := 0;
    for i := 0 to |segments|
      invariant staticSegments == StaticSegments(segments[..i])
      invariant staticCount == |staticSegments|
      invariant dynamicCount == DynamicCount(segments[..i])
      invariant wildCount == WildCount(segments[..i])
    {
      CountsSnoc(segments, i);
      var segment := segments[i];
      if !StartsWith(segment, ':') {
        staticSegments := staticSegments + [segment];
        staticCount := staticCount + 1;
      } else {
        dynamicCount := dynamicCount + 1;
        if SegmentIsWildcard(segment) {
          wildCount := wildCount + 1;
        }
      }
    }
    assert segments[..|segments|] == segments;
    CountsPartition(segments);
  }

  /** The counters and the static URL agree with the segments. */
  predicate Derived(segments: seq<string>, staticCount: nat, dynamicCount: nat, wildCount: nat, staticUrl: string)
  {
    && staticCount == |StaticSegments(segments)|
    && dynamicCount == DynamicCount(segments)
    && wildCount == WildCount(segments)
    && staticUrl == Rebuilt(StaticSegments(segments))
  }

  /** The inner loop of resolveUrl: whether every pattern segment after
      `index` is marked optional (stopping at the first that is not). */
  method NoRequiredAfter(patternSegments: seq<string>, index: nat) returns (optional: bool)
    requires index < |patternSegments|
    ensures optional <==> forall j :: index < j < |patternSegments| ==> SegmentIsOptional(patternSegments[j])
  {
    optional := true;
    var i := index + 1;
    while i < |patternSegments|
      invariant index + 1 <= i <= |patternSegments|
      invariant forall j :: index < j < i ==> SegmentIsOptional(patternSegments[j])
    {
      if !SegmentIsOptional(patternSegments[i]) {
        optional := false;
        break;
      }
      i := i + 1;
    }
  }

  /** The counting loop and the static URL of the constructor, over the
      segments of the pattern. */
  method Derive(segments: seq<string>) returns (staticCount: nat, dynamicCount: nat, wildCount: nat, staticUrl: string)
    ensures Derived(segments, staticCount, dynamicCount, wildCount, staticUrl)
    ensures staticCount + dynamicCount == |segments| && wildCount <= dynamicCount
  {
    var staticSegments;
    staticSegments, staticCount, dynamicCount, wildCount := CountSegments(segments);
    staticUrl := RebuildUrl(staticSegments);
  }

  // ---------------------------------------------------------------------------
  // The rule object

  class Rule {
    var ruleName: string
    var rulePattern: string
    var conditionCallback: Option<nat>
    var afterMatchCallback: Option<nat>
    /** The URL made of the static segments only. */
    var staticUrl: string
    var segments: seq<string>
    var staticSegmentCount: nat
    var dynamicSegmentCount: nat
    var wildSegmentCount: nat

    /** The counters and the static URL agree with the segments. */
    predicate Valid()
      reads this
    {
      Derived(segments, staticSegmentCount, dynamicSegmentCount, wildSegmentCount, staticUrl)
    }

    constructor(name: string, pattern: string)
      ensures Valid()
      ensures ruleName == name && rulePattern == pattern
      ensures segments == Segmentized(pattern)
      ensures forall i :: 0 <= i < |segments| ==> segments[i] != "" && '/' !in segments[i]
      ensures staticSegmentCount + dynamicSegmentCount == |segments|
      ensures wildSegmentCount <= dynamicSegmentCount
      ensures conditionCallback == None && afterMatchCallback == None
    {
      hide Segmentized, Derived;
      var segs := SegmentizeUrl(pattern);
      var staticCount, dynamicCount, wildCount, url := Derive(segs);
      ruleName := name;
      rulePattern := pattern;
      conditionCallback := None;
      afterMatchCallback := None;
      segments := segs;
      staticSegmentCount := staticCount;
      dynamicSegmentCount := dynamicCount;
      wildSegmentCount := wildCount;
      staticUrl := url;
    }

    /** captureWildcardSegments: walks the URL segments; once past the
        wildcard's index it moves segments into the absorbed list until the
        URL's excess over the pattern is used up, and returns those together
        with the segments left, re-indexed. */
    method CaptureWildcardSegments(urlSegments: seq<string>) returns (wildSegments: seq<string>, remaining: seq<string>)
      ensures (wildSegments, remaining) == Capture(segments, urlSegments)
    {
      hide Capture, Lower, LooseEquals, Normalized, Segmentized, Rebuilt;
      wildSegments := [];
      remaining := [];
      var patternSegments := segments;
      var segmentDiff := |urlSegments| - |patternSegments|;
      var wildMode := false;
      var wildCount := 0;
      var index := 0;
      ghost var w: nat := 0;
      while index < |urlSegments|
        invariant index <= |urlSegments|
        invariant WildcardIndex(patternSegments, index) == if wildMode then Some(w) else None
        invariant !wildMode ==> wildCount == 0 && wildSegments == [] && remaining == urlSegments[..index]
        invariant wildMode ==> w + 1 + wildCount == index && wildCount <= Excess(patternSegments, urlSegments)
        invariant wildMode ==> wildSegments == urlSegments[w + 1..index] && remaining == urlSegments[..w + 1]
        decreases |urlSegments| - index
      {
        WildcardIndexStep(patternSegments, index);
        if wildMode {
          if wildCount < segmentDiff {
            wildSegments := wildSegments + [urlSegments[index]];
            wildCount := wildCount + 1;
            index := index + 1;
            continue;
          }
          break;
        }
        remaining := remaining + [urlSegments[index]];
        if index < |patternSegments| && SegmentIsWildcard(patternSegments[index]) {
          wildMode := true;
          w := index;
        }
        index := index + 1;
      }
      CaptureDone(patternSegments, urlSegments, index, wildMode, w, wildCount, wildSegments, remaining);
      remaining := remaining + urlSegments[index..];
    }

    /** resolveUrl: whether the URL matches the rule, and the parameter map
        it fills (also when it gives up part-way). */
    method ResolveUrl(url: string, rx: (string, string) -> RegexResult)
      returns (matched: bool, parameters: map<string, ParamValue>)
      requires wildSegmentCount <= 1
      ensures (matched, parameters) == Resolve(segments, wildSegmentCount, url, rx)
    {
      hide Capture, WildcardIndex, Lower, LooseEquals, Normalized, Segmentized, Rebuilt;
      parameters := map[];
      var patternSegments := segments;
      var patternSegmentNum := |patternSegments|;
      var urlSegments := SegmentizeUrl(url);
      var wildSegments: seq<string> := [];
      if wildSegmentCount == 1 {
        wildSegments, urlSegments := CaptureWildcardSegments(urlSegments);
      }
      if |urlSegments| > |patternSegments| {
        return false, parameters;
      }
      for index := 0 to |patternSegments|
        invariant ResolveFrom(patternSegments, urlSegments, wildSegments, rx, index, parameters)
          == ResolveFrom(patternSegments, urlSegments, wildSegments, rx, 0, map[])
      {
        var patternSegment := patternSegments[index];
        var patternSegmentLower := Lower(patternSegment);
        if !StartsWith(patternSegment, ':') {
          StepStatic(patternSegments, urlSegments, wildSegments, rx, index, parameters);
          if index >= |urlSegments| || !LooseEquals(patternSegmentLower, Lower(urlSegments[index])) {
            return false, parameters;
          }
        } else {
          StepDynamic(patternSegments, urlSegments, wildSegments, rx, index, parameters);
          var paramName := GetParameterName(patternSegment);
          parameters := parameters[paramName := False];
          var optional := SegmentIsOptional(patternSegment);
          if optional && index < patternSegmentNum - 1 {
            optional := NoRequiredAfter(patternSegments, index);
          }
          var urlSegmentExists := index < |urlSegments|;
          if optional && !urlSegmentExists {
            parameters := parameters[paramName := DefaultParam(GetSegmentDefaultValue(patternSegment))];
            continue;
          }
          if !optional && !urlSegmentExists {
            return false, parameters;
          }
          var regexp := GetSegmentRegExp(patternSegment);
          if regexp.Some? {
            if rx(regexp.value, urlSegments[index]) == NoMatch {
              return false, parameters;
            }
          }
          var value := urlSegments[index];
          if SegmentIsWildcard(patternSegment) && |wildSegments| > 0 {
            var suffix := RebuildUrl(wildSegments);
            value := value + suffix;
          }
          parameters := parameters[paramName := Text(value)];
        }
      }
      return true, parameters;
    }

    /** name(): the rule name without an argument; with one, sets the name
        and nothing else (the segments are not recomputed). */
    method Name(name: Option<string>) returns (r: Accessed<string>)
      modifies this
      ensures name.None? ==> r == Current(ruleName) && ruleName == old(ruleName)
      ensures name.Some? ==> r == Chained && ruleName == name.value
      ensures rulePattern == old(rulePattern) && segments == old(segments) && staticUrl == old(staticUrl)
      ensures staticSegmentCount == old(staticSegmentCount) && dynamicSegmentCount == old(dynamicSegmentCount)
      ensures wildSegmentCount == old(wildSegmentCount)
      ensures conditionCallback == old(conditionCallback) && afterMatchCallback == old(afterMatchCallback)
    {
      if name.None? {
        return Current(ruleName);
      }
      ruleName := name.value;
      return Chained;
    }

    /** pattern(): the rule pattern without an argument; with one, sets the
        pattern and nothing else, so the segments, the counters and the
        static URL keep describing the old pattern. */
    method Pattern(pattern: Option<string>) returns (r: Accessed<string>)
      modifies this
      ensures pattern.None? ==> r == Current(rulePattern) && rulePattern == old(rulePattern)
      ensures pattern.Some? ==> r == Chained && rulePattern == pattern.value
      ensures ruleName == old(ruleName) && segments == old(segments) && staticUrl == old(staticUrl)
      ensures staticSegmentCount == old(staticSegmentCount) && dynamicSegmentCount == old(dynamicSegmentCount)
      ensures wildSegmentCount == old(wildSegmentCount)
      ensures conditionCallback == old(conditionCallback) && afterMatchCallback == old(afterMatchCallback)
    {
      if pattern.None? {
        return Current(rulePattern);
      }
      rulePattern := pattern.value;
      return Chained;
    }

    /** condition(): the registered condition without an argument; with a
        callable, registers it; with anything else, the
        InvalidArgumentException message and no change. */
    method Condition(callback: Option<CallbackArg>) returns (r: Result<Accessed<Option<nat>>, string>)
      modifies this
      ensures callback.None? ==> r == Ok(Current(conditionCallback)) && conditionCallback == old(conditionCallback)
      ensures callback.Some? && callback.value.Callable? ==>
        r == Ok(Chained) && conditionCallback == Some(callback.value.id)
      ensures callback.Some? && callback.value.NotCallable? ==>
        r == Err(InvalidCallbackMessage("Condition provided is not a valid callback", callback.value.typeName))
        && conditionCallback == old(conditionCallback)
      ensures afterMatchCallback == old(afterMatchCallback) && ruleName == old(ruleName)
      ensures rulePattern == old(rulePattern) && segments == old(segments) && staticUrl == old(staticUrl)
      ensures staticSegmentCount == old(staticSegmentCount) && dynamicSegmentCount == old(dynamicSegmentCount)
      ensures wildSegmentCount == old(wildSegmentCount)
    {
      if callback.Some? {
        if callback.value.NotCallable? {
          return Err(InvalidCallbackMessage("Condition provided is not a valid callback", callback.value.typeName));
        }
        conditionCallback := Some(callback.value.id);
        return Ok(Chained);
      }
      return Ok(Current(conditionCallback));
    }

    /** afterMatch(): as condition(), for the callback run after a match. */
    method AfterMatch(callback: Option<CallbackArg>) returns (r: Result<Accessed<Option<nat>>, string>)
      modifies this
      ensures callback.None? ==> r == Ok(Current(afterMatchCallback)) && afterMatchCallback == old(afterMatchCallback)
      ensures callback.Some? && callback.value.Callable? ==>
        r == Ok(Chained) && afterMatchCallback == Some(callback.value.id)
      ensures callback.Some? && callback.value.NotCallable? ==>
        r == Err(InvalidCallbackMessage("The after match callback provided is not valid", callback.value.typeName))
        && afterMatchCallback == old(afterMatchCallback)
      ensures conditionCallback == old(conditionCallback) && ruleName == old(ruleName)
      ensures rulePattern == old(rulePattern) && segments == old(segments) && staticUrl == old(staticUrl)
      ensures staticSegmentCount == old(staticSegmentCount) && dynamicSegmentCount == old(dynamicSegmentCount)
      ensures wildSegmentCount == old(wildSegmentCount)
    {
      if callback.Some? {
        if callback.value.NotCallable? {
          return Err(InvalidCallbackMessage("The after match callback provided is not valid", callback.value.typeName));
        }
        afterMatchCallback := Some(callback.value.id);
        return Ok(Chained);
      }
      return Ok(Current(afterMatchCallback));
    }
  }

  /** The exception text: the message followed by the given type in parentheses. */
  function InvalidCallbackMessage(message: string, typeName: string): (r: string)
    ensures |r| == |message| + |typeName| + 10
    ensures r[..|message|] == message
    ensures r[|message|..|message| + 9] == ". Given ("
    ensures r[|r| - |typeName| - 1..|r| - 1] == typeName
    ensures r[|r| - 1] == ')'
  {
    message + ". Given (" + typeName + ")"
  }

  /** The state the capture loop ends in gives the closed-form capture. */
  lemma CaptureDone(pattern: seq<string>, url: seq<string>, index: nat, wildMode: bool, w: nat, wildCount: int,
                    wildSegments: seq<string>, remaining: seq<string>)
    requires index <= |url|
    requires WildcardIndex(pattern, index) == if wildMode then Some(w) else None
    requires !wildMode ==> wildSegments == [] && remaining == url[..index]
    requires wildMode ==> && w + 1 + wildCount == index && wildCount <= Excess(pattern, url)
                          && wildSegments == url[w + 1..index] && remaining == url[..w + 1]
    requires index < |url| ==> wildMode && wildCount >= |url| - |pattern|
    ensures (wildSegments, remaining + url[index..]) == Capture(pattern, url)
  {
    if wildMode {
      CaptureDoneWild(pattern, url, index, w, wildCount, wildSegments, remaining);
    } else {
      CaptureDoneNone(pattern, url, index, wildSegments, remaining);
    }
  }

  /** The capture loop ends in wild mode: it has taken all the excess. */
  lemma CaptureDoneWild(pattern: seq<string>, url: seq<string>, index: nat, w: nat, wildCount: int,
                        wildSegments: seq<string>, remaining: seq<string>)
    requires index <= |url| && WildcardIndex(pattern, index) == Some(w)
    requires w + 1 + wildCount == index && wildCount <= Excess(pattern, url)
    requires wildSegments == url[w + 1..index] && remaining == url[..w + 1]
    requires index < |url| ==> wildCount >= |url| - |pattern|
    ensures (wildSegments, remaining + url[index..]) == Capture(pattern, url)
  {
    hide Capture, WildcardIndex;
    WildcardIndexStable(pattern, index, |url|);
    CaptureWild(pattern, url, w);
    assert wildCount == Excess(pattern, url);
  }

  /** The capture loop ends without meeting a wildcard: nothing is taken. */
  lemma CaptureDoneNone(pattern: seq<string>, url: seq<string>, index: nat,
                        wildSegments: seq<string>, remaining: seq<string>)
    requires index == |url| && WildcardIndex(pattern, index).None?
    requires wildSegments == [] && remaining == url[..index]
    ensures (wildSegments, remaining + url[index..]) == Capture(pattern, url)
  {
    hide Capture, WildcardIndex;
    CaptureNone(pattern, url);
    assert url[..index] + url[index..] == url;
  }

  /** The capture once the URL reaches the wildcard at `w`. */
  lemma CaptureWild(pattern: seq<string>, url: seq<string>, w: nat)
    requires WildcardIndex(pattern, |url|) == Some(w)
    ensures w < |pattern| && w + 1 + Excess(pattern, url) <= |url|
    ensures Capture(pattern, url) == CutAfter(url, w, Excess(pattern, url))
  {
  }

  /** The capture when the URL never reaches a wildcard. */
  lemma CaptureNone(pattern: seq<string>, url: seq<string>)
    requires WildcardIndex(pattern, |url|).None?
    ensures Capture(pattern, url) == ([], url)
  {
  }

  /** Widening the bound by one looks at one more pattern segment. */
  lemma WildcardIndexStep(pattern: seq<string>, n: nat)
    ensures WildcardIndex(pattern, n + 1)
      == if WildcardIndex(pattern, n).Some? then WildcardIndex(pattern, n)
         else if n < |pattern| && SegmentIsWildcard(pattern[n]) then Some(n) else None
  {
  }

  /** Once a wildcard is found below `n`, a larger bound finds the same one. */
  lemma {:induction false} WildcardIndexStable(pattern: seq<string>, n: nat, m: nat)
    requires n <= m && WildcardIndex(pattern, n).Some?
    ensures WildcardIndex(pattern, m) == WildcardIndex(pattern, n)
    decreases m - n
  {
    if n < m {
      WildcardIndexStable(pattern, n, m - 1);
    }
  }
}
