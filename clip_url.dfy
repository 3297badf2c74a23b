/** The Twitch clip-URL pattern of index.js (the same regular expression in
    `insertClip` and `removeClip`) and the normalised URL built from its
    capture. */
module ClipUrl {
  import opened Results
  import opened JsString

  predicate IsAlnum(c: char)
  {
    'a' <= c <= 'z' || 'A' <= c <= 'Z' || '0' <= c <= '9'
  }

  /** `\w` */
  predicate IsWordChar(c: char)
  {
    IsAlnum(c) || c == '_'
  }

  /** `[a-zA-Z0-9-_]`: the `-` after the range `0-9` is a literal. */
  predicate IsIdChar(c: char)
  {
    IsWordChar(c) || c == '-'
  }

  /** A clip id as the capture group can produce it. */
  predicate IsClipId(id: string)
  {
    id != [] && forall i :: 0 <= i < |id| ==> IsIdChar(id[i])
  }

  // The pattern read declaratively: every way the text can be cut into the
  // pattern's parts.

  /** `(?:https?\:\/\/)?` */
  predicate IsScheme(t: string)
  {
    t == [] || t == "http://" || t == "https://"
  }

  /** `(?:(?:clips|www)\.twitch\.tv\/)` */
  predicate IsHost(t: string)
  {
    t == "clips.twitch.tv/" || t == "www.twitch.tv/"
  }

  /** `[a-zA-Z0-9][\w]{2,24}` */
  predicate IsChannelName(c: string)
  {
    3 <= |c| <= 25 && IsAlnum(c[0]) && forall i :: 1 <= i < |c| ==> IsWordChar(c[i])
  }

  /** `(?:(?:[a-zA-Z0-9][\w]{2,24})\/clip\/)?` */
  predicate IsChannelPart(t: string)
  {
    t == [] || (|t| >= 6 && t[|t| - 6..] == "/clip/" && IsChannelName(t[..|t| - 6]))
  }

  /** Everything the pattern matches before the capture group. */
  ghost predicate IsClipPrefix(t: string)
  {
    exists scheme, host :: IsScheme(scheme) && IsHost(host) && IsPrefixParts(t, scheme, host)
  }

  /** `t` is `scheme + host` followed by a channel part. */
  predicate IsPrefixParts(t: string, scheme: string, host: string)
  {
    |scheme| + |host| <= |t| && t[..|scheme| + |host|] == scheme + host
    && IsChannelPart(t[|scheme| + |host|..])
  }

  /** The capture group can start at `k`: a prefix before it, an id
      character at it, and (for `([a-zA-Z0-9-_]+)(?:\S)*$`) no white space
      from there to the end. */
  ghost predicate IsCaptureStart(s: string, k: int)
  {
    0 <= k < |s| && IsClipPrefix(s[..k]) && IsIdChar(s[k]) && NoWhitespace(s[k..])
  }

  ghost predicate MatchesClipPattern(s: string)
  {
    exists k :: IsCaptureStart(s, k)
  }

  /** `k` is a capture start and no later one exists. */
  ghost predicate IsLatestCaptureStart(s: string, k: int)
  {
    IsCaptureStart(s, k) && forall k' :: IsCaptureStart(s, k') ==> k' <= k
  }

  /** The longest prefix of id characters (the greedy `+`). */
  function IdRun(t: string): (r: string)
    ensures |r| <= |t| && r == t[..|r|]
    ensures forall i :: 0 <= i < |r| ==> IsIdChar(r[i])
    ensures |r| == |t| || !IsIdChar(t[|r|])
  {
    if t != [] && IsIdChar(t[0]) then [t[0]] + IdRun(t[1..]) else []
  }

  /** The longest prefix of word characters. */
  function WordRun(t: string): (r: string)
    ensures |r| <= |t| && r == t[..|r|]
    ensures forall i :: 0 <= i < |r| ==> IsWordChar(r[i])
    ensures |r| == |t| || !IsWordChar(t[|r|])
  {
    if t != [] && IsWordChar(t[0]) then [t[0]] + WordRun(t[1..]) else []
  }

  // The matcher, in the order a backtracking regular-expression engine
  // tries the alternatives.

  function SchemeLength(s: string): nat
  {
    if |s| >= 8 && s[..8] == "https://" then 8
    else if |s| >= 7 && s[..7] == "http://" then 7
    else 0
  }

  /** 0 when no host follows. */
  function HostLength(t: string): nat
  {
    if |t| >= 16 && t[..16] == "clips.twitch.tv/" then 16
    else if |t| >= 14 && t[..14] == "www.twitch.tv/" then 14
    else 0
  }

  /** The length of a channel part at the start of `t`, 0 when none. */
  function ChannelPartLength(t: string): nat
  {
    if t != [] && IsAlnum(t[0]) then
      var n := |WordRun(t[1..])|;
      if 2 <= n <= 24 && |t| >= n + 7 && t[n + 1..n + 7] == "/clip/" then n + 7 else 0
    else 0
  }

  function CaptureAt(s: string, k: nat): Option<string>
  {
    if k < |s| && IsIdChar(s[k]) && NoWhitespace(s[k..]) then Some(IdRun(s[k..])) else None
  }

  /** `url.match(twitchLinkRegex)` reduced to its last capture. The optional
      channel part is greedy, so it is tried first; if the rest does not
      match after it, matching resumes without it. */
  function MatchClipUrl(s: string): (r: Option<string>)
    ensures r.Some? ==> IsClipId(r.value)
  {
    var a := SchemeLength(s);
    var h := HostLength(s[a..]);
    if h == 0 then None else MatchAfterHost(s, a + h)
  }

  /** The matcher once scheme and host end at `b`. */
  function MatchAfterHost(s: string, b: nat): (r: Option<string>)
    requires b <= |s|
    ensures r.Some? ==> IsClipId(r.value)
  {
    var c := ChannelPartLength(s[b..]);
    if c > 0 && CaptureAt(s, b + c).Some? then CaptureAt(s, b + c) else CaptureAt(s, b)
  }

  /** The URL `removeClip` builds from the id. */
  function NormalizeClipUrl(id: string): string
  {
    "https://clips.twitch.tv/" + id
  }

  lemma WordRunLength(t: string, n: nat)
    requires n <= |t| && forall i :: 0 <= i < n ==> IsWordChar(t[i])
    requires n == |t| || !IsWordChar(t[n])
    ensures |WordRun(t)| == n
  {
  }

  /** The scheme before a host is the one the matcher takes. */
  lemma SchemeDetermined(s: string, a: nat, b: nat)
    requires a <= b <= |s| && IsScheme(s[..a]) && IsHost(s[a..b])
    ensures a == SchemeLength(s)
  {
    assert s[a] == 'c' || s[a] == 'w' by {
      assert s[a..b][0] == s[a];
    }
    if a == 7 {
      assert s[4] == s[..7][4];
      if |s| >= 8 {
        assert s[..8][4] == s[4];
      }
    } else if a == 0 {
      if |s| >= 7 {
        assert s[..7][0] == s[0];
      }
      if |s| >= 8 {
        assert s[..8][0] == s[0];
      }
    }
  }

  lemma HostDetermined(t: string, n: nat)
    requires n <= |t| && IsHost(t[..n])
    ensures n == HostLength(t)
  {
    if n == 14 && |t| >= 16 {
      assert t[..16][0] == t[0] == t[..14][0];
    }
  }

  /** The scheme and host of a prefix are the ones the matcher takes. */
  lemma SchemeAndHostDetermined(s: string, scheme: string, host: string)
    requires IsScheme(scheme) && IsHost(host)
    requires |scheme| + |host| <= |s| && s[..|scheme| + |host|] == scheme + host
    ensures |scheme| == SchemeLength(s) && |host| == HostLength(s[|scheme|..])
  {
    var a := |scheme|;
    var b := a + |host|;
    assert s[..a] == s[..b][..a] == scheme;
    assert s[a..b] == s[..b][a..] == host;
    SchemeDetermined(s, a, b);
    assert s[a..][..|host|] == s[a..b];
    HostDetermined(s[a..], |host|);
  }

  /** A channel part at the start of `t` is the one the matcher takes. */
  lemma ChannelPartDetermined(t: string, m: nat)
    requires 0 < m <= |t| && IsChannelPart(t[..m])
    ensures m == ChannelPartLength(t)
  {
    var u := t[..m];
    var name := u[..m - 6];
    assert t[0] == name[0];
    assert forall i :: 1 <= i < |name| ==> t[1..][i - 1] == name[i];
    assert u[m - 6] == u[m - 6..][0] == '/';
    assert t[1..][|name| - 1] == t[m - 6] == u[m - 6];
    WordRunLength(t[1..], |name| - 1);
    assert t[|name|..|name| + 6] == u[m - 6..];
  }

  /** The scheme and host the matcher takes, as strings. */
  lemma MatcherSchemeAndHost(s: string)
    requires HostLength(s[SchemeLength(s)..]) > 0
    ensures var a := SchemeLength(s);
            var b := a + HostLength(s[a..]);
            IsScheme(s[..a]) && IsHost(s[a..b])
  {
    var a := SchemeLength(s);
    var b := a + HostLength(s[a..]);
    assert s[a..][..b - a] == s[a..b];
  }

  /** A channel part the matcher takes is a channel part of the pattern. */
  lemma MatcherChannelPart(t: string)
    requires ChannelPartLength(t) > 0
    ensures IsChannelPart(t[..ChannelPartLength(t)])
  {
    var c := ChannelPartLength(t);
    var n := c - 7;
    var part := t[..c];
    assert part[..c - 6] == t[..n + 1];
    assert forall i :: 1 <= i < n + 1 ==> t[i] == WordRun(t[1..])[i - 1];
    assert IsChannelName(part[..c - 6]);
    assert part[c - 6..] == t[n + 1..n + 7];
  }

  /** A scheme, a host and a channel part make a prefix of the pattern. */
  lemma PrefixFromParts(t: string, scheme: string, host: string)
    requires IsScheme(scheme) && IsHost(host) && IsPrefixParts(t, scheme, host)
    ensures IsClipPrefix(t)
  {
  }

  /** The scheme and host the matcher takes form a prefix of the pattern. */
  lemma MatcherHostPrefix(s: string, a: nat, b: nat)
    requires a == SchemeLength(s) && HostLength(s[a..]) > 0 && b == a + HostLength(s[a..])
    ensures IsClipPrefix(s[..b])
  {
    MatcherSchemeAndHost(s);
    PrefixPartsOfSlices(s, a, b, b);
    PrefixFromParts(s[..b], s[..a], s[a..b]);
  }

  /** Cutting a text at `a <= b <= e` into scheme, host and channel part. */
  lemma PrefixPartsOfSlices(s: string, a: nat, b: nat, e: nat)
    requires a <= b <= e <= |s| && IsChannelPart(s[b..e])
    ensures IsPrefixParts(s[..e], s[..a], s[a..b])
  {
    var t := s[..e];
    assert t[..b] == s[..a] + s[a..b];
    assert t[b..] == s[b..e];
  }

  /** The channel part the matcher takes at `b` is a channel part of the
      pattern. */
  lemma MatcherChannelPartAt(s: string, b: nat, c: nat)
    requires b <= |s| && c == ChannelPartLength(s[b..]) && c > 0
    ensures b + c <= |s| && IsChannelPart(s[b..b + c])
  {
    MatcherChannelPart(s[b..]);
    assert s[b..][..c] == s[b..b + c];
  }

  /** Adding the channel part the matcher takes still gives a prefix of
      the pattern. */
  lemma MatcherChannelPrefix(s: string, a: nat, b: nat, c: nat)
    requires a == SchemeLength(s) && HostLength(s[a..]) > 0 && b == a + HostLength(s[a..])
    requires c == ChannelPartLength(s[b..]) && c > 0
    ensures IsClipPrefix(s[..b + c])
  {
    MatcherSchemeAndHost(s);
    MatcherChannelPartAt(s, b, c);
    PrefixPartsOfSlices(s, a, b, b + c);
    PrefixFromParts(s[..b + c], s[..a], s[a..b]);
  }

  lemma SliceOfPrefix(s: string, m: nat, k: nat)
    requires m <= k <= |s|
    ensures s[m..][..k - m] == s[..k][m..]
  {
  }

  /** A cut of a prefix into scheme, host and channel part is the
      matcher's cut. */
  lemma PartsAreMatcherParts(s: string, k: nat, scheme: string, host: string)
    requires k <= |s| && IsScheme(scheme) && IsHost(host) && IsPrefixParts(s[..k], scheme, host)
    ensures |scheme| == SchemeLength(s) && |host| == HostLength(s[|scheme|..])
    ensures var m := |scheme| + |host|;
            k == m || (ChannelPartLength(s[m..]) > 0 && k == m + ChannelPartLength(s[m..]))
  {
    var t := s[..k];
    var m := |scheme| + |host|;
    assert s[..m] == t[..m];
    SchemeAndHostDetermined(s, scheme, host);
    if m < k {
      SliceOfPrefix(s, m, k);
      ChannelPartDetermined(s[m..], k - m);
    }
  }

  /** Every prefix of the pattern is one the matcher takes. */
  lemma PrefixIsMatcherPrefix(s: string, k: nat, b: nat, c: nat)
    requires k <= |s| && IsClipPrefix(s[..k])
    requires b == SchemeLength(s) + HostLength(s[SchemeLength(s)..]) && c == ChannelPartLength(s[b..])
    ensures HostLength(s[SchemeLength(s)..]) > 0
    ensures k == b || (c > 0 && k == b + c)
  {
    var scheme, host :| IsScheme(scheme) && IsHost(host) && IsPrefixParts(s[..k], scheme, host);
    PartsAreMatcherParts(s, k, scheme, host);
  }

  /** A capture start is a place the matcher can capture from. */
  lemma CaptureFromStart(s: string, k: int)
    requires IsCaptureStart(s, k)
    ensures CaptureAt(s, k).Some?
  {
  }

  /** Any text the pattern matches, the matcher matches. */
  lemma MatcherComplete(s: string, k: int)
    requires IsCaptureStart(s, k)
    ensures MatchClipUrl(s).Some?
  {
    var a := SchemeLength(s);
    var b := a + HostLength(s[a..]);
    var c := ChannelPartLength(s[b..]);
    PrefixIsMatcherPrefix(s, k, b, c);
    CaptureFromStart(s, k);
    var m := if c > 0 && CaptureAt(s, b + c).Some? then b + c else b;
    MatchIsCaptureAt(s, a, b, c, m);
    assert k == m || m == b + c;
  }

  /** Every capture start lies at the end of the matcher's prefix, with or
      without its channel part. */
  lemma CaptureStartsAtMatcherPrefix(s: string, b: nat, c: nat, k: nat)
    requires b == SchemeLength(s) + HostLength(s[SchemeLength(s)..]) && c == ChannelPartLength(s[b..])
    requires k == if c > 0 && CaptureAt(s, b + c).Some? then b + c else b
    requires IsCaptureStart(s, k)
    ensures IsLatestCaptureStart(s, k)
  {
    forall k' | IsCaptureStart(s, k') ensures k' <= k {
      PrefixIsMatcherPrefix(s, k', b, c);
      CaptureFromStart(s, k');
    }
  }

  /** A place the matcher captures from, after a prefix of the pattern,
      is a capture start, and the capture is the id run there. */
  lemma CaptureStartFromMatcher(s: string, k: nat)
    requires k <= |s| && IsClipPrefix(s[..k]) && CaptureAt(s, k).Some?
    ensures IsCaptureStart(s, k) && CaptureAt(s, k).value == IdRun(s[k..])
  {
  }

  /** The place the matcher captures from is the latest capture start. */
  lemma MatcherCaptureIsLatest(s: string, a: nat, b: nat, c: nat, k: nat)
    requires a == SchemeLength(s) && HostLength(s[a..]) > 0 && b == a + HostLength(s[a..])
    requires c == ChannelPartLength(s[b..])
    requires k == if c > 0 && CaptureAt(s, b + c).Some? then b + c else b
    requires CaptureAt(s, k).Some?
    ensures IsLatestCaptureStart(s, k) && CaptureAt(s, k).value == IdRun(s[k..])
  {
    if k == b + c && c > 0 {
      MatcherChannelPrefix(s, a, b, c);
    } else {
      MatcherHostPrefix(s, a, b);
    }
    CaptureStartFromMatcher(s, k);
    CaptureStartsAtMatcherPrefix(s, b, c, k);
  }

  /** What the matcher captures starts at the latest start the pattern allows. */
  lemma MatcherSound(s: string)
    requires MatchClipUrl(s).Some?
    ensures exists k :: IsLatestCaptureStart(s, k) && MatchClipUrl(s).value == IdRun(s[k..])
  {
    var a := SchemeLength(s);
    MatchHasHost(s);
    var b := a + HostLength(s[a..]);
    var c := ChannelPartLength(s[b..]);
    var k := if c > 0 && CaptureAt(s, b + c).Some? then b + c else b;
    MatchIsCaptureAt(s, a, b, c, k);
    MatcherCaptureIsLatest(s, a, b, c, k);
  }

  /** The matcher fails when no host follows the scheme. */
  lemma MatchHasHost(s: string)
    requires MatchClipUrl(s).Some?
    ensures HostLength(s[SchemeLength(s)..]) > 0
  {
  }

  /** After a host, the matcher's answer is the capture at the end of the
      channel part when there is one there, else the capture after the host. */
  lemma MatchIsCaptureAt(s: string, a: nat, b: nat, c: nat, k: nat)
    requires a == SchemeLength(s) && HostLength(s[a..]) > 0 && b == a + HostLength(s[a..])
    requires c == ChannelPartLength(s[b..])
    requires k == if c > 0 && CaptureAt(s, b + c).Some? then b + c else b
    ensures MatchClipUrl(s) == CaptureAt(s, k)
  {
    MatchIsAfterHost(s, a, b);
    AfterHostIsCaptureAt(s, b, c, k);
  }

  /** Once a host is found the matcher continues after it. */
  lemma MatchIsAfterHost(s: string, a: nat, b: nat)
    requires a == SchemeLength(s) && HostLength(s[a..]) > 0 && b == a + HostLength(s[a..])
    ensures MatchClipUrl(s) == MatchAfterHost(s, b)
  {
  }

  lemma AfterHostIsCaptureAt(s: string, b: nat, c: nat, k: nat)
    requires b <= |s| && c == ChannelPartLength(s[b..])
    requires k == if c > 0 && CaptureAt(s, b + c).Some? then b + c else b
    ensures MatchAfterHost(s, b) == CaptureAt(s, k)
  {
  }

  /** The matcher succeeds exactly on the texts the pattern matches, and it
      captures from the latest possible start: the optional channel part is
      used whenever the rest can still match after it. */
  lemma MatchClipUrlCorrect(s: string)
    ensures MatchClipUrl(s).Some? <==> MatchesClipPattern(s)
    ensures MatchClipUrl(s).Some? ==>
              exists k :: IsLatestCaptureStart(s, k) && MatchClipUrl(s).value == IdRun(s[k..])
  {
    if MatchesClipPattern(s) {
      var k :| IsCaptureStart(s, k);
      MatcherComplete(s, k);
    }
    if MatchClipUrl(s).Some? {
      MatcherSound(s);
    }
  }

  /** The normalised URL is the `https://` scheme, the `clips` host and the id. */
  lemma NormalizedUrlParts(id: string)
    ensures var s := NormalizeClipUrl(id);
            SchemeLength(s) == 8 && HostLength(s[8..]) == 16 && s[24..] == id
  {
    var s := NormalizeClipUrl(id);
    var p := "https://clips.twitch.tv/";
    assert s[..24] == p;
    assert p == "https://" + "clips.twitch.tv/";
    assert s[..8] == p[..8] == "https://";
    assert s[8..][..16] == p[8..] == "clips.twitch.tv/";
  }

  /** A clip id holds no `/`, so no channel part starts it. */
  lemma ClipIdHasNoChannelPart(id: string)
    requires IsClipId(id)
    ensures ChannelPartLength(id) == 0
  {
    if IsAlnum(id[0]) {
      var n := |WordRun(id[1..])|;
      if |id| >= n + 7 {
        assert id[n + 1..n + 7][0] == id[n + 1];
      }
    }
  }

  /** A clip id is its own longest id run and holds no white space. */
  lemma {:induction false} ClipIdIsItsRun(id: string)
    requires IsClipId(id)
    ensures IdRun(id) == id && NoWhitespace(id)
  {
    if |id| > 1 {
      ClipIdIsItsRun(id[1..]);
    }
  }

  /** Normalising a clip id gives a URL that matches the pattern with that
      id as its capture. */
  lemma NormalizedUrlRoundTrip(id: string)
    requires IsClipId(id)
    ensures MatchClipUrl(NormalizeClipUrl(id)) == Some(id)
  {
    NormalizedUrlParts(id);
    ClipIdHasNoChannelPart(id);
    ClipIdIsItsRun(id);
  }

  /** The normalised URL of a matched clip is the URL of the same clip:
      matching and normalising again changes nothing. */
  lemma NormalizeIdempotent(s: string)
    requires MatchClipUrl(s).Some?
    ensures MatchClipUrl(NormalizeClipUrl(MatchClipUrl(s).value)) == MatchClipUrl(s)
  {
    NormalizedUrlRoundTrip(MatchClipUrl(s).value);
  }

  /** The normalised URL holds no quote, so pasting it between quotes in
      `removeClip`'s SQL text cannot end the literal early. */
  lemma NormalizedUrlHasNoQuote(id: string)
    requires IsClipId(id)
    ensures '\'' !in NormalizeClipUrl(id)
  {
    var s := NormalizeClipUrl(id);
    forall i | 0 <= i < |s| ensures s[i] != '\'' {
      if i >= 24 {
        assert s[i] == id[i - 24];
      }
    }
  }
}
