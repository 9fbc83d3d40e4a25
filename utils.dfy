/** The helpers of src/lib/core/utils.js. `parseInviteCode` applies the
    regular expression https?://discord\.gg/([A-Za-z0-9-]+)/? to the input
    and returns the first group of the leftmost match; the model is an
    explicit scanner, proved against a declarative description of a match.
    `isBotMessage` is a lookup among the bot's DM channels. */
module Utils {
  import opened Values

  /** isBotMessage(channel_id): the channel is one of the bot's DM channels. */
  predicate IsBotMessage(dmChannels: set<string>, channelId: string)
    ensures dmChannels == {} ==> !IsBotMessage(dmChannels, channelId)
  {
    channelId in dmChannels
  }

  /** The character class [A-Za-z0-9-]. */
  predicate IsCodeChar(c: char)
  {
    ('A' <= c <= 'Z') || ('a' <= c <= 'z') || ('0' <= c <= '9') || c == '-'
  }

  predicate IsCode(c: string)
  {
    forall k :: 0 <= k < |c| ==> IsCodeChar(c[k])
  }

  const Https: string := "https://discord.gg/"
  const Http: string := "http://discord.gg/"

  /** `p` occurs in `s` at position `i`. */
  predicate At(s: string, i: nat, p: string)
  {
    i + |p| <= |s| && s[i..i + |p|] == p
  }

  /** The length of the URL prefix that starts at `i` (19 for https, 18 for
      http), or 0 when neither starts there. */
  function PrefixAt(s: string, i: nat): (n: nat)
    ensures n == 0 || n == |Https| || n == |Http|
    ensures n > 0 ==> i + n <= |s|
  {
    if At(s, i, Https) then |Https|
    else if At(s, i, Http) then |Http|
    else 0
  }

  /** The regular expression matches at `i`: a URL prefix followed by at least
      one code character. */
  predicate MatchAt(s: string, i: nat)
  {
    var n := PrefixAt(s, i);
    n > 0 && i + n < |s| && IsCodeChar(s[i + n])
  }

  /** The end of the longest run of code characters starting at `j`. */
  function RunEnd(s: string, j: nat): (k: nat)
    requires j <= |s|
    ensures j <= k <= |s|
    ensures IsCode(s[j..k])
    ensures k < |s| ==> !IsCodeChar(s[k])
    decreases |s| - j
  {
    if j < |s| && IsCodeChar(s[j]) then RunEnd(s, j + 1) else j
  }

  /** The greedy group captured by a match at `i`. */
  function CodeAt(s: string, i: nat): (c: string)
    requires MatchAt(s, i)
    ensures |c| >= 1 && IsCode(c)
  {
    s[i + PrefixAt(s, i)..RunEnd(s, i + PrefixAt(s, i))]
  }

  /** Tries every start position from `i` on, leftmost first. */
  function ScanFrom(s: string, i: nat): (r: Option<string>)
    ensures r.Some? ==> |r.value| >= 1 && IsCode(r.value)
    decreases |s| - i
  {
    if i >= |s| then None
    else if MatchAt(s, i) then Some(CodeAt(s, i))
    else ScanFrom(s, i + 1)
  }

  /** parseInviteCode: the code of the leftmost invite URL, or null. A result is
      a non-empty string of letters, digits and '-'. */
  function ParseInviteCode(invite: string): (code: Option<string>)
    ensures code.Some? ==> |code.value| >= 1 && IsCode(code.value)
  {
    ScanFrom(invite, 0)
  }

  lemma {:induction false} ScanFromNone(s: string, i: nat)
    ensures ScanFrom(s, i).None? <==> forall j :: i <= j < |s| ==> !MatchAt(s, j)
    decreases |s| - i
  {
    if i < |s| && !MatchAt(s, i) {
      ScanFromNone(s, i + 1);
    }
  }

  lemma {:induction false} ScanFromSome(s: string, i: nat)
    requires ScanFrom(s, i).Some?
    ensures exists j :: i <= j < |s| && MatchAt(s, j) && ScanFrom(s, i) == Some(CodeAt(s, j))
                        && forall k :: i <= k < j ==> !MatchAt(s, k)
    decreases |s| - i
  {
    if !MatchAt(s, i) {
      ScanFromSome(s, i + 1);
    }
  }

  /** No invite URL followed by a code character: null. */
  lemma InviteNone(s: string)
    ensures ParseInviteCode(s).None? <==> forall j :: 0 <= j < |s| ==> !MatchAt(s, j)
  {
    ScanFromNone(s, 0);
  }

  /** A result is the maximal code of the leftmost match: the character after
      it is not a code character. */
  lemma InviteLeftmostMaximal(s: string)
    requires ParseInviteCode(s).Some?
    ensures exists i :: 0 <= i < |s| && MatchAt(s, i)
                        && (forall j :: 0 <= j < i ==> !MatchAt(s, j))
                        && var start := i + PrefixAt(s, i);
                           var end := start + |ParseInviteCode(s).value|;
                           end <= |s| && s[start..end] == ParseInviteCode(s).value
                           && (end < |s| ==> !IsCodeChar(s[end]))
  {
    ScanFromSome(s, 0);
  }

  lemma {:induction false} RunEndStops(s: string, j: nat, k: nat)
    requires j <= k <= |s|
    requires IsCode(s[j..k])
    requires k == |s| || !IsCodeChar(s[k])
    ensures RunEnd(s, j) == k
    decreases k - j
  {
    if j < k {
      assert s[j..k][0] == s[j];
      var rest, whole := s[j + 1..k], s[j..k];
      forall m | 0 <= m < |rest| ensures IsCodeChar(rest[m]) {
        assert rest[m] == whole[m + 1];
      }
      RunEndStops(s, j + 1, k);
    }
  }

  /** No match can start at a position that does not hold 'h'. */
  lemma MatchStartsWithH(s: string, i: nat)
    requires PrefixAt(s, i) > 0
    ensures i < |s| && s[i] == 'h'
  {
    if At(s, i, Https) {
      assert s[i..i + |Https|][0] == s[i];
    } else {
      assert s[i..i + |Http|][0] == s[i];
    }
  }

  /** Positions where no match starts do not change the scan. */
  lemma {:induction false} ScanSkips(s: string, i: nat, j: nat)
    requires i <= j <= |s|
    requires forall k :: i <= k < j ==> !MatchAt(s, k)
    ensures ScanFrom(s, i) == ScanFrom(s, j)
    decreases j - i
  {
    if i < j {
      ScanSkips(s, i + 1, j);
    }
  }

  /** Text without an 'h' holds no match start. */
  lemma NoHNoMatch(pre: string, s: string)
    requires pre <= s
    requires forall k :: 0 <= k < |pre| ==> pre[k] != 'h'
    ensures forall j :: 0 <= j < |pre| ==> !MatchAt(s, j)
  {
    forall j | 0 <= j < |pre| ensures !MatchAt(s, j) {
      assert s[j] == pre[j];
      if PrefixAt(s, j) > 0 {
        MatchStartsWithH(s, j);
      }
    }
  }

  /** Either URL prefix found at `i` is the one PrefixAt reports. */
  lemma PrefixOfUrl(s: string, i: nat, url: string)
    requires url == Https || url == Http
    requires At(s, i, url)
    ensures PrefixAt(s, i) == |url|
  {
    if url == Http {
      assert s[i..i + |Http|][4] == s[i + 4];
      assert !At(s, i, Https) by {
        if i + |Https| <= |s| {
          assert s[i..i + |Https|][4] == s[i + 4];
        }
      }
    }
  }

  /** The first URL prefix, followed by a maximal non-empty run of code
      characters, yields that run. */
  lemma ParseAt(s: string, i: nat, url: string, e: nat)
    requires url == Https || url == Http
    requires At(s, i, url)
    requires forall k :: 0 <= k < i ==> !MatchAt(s, k)
    requires i + |url| < e <= |s|
    requires IsCode(s[i + |url|..e])
    requires e == |s| || !IsCodeChar(s[e])
    ensures ParseInviteCode(s) == Some(s[i + |url|..e])
  {
    ScanSkips(s, 0, i);
    PrefixOfUrl(s, i, url);
    assert s[i + |url|..e][0] == s[i + |url|];
    assert MatchAt(s, i);
    RunEndStops(s, i + |url|, e);
  }

  /** Text around an invite URL does not change the code, as long as no match
      starts in the text before it and the text after it does not continue
      the code (a trailing '/' or space, or nothing). */
  lemma InviteInContext(pre: string, url: string, c: string, rest: string)
    requires url == Https || url == Http
    requires |c| >= 1 && IsCode(c)
    requires forall j :: 0 <= j < |pre| ==> !MatchAt(pre + url + c + rest, j)
    requires rest == "" || !IsCodeChar(rest[0])
    ensures ParseInviteCode(pre + url + c + rest) == Some(c)
  {
    var s := pre + url + c + rest;
    var i := |pre|;
    var e := i + |url| + |c|;
    assert s[i..i + |url|] == url;
    assert s[i + |url|..e] == c;
    if rest != "" { assert s[e] == rest[0]; }
    ParseAt(s, i, url, e);
  }

  /** In particular, text before the URL that holds no 'h' cannot hide it. */
  lemma InviteAfterPlainText(pre: string, url: string, c: string, rest: string)
    requires url == Https || url == Http
    requires |c| >= 1 && IsCode(c)
    requires forall k :: 0 <= k < |pre| ==> pre[k] != 'h'
    requires rest == "" || !IsCodeChar(rest[0])
    ensures ParseInviteCode(pre + url + c + rest) == Some(c)
  {
    NoHNoMatch(pre, pre + url + c + rest);
    InviteInContext(pre, url, c, rest);
  }

  /** An invite URL built from a code, with or without a trailing slash. */
  lemma UrlRoundTrip(url: string, c: string, slash: string)
    requires url == Https || url == Http
    requires |c| >= 1 && IsCode(c)
    requires slash == "" || slash == "/"
    ensures ParseInviteCode(url + c + slash) == Some(c)
  {
    var s := url + c + slash;
    var e := |url| + |c|;
    assert s[0..|url|] == url;
    assert s[|url|..e] == c;
    if slash != "" {
      assert s[e] == '/';
    }
    ParseAt(s, 0, url, e);
  }

  /** Round trip: an invite URL built from a code parses back to that code. */
  lemma InviteRoundTrip(c: string)
    requires |c| >= 1 && IsCode(c)
    ensures ParseInviteCode(Https + c) == Some(c)
    ensures ParseInviteCode(Http + c) == Some(c)
    ensures ParseInviteCode(Https + c + "/") == Some(c)
  {
    UrlRoundTrip(Https, c, "");
    assert Https + c + "" == Https + c;
    UrlRoundTrip(Http, c, "");
    assert Http + c + "" == Http + c;
    UrlRoundTrip(Https, c, "/");
  }

  /** The dot of discord.gg is literal: wherever "discord" and "gg/" are
      separated by any other character, no match starts there. */
  lemma DotIsLiteral(s: string, i: nat, x: char)
    requires x != '.'
    requires At(s, i, "https://discord" + [x] + "gg/") || At(s, i, "http://discord" + [x] + "gg/")
    ensures !MatchAt(s, i)
  {
    var u, v := "https://discord" + [x] + "gg/", "http://discord" + [x] + "gg/";
    if At(s, i, u) {
      assert |u| == 19 && u[15] == x && u[4] == 's';
      assert s[i + 15] == x by { assert s[i..i + 19][15] == s[i + 15]; }
      assert s[i + 4] == 's' by { assert s[i..i + 19][4] == s[i + 4]; }
      NotAtUrl(s, i, 15, 4);
    } else {
      assert |v| == 18 && v[14] == x && v[4] == ':';
      assert s[i + 14] == x by { assert s[i..i + 18][14] == s[i + 14]; }
      assert s[i + 4] == ':' by { assert s[i..i + 18][4] == s[i + 4]; }
      NotAtUrl(s, i, 4, 14);
    }
  }

  /** Neither URL prefix starts at `i` when `s[i + a]` differs from Https[a]
      and `s[i + b]` differs from Http[b]. */
  lemma NotAtUrl(s: string, i: nat, a: nat, b: nat)
    requires a < |Https| && b < |Http|
    requires i + a < |s| && s[i + a] != Https[a]
    requires i + b < |s| && s[i + b] != Http[b]
    ensures PrefixAt(s, i) == 0
  {
    if i + |Https| <= |s| { assert s[i..i + |Https|][a] == s[i + a]; }
    if i + |Http| <= |s| { assert s[i..i + |Http|][b] == s[i + b]; }
  }
}
