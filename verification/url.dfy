/** The part of Python's `urllib.parse.urlparse` that the domain validator
    reads (bot/validators/domain.py, `_clean_host`): leading control
    characters and tab/CR/LF are dropped, a scheme is recognised before the
    first ':', a network location follows "//", and the path loses its
    fragment, query and `;params`. */
module Url {
  import opened Wrappers
  import opened Strings

  datatype UrlParts = UrlParts(scheme: string, netloc: string, path: string)

  predicate IsSchemeChar(c: char) {
    IsAlpha(c) || IsDigit(c) || c == '+' || c == '-' || c == '.'
  }

  /** Characters `urlsplit` removes wherever they occur. */
  predicate IsUnsafeUrlChar(c: char) {
    c == '\t' || c == '\r' || c == '\n'
  }

  function RemoveUnsafe(s: string): (r: string)
    ensures forall i :: 0 <= i < |r| ==> !IsUnsafeUrlChar(r[i])
    ensures forall c :: c in r ==> c in s
    ensures (forall i :: 0 <= i < |s| ==> !IsUnsafeUrlChar(s[i])) ==> r == s
  {
    if s == [] then []
    else
      var rest := RemoveUnsafe(s[1..]);
      assert forall c :: c in rest ==> c in s by {
        forall c | c in rest ensures c in s {
          assert c in s[1..];
        }
      }
      (if IsUnsafeUrlChar(s[0]) then [] else [s[0]]) + rest
  }

  /** `lstrip` of the C0 controls and the space (U+0000 to U+0020). */
  function LStripC0(s: string): (r: string)
    ensures |r| <= |s| && r == s[|s| - |r|..]
    ensures r == [] || r[0] > ' '
    ensures s == [] || s[0] > ' ' ==> r == s
  {
    if s != [] && s[0] <= ' ' then LStripC0(s[1..]) else s
  }

  /** The schemes whose paths may carry `;params`. */
  const UsesParams: set<string> :=
    {"", "ftp", "hdl", "prospero", "http", "imap", "https", "shttp", "rtsp", "rtsps",
     "rtspu", "sip", "sips", "mms", "sftp", "tel"}

  /** Index of the first character of `s` in `cs`, or |s|. */
  function FirstOf(s: string, cs: set<char>): (r: nat)
    ensures r <= |s|
    ensures r < |s| ==> s[r] in cs
    ensures forall i :: 0 <= i < r ==> s[i] !in cs
  {
    if s == [] then 0 else if s[0] in cs then 0 else 1 + FirstOf(s[1..], cs)
  }

  /** Index of the last `c` in `s`. */
  function LastIndexOf(s: string, c: char): (r: nat)
    requires c in s
    ensures r < |s| && s[r] == c
    ensures forall i :: r < i < |s| ==> s[i] != c
  {
    if s[|s| - 1] == c then |s| - 1
    else
      assert c in s[..|s| - 1] by {
        var k :| 0 <= k < |s| && s[k] == c;
        assert s[..|s| - 1][k] == c;
      }
      LastIndexOf(s[..|s| - 1], c)
  }

  /** `_splitparams(url)[0]`: the path up to the `;` that follows its last
      '/' (or up to its first `;` when it has no '/'). */
  function SplitParams(u: string): (r: string)
    requires ';' in u
    ensures StartsWith(u, r)
  {
    if '/' in u then
      var j := LastIndexOf(u, '/');
      var k := IndexOf(u[j..], ';');
      if j + k == |u| then u else u[..j + k]
    else Before(u, ';')
  }

  /** The path component, after the fragment, the query and the params
      are cut off. */
  function PathOf(scheme: string, url: string): (r: string)
    ensures StartsWith(url, r)
    ensures '#' !in r && '?' !in r
  {
    var u := Before(Before(url, '#'), '?');
    assert '#' !in u by {
      assert StartsWith(Before(url, '#'), u);
      forall k | 0 <= k < |u| ensures u[k] != '#' {
        assert u[k] == Before(url, '#')[k];
      }
    }
    if scheme in UsesParams && ';' in u then SplitParams(u) else u
  }

  /** The text before the first ':' is a scheme: a letter, then letters,
      digits, '+', '-' or '.'. */
  predicate HasScheme(url: string) {
    var i := IndexOf(url, ':');
    0 < i < |url| && IsAlpha(url[0]) && forall k :: 0 <= k < i ==> IsSchemeChar(url[k])
  }

  /** `urlparse(s)`; None where it raises "Invalid IPv6 URL" because the
      network location has one square bracket without the other. */
  function UrlParse(s: string): (r: Option<UrlParts>)
    ensures r.Some? ==> '/' !in r.value.netloc && '?' !in r.value.netloc && '#' !in r.value.netloc
  {
    var url := RemoveUnsafe(LStripC0(s));
    var i := IndexOf(url, ':');
    var hasScheme := HasScheme(url);
    var scheme := if hasScheme then Lower(url[..i]) else "";
    var rest := if hasScheme then url[i + 1..] else url;
    if StartsWith(rest, "//") then
      var after := rest[2..];
      var n := FirstOf(after, {'/', '?', '#'});
      var netloc := after[..n];
      if ('[' in netloc) != (']' in netloc) then None
      else Some(UrlParts(scheme, netloc, PathOf(scheme, after[n..])))
    else Some(UrlParts(scheme, "", PathOf(scheme, rest)))
  }

  lemma {:induction false} SchemeDetected(scheme: string, rest: string)
    requires |scheme| >= 1 && IsAlpha(scheme[0])
    requires forall k :: 0 <= k < |scheme| ==> IsSchemeChar(scheme[k])
    ensures IndexOf(scheme + ":" + rest, ':') == |scheme|
    ensures HasScheme(scheme + ":" + rest)
  {
    assert ':' !in scheme by {
      forall k | 0 <= k < |scheme| ensures scheme[k] != ':' {
        assert IsSchemeChar(scheme[k]);
      }
    }
    IndexOfAfter(scheme, ':', rest);
    var url := scheme + ":" + rest;
    assert forall k :: 0 <= k < |scheme| ==> url[k] == scheme[k];
  }

  lemma {:induction false} PlainUrlUnchanged(s: string)
    requires s != [] && s[0] > ' '
    requires forall k :: 0 <= k < |s| ==> !IsUnsafeUrlChar(s[k])
    ensures RemoveUnsafe(LStripC0(s)) == s
  {
  }

  predicate NoUnsafe(s: string) {
    forall k :: 0 <= k < |s| ==> !IsUnsafeUrlChar(s[k])
  }

  lemma {:induction false} NoUnsafeConcat(a: string, b: string)
    requires NoUnsafe(a) && NoUnsafe(b)
    ensures NoUnsafe(a + b)
  {
    forall k | 0 <= k < |a + b| ensures !IsUnsafeUrlChar((a + b)[k]) {
      if k >= |a| {
        assert (a + b)[k] == b[k - |a|];
      }
    }
  }

  lemma {:induction false} NetlocOfHost(host: string, tail: string)
    requires forall k :: 0 <= k < |host| ==> host[k] !in {'/', '?', '#'}
    requires tail == [] || tail[0] in {'/', '?', '#'}
    ensures FirstOf(host + tail, {'/', '?', '#'}) == |host|
    ensures (host + tail)[..|host|] == host
  {
    var after := host + tail;
    forall k | 0 <= k < |host| ensures after[k] !in {'/', '?', '#'} {
      assert after[k] == host[k];
    }
    if tail != [] {
      assert after[|host|] == tail[0];
    }
  }

  /** When the URL has a scheme followed by "//", the network location is
      what comes after "//" up to the first '/', '?' or '#'. */
  lemma {:induction false} UrlParseNetloc(s: string, netloc: string)
    requires RemoveUnsafe(LStripC0(s)) == s && HasScheme(s)
    requires var rest := s[IndexOf(s, ':') + 1..];
             StartsWith(rest, "//") && netloc == rest[2..][..FirstOf(rest[2..], {'/', '?', '#'})]
    requires '[' !in netloc && ']' !in netloc
    ensures UrlParse(s).Some? && UrlParse(s).value.netloc == netloc
  {
  }

  /** `scheme://` followed by text without unsafe characters is left
      as it is by the clean-up, and its scheme is recognised. */
  lemma {:induction false} SchemeUrlPrepared(scheme: string, after: string)
    requires |scheme| >= 1 && IsAlpha(scheme[0])
    requires forall k :: 0 <= k < |scheme| ==> IsSchemeChar(scheme[k])
    requires NoUnsafe(after)
    ensures var s := scheme + "://" + after;
            RemoveUnsafe(LStripC0(s)) == s && HasScheme(s) && s[IndexOf(s, ':') + 1..] == "//" + after
  {
    var rest := "//" + after;
    var s := scheme + ":" + rest;
    assert s == scheme + "://" + after;
    assert NoUnsafe(scheme) by {
      forall k | 0 <= k < |scheme| ensures !IsUnsafeUrlChar(scheme[k]) {
        assert IsSchemeChar(scheme[k]);
      }
    }
    NoUnsafeConcat("//", after);
    NoUnsafeConcat(scheme, ":");
    NoUnsafeConcat(scheme + ":", rest);
    assert s[0] == scheme[0];
    PlainUrlUnchanged(s);
    SchemeDetected(scheme, rest);
    assert s[|scheme| + 1..] == rest;
  }

  /** A URL written as `scheme://host/...` with a plain host: the host is
      the network location. */
  lemma {:induction false} UrlParseHost(scheme: string, host: string, tail: string)
    requires |scheme| >= 1 && IsAlpha(scheme[0])
    requires forall k :: 0 <= k < |scheme| ==> IsSchemeChar(scheme[k])
    requires forall k :: 0 <= k < |host| ==> host[k] !in {'/', '?', '#', '[', ']'}
    requires NoUnsafe(host) && NoUnsafe(tail)
    requires tail == [] || tail[0] in {'/', '?', '#'}
    ensures var s := scheme + "://" + host + tail;
            UrlParse(s).Some? && UrlParse(s).value.netloc == host
  {
    var after := host + tail;
    var s := scheme + "://" + after;
    assert s == scheme + "://" + host + tail;
    NoUnsafeConcat(host, tail);
    SchemeUrlPrepared(scheme, after);
    assert ("//" + after)[2..] == after;
    NetlocOfHost(host, tail);
    assert '[' !in host && ']' !in host;
    UrlParseNetloc(s, host);
  }
}
