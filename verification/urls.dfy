/** The bridge's URL rewriting: absolute addresses of the proxied domain and root-relative references are
    pinned to paths of the bridge, and a path of the bridge is routed back to its host. */
module UrlRewriting {
  import opened Bytes
  import opened Text

  // ----- addresses -----

  /** The length of an http or https scheme at the start of the text. */
  function SchemeLength(t: string): (r: Option<nat>)
    ensures r.Some? ==> (r.value == 7 || r.value == 8) && r.value <= |t|
  {
    if "https://" <= t then Some(8)
    else if "http://" <= t then Some(7)
    else None
  }

  predicate IsHostChar(c: char) {
    IsAlphanumeric(c) || c == '.' || c == '-' || c == ':'
  }

  /** The length of the host and port at the start of the text. */
  function HostEnd(t: string): (n: nat)
    ensures n <= |t|
    ensures forall i :: 0 <= i < n ==> IsHostChar(t[i])
    ensures n < |t| ==> !IsHostChar(t[n])
  {
    if t == "" || !IsHostChar(t[0]) then 0 else 1 + HostEnd(t[1..])
  }

  function HostOf(hostport: string): (host: string)
    ensures host <= hostport && ':' !in host
  {
    hostport[..IndexOf(hostport, ':')]
  }

  predicate EndsWith(s: string, suffix: string) {
    |suffix| <= |s| && s[|s| - |suffix|..] == suffix
  }

  /** A host of the proxied domain. */
  predicate IsNalog(host: string) {
    host == "nalog.ru" || EndsWith(host, ".nalog.ru")
  }

  // ----- absolute addresses -----

  datatype Url = Url(text: string, host: string, rest: string)

  /** The address at the start of the text and what follows it. */
  function UrlAt(t: string): (u: Url)
    requires SchemeLength(t).Some?
    ensures |u.rest| < |t|
  {
    var sl := SchemeLength(t).value;
    var end := sl + HostEnd(t[sl..]);
    Url(t[..end], HostOf(t[sl..end]), t[end..])
  }

  function Replacement(u: Url, origin: string): string {
    if IsNalog(u.host) then origin + "/__up/" + u.host else u.text
  }

  /** Every address of the domain is replaced by a path of the bridge, all other text is kept. */
  function Rewritten(t: string, origin: string): string
    decreases |t|
  {
    if t == "" then ""
    else if SchemeLength(t) == None then [t[0]] + Rewritten(t[1..], origin)
    else Replacement(UrlAt(t), origin) + Rewritten(UrlAt(t).rest, origin)
  }

  /** Text before the first "http" is kept. */
  lemma {:induction false} SkipToHttp(t: string, origin: string, pos: nat)
    requires pos <= |t| && forall i: nat :: i < pos ==> !OccursAt(t, "http", i)
    ensures Rewritten(t, origin) == t[..pos] + Rewritten(t[pos..], origin)
    decreases pos
  {
    hide Rewritten, SchemeLength, OccursAt;
    if pos == 0 {
      assert t[0..] == t && "" + Rewritten(t, origin) == Rewritten(t, origin);
    } else {
      SchemeIsHttp(t);
      StepKept(t, origin);
      forall i: nat | i < pos - 1 ensures !OccursAt(t[1..], "http", i) {
        OccursShift(t, "http", i);
      }
      SkipToHttp(t[1..], origin, pos - 1);
      assert t[1..][pos - 1..] == t[pos..];
      assert [t[0]] + t[1..][..pos - 1] == t[..pos];
      ConcatAssoc([t[0]], t[1..][..pos - 1], Rewritten(t[pos..], origin));
    }
  }

  lemma SchemeIsHttp(t: string)
    ensures SchemeLength(t).Some? ==> OccursAt(t, "http", 0)
    ensures OccursAt(t, "http", 0) ==> t != ""
  {
    if "https://" <= t {
      assert t[0..4] == "https://"[0..4];
    } else if "http://" <= t {
      assert t[0..4] == "http://"[0..4];
    }
  }

  lemma StepKept(t: string, origin: string)
    requires t != "" && SchemeLength(t) == None
    ensures Rewritten(t, origin) == [t[0]] + Rewritten(t[1..], origin)
  {
    hide SchemeLength, UrlAt, Replacement;
  }

  lemma OneKept(t: string, origin: string)
    requires t != "" && t[0] != 'h'
    ensures Rewritten(t, origin) == [t[0]] + Rewritten(t[1..], origin)
  {
  }

  /** "http" without a scheme is kept. */
  lemma SkipHttp(t: string, origin: string)
    requires "http" <= t && SchemeLength(t) == None
    ensures Rewritten(t, origin) == "http" + Rewritten(t[4..], origin)
  {
    hide SchemeLength, Rewritten;
    assert t[..4] == "http" && t == t[..4] + t[4..];
    assert t[1..] == "ttp" + t[4..] && [t[0]] + "ttp" == "http";
    StepKept(t, origin);
    QuietKept("ttp", t[4..], origin);
    ConcatAssoc([t[0]], "ttp", Rewritten(t[4..], origin));
  }

  method RewriteNalogAbsUrls(text: string, origin: string) returns (out: string)
    ensures out == Rewritten(text, origin)
  {
    hide Rewritten, SchemeLength, UrlAt, Replacement, IsNalog;
    out := "";
    var rest := text;
    while true
      invariant Rewritten(text, origin) == out + Rewritten(rest, origin)
      decreases |rest|
    {
      var found := FindSubslice(rest, "http");
      if found == None {
        FindFirst(rest, "http");
        SkipToHttp(rest, origin, |rest|);
        NothingToRewrite(rest, origin);
        return out + rest;
      }
      var pos := found.value;
      SkipToHttp(rest, origin, pos);
      var after := rest[pos..];
      ConcatAssoc(out, rest[..pos], Rewritten(after, origin));
      out := out + rest[..pos];
      var scheme := SchemeLength(after);
      if scheme == None {
        SkipHttp(after, origin);
        ConcatAssoc(out, "http", Rewritten(after[4..], origin));
        out := out + "http";
        rest := after[4..];
      } else {
        var sl := scheme.value;
        var urlRest := after[sl..];
        var hostEnd := HostEnd(urlRest);
        var host := HostOf(urlRest[..hostEnd]);
        RewriteUrl(after, origin);
        var written := if IsNalog(host) then origin + "/__up/" + host else after[..sl + hostEnd];
        ConcatAssoc(out, written, Rewritten(after[sl + hostEnd..], origin));
        out := out + written;
        rest := after[sl + hostEnd..];
      }
    }
  }

  lemma NothingToRewrite(t: string, origin: string)
    ensures Rewritten(t[|t|..], origin) == "" && t[..|t|] + "" == t
  {
  }

  lemma RewriteUrl(t: string, origin: string)
    requires SchemeLength(t).Some?
    ensures var sl := SchemeLength(t).value;
            var end := sl + HostEnd(t[sl..]);
            var host := HostOf(t[sl..][..HostEnd(t[sl..])]);
            Rewritten(t, origin)
               == (if IsNalog(host) then origin + "/__up/" + host else t[..end]) + Rewritten(t[end..], origin)
  {
    var sl := SchemeLength(t).value;
    assert t[sl..][..HostEnd(t[sl..])] == t[sl..sl + HostEnd(t[sl..])];
  }

  // ----- rewriting twice -----

  /** A bridge origin: a scheme and host characters up to the end. */
  predicate HttpOrigin(origin: string) {
    SchemeLength(origin).Some? && SchemeLength(origin).value + HostEnd(origin[SchemeLength(origin).value..]) == |origin|
  }

  function OriginHost(origin: string): string
    requires HttpOrigin(origin)
  {
    HostOf(origin[SchemeLength(origin).value..])
  }

  /** The rewritten text starts like the original, up to the first 'h'. */
  lemma {:induction false} StartsAlike(t: string, origin: string, w: string)
    requires HttpOrigin(origin) && 'h' !in w
    ensures w <= Rewritten(t, origin) ==> w <= t
    decreases |w|
  {
    hide SchemeLength, HostEnd, HostOf;
    if w != "" && w <= Rewritten(t, origin) {
      assert Rewritten(t, origin)[0] == w[0];
      assert w[0] in w;
      StartsWithH(t, origin);
      assert w[1..] <= Rewritten(t[1..], origin);
      StartsAlike(t[1..], origin, w[1..]);
    }
  }

  lemma StartsWithH(t: string, origin: string)
    requires HttpOrigin(origin)
    ensures SchemeLength(t).Some? ==> Rewritten(t, origin) != "" && Rewritten(t, origin)[0] == 'h' && t[0] == 'h'
    ensures t != "" ==> Rewritten(t, origin) != ""
    ensures t != "" && SchemeLength(t) == None ==> Rewritten(t, origin)[0] == t[0] && Rewritten(t, origin)[1..] == Rewritten(t[1..], origin)
  {
    hide HostEnd, HostOf, IsNalog;
    if SchemeLength(t).Some? {
      assert t[0] == 'h';
      assert origin[0] == 'h';
      assert Replacement(UrlAt(t), origin)[0] == 'h';
    }
  }

  /** Rewriting neither makes nor breaks the end of a host. */
  lemma HostStaysEnded(t: string, origin: string)
    requires HttpOrigin(origin) && (t != "" ==> !IsHostChar(t[0]))
    ensures Rewritten(t, origin) != "" ==> !IsHostChar(Rewritten(t, origin)[0])
  {
    hide SchemeLength, HostEnd, HostOf, HttpOrigin;
    StartsWithH(t, origin);
  }

  lemma {:induction false} HostEndOf(h: string, rest: string)
    requires forall i :: 0 <= i < |h| ==> IsHostChar(h[i])
    requires rest != "" ==> !IsHostChar(rest[0])
    ensures HostEnd(h + rest) == |h|
    decreases |h|
  {
    if h != "" {
      assert (h + rest)[1..] == h[1..] + rest;
      HostEndOf(h[1..], rest);
    } else {
      assert h + rest == rest;
    }
  }

  /** An address followed by text that ends its host. */
  lemma UrlThen(scheme: string, h: string, rest: string)
    requires scheme == "https://" || scheme == "http://"
    requires forall i :: 0 <= i < |h| ==> IsHostChar(h[i])
    requires rest != "" ==> !IsHostChar(rest[0])
    ensures SchemeLength(scheme + h + rest) == Some(|scheme|)
    ensures UrlAt(scheme + h + rest) == Url(scheme + h, HostOf(h), rest)
  {
    hide HostEnd, HostOf;
    var t := scheme + h + rest;
    SchemeThen(scheme, h + rest);
    ConcatAssoc(scheme, h, rest);
    assert t[|scheme|..] == h + rest;
    HostEndOf(h, rest);
    assert t[|scheme|..|scheme| + |h|] == h;
    assert t[..|scheme| + |h|] == scheme + h;
    assert t[|scheme| + |h|..] == rest;
  }

  lemma SchemeThen(scheme: string, more: string)
    requires scheme == "https://" || scheme == "http://"
    ensures SchemeLength(scheme + more) == Some(|scheme|)
  {
    assert (scheme + more)[..|scheme|] == scheme;
    if scheme == "http://" {
      assert (scheme + more)[4] == ':';
    }
  }

  /** The text of an address is a scheme and host characters. */
  lemma UrlParts(t: string) returns (scheme: string, h: string)
    requires SchemeLength(t).Some?
    ensures scheme == "https://" || scheme == "http://"
    ensures forall i :: 0 <= i < |h| ==> IsHostChar(h[i])
    ensures UrlAt(t).text == scheme + h && UrlAt(t).host == HostOf(h) && t == scheme + h + UrlAt(t).rest
    ensures UrlAt(t).rest != "" ==> !IsHostChar(UrlAt(t).rest[0])
  {
    hide HostEnd, HostOf;
    var sl := SchemeLength(t).value;
    var end := sl + HostEnd(t[sl..]);
    scheme, h := t[..sl], t[sl..end];
    assert h == t[sl..][..HostEnd(t[sl..])];
    assert t == t[..end] + t[end..];
    assert t[..end] == scheme + h;
    assert end < |t| ==> t[end] == t[sl..][HostEnd(t[sl..])];
  }

  lemma OriginParts(origin: string) returns (scheme: string)
    requires HttpOrigin(origin)
    ensures scheme == "https://" || scheme == "http://"
    ensures forall i :: |scheme| <= i < |origin| ==> IsHostChar(origin[i])
    ensures |scheme| <= |origin| && origin == scheme + origin[|scheme|..] && OriginHost(origin) == HostOf(origin[|scheme|..])
  {
    hide HostEnd, HostOf;
    var sl := SchemeLength(origin).value;
    scheme := origin[..sl];
    forall i | sl <= i < |origin| ensures IsHostChar(origin[i]) {
      assert origin[i] == origin[sl..][i - sl];
    }
  }

  /** The origin followed by a path is left alone exactly because its host is not of the domain. */
  lemma OriginThen(origin: string, more: string)
    requires HttpOrigin(origin)
    ensures Rewritten(origin + "/__up/" + more, origin)
         == (if IsNalog(OriginHost(origin)) then origin + "/__up/" + OriginHost(origin) else origin)
            + "/__up/" + Rewritten(more, origin)
  {
    hide Rewritten, HostOf, IsNalog, HttpOrigin, SchemeLength, HostEnd;
    var scheme := OriginParts(origin);
    var h := origin[|scheme|..];
    ConcatAssoc(origin, "/__up/", more);
    UrlThen(scheme, h, "/__up/" + more);
    UrlStep(origin + ("/__up/" + more), origin);
    UpKept(more, origin);
    ConcatAssoc(if IsNalog(OriginHost(origin)) then origin + "/__up/" + OriginHost(origin) else origin, "/__up/", Rewritten(more, origin));
  }

  lemma UrlStep(t: string, origin: string)
    requires SchemeLength(t).Some?
    ensures Rewritten(t, origin) == Replacement(UrlAt(t), origin) + Rewritten(UrlAt(t).rest, origin)
  {
    hide SchemeLength, UrlAt, Replacement;
  }

  lemma {:induction false} QuietKept(w: string, more: string, origin: string)
    requires 'h' !in w
    ensures Rewritten(w + more, origin) == w + Rewritten(more, origin)
    decreases |w|
  {
    hide Rewritten;
    if w == "" {
      assert w + more == more;
    } else {
      assert w[0] in w;
      assert (w + more)[1..] == w[1..] + more;
      OneKept(w + more, origin);
      QuietKept(w[1..], more, origin);
      assert [w[0]] + w[1..] == w;
    }
  }

  lemma UpKept(more: string, origin: string)
    ensures Rewritten("/__up/" + more, origin) == "/__up/" + Rewritten(more, origin)
  {
    hide Rewritten;
    QuietKept("/__up/", more, origin);
  }

  /** A host of the domain is kept as it stands, whatever it contains and whatever follows. */
  lemma {:induction false} HostKept(h: string, more: string, origin: string)
    requires ':' !in h && (h != "" ==> h[|h| - 1] == 'u')
    ensures Rewritten(h + more, origin) == h + Rewritten(more, origin)
    decreases |h|
  {
    hide Rewritten, SchemeLength;
    if h == "" {
      assert h + more == more;
    } else {
      var t := h + more;
      NoSchemeInHost(h, more);
      StepKept(t, origin);
      assert t[1..] == h[1..] + more;
      HostKept(h[1..], more, origin);
      assert [h[0]] + h[1..] == h;
    }
  }

  lemma NoSchemeInHost(h: string, more: string)
    requires h != "" && ':' !in h && h[|h| - 1] == 'u'
    ensures SchemeLength(h + more) == None
  {
    var t := h + more;
    assert t[|h| - 1] == 'u';
    assert |h| > 4 ==> t[4] == h[4] && h[4] in h;
    assert |h| > 5 ==> t[5] == h[5] && h[5] in h;
  }

  lemma NalogEndsInU(host: string)
    requires IsNalog(host)
    ensures host != "" && host[|host| - 1] == 'u'
  {
    if host != "nalog.ru" {
      assert host[|host| - 9..][8] == 'u';
    }
  }

  lemma {:induction false} RewritingTwice(t: string, origin: string)
    requires HttpOrigin(origin) && !IsNalog(OriginHost(origin))
    ensures Rewritten(Rewritten(t, origin), origin) == Rewritten(t, origin)
    decreases |t|
  {
    hide HostEnd, HostOf, IsNalog, HttpOrigin, OriginHost, SchemeLength, UrlAt;
    if t == "" {
    } else if SchemeLength(t) == None {
      var r := Rewritten(t[1..], origin);
      RewritingTwice(t[1..], origin);
      NoNewScheme(t, origin);
      assert ([t[0]] + r)[1..] == r;
    } else {
      var u := UrlAt(t);
      var r := Rewritten(u.rest, origin);
      RewritingTwice(u.rest, origin);
      var scheme, h := UrlParts(t);
      if IsNalog(u.host) {
        NalogEndsInU(u.host);
        ConcatAssoc(origin + "/__up/", u.host, r);
        OriginThen(origin, u.host + r);
        HostKept(u.host, r, origin);
        ConcatAssoc(origin + "/__up/", u.host, Rewritten(r, origin));
      } else {
        HostStaysEnded(u.rest, origin);
        UrlThen(scheme, h, r);
        UrlStep(scheme + h + r, origin);
      }
    }
  }

  /** Rewriting what follows a character cannot turn it into the start of a scheme. */
  lemma NoNewScheme(t: string, origin: string)
    requires HttpOrigin(origin) && t != "" && SchemeLength(t) == None
    ensures SchemeLength([t[0]] + Rewritten(t[1..], origin)) == None
  {
    hide Rewritten, HttpOrigin;
    var r := Rewritten(t[1..], origin);
    StartsAlike(t[1..], origin, "ttp://");
    StartsAlike(t[1..], origin, "ttps://");
    assert ([t[0]] + r)[1..] == r;
  }

  /** Rewriting rewritten text changes nothing, for all texts, exactly when the bridge itself lies outside the domain. */
  lemma IdempotentExactlyOutside(origin: string)
    requires HttpOrigin(origin)
    ensures (forall t :: Rewritten(Rewritten(t, origin), origin) == Rewritten(t, origin)) <==> !IsNalog(OriginHost(origin))
  {
    hide Rewritten, HttpOrigin, OriginHost, IsNalog;
    if IsNalog(OriginHost(origin)) {
      var t := "http://nalog.ru";
      RewriteDomain(origin);
      OriginThen(origin, "nalog.ru");
      assert |Rewritten(Rewritten(t, origin), origin)| > |Rewritten(t, origin)| by {
        HostKept("nalog.ru", "", origin);
        assert "nalog.ru" + "" == "nalog.ru";
      }
    } else {
      forall t ensures Rewritten(Rewritten(t, origin), origin) == Rewritten(t, origin) {
        RewritingTwice(t, origin);
      }
    }
  }

  lemma RewriteDomain(origin: string)
    ensures Rewritten("http://nalog.ru", origin) == origin + "/__up/" + "nalog.ru"
  {
    hide HostEnd, HostOf, Rewritten, UrlAt, SchemeLength, IsHostChar;
    assert "http://" + "nalog.ru" + "" == "http://nalog.ru";
    HostCharsOfDomain();
    UrlThen("http://", "nalog.ru", "");
    NoPort("nalog.ru");
    UrlStep("http://nalog.ru", origin);
    NothingToRewrite("", origin);
    assert origin + "/__up/" + "nalog.ru" + "" == origin + "/__up/" + "nalog.ru";
  }

  lemma HostCharsOfDomain()
    ensures forall i :: 0 <= i < 8 ==> IsHostChar("nalog.ru"[i])
  {
  }

  lemma NoPort(h: string)
    requires ':' !in h
    ensures HostOf(h) == h
  {
  }

  // ----- what rewriting does to a text -----

  /** The first address of a text: what stands before it is kept, the address becomes a path of the bridge if its host is
      the domain or below it and is kept otherwise, and rewriting goes on behind it. A port is dropped with the scheme. */
  lemma AddressInText(pre: string, scheme: string, host: string, port: string, rest: string, origin: string)
    requires scheme == "https://" || scheme == "http://"
    requires forall i :: 0 <= i < |host| ==> IsHostChar(host[i]) && host[i] != ':'
    requires port == "" || (port[0] == ':' && forall i :: 0 <= i < |port| ==> IsHostChar(port[i]))
    requires rest != "" ==> !IsHostChar(rest[0])
    requires forall i: nat :: i < |pre| ==> !OccursAt(pre + (scheme + (host + port) + rest), "http", i)
    ensures var inside := host == "nalog.ru" || (|host| >= 9 && host[|host| - 9..] == ".nalog.ru");
            Rewritten(pre + (scheme + (host + port) + rest), origin)
              == pre + ((if inside then origin + "/__up/" + host else scheme + (host + port)) + Rewritten(rest, origin))
  {
    hide Rewritten, SchemeLength, UrlAt, OccursAt, HostOf, IsHostChar;
    var url := scheme + (host + port) + rest;
    var t := pre + url;
    SkipToHttp(t, origin, |pre|);
    assert t[..|pre|] == pre && t[|pre|..] == url;
    UrlThen(scheme, host + port, rest);
    BeforePort(host, port);
    UrlStep(url, origin);
  }

  lemma {:induction false} BeforePort(host: string, port: string)
    requires forall i :: 0 <= i < |host| ==> host[i] != ':'
    requires port == "" || port[0] == ':'
    ensures HostOf(host + port) == host
  {
    if host == "" {
      assert host + port == port;
    } else {
      assert (host + port)[1..] == host[1..] + port;
      BeforePort(host[1..], port);
    }
  }

  /** A text is kept as it is when no address in it has a host of the domain. */
  lemma {:induction false} OtherAddressesKept(t: string, origin: string)
    requires forall i :: 0 <= i < |t| && SchemeLength(t[i..]).Some? ==> !IsNalog(UrlAt(t[i..]).host)
    ensures Rewritten(t, origin) == t
    decreases |t|
  {
    hide SchemeLength, UrlAt, IsNalog;
    if t != "" {
      assert t[0..] == t;
      var n := if SchemeLength(t).None? then 1 else |t| - |UrlAt(t).rest|;
      if SchemeLength(t).Some? {
        UrlSplits(t);
      }
      forall i | 0 <= i < |t[n..]| && SchemeLength(t[n..][i..]).Some? ensures !IsNalog(UrlAt(t[n..][i..]).host) {
        DropOfDrop(t, n, i);
      }
      OtherAddressesKept(t[n..], origin);
      assert t == t[..n] + t[n..] && t[..1] == [t[0]];
    }
  }

  lemma UrlSplits(t: string)
    requires SchemeLength(t).Some?
    ensures var n := |t| - |UrlAt(t).rest|; n > 0 && UrlAt(t).text == t[..n] && UrlAt(t).rest == t[n..]
  {
  }

  // ----- the way back -----

  /** The upstream host and the path there for a request target of the bridge. */
  function RouteUpstream(target: string, defaultHost: string): (string, string) {
    if "/__up/" <= target then
      var rest := target[6..];
      var slash := IndexOf(rest, '/');
      (rest[..slash], if slash < |rest| then rest[slash..] else "/")
    else (defaultHost, target)
  }

  /** A bridge path names its host up to the next slash, and the path from there on, the root if there is none; every other
      target goes to the default host as it is. */
  lemma TargetsAreRouted(host: string, path: string, target: string, defaultHost: string)
    requires '/' !in host && (path != "" ==> path[0] == '/')
    ensures RouteUpstream("/__up/" + (host + path), defaultHost) == (host, if path == "" then "/" else path)
    ensures !("/__up/" <= target) ==> RouteUpstream(target, defaultHost) == (defaultHost, target)
  {
    var t := "/__up/" + (host + path);
    assert t[..6] == "/__up/" && t[6..] == host + path;
    FirstSlash(host, path);
  }

  /** A rewritten address of the domain is a bridge path, which is routed to the host of the address exactly when
      the host is followed by a path or by nothing; the path arrives as rewritten, without a port. */
  lemma RouteUndoesRewrite(t: string, origin: string, defaultHost: string)
    requires HttpOrigin(origin) && SchemeLength(t).Some? && IsNalog(UrlAt(t).host)
    ensures var u := UrlAt(t);
            var target := Rewritten(t, origin)[|origin|..];
            && |origin| <= |Rewritten(t, origin)| && Rewritten(t, origin) == origin + target
            && (RouteUpstream(target, defaultHost).0 == u.host <==> u.rest == "" || u.rest[0] == '/')
            && (u.rest != "" && u.rest[0] == '/' ==>
                  RouteUpstream(target, defaultHost) == (u.host, Rewritten(u.rest, origin)))
            && (u.rest == "" ==> RouteUpstream(target, defaultHost) == (u.host, "/"))
  {
    hide HostEnd, HostOf, IsNalog, HttpOrigin, Rewritten, SchemeLength, UrlAt;
    var u := UrlAt(t);
    var r := Rewritten(u.rest, origin);
    UrlStep(t, origin);
    var target := "/__up/" + (u.host + r);
    assert Rewritten(t, origin) == origin + target;
    var scheme, h := UrlParts(t);
    assert target[..6] == "/__up/" && target[6..] == u.host + r;
    NoSlashInHost(h);
    FirstSlash(u.host, r);
    RewrittenStart(u.rest, origin);
  }

  lemma NoSlashInHost(h: string)
    requires forall i :: 0 <= i < |h| ==> IsHostChar(h[i])
    ensures '/' !in HostOf(h)
  {
  }

  lemma RewrittenStart(rest: string, origin: string)
    requires HttpOrigin(origin) && (rest != "" ==> !IsHostChar(rest[0]))
    ensures rest == "" ==> Rewritten(rest, origin) == ""
    ensures rest != "" ==> Rewritten(rest, origin) != "" && Rewritten(rest, origin)[0] == rest[0]
  {
    hide SchemeLength, HostEnd, HostOf, HttpOrigin;
    StartsWithH(rest, origin);
  }

  lemma {:induction false} FirstSlash(h: string, r: string)
    requires '/' !in h
    ensures IndexOf(h + r, '/') == |h| + IndexOf(r, '/')
    ensures (h + r)[..|h|] == h && (h + r)[|h|..] == r
    decreases |h|
  {
    if h == "" {
      assert h + r == r;
    } else {
      assert h[0] in h;
      assert (h + r)[1..] == h[1..] + r;
      FirstSlash(h[1..], r);
    }
  }

  /** Text without "http" is kept. */
  lemma UntouchedText(t: string, origin: string)
    requires !Contains(t, "http")
    ensures Rewritten(t, origin) == t
  {
    hide Rewritten;
    SkipToHttp(t, origin, |t|);
    NothingToRewrite(t, origin);
  }

  /** The address of a page is routed back to its host and path. */
  lemma PageIsRoutedBack(scheme: string, host: string, path: string, origin: string, defaultHost: string)
    requires HttpOrigin(origin)
    requires scheme == "https://" || scheme == "http://"
    requires IsNalog(host) && (forall i :: 0 <= i < |host| ==> IsHostChar(host[i])) && ':' !in host
    requires path != "" ==> path[0] == '/'
    requires !Contains(path, "http")
    ensures var out := Rewritten(scheme + host + path, origin);
            && origin <= out
            && RouteUpstream(out[|origin|..], defaultHost) == (host, if path == "" then "/" else path)
  {
    hide HostEnd, HostOf, IsNalog, HttpOrigin, Rewritten, SchemeLength, UrlAt, RouteUpstream, Contains;
    UrlThen(scheme, host, path);
    NoPort(host);
    RouteUndoesRewrite(scheme + host + path, origin, defaultHost);
    UntouchedText(path, origin);
  }

  // ----- root-relative references -----

  predicate IsDelimiter(c: char) { c == '\"' || c == '\'' || c == '(' }

  /** A root-relative reference whose first segment starts with a letter or digit. */
  predicate ReferenceAt(t: string) {
    |t| >= 3 && IsDelimiter(t[0]) && t[1] == '/' && IsAlphanumeric(t[2])
  }

  function Prefix(host: string): string { "/__up/" + host }

  /** Every such reference is pinned to the host. */
  function Pinned(t: string, host: string): string {
    if t == "" then ""
    else [t[0]] + (if ReferenceAt(t) then Prefix(host) else "") + Pinned(t[1..], host)
  }

  /** The first reference of a text: a quote, an apostrophe or an opening parenthesis, a slash, a letter or digit. The path
      of the host is put between delimiter and slash, and pinning goes on behind the delimiter. */
  lemma {:induction false} ReferenceInText(pre: string, delimiter: char, c: char, rest: string, host: string)
    requires delimiter in {'\"', '\'', '('}
    requires 'a' <= c <= 'z' || 'A' <= c <= 'Z' || '0' <= c <= '9'
    requires forall i :: 0 <= i < |pre| ==> !ReferenceAt((pre + ([delimiter] + "/" + [c] + rest))[i..])
    ensures Pinned(pre + ([delimiter] + "/" + [c] + rest), host)
         == pre + ([delimiter] + ("/__up/" + host) + Pinned("/" + [c] + rest, host))
    decreases |pre|
  {
    var ref := [delimiter] + "/" + [c] + rest;
    if pre == "" {
      ReferenceStart(delimiter, c, rest);
      PinnedStep(ref, host);
      assert pre + ref == ref;
    } else {
      hide ReferenceAt, Pinned;
      var t := pre + ref;
      assert t[0..] == t && t[1..] == pre[1..] + ref && !ReferenceAt(t[0..]);
      PinnedStep(t, host);
      forall i | 0 <= i < |pre[1..]| ensures !ReferenceAt((pre[1..] + ref)[i..]) {
        DropOfDrop(t, 1, i);
      }
      ReferenceInText(pre[1..], delimiter, c, rest, host);
      ConcatAssoc([pre[0]], pre[1..], [delimiter] + ("/__up/" + host) + Pinned("/" + [c] + rest, host));
      assert pre == [pre[0]] + pre[1..];
    }
  }

  lemma ReferenceStart(delimiter: char, c: char, rest: string)
    requires delimiter in {'\"', '\'', '('}
    requires 'a' <= c <= 'z' || 'A' <= c <= 'Z' || '0' <= c <= '9'
    ensures var ref := [delimiter] + "/" + [c] + rest; ReferenceAt(ref) && ref[1..] == "/" + [c] + rest
  {
  }

  /** A text without references is kept. */
  lemma {:induction false} NoReferenceKept(t: string, host: string)
    requires forall i :: 0 <= i < |t| ==> !ReferenceAt(t[i..])
    ensures Pinned(t, host) == t
  {
    hide ReferenceAt, Prefix;
    if t != "" {
      assert t[0..] == t;
      forall i | 0 <= i < |t[1..]| ensures !ReferenceAt(t[1..][i..]) {
        DropOfDrop(t, 1, i);
      }
      NoReferenceKept(t[1..], host);
      assert [t[0]] + "" + t[1..] == t;
    }
  }

  method RewriteRootRelativeUrls(text: string, host: string) returns (out: string)
    ensures out == Pinned(text, host)
  {
    hide Prefix, ReferenceAt, IsDelimiter, IsAlphanumeric, Pinned;
    out := "";
    var last, i := 0, 0;
    WholeText(text);
    while i + 2 < |text|
      invariant last <= i <= |text|
      invariant Pinned(text, host) == out + text[last..i] + Pinned(text[i..], host)
    {
      if IsDelimiter(text[i]) && text[i + 1] == '/' && IsAlphanumeric(text[i + 2]) {
        PinnedAt(text, i, host);
        Regroup(out, text[last..i], [text[i]], Prefix(host), [text[i + 1]], Pinned(text[i + 2..], host));
        assert text[last..i] + [text[i]] == text[last..i + 1];
        out := out + text[last..i + 1] + Prefix(host);
        last := i + 1;
        assert text[last..i + 2] == [text[i + 1]];
        i := i + 2;
      } else {
        PinnedSkip(text, i, host);
        assert text[last..i] + [text[i]] == text[last..i + 1];
        ConcatAssoc(out + text[last..i], [text[i]], Pinned(text[i + 1..], host));
        ConcatAssoc(out, text[last..i], [text[i]]);
        i := i + 1;
      }
    }
    ShortIsKept(text[i..], host);
    assert text[last..i] + text[i..] == text[last..];
    ConcatAssoc(out, text[last..i], text[i..]);
    out := out + text[last..];
  }

  lemma WholeText(t: string)
    ensures t[0..] == t && t[0..0] == "" && forall s: string :: "" + "" + s == s
  {
  }

  lemma Regroup(a: string, b: string, c: string, d: string, e: string, f: string)
    ensures a + b + (c + d + (e + f)) == a + (b + c) + d + e + f
  {
  }

  lemma PinnedAt(t: string, i: nat, host: string)
    requires i + 2 < |t| && IsDelimiter(t[i]) && t[i + 1] == '/' && IsAlphanumeric(t[i + 2])
    ensures Pinned(t[i..], host) == [t[i]] + Prefix(host) + ([t[i + 1]] + Pinned(t[i + 2..], host))
  {
    hide Prefix;
    assert t[i..][1..] == t[i + 1..] && t[i + 1..][1..] == t[i + 2..];
    assert [t[i + 1]] + "" == [t[i + 1]];
  }

  lemma PinnedSkip(t: string, i: nat, host: string)
    requires i < |t| && !(i + 2 < |t| && IsDelimiter(t[i]) && t[i + 1] == '/' && IsAlphanumeric(t[i + 2]))
    ensures Pinned(t[i..], host) == [t[i]] + Pinned(t[i + 1..], host)
  {
    hide Prefix, IsDelimiter, IsAlphanumeric;
    assert t[i..][1..] == t[i + 1..];
    assert [t[i]] + "" == [t[i]];
  }

  lemma {:induction false} ShortIsKept(t: string, host: string)
    requires |t| <= 2
    ensures Pinned(t, host) == t
  {
    if t != "" {
      ShortIsKept(t[1..], host);
      assert [t[0]] + "" + t[1..] == t;
    }
  }

  /** No reference begins inside the host, read with a path after it. */
  ghost predicate Quiet(host: string) {
    forall i :: 0 <= i < |host| ==> !ReferenceAt((host + "/a")[i..])
  }

  lemma {:induction false} QuietHostKept(h: string, more: string, host: string)
    requires Quiet(h) && |more| > 0 && more[0] == '/'
    ensures Pinned(h + more, host) == h + Pinned(more, host)
    decreases |h|
  {
    hide Prefix;
    if h == "" {
      assert h + more == more;
    } else {
      assert (h + "/a")[0..] == h + "/a";
      assert !ReferenceAt(h + more);
      assert (h + more)[1..] == h[1..] + more;
      forall i | 0 <= i < |h[1..]| ensures !ReferenceAt((h[1..] + "/a")[i..]) {
        assert (h[1..] + "/a")[i..] == (h + "/a")[i + 1..];
      }
      QuietHostKept(h[1..], more, host);
      assert [h[0]] + "" + (h[1..] + Pinned(more, host)) == h + Pinned(more, host);
    }
  }

  lemma {:induction false} NoDelimiterKept(w: string, more: string, host: string)
    requires forall i :: 0 <= i < |w| ==> !IsDelimiter(w[i])
    ensures Pinned(w + more, host) == w + Pinned(more, host)
    decreases |w|
  {
    hide Prefix, IsDelimiter;
    if w == "" {
      assert w + more == more;
    } else {
      assert (w + more)[1..] == w[1..] + more;
      NoDelimiterKept(w[1..], more, host);
      assert [w[0]] + "" + (w[1..] + Pinned(more, host)) == w + Pinned(more, host);
    }
  }

  lemma PinnedStep(t: string, host: string)
    requires t != ""
    ensures !ReferenceAt(t) ==> Pinned(t, host) == [t[0]] + Pinned(t[1..], host)
    ensures ReferenceAt(t) ==> Pinned(t, host) == [t[0]] + Prefix(host) + Pinned(t[1..], host)
  {
    hide Prefix, ReferenceAt;
    assert [t[0]] + "" == [t[0]];
  }

  lemma UpIsNoReference(d: char, more: string)
    ensures !ReferenceAt([d] + ("/__up/" + more))
    ensures forall i :: 0 <= i < 6 ==> !IsDelimiter("/__up/"[i])
  {
    assert ([d] + ("/__up/" + more))[2] == '_';
  }

  /** What is written for a reference is kept the second time. */
  lemma PinnedStays(d: char, r: string, host: string)
    requires IsDelimiter(d) && Quiet(host) && |r| > 0 && r[0] == '/'
    ensures Pinned([d] + Prefix(host) + r, host) == [d] + Prefix(host) + Pinned(r, host)
  {
    hide Quiet, Pinned, IsDelimiter, ReferenceAt;
    var out := [d] + Prefix(host) + r;
    var tail := "/__up/" + (host + r);
    UpIsNoReference(d, host + r);
    assert out == [d] + tail && out[1..] == tail;
    PinnedStep(out, host);
    NoDelimiterKept("/__up/", host + r, host);
    QuietHostKept(host, r, host);
    assert [d] + ("/__up/" + (host + Pinned(r, host))) == [d] + Prefix(host) + Pinned(r, host);
  }

  lemma PinnedStart(t: string, host: string)
    requires t != ""
    ensures Pinned(t, host) != "" && Pinned(t, host)[0] == t[0]
    ensures !IsDelimiter(t[0]) ==> Pinned(t, host)[1..] == Pinned(t[1..], host)
  {
    hide Prefix, IsDelimiter;
  }

  lemma NoNewReference(t: string, host: string)
    requires t != "" && !ReferenceAt(t)
    ensures !ReferenceAt([t[0]] + Pinned(t[1..], host))
  {
    hide Prefix, IsAlphanumeric, Pinned;
    if |t| >= 2 {
      PinnedStart(t[1..], host);
      assert t[1..][1..] == t[2..];
      if |t| >= 3 {
        PinnedStart(t[2..], host);
      } else {
        assert Pinned(t[2..], host) == "" by { ShortIsKept(t[2..], host); }
      }
    } else {
      assert Pinned(t[1..], host) == "" by { ShortIsKept(t[1..], host); }
    }
  }

  lemma {:induction false} PinningTwice(t: string, host: string)
    requires Quiet(host)
    ensures Pinned(Pinned(t, host), host) == Pinned(t, host)
    decreases |t|
  {
    hide Pinned, Prefix, Quiet, ReferenceAt, IsDelimiter, IsAlphanumeric;
    if t == "" {
      ShortIsKept(t, host);
    } else {
      var r := Pinned(t[1..], host);
      PinningTwice(t[1..], host);
      PinnedStep(t, host);
      if ReferenceAt(t) {
        ReferenceShape(t);
        PinnedStart(t[1..], host);
        PinnedStays(t[0], r, host);
      } else {
        NoNewReference(t, host);
        assert ([t[0]] + r)[1..] == r;
        PinnedStep([t[0]] + r, host);
      }
    }
  }

  lemma ReferenceShape(t: string)
    requires ReferenceAt(t)
    ensures |t| >= 3 && IsDelimiter(t[0]) && t[1] == '/'
  {
  }

  lemma {:induction false} PinningGrows(t: string, host: string)
    ensures |Pinned(t, host)| >= |t|
    ensures (exists i :: 0 <= i < |t| && ReferenceAt(t[i..])) ==> |Pinned(t, host)| > |t|
    decreases |t|
  {
    hide ReferenceAt;
    if t != "" {
      PinningGrows(t[1..], host);
      if i :| 0 <= i < |t| && ReferenceAt(t[i..]) {
        assert t[0..] == t;
        if i > 0 {
          assert t[1..][i - 1..] == t[i..];
        }
      }
    }
  }

  /** Pinning pinned text changes nothing, for all texts, exactly when no reference begins inside the host;
      a host without delimiters is such. */
  lemma PinningIdempotentExactly(host: string)
    ensures (forall t :: Pinned(Pinned(t, host), host) == Pinned(t, host)) <==> Quiet(host)
    ensures (forall i :: 0 <= i < |host| ==> !IsDelimiter(host[i])) ==> Quiet(host)
  {
    hide Pinned, ReferenceAt, IsDelimiter, Prefix;
    if Quiet(host) {
      forall t ensures Pinned(Pinned(t, host), host) == Pinned(t, host) {
        PinningTwice(t, host);
      }
    } else {
      var i :| 0 <= i < |host| && ReferenceAt((host + "/a")[i..]);
      PinnedReference(host);
      var out := Pinned("(/a", host);
      assert out[7 + i..] == (host + "/a")[i..];
      PinningGrows(out, host);
    }
    QuietWithoutDelimiters(host);
  }

  lemma PinnedReference(host: string)
    ensures Pinned("(/a", host) == "(/__up/" + (host + "/a")
  {
    var t := "(/a";
    assert t[1..] == "/a";
    ShortIsKept("/a", host);
    assert ['('] + Prefix(host) + "/a" == "(/__up/" + (host + "/a");
  }

  lemma QuietWithoutDelimiters(host: string)
    ensures (forall i :: 0 <= i < |host| ==> !IsDelimiter(host[i])) ==> Quiet(host)
  {
    forall i | 0 <= i < |host| && !IsDelimiter(host[i]) ensures !ReferenceAt((host + "/a")[i..]) {
      assert (host + "/a")[i..][0] == host[i];
    }
  }
}
