/** Which account a selector names, said by putting selectors together instead of taking them apart. */
module AccountMatching {
  import opened GoStrings
  import opened AccountPicker

  // ----- letter case -----

  /** The same character, or the two cases of one ASCII letter. */
  ghost predicate SameLetter(c: char, d: char) {
    c == d || ('A' <= c <= 'Z' && d as int == c as int + 32) || ('A' <= d <= 'Z' && c as int == d as int + 32)
  }

  ghost predicate SameUpToCase(s: string, t: string) {
    |s| == |t| && forall i :: 0 <= i < |s| ==> SameLetter(s[i], t[i])
  }

  lemma LowerCharIff(c: char, d: char)
    ensures LowerChar(c) == LowerChar(d) <==> SameLetter(c, d)
  {
  }

  lemma ToLowerIff(s: string, t: string)
    ensures ToLower(s) == ToLower(t) <==> SameUpToCase(s, t)
  {
    if |s| == |t| {
      forall i | 0 <= i < |s|
        ensures ToLower(s)[i] == ToLower(t)[i] <==> SameLetter(s[i], t[i])
      {
        LowerCharIff(s[i], t[i]);
      }
    }
  }

  // ----- platform and handle -----

  /** `handle`, written behind `platform` with or without an "@", makes up the selector. */
  ghost predicate WritesHandle(platform: string, handle: string, selector: string) {
    || selector == platform + ":@" + handle
    || (selector == platform + ":" + handle && !("@" <= handle))
  }

  ghost predicate NamesHandle(a: SocialAccount, selector: string) {
    && a.platform != "" && ':' !in a.platform
    && exists handle :: SameUpToCase(a.username, handle) && WritesHandle(a.platform, handle, selector)
  }

  lemma AtIff(s: string, handle: string)
    ensures TrimPrefix(s, "@") == handle <==> s == "@" + handle || (s == handle && !("@" <= handle))
  {
    if "@" <= s {
      assert s == "@" + s[1..];
    }
  }

  lemma ColonIff(platform: string, s: string, selector: string)
    requires ':' !in platform && platform != ""
    ensures selector == platform + ":" + s <==>
            var i := IndexOf(selector, ':');
            i > 0 && selector[..i] == platform && selector[i + 1..] == s
  {
    var i := IndexOf(selector, ':');
    if i > 0 {
      assert selector == selector[..i] + ":" + selector[i + 1..];
    }
    if selector == platform + ":" + s {
      var n := |platform|;
      assert selector[..n] == platform && selector[n] == ':' && selector[n + 1..] == s;
      IndexOfAt(selector, ':', n);
    }
  }

  /** The one handle that a selector can be written with. */
  lemma HandleIs(platform: string, handle: string, selector: string)
    requires ':' !in platform && platform != ""
    ensures WritesHandle(platform, handle, selector) <==>
            var i := IndexOf(selector, ':');
            i > 0 && selector[..i] == platform && TrimPrefix(selector[i + 1..], "@") == handle
  {
    var i := IndexOf(selector, ':');
    assert platform + ":@" + handle == platform + ":" + ("@" + handle);
    ColonIff(platform, "@" + handle, selector);
    ColonIff(platform, handle, selector);
    if i > 0 {
      AtIff(selector[i + 1..], handle);
    }
  }

  lemma MatchedHandleIsNamed(a: SocialAccount, selector: string)
    requires MatchesHandle(a, selector)
    ensures NamesHandle(a, selector)
  {
    var i := IndexOf(selector, ':');
    var handle := TrimPrefix(selector[i + 1..], "@");
    ToLowerIff(a.username, handle);
    assert a.platform != "" && ':' !in a.platform;
    assert WritesHandle(a.platform, handle, selector) by {
      HandleIs(a.platform, handle, selector);
    }
  }

  lemma NamedHandleMatches(a: SocialAccount, handle: string, selector: string)
    requires a.platform != "" && ':' !in a.platform && SameUpToCase(a.username, handle)
    requires WritesHandle(a.platform, handle, selector)
    ensures MatchesHandle(a, selector)
  {
    HandleIs(a.platform, handle, selector);
    ToLowerIff(a.username, handle);
  }

  lemma MatchesHandleIff(a: SocialAccount, selector: string)
    ensures MatchesHandle(a, selector) <==> NamesHandle(a, selector)
  {
    if MatchesHandle(a, selector) {
      MatchedHandleIsNamed(a, selector);
    }
    if NamesHandle(a, selector) {
      var handle :| SameUpToCase(a.username, handle) && WritesHandle(a.platform, handle, selector);
      NamedHandleMatches(a, handle, selector);
    }
  }

  // ----- the host of an instance -----

  /** `rest` is s without the prefix; s itself when it does not begin with it. */
  ghost predicate Without(s: string, prefix: string, rest: string) {
    s == prefix + rest || (s == rest && !(prefix <= s))
  }

  lemma TrimPrefixIff(s: string, prefix: string, rest: string)
    ensures TrimPrefix(s, prefix) == rest <==> Without(s, prefix, rest)
  {
    if prefix <= s {
      assert s == prefix + s[|prefix|..];
      assert s == prefix + rest ==> s[|prefix|..] == rest;
    }
  }

  /** Everything before the first slash; all of it without a slash, or with one in front. */
  ghost predicate BeforeSlash(s: string, host: string) {
    || (host != "" && '/' !in host && exists path: string :: s == host + "/" + path)
    || (s == host && ('/' !in s || "/" <= s))
  }

  lemma BeforeSlashIff(s: string, host: string)
    ensures BeforeSlash(s, host) <==> host == (var i := IndexOf(s, '/'); if i > 0 then s[..i] else s)
  {
    var i := IndexOf(s, '/');
    if i > 0 {
      assert s == s[..i] + "/" + s[i + 1..];
    }
    if host != "" && '/' !in host && exists path: string :: s == host + "/" + path {
      var path: string :| s == host + "/" + path;
      assert s[..|host|] == host && s[|host|] == '/';
      IndexOfAt(s, '/', |host|);
    }
  }

  /** The instance URL without its scheme and its path. */
  ghost predicate IsHost(url: string, host: string) {
    exists bare, barer :: Without(url, "https://", bare) && Without(bare, "http://", barer) && BeforeSlash(barer, host)
  }

  lemma HostOfIff(url: string, host: string)
    ensures HostOf(url) == host <==> IsHost(url, host)
  {
    var bare := TrimPrefix(url, "https://");
    var barer := TrimPrefix(bare, "http://");
    TrimPrefixIff(url, "https://", bare);
    TrimPrefixIff(bare, "http://", barer);
    BeforeSlashIff(barer, host);
    if IsHost(url, host) {
      var u, v :| Without(url, "https://", u) && Without(u, "http://", v) && BeforeSlash(v, host);
      TrimPrefixIff(url, "https://", u);
      TrimPrefixIff(bare, "http://", v);
    }
  }

  /** With a scheme or without one, and with any path behind it, the host is the same. */
  lemma HostUnderScheme(scheme: string, host: string, rest: string)
    requires scheme in ["https://", "http://", ""]
    requires host != "" && '/' !in host && host !in ["https:", "http:"]
    requires rest == "" || "/" <= rest
    ensures HostOf(scheme + (host + rest)) == host
  {
    NotBehindScheme(host, rest);
    UnderScheme(scheme, host + rest);
    if rest == "" {
      assert host + rest == host;
    } else {
      assert host + rest == host + "/" + rest[1..];
    }
    assert BeforeSlash(host + rest, host);
    HostOfIff(scheme + (host + rest), host);
  }

  /** Only a host that looks like a scheme can be taken for one. */
  lemma SchemeIsHost(scheme: string, host: string, rest: string)
    requires '/' !in scheme && '/' !in host && (rest == "" || "/" <= rest)
    requires scheme + "//" <= host + rest
    ensures host == scheme
  {
    var text := host + rest;
    assert text[..|scheme|] == (scheme + "//")[..|scheme|] == scheme && text[|scheme|] == (scheme + "//")[|scheme|] == '/';
    IndexOfAt(text, '/', |scheme|);
    if rest != "" {
      assert text[..|host|] == host && text[|host|] == '/';
      IndexOfAt(text, '/', |host|);
    }
  }

  lemma NotBehindScheme(host: string, rest: string)
    requires host != "" && '/' !in host && host !in ["https:", "http:"]
    requires rest == "" || "/" <= rest
    ensures !("https://" <= host + rest) && !("http://" <= host + rest)
  {
    assert "https:" + "//" == "https://" && "http:" + "//" == "http://";
    if "https://" <= host + rest {
      SchemeIsHost("https:", host, rest);
    }
    if "http://" <= host + rest {
      SchemeIsHost("http:", host, rest);
    }
  }

  lemma UnderScheme(scheme: string, bare: string)
    requires scheme in ["https://", "http://", ""]
    requires !("https://" <= bare) && !("http://" <= bare)
    ensures exists u :: Without(scheme + bare, "https://", u) && Without(u, "http://", bare)
  {
    if scheme == "https://" {
      assert Without(scheme + bare, "https://", bare) && Without(bare, "http://", bare);
    } else {
      assert (scheme + bare)[..|scheme|] == scheme;
      assert scheme == "http://" ==> scheme[4] != "https://"[4];
      assert Without(scheme + bare, "https://", scheme + bare) && Without(scheme + bare, "http://", bare);
    }
  }

  // ----- the match classes -----

  /** The five ways to name an account. */
  ghost predicate Names(a: SocialAccount, selector: string, kind: nat) {
    match kind
    case 1 => selector == a.id
    case 2 => a.slug != "" && selector == a.slug
    case 3 => NamesHandle(a, selector)
    case 4 => selector == a.platform
    case 5 => a.platform == "mastodon" && exists host :: IsHost(a.instanceUrl, host) && selector == "mastodon:" + host
    case _ => false
  }

  /** The selector names the account in this way and in no better one. */
  ghost predicate BestName(a: SocialAccount, selector: string, kind: nat) {
    Names(a, selector, kind) && forall k: nat :: k < kind ==> !Names(a, selector, k)
  }

  lemma BehindIff(s: string, prefix: string, rest: string)
    ensures s == prefix + rest <==> HasPrefix(s, prefix) && TrimPrefix(s, prefix) == rest
  {
    if HasPrefix(s, prefix) {
      assert s == prefix + s[|prefix|..];
    }
  }

  lemma NamesInstanceIff(a: SocialAccount, selector: string, prefix: string)
    ensures (exists host :: IsHost(a.instanceUrl, host) && selector == prefix + host) <==>
            HasPrefix(selector, prefix) && HostOf(a.instanceUrl) == TrimPrefix(selector, prefix)
  {
    var host := HostOf(a.instanceUrl);
    HostOfIff(a.instanceUrl, host);
    BehindIff(selector, prefix, host);
    if h :| IsHost(a.instanceUrl, h) && selector == prefix + h {
      HostOfIff(a.instanceUrl, h);
    }
  }

  /** What AccountMatches tests in each class. */
  predicate Tested(a: SocialAccount, selector: string, kind: nat) {
    match kind
    case 1 => a.id == selector
    case 2 => a.slug != "" && a.slug == selector
    case 3 => MatchesHandle(a, selector)
    case 4 => a.platform == selector
    case 5 =>
      HasPrefix(selector, "mastodon:") && a.platform == "mastodon" && HostOf(a.instanceUrl) == TrimPrefix(selector, "mastodon:")
    case _ => false
  }

  lemma TestedIff(a: SocialAccount, selector: string, kind: nat)
    ensures Tested(a, selector, kind) <==> Names(a, selector, kind)
  {
    if kind == 3 {
      MatchesHandleIff(a, selector);
    } else if kind == 5 {
      NamesInstanceIff(a, selector, "mastodon:");
    }
  }

  lemma FirstTested(a: SocialAccount, selector: string)
    ensures var best := AccountMatches(a, selector);
      && (best != NO_MATCH ==> Tested(a, selector, best))
      && (forall k: nat :: best == NO_MATCH || k < best ==> !Tested(a, selector, k))
  {
  }

  /** The class of an account is the best way in which the selector names it. */
  lemma AccountMatchesIff(a: SocialAccount, selector: string, kind: nat)
    ensures kind != NO_MATCH ==> (AccountMatches(a, selector) == kind <==> BestName(a, selector, kind))
    ensures AccountMatches(a, selector) == NO_MATCH <==> forall k: nat :: !Names(a, selector, k)
  {
    FirstTested(a, selector);
    BestIsBest(a, selector, kind, AccountMatches(a, selector));
  }

  lemma BestIsBest(a: SocialAccount, selector: string, kind: nat, best: nat)
    requires best != NO_MATCH ==> Tested(a, selector, best)
    requires forall k: nat :: best == NO_MATCH || k < best ==> !Tested(a, selector, k)
    ensures kind != NO_MATCH ==> (best == kind <==> BestName(a, selector, kind))
    ensures best == NO_MATCH <==> forall k: nat :: !Names(a, selector, k)
  {
    forall k: nat
      ensures Tested(a, selector, k) <==> Names(a, selector, k)
    {
      TestedIff(a, selector, k);
    }
  }

  // ----- the account that is picked -----

  ghost predicate Held(accounts: seq<SocialAccount>, selector: string, kind: nat, i: int) {
    0 <= i < |accounts| && accounts[i].isActive && AccountMatches(accounts[i], selector) == kind
  }

  lemma HeldTail(accounts: seq<SocialAccount>, selector: string, kind: nat, i: int)
    requires accounts != []
    ensures Held(accounts, selector, kind, i) <==>
            if i == 0 then OneInClass(accounts[0], selector, kind) != [] else Held(accounts[1..], selector, kind, i - 1)
  {
  }

  /** Account i is the only one of the class. */
  ghost predicate OnlyHeld(accounts: seq<SocialAccount>, selector: string, kind: nat, i: int) {
    Held(accounts, selector, kind, i) && forall j :: Held(accounts, selector, kind, j) ==> j == i
  }

  lemma {:induction false} HeldIsInClass(accounts: seq<SocialAccount>, selector: string, kind: nat, i: int)
    requires Held(accounts, selector, kind, i)
    ensures InClass(accounts, selector, kind) != []
  {
    HeldTail(accounts, selector, kind, i);
    if i > 0 {
      HeldIsInClass(accounts[1..], selector, kind, i - 1);
    }
  }

  lemma {:induction false} FirstOfClass(accounts: seq<SocialAccount>, selector: string, kind: nat) returns (i: int)
    requires InClass(accounts, selector, kind) != []
    ensures Held(accounts, selector, kind, i) && InClass(accounts, selector, kind)[0] == accounts[i]
  {
    if OneInClass(accounts[0], selector, kind) != [] {
      i := 0;
    } else {
      var j := FirstOfClass(accounts[1..], selector, kind);
      i := j + 1;
    }
  }

  lemma EmptyClassIff(accounts: seq<SocialAccount>, selector: string, kind: nat)
    ensures InClass(accounts, selector, kind) == [] <==> forall i :: !Held(accounts, selector, kind, i)
  {
    if InClass(accounts, selector, kind) != [] {
      var i := FirstOfClass(accounts, selector, kind);
    }
    if i :| Held(accounts, selector, kind, i) {
      HeldIsInClass(accounts, selector, kind, i);
    }
  }

  lemma {:induction false} ClassOfOne(accounts: seq<SocialAccount>, selector: string, kind: nat, i: int)
    requires Held(accounts, selector, kind, i)
    ensures InClass(accounts, selector, kind) == [accounts[i]] <==> OnlyHeld(accounts, selector, kind, i)
  {
    var rest := accounts[1..];
    forall j
      ensures Held(accounts, selector, kind, j + 1) <==> if j + 1 == 0 then OneInClass(accounts[0], selector, kind) != [] else Held(rest, selector, kind, j)
    {
      HeldTail(accounts, selector, kind, j + 1);
    }
    HeldTail(accounts, selector, kind, i);
    if i == 0 {
      EmptyClassIff(rest, selector, kind);
      OnlyFirst(accounts, selector, kind);
    } else {
      ClassOfOne(rest, selector, kind, i - 1);
      HeldIsInClass(rest, selector, kind, i - 1);
      OnlyLater(accounts, selector, kind, i);
    }
  }

  lemma OnlyFirst(accounts: seq<SocialAccount>, selector: string, kind: nat)
    requires Held(accounts, selector, kind, 0)
    ensures OnlyHeld(accounts, selector, kind, 0) <==> forall j :: !Held(accounts[1..], selector, kind, j)
  {
    if j :| Held(accounts[1..], selector, kind, j) {
      HeldTail(accounts, selector, kind, j + 1);
    }
    if j :| Held(accounts, selector, kind, j) && j != 0 {
      HeldTail(accounts, selector, kind, j);
    }
  }

  lemma OnlyLater(accounts: seq<SocialAccount>, selector: string, kind: nat, i: int)
    requires Held(accounts, selector, kind, i) && i > 0
    ensures OnlyHeld(accounts, selector, kind, i) <==>
            OneInClass(accounts[0], selector, kind) == [] && OnlyHeld(accounts[1..], selector, kind, i - 1)
  {
    HeldTail(accounts, selector, kind, 0);
    HeldTail(accounts, selector, kind, i);
    if j :| Held(accounts[1..], selector, kind, j) && j != i - 1 {
      HeldTail(accounts, selector, kind, j + 1);
    }
    if j :| Held(accounts, selector, kind, j) && j != i {
      HeldTail(accounts, selector, kind, j);
    }
  }

  /** Account i is active, has this id, and no other active account is named as well as it is. */
  ghost predicate AloneAtBest(accounts: seq<SocialAccount>, selector: string, id: string, kind: nat, i: int) {
    && 0 <= i < |accounts| && accounts[i].isActive && accounts[i].id == id
    && BestName(accounts[i], selector, kind)
    && forall j, k: nat :: 0 <= j < |accounts| && j != i && accounts[j].isActive && k <= kind ==> !Names(accounts[j], selector, k)
  }

  lemma HeldIffBest(accounts: seq<SocialAccount>, selector: string, kind: nat, i: int)
    requires kind != NO_MATCH
    ensures Held(accounts, selector, kind, i) <==>
            0 <= i < |accounts| && accounts[i].isActive && BestName(accounts[i], selector, kind)
  {
    if 0 <= i < |accounts| {
      AccountMatchesIff(accounts[i], selector, kind);
    }
  }

  lemma NamedIsHeld(accounts: seq<SocialAccount>, selector: string, kind: nat, i: int) returns (best: nat)
    requires 0 <= i < |accounts| && accounts[i].isActive && Names(accounts[i], selector, kind)
    ensures 1 <= best <= kind && Held(accounts, selector, best, i)
  {
    best := BestOf(accounts[i], selector, kind);
    HeldIffBest(accounts, selector, best, i);
  }

  /** No account of a class up to `kind`, except possibly account i, means no name up to it. */
  lemma AloneIff(accounts: seq<SocialAccount>, selector: string, id: string, kind: nat, i: int)
    requires 1 <= kind <= MASTODON_HOST_MATCH
    ensures AloneAtBest(accounts, selector, id, kind, i) <==>
            OnlyHeld(accounts, selector, kind, i) && accounts[i].id == id && forall k: nat, j :: 1 <= k < kind ==> !Held(accounts, selector, k, j)
  {
    forall j, k: nat | 1 <= k
      ensures Held(accounts, selector, k, j) <==> 0 <= j < |accounts| && accounts[j].isActive && BestName(accounts[j], selector, k)
    {
      HeldIffBest(accounts, selector, k, j);
    }
    if OnlyHeld(accounts, selector, kind, i) && forall k: nat, j :: 1 <= k < kind ==> !Held(accounts, selector, k, j) {
      forall j, k: nat | 0 <= j < |accounts| && j != i && accounts[j].isActive && k <= kind
        ensures !Names(accounts[j], selector, k)
      {
        if Names(accounts[j], selector, k) {
          var best := NamedIsHeld(accounts, selector, k, j);
        }
      }
    }
  }

  lemma {:induction false} BestOf(a: SocialAccount, selector: string, kind: nat) returns (best: nat)
    requires Names(a, selector, kind)
    ensures 1 <= best <= kind && BestName(a, selector, best)
  {
    if k: nat :| k < kind && Names(a, selector, k) {
      best := BestOf(a, selector, k);
    } else {
      best := kind;
    }
  }

  /** A selector yields an id exactly when one active account, of that id, is named best by it. */
  lemma PickedMeans(selector: string, accounts: seq<SocialAccount>, id: string)
    ensures ResolveSelector(selector, accounts) == Picked(id) <==>
            exists kind: nat, i :: AloneAtBest(accounts, selector, id, kind, i)
  {
    PickedIff(selector, accounts, id);
    if kind: nat :| DecidedBy(accounts, selector, id, kind) {
      var i := FirstOfClass(accounts, selector, kind);
      ClassOfOne(accounts, selector, kind, i);
      forall k: nat, j | 1 <= k < kind
        ensures !Held(accounts, selector, k, j)
      {
        EmptyClassIff(accounts, selector, k);
      }
      AloneIff(accounts, selector, id, kind, i);
    }
    if kind: nat, i :| AloneAtBest(accounts, selector, id, kind, i) {
      AloneIff(accounts, selector, id, kind, i);
      ClassOfOne(accounts, selector, kind, i);
      forall k: nat | 1 <= k < kind
        ensures InClass(accounts, selector, k) == []
      {
        EmptyClassIff(accounts, selector, k);
      }
      assert DecidedBy(accounts, selector, id, kind);
    }
  }

  /** Nothing is found exactly when no active account is named in any way. */
  lemma NoAccountMeans(selector: string, accounts: seq<SocialAccount>)
    ensures ResolveSelector(selector, accounts) == NoAccount <==>
            forall i, k: nat :: 0 <= i < |accounts| && accounts[i].isActive ==> !Names(accounts[i], selector, k)
  {
    LowestClassIsLowest(accounts, selector);
    var best := LowestClass(accounts, selector);
    if best != NO_MATCH {
      var i := FirstOfClass(accounts, selector, best);
      HeldIffBest(accounts, selector, best, i);
    } else {
      forall i, k: nat | 0 <= i < |accounts| && accounts[i].isActive
        ensures !Names(accounts[i], selector, k)
      {
        if Names(accounts[i], selector, k) {
          var b := NamedIsHeld(accounts, selector, k, i);
          HeldIsInClass(accounts, selector, b, i);
        }
      }
    }
  }
}
