/** Which app configurations count as the same app, and what merging does to apps, without reference to keys. */
module AppKeys {
  import opened GoStrings
  import opened Sequences
  import opened KeyedMerge
  import opened AppConfigs

  /** What is compared of a configuration: its provider, and for Mastodon the instance. */
  function Provider(app: AppConfig): string {
    ToLower(TrimSpace(app.provider))
  }

  function Url(app: AppConfig): string {
    TrimRightChar(TrimSpace(app.instanceUrl), '/')
  }

  const MASTODON: string := "mastodon"

  /**
   Two configurations have the same key iff they have the same provider and, for Mastodon, the same URL,
   with one exception: a provider that is spelled like the key of a Mastodon instance has that key, too.
   */
  lemma KeysEqualIff(a: AppConfig, b: AppConfig)
    ensures AppConfigMergeKey(a) == AppConfigMergeKey(b) <==>
      || (Provider(a) == Provider(b) && (Provider(a) == MASTODON ==> Url(a) == Url(b)))
      || (Provider(a) == MASTODON && Provider(b) == MASTODON + ":" + Url(a))
      || (Provider(b) == MASTODON && Provider(a) == MASTODON + ":" + Url(b))
  {
    MastodonKeys(Url(a), Url(b));
  }

  lemma MastodonKeys(u: string, v: string)
    ensures MASTODON + ":" + u == MASTODON + ":" + v <==> u == v
    ensures MASTODON + ":" + u != MASTODON
  {
    assert (MASTODON + ":" + u)[9..] == u && (MASTODON + ":" + v)[9..] == v;
  }

  // ----- the same app -----

  /** The instance that is compared: merging compares configurations that have been normalised already. */
  function Instance(app: AppConfig): string {
    TrimRightChar(TrimSpace(TrimRightChar(TrimSpace(app.instanceUrl), '/')), '/')
  }

  ghost predicate SameApp(a: AppConfig, b: AppConfig) {
    Provider(a) == Provider(b) && (Provider(a) == MASTODON ==> Instance(a) == Instance(b))
  }

  /** The providers that there are have no colon in their name. */
  ghost predicate PlainProviders(apps: seq<AppConfig>) {
    forall i :: 0 <= i < |apps| ==> ':' !in apps[i].provider
  }

  lemma {:induction false} TrimKeepsAway(s: string, c: char)
    requires c !in s
    ensures c !in TrimSpace(s)
  {
    TrimLeftFacts(s);
    TrimRightFacts(TrimLeft(s));
  }

  lemma NoColonInProvider(app: AppConfig)
    requires ':' !in app.provider
    ensures ':' !in Provider(app)
  {
    var t := TrimSpace(app.provider);
    TrimKeepsAway(app.provider, ':');
    forall i | 0 <= i < |t|
      ensures ToLower(t)[i] != ':'
    {
      assert t[i] in t;
    }
  }

  /** The key that the merge uses tells apps apart exactly. */
  lemma KeyIsSameApp(a: AppConfig, b: AppConfig)
    requires ':' !in a.provider && ':' !in b.provider
    ensures AppConfigMergeKey(NormalizeAppConfig(a)) == AppConfigMergeKey(NormalizeAppConfig(b)) <==> SameApp(a, b)
  {
    ProviderIsStable(a.provider);
    ProviderIsStable(b.provider);
    NoColonInProvider(a);
    NoColonInProvider(b);
    KeysEqualIff(NormalizeAppConfig(a), NormalizeAppConfig(b));
    assert (MASTODON + ":" + Instance(a))[8] == ':' && (MASTODON + ":" + Instance(b))[8] == ':';
  }

  // ----- what merging does to apps -----

  /** No later configuration is of the same app. */
  ghost predicate IsLast(apps: seq<AppConfig>, i: nat)
    requires i < |apps|
  {
    forall j :: i < j < |apps| ==> !SameApp(apps[i], apps[j])
  }

  ghost predicate Names(apps: seq<AppConfig>, app: AppConfig) {
    exists j :: 0 <= j < |apps| && SameApp(app, apps[j])
  }

  /** The last configuration of an app in a list is the last one with its key. */
  lemma LastOfApp(apps: seq<AppConfig>, app: AppConfig)
    requires PlainProviders(apps) && ':' !in app.provider
    ensures var last := LastWithKey(NormalizeAll(apps), AppConfigMergeKey(NormalizeAppConfig(app)), AppConfigMergeKey);
      && (last >= 0 <==> Names(apps, app))
      && (last >= 0 ==> SameApp(app, apps[last]) && forall j :: last < j < |apps| ==> !SameApp(app, apps[j]))
  {
    forall j | 0 <= j < |apps|
      ensures AppConfigMergeKey(NormalizeAll(apps)[j]) == AppConfigMergeKey(NormalizeAppConfig(app)) <==> SameApp(app, apps[j])
    {
      KeyIsSameApp(app, apps[j]);
    }
  }

  lemma SameAppThrough(a: AppConfig, b: AppConfig, c: AppConfig)
    requires SameApp(a, b) && SameApp(a, c)
    ensures SameApp(b, c)
  {
  }

  lemma LastIndexIs(apps: seq<AppConfig>, app: AppConfig, w: nat)
    requires PlainProviders(apps) && ':' !in app.provider && w < |apps|
    requires SameApp(app, apps[w]) && IsLast(apps, w)
    ensures LastWithKey(NormalizeAll(apps), AppConfigMergeKey(NormalizeAppConfig(app)), AppConfigMergeKey) == w
  {
    var last := LastWithKey(NormalizeAll(apps), AppConfigMergeKey(NormalizeAppConfig(app)), AppConfigMergeKey);
    LastOfApp(apps, app);
    assert Names(apps, app);
    if last > w {
      SameAppThrough(app, apps[w], apps[last]);
      assert false;
    }
  }

  /** A base entry stays, normalised, when a later base entry or no override is of its app. */
  lemma KeptEntry(base: seq<AppConfig>, overrides: seq<AppConfig>, i: nat)
    requires PlainProviders(base) && PlainProviders(overrides) && i < |base|
    requires !IsLast(base, i) || !Names(overrides, base[i])
    ensures i < |Merged(base, overrides)| && Merged(base, overrides)[i] == NormalizeAppConfig(base[i])
  {
    LastOverrideWins(base, overrides, i);
    LastOfApp(base, base[i]);
    LastOfApp(overrides, base[i]);
  }

  /** The last base entry of an app gives way to the last override of the app. */
  lemma ReplacedEntry(base: seq<AppConfig>, overrides: seq<AppConfig>, i: nat, w: nat)
    requires PlainProviders(base) && PlainProviders(overrides) && i < |base| && w < |overrides|
    requires IsLast(base, i) && IsLast(overrides, w) && SameApp(base[i], overrides[w])
    ensures i < |Merged(base, overrides)| && Merged(base, overrides)[i] == NormalizeAppConfig(overrides[w])
  {
    LastIndexIs(base, base[i], i);
    LastIndexIs(overrides, base[i], w);
    LastOverrideWins(base, overrides, i);
  }

  /** Behind the base stands nothing but the last overrides of apps that the base does not have. */
  lemma AppendedEntry(base: seq<AppConfig>, overrides: seq<AppConfig>, i: nat) returns (w: nat)
    requires PlainProviders(base) && PlainProviders(overrides) && |base| <= i < |Merged(base, overrides)|
    ensures w < |overrides| && IsLast(overrides, w) && !Names(base, overrides[w])
    ensures Merged(base, overrides)[i] == NormalizeAppConfig(overrides[w])
  {
    var k := AppConfigMergeKey(Merged(base, overrides)[i]);
    NewKeysAreAppended(base, overrides, i);
    w := LastWithKey(NormalizeAll(overrides), k, AppConfigMergeKey);
    LastOfApp(overrides, overrides[w]);
    LastOfApp(base, overrides[w]);
  }

  /** Every app that is new to the base is there. */
  lemma NewAppIsAppended(base: seq<AppConfig>, overrides: seq<AppConfig>, w: nat) returns (p: nat)
    requires PlainProviders(base) && PlainProviders(overrides) && w < |overrides|
    requires IsLast(overrides, w) && !Names(base, overrides[w])
    ensures |base| <= p < |Merged(base, overrides)| && Merged(base, overrides)[p] == NormalizeAppConfig(overrides[w])
  {
    LastOfApp(overrides, overrides[w]);
    p := LastOverrideIsPlaced(NormalizeAll(base), NormalizeAll(overrides), AppConfigMergeKey, w);
    if p < |base| {
      KeyOfBaseEntry(base, overrides, p, w);
    }
  }

  lemma KeyOfBaseEntry(base: seq<AppConfig>, overrides: seq<AppConfig>, p: nat, w: nat)
    requires PlainProviders(base) && PlainProviders(overrides) && p < |base| && w < |overrides|
    requires p < |Merged(base, overrides)| && Merged(base, overrides)[p] == NormalizeAppConfig(overrides[w])
    ensures SameApp(overrides[w], base[p])
  {
    LastOverrideWins(base, overrides, p);
    KeyIsSameApp(overrides[w], base[p]);
  }

  lemma TwoEntries<T>(entries: seq<T>, a: T, b: T, p: nat)
    requires |entries| <= 2 && 1 <= p < |entries| && entries[0] == a && entries[p] == b
    ensures entries == [a, b]
  {
  }

  lemma NewAppAlone(base: seq<AppConfig>, overrides: seq<AppConfig>)
    requires |base| == |overrides| == 1 && PlainProviders(base) && PlainProviders(overrides)
    requires !Names(overrides, base[0]) && !Names(base, overrides[0])
    ensures Merged(base, overrides) == [NormalizeAppConfig(base[0]), NormalizeAppConfig(overrides[0])]
  {
    KeptEntry(base, overrides, 0);
    var p := NewAppIsAppended(base, overrides, 0);
    MergeAllGrows(NormalizeAll(base), NormalizeAll(overrides), AppConfigMergeKey);
    TwoEntries(Merged(base, overrides), NormalizeAppConfig(base[0]), NormalizeAppConfig(overrides[0]), p);
  }

  lemma SameAppAlone(base: seq<AppConfig>, overrides: seq<AppConfig>)
    requires |base| == |overrides| == 1 && PlainProviders(base) && PlainProviders(overrides)
    requires SameApp(base[0], overrides[0]) && SameApp(overrides[0], base[0])
    ensures Merged(base, overrides) == [NormalizeAppConfig(overrides[0])]
  {
    ReplacedEntry(base, overrides, 0, 0);
    assert Names(base, overrides[0]);
    if |Merged(base, overrides)| > 1 {
      var w := AppendedEntry(base, overrides, 1);
      assert false;
    }
  }

  /** Mastodon configurations of different instances never replace one another. */
  lemma InstancesAreKept(a: AppConfig, b: AppConfig)
    requires Provider(a) == Provider(b) == MASTODON && Instance(a) != Instance(b)
    requires ':' !in a.provider && ':' !in b.provider
    ensures Merged([a], [b]) == [NormalizeAppConfig(a), NormalizeAppConfig(b)]
  {
    NewAppAlone([a], [b]);
  }

  /** Of any other provider there is one configuration, and the override is it. */
  lemma OtherProvidersAreReplaced(a: AppConfig, b: AppConfig)
    requires Provider(a) == Provider(b) != MASTODON && ':' !in a.provider && ':' !in b.provider
    ensures Merged([a], [b]) == [NormalizeAppConfig(b)]
  {
    SameAppAlone([a], [b]);
  }

  // ----- what normalising leaves -----

  ghost predicate AllSlashes(s: string) {
    forall i :: 0 <= i < |s| ==> s[i] == '/'
  }

  lemma {:induction false} SlashesAreTrimmed(url: string, slashes: string)
    requires AllSlashes(slashes) && (url == "" || url[|url| - 1] != '/')
    ensures TrimRightChar(url + slashes, '/') == url
  {
    if slashes == "" {
      assert url + slashes == url;
    } else {
      var n := |slashes| - 1;
      SlashesAreTrimmed(url, slashes[..n]);
      assert (url + slashes)[..|url + slashes| - 1] == url + slashes[..n];
    }
  }

  function Spaced(before: string, s: string, after: string): string {
    before + s + after
  }

  /**
   Field by field: white space around each field goes, the provider becomes lower case, and the URL loses
   the slashes at its end. Every configuration is of this form.
   */
  lemma NormalizedFields(app: AppConfig, slashes: string, before: string, after: string)
    requires AllSpace(before) && AllSpace(after) && AllSlashes(slashes)
    requires Trimmed(app.provider) && Trimmed(app.name) && Trimmed(app.clientId) && Trimmed(app.clientSecret) && Trimmed(app.redirectUri)
    requires Trimmed(app.instanceUrl + slashes) && (app.instanceUrl == "" || app.instanceUrl[|app.instanceUrl| - 1] != '/')
    ensures NormalizeAppConfig(AppConfig(
        Spaced(before, app.provider, after), Spaced(before, app.name, after), Spaced(before, app.clientId, after),
        Spaced(before, app.clientSecret, after), Spaced(before, app.redirectUri, after),
        Spaced(before, app.instanceUrl + slashes, after)))
      == app.(provider := ToLower(app.provider))
  {
    TrimSpaceOfPadded(before, app.provider, after);
    TrimSpaceOfPadded(before, app.name, after);
    TrimSpaceOfPadded(before, app.clientId, after);
    TrimSpaceOfPadded(before, app.clientSecret, after);
    TrimSpaceOfPadded(before, app.redirectUri, after);
    TrimSpaceOfPadded(before, app.instanceUrl + slashes, after);
    SlashesAreTrimmed(app.instanceUrl, slashes);
  }
}
