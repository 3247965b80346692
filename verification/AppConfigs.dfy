/** Provider app configurations: normalising them and merging overrides into a base list. */
module AppConfigs {
  import opened GoStrings
  import opened KeyedMerge

  datatype AppConfig = AppConfig(
    provider: string,
    name: string,
    clientId: string,
    clientSecret: string,
    redirectUri: string,
    instanceUrl: string)

  function NormalizeAppConfig(app: AppConfig): AppConfig {
    AppConfig(
      ToLower(TrimSpace(app.provider)),
      TrimSpace(app.name),
      TrimSpace(app.clientId),
      TrimSpace(app.clientSecret),
      TrimSpace(app.redirectUri),
      TrimRightChar(TrimSpace(app.instanceUrl), '/'))
  }

  /** Mastodon apps are told apart by instance, all others by provider. */
  function AppConfigMergeKey(app: AppConfig): string {
    var normal := NormalizeAppConfig(app);
    if normal.provider == "mastodon" then normal.provider + ":" + normal.instanceUrl else normal.provider
  }

  function NormalizeAll(apps: seq<AppConfig>): seq<AppConfig> {
    Map(NormalizeAppConfig, apps)
  }

  function Merged(base: seq<AppConfig>, overrides: seq<AppConfig>): seq<AppConfig> {
    MergeNormal(base, overrides, NormalizeAppConfig, AppConfigMergeKey)
  }

  /** The loop over the base. */
  method AddBaseApps(base: seq<AppConfig>) returns (merged: seq<AppConfig>, indexByKey: map<string, nat>)
    ensures Merge(merged, indexByKey) == AddAllBase(NormalizeAll(base), AppConfigMergeKey)
  {
    merged, indexByKey := [], map[];
    ghost var bases := NormalizeAll(base);
    for i := 0 to |base|
      invariant Merge(merged, indexByKey) == AddAllBase(bases[..i], AppConfigMergeKey)
    {
      AddNextBase(bases, i, AppConfigMergeKey);
      var app := NormalizeAppConfig(base[i]);
      var key := AppConfigMergeKey(app);
      indexByKey := indexByKey[key := |merged|];
      merged := merged + [app];
    }
    assert bases[..|base|] == bases;
  }

  method MergeAppConfigs(base: seq<AppConfig>, overrides: seq<AppConfig>) returns (merged: seq<AppConfig>)
    ensures merged == Merged(base, overrides)
  {
    var indexByKey: map<string, nat>;
    merged, indexByKey := AddBaseApps(base);
    ghost var start, others := Merge(merged, indexByKey), NormalizeAll(overrides);
    for i := 0 to |overrides|
      invariant IndexOk(start) && Merge(merged, indexByKey) == AddAllOverrides(start, others[..i], AppConfigMergeKey)
    {
      AddNextOverride(start, others, i, AppConfigMergeKey);
      var app := NormalizeAppConfig(overrides[i]);
      var key := AppConfigMergeKey(app);
      if key in indexByKey {
        merged := merged[indexByKey[key] := app];
        continue;
      }
      indexByKey := indexByKey[key := |merged|];
      merged := merged + [app];
    }
    assert others[..|overrides|] == others;
  }

  // ----- configurations that a second normalisation leaves alone -----

  ghost predicate Stable(app: AppConfig) {
    NormalizeAppConfig(NormalizeAppConfig(app)) == NormalizeAppConfig(app)
  }

  ghost predicate AllStable(apps: seq<AppConfig>) {
    forall app :: app in apps ==> Stable(app)
  }

  lemma LowerKeepsTrim(s: string)
    ensures Trimmed(s) ==> Trimmed(ToLower(s))
    ensures ToLower(ToLower(s)) == ToLower(s)
  {
  }

  /** A provider is normal after one round. */
  lemma ProviderIsStable(s: string)
    ensures ToLower(TrimSpace(ToLower(TrimSpace(s)))) == ToLower(TrimSpace(s))
  {
    TrimSpaceIsTrimmed(s);
    LowerKeepsTrim(TrimSpace(s));
    TrimSpaceFixedIff(ToLower(TrimSpace(s)));
  }

  lemma UrlIsStableIff(s: string)
    ensures var once := TrimRightChar(TrimSpace(s), '/');
      TrimRightChar(TrimSpace(once), '/') == once <==> Trimmed(once)
  {
    var once := TrimRightChar(TrimSpace(s), '/');
    TrimRightCharFacts(TrimSpace(s), '/');
    TrimSpaceFixedIff(once);
    TrimRightCharFacts(TrimSpace(once), '/');
    TrimLeftFacts(once);
    TrimRightFacts(TrimLeft(once));
    if TrimRightChar(TrimSpace(once), '/') == once {
      assert |TrimSpace(once)| == |once|;
    }
  }

  /** Only the instance URL can keep changing: what is left without its slashes must not end in white space. */
  lemma StableIff(app: AppConfig)
    ensures Stable(app) <==> Trimmed(TrimRightChar(TrimSpace(app.instanceUrl), '/'))
  {
    ProviderIsStable(app.provider);
    TrimSpaceIdempotent(app.name);
    TrimSpaceIdempotent(app.clientId);
    TrimSpaceIdempotent(app.clientSecret);
    TrimSpaceIdempotent(app.redirectUri);
    UrlIsStableIff(app.instanceUrl);
  }

  // ----- merging in two steps -----

  /** The entry of the base is replaced: it is the last of its key, and some override has the key. */
  ghost predicate Overridden(base: seq<AppConfig>, overrides: seq<AppConfig>, i: nat)
    requires i < |base|
  {
    IsReplaced(NormalizeAll(base), NormalizeAll(overrides), AppConfigMergeKey, i)
  }

  ghost predicate IsLastOfItsKey(apps: seq<AppConfig>, j: nat)
    requires j < |apps|
  {
    LastWithKey(NormalizeAll(apps), AppConfigMergeKey(NormalizeAppConfig(apps[j])), AppConfigMergeKey) == j
  }

  /** Everything that a merge of the two lists keeps is stable. */
  ghost predicate SurvivorsStable(base: seq<AppConfig>, overrides: seq<AppConfig>) {
    && (forall i :: 0 <= i < |base| && !Overridden(base, overrides, i) ==> Stable(base[i]))
    && (forall j :: 0 <= j < |overrides| && IsLastOfItsKey(overrides, j) ==> Stable(overrides[j]))
  }

  lemma SurvivorsStableIsSettled(base: seq<AppConfig>, overrides: seq<AppConfig>)
    ensures SurvivorsStable(base, overrides) <==> SurvivorsSettled(base, overrides, NormalizeAppConfig, AppConfigMergeKey)
  {
    var bases, others := NormalizeAll(base), NormalizeAll(overrides);
    assert forall i :: 0 <= i < |base| ==> (Stable(base[i]) <==> NormalizeAppConfig(bases[i]) == bases[i]);
    assert forall j :: 0 <= j < |overrides| ==> (Stable(overrides[j]) <==> NormalizeAppConfig(others[j]) == others[j]);
  }

  /**
   Merging overrides in two steps is merging them in one, whatever the second step adds and however keys
   repeat, exactly when everything that the first step keeps is left alone by a second normalisation.
   */
  lemma MergeInTwoStepsIff(base: seq<AppConfig>, first: seq<AppConfig>)
    ensures (forall second :: Merged(Merged(base, first), second) == Merged(base, first + second)) <==> SurvivorsStable(base, first)
  {
    SurvivorsStableIsSettled(base, first);
    TwoStepsIff(base, first, NormalizeAppConfig, AppConfigMergeKey);
  }

  lemma MergeInTwoSteps(base: seq<AppConfig>, first: seq<AppConfig>, second: seq<AppConfig>)
    requires SurvivorsStable(base, first)
    ensures Merged(Merged(base, first), second) == Merged(base, first + second)
  {
    MergeInTwoStepsIff(base, first);
  }

  /** An app whose URL keeps a blank once the slash behind it is gone. */
  function BlankBeforeSlash(provider: string): AppConfig {
    AppConfig(provider, "", "", "", "", "a /")
  }

  lemma BlankBeforeSlashUrl()
    ensures TrimRightChar(TrimSpace("a /"), '/') == "a " && !Trimmed("a ")
  {
    TrimSpaceFixedIff("a /");
    assert "a /"[..2] == "a ";
  }

  /** The instance URL "a /": normalising it twice differs from once, and so does merging nothing twice. */
  lemma UnstableUrlBreaksTwoSteps(provider: string)
    ensures !Stable(BlankBeforeSlash(provider))
    ensures var base := [BlankBeforeSlash(provider)];
      Merged(Merged(base, []), []) != Merged(base, [])
  {
    var app := BlankBeforeSlash(provider);
    BlankBeforeSlashUrl();
    StableIff(app);
    MergeNothingTwiceIff([app]);
    assert app in [app];
  }

  lemma StableIsSettled(apps: seq<AppConfig>)
    ensures SettledBy(NormalizeAppConfig, apps) <==> AllStable(apps)
  {
  }

  /** The condition is needed: merging nothing into a merged base changes nothing exactly for a stable base. */
  lemma MergeNothingTwiceIff(base: seq<AppConfig>)
    ensures Merged(Merged(base, []), []) == Merged(base, []) <==> AllStable(base)
  {
    StableIsSettled(base);
    MergeNothingTwice(base, NormalizeAppConfig, AppConfigMergeKey);
  }

  // ----- which entry wins -----

  /**
   The base keeps its order and positions. An entry of the base is replaced exactly when it is the last
   one of its key and some override has the key, and then by the last such override.
   */
  lemma LastOverrideWins(base: seq<AppConfig>, overrides: seq<AppConfig>, i: nat)
    requires i < |base|
    ensures |Merged(base, overrides)| >= |base|
    ensures var app := NormalizeAppConfig(base[i]);
      var winner := LastWithKey(NormalizeAll(overrides), AppConfigMergeKey(app), AppConfigMergeKey);
      Merged(base, overrides)[i] ==
        if winner >= 0 && LastWithKey(NormalizeAll(base), AppConfigMergeKey(app), AppConfigMergeKey) == i
        then NormalizeAppConfig(overrides[winner]) else app
  {
    BasePositions(NormalizeAll(base), NormalizeAll(overrides), AppConfigMergeKey, i);
  }

  /**
   Whatever comes behind the base has a key that neither the base nor another entry there has, and is the
   last override of that key.
   */
  lemma NewKeysAreAppended(base: seq<AppConfig>, overrides: seq<AppConfig>, i: nat)
    requires |base| <= i < |Merged(base, overrides)|
    ensures forall j :: |base| <= j < i ==>
      AppConfigMergeKey(Merged(base, overrides)[j]) != AppConfigMergeKey(Merged(base, overrides)[i])
    ensures var app := Merged(base, overrides)[i];
      var winner := LastWithKey(NormalizeAll(overrides), AppConfigMergeKey(app), AppConfigMergeKey);
      && LastWithKey(NormalizeAll(base), AppConfigMergeKey(app), AppConfigMergeKey) < 0
      && winner >= 0 && app == NormalizeAppConfig(overrides[winner])
  {
    AppendedEntries(NormalizeAll(base), NormalizeAll(overrides), AppConfigMergeKey, i);
  }

  /** New keys stand in the order in which the overrides first mention them. */
  lemma NewKeysInOrder(base: seq<AppConfig>, overrides: seq<AppConfig>, i: nat, j: nat)
    requires |base| <= i < j < |Merged(base, overrides)|
    ensures var others := NormalizeAll(overrides);
      FirstWithKey(others, AppConfigMergeKey(Merged(base, overrides)[i]), AppConfigMergeKey) <
      FirstWithKey(others, AppConfigMergeKey(Merged(base, overrides)[j]), AppConfigMergeKey) < |overrides|
  {
    BaseExact(NormalizeAll(base), AppConfigMergeKey);
    NewKeysInFirstOrder(AddAllBase(NormalizeAll(base), AppConfigMergeKey), NormalizeAll(overrides), AppConfigMergeKey, i, j);
  }
}
