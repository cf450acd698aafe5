/**
  Construction of the object model from JSON documents
  (modules/repoparser.py): `AppVersion.from_dict`, `App.from_dict` and
  `Source.from_dict`. Each either builds its object or raises; a raise is an
  `Err` carrying the Python exception, and the first raise in evaluation order
  is the one reported.
*/
module RepoParser {
  import opened Wrappers
  import opened Exceptions
  import opened Timestamps
  import opened Records

  // ---------------------------------------------------------------------------
  // AppVersion.from_dict
  // ---------------------------------------------------------------------------

  /**
    `AppVersion.from_dict`: `version`, `date`, `downloadURL` and `size` are
    required keys (looked up in that order), `date` must be a string some
    parser of the timestamp chain accepts, and every other key is optional.
  */
  function VersionFromDict(cal: Calendar, raw: RawVersion): (r: Result<AppVersion, PyError>)
    ensures r.Ok? <==>
      && !raw.version.Absent? && raw.date.Present? && !raw.downloadUrl.Absent? && !raw.size.Absent?
      && NormalizedTimestamp(cal, raw.date.value).Ok?
    ensures raw.version.Absent? ==> r == Err(KeyError("version"))
    ensures !raw.version.Absent? && raw.date.Absent? ==> r == Err(KeyError("date"))
    ensures !raw.version.Absent? && raw.date.Null? ==> r == Err(TypeError)
    ensures !raw.version.Absent? && raw.date.Present? && NormalizedTimestamp(cal, raw.date.value).Err?
            ==> r == Err(ValueError)
    ensures !raw.version.Absent? && raw.date.Present? && NormalizedTimestamp(cal, raw.date.value).Ok?
            && raw.downloadUrl.Absent?
            ==> r == Err(KeyError("downloadURL"))
    ensures !raw.version.Absent? && raw.date.Present? && NormalizedTimestamp(cal, raw.date.value).Ok?
            && !raw.downloadUrl.Absent? && raw.size.Absent?
            ==> r == Err(KeyError("size"))
    ensures r.Ok? ==> r.value.date == NormalizedTimestamp(cal, raw.date.value).value && r.value.date.tz == NewYork
    ensures r.Ok? ==> && r.value.version == Get(raw.version)
                      && r.value.downloadUrl == Get(raw.downloadUrl)
                      && r.value.size == Get(raw.size)
    ensures r.Ok? ==> && r.value.buildVersion == Get(raw.buildVersion)
                      && r.value.marketingVersion == Get(raw.marketingVersion)
                      && r.value.localizedDescription == Get(raw.localizedDescription)
                      && r.value.assetUrls == Get(raw.assetUrls)
                      && r.value.minOsVersion == Get(raw.minOsVersion)
                      && r.value.maxOsVersion == Get(raw.maxOsVersion)
    ensures r.Err? ==> r.error.KeyError? || r.error == TypeError || r.error == ValueError
  {
    var version :- Index(raw.version, "version");
    var dateText :- Index(raw.date, "date");
    // `datetime.fromisoformat(None)` raises TypeError, which nothing suppresses
    var date :- if dateText.None? then Err(TypeError) else NormalizedTimestamp(cal, dateText.value);
    var downloadUrl :- Index(raw.downloadUrl, "downloadURL");
    var size :- Index(raw.size, "size");
    Ok(AppVersion(
      version, Get(raw.buildVersion), Get(raw.marketingVersion), date,
      Get(raw.localizedDescription), downloadUrl, size, Get(raw.assetUrls),
      Get(raw.minOsVersion), Get(raw.maxOsVersion)))
  }

  /**
    The list comprehension over an app's `versions`: every entry is converted,
    in order, and the first entry that raises aborts the whole list.
  */
  function ParseVersions(cal: Calendar, raws: seq<RawVersion>): (r: Result<seq<AppVersion>, PyError>)
    ensures r.Err? ==> r.error.KeyError? || r.error == TypeError || r.error == ValueError
  {
    if raws == [] then Ok([])
    else
      var first :- VersionFromDict(cal, raws[0]);
      var rest :- ParseVersions(cal, raws[1..]);
      Ok([first] + rest)
  }

  /**
    `ParseVersions` succeeds exactly when every entry converts, and then holds
    the converted entries one for one; otherwise it reports the error of the
    first entry that does not convert.
  */
  lemma ParseVersionsSpec(cal: Calendar, raws: seq<RawVersion>)
    ensures var r := ParseVersions(cal, raws);
      && (r.Ok? <==> forall k :: 0 <= k < |raws| ==> VersionFromDict(cal, raws[k]).Ok?)
      && (r.Ok? ==> |r.value| == |raws|
                    && forall k :: 0 <= k < |raws| ==> VersionFromDict(cal, raws[k]) == Ok(r.value[k]))
      && (r.Err? ==> exists k :: 0 <= k < |raws| && VersionFromDict(cal, raws[k]) == Err(r.error)
                       && forall j :: 0 <= j < k ==> VersionFromDict(cal, raws[j]).Ok?)
  {
    ParseVersionsOk(cal, raws);
    var r := ParseVersions(cal, raws);
    if r.Ok? {
      ParseVersionsEach(cal, raws);
    } else {
      ParseVersionsError(cal, raws);
    }
  }

  /** Every entry of `raws` converts. */
  predicate AllConvert(cal: Calendar, raws: seq<RawVersion>) {
    forall k :: 0 <= k < |raws| ==> VersionFromDict(cal, raws[k]).Ok?
  }

  /** `vs` is `raws` converted entry by entry. */
  predicate ConvertedVersions(cal: Calendar, raws: seq<RawVersion>, vs: seq<AppVersion>) {
    |vs| == |raws| && forall k :: 0 <= k < |raws| ==> VersionFromDict(cal, raws[k]) == Ok(vs[k])
  }

  /** The version list converts exactly when every entry does. */
  lemma {:induction false} ParseVersionsOk(cal: Calendar, raws: seq<RawVersion>)
    ensures ParseVersions(cal, raws).Ok? <==> AllConvert(cal, raws)
  {
    if raws != [] {
      assert forall k :: 1 <= k < |raws| ==> raws[k] == raws[1..][k - 1];
      assert AllConvert(cal, raws) <==> VersionFromDict(cal, raws[0]).Ok? && AllConvert(cal, raws[1..]);
      ParseVersionsOk(cal, raws[1..]);
    }
  }

  /** A converted list holds the converted entries one for one. */
  lemma {:induction false} ParseVersionsEach(cal: Calendar, raws: seq<RawVersion>)
    requires ParseVersions(cal, raws).Ok?
    ensures ConvertedVersions(cal, raws, ParseVersions(cal, raws).value)
  {
    if raws != [] {
      var rest := ParseVersions(cal, raws[1..]);
      ParseVersionsEach(cal, raws[1..]);
      var vs := ParseVersions(cal, raws).value;
      assert vs == [VersionFromDict(cal, raws[0]).value] + rest.value;
      forall k | 0 <= k < |raws| ensures VersionFromDict(cal, raws[k]) == Ok(vs[k]) {
        if k > 0 {
          assert raws[k] == raws[1..][k - 1] && vs[k] == rest.value[k - 1];
        }
      }
    }
  }

  /** The first `k` entries of `raws` convert. */
  predicate ConvertBefore(cal: Calendar, raws: seq<RawVersion>, k: int) {
    forall j :: 0 <= j < k && j < |raws| ==> VersionFromDict(cal, raws[j]).Ok?
  }

  /** `e` is the error of the first entry of `raws` that does not convert. */
  predicate FirstBadVersion(cal: Calendar, raws: seq<RawVersion>, e: PyError) {
    exists k :: 0 <= k < |raws| && VersionFromDict(cal, raws[k]) == Err(e) && ConvertBefore(cal, raws, k)
  }

  /** A failed list reports the error of its first entry that does not convert. */
  lemma {:induction false} ParseVersionsError(cal: Calendar, raws: seq<RawVersion>)
    requires ParseVersions(cal, raws).Err?
    ensures FirstBadVersion(cal, raws, ParseVersions(cal, raws).error)
  {
    var e := ParseVersions(cal, raws).error;
    if VersionFromDict(cal, raws[0]).Err? {
      assert VersionFromDict(cal, raws[0]) == Err(e) && ConvertBefore(cal, raws, 0);
    } else {
      var tail := raws[1..];
      assert ParseVersions(cal, tail).Err? && ParseVersions(cal, tail).error == e;
      ParseVersionsError(cal, tail);
      FirstBadShift(cal, raws, e);
    }
  }

  /** Behind an entry that converts, the first failure of the rest is the first failure. */
  lemma FirstBadShift(cal: Calendar, raws: seq<RawVersion>, e: PyError)
    requires raws != [] && VersionFromDict(cal, raws[0]).Ok?
    requires FirstBadVersion(cal, raws[1..], e)
    ensures FirstBadVersion(cal, raws, e)
  {
    var tail := raws[1..];
    var k :| 0 <= k < |tail| && VersionFromDict(cal, tail[k]) == Err(e) && ConvertBefore(cal, tail, k);
    assert forall j :: 1 <= j < |raws| ==> raws[j] == tail[j - 1];
    assert ConvertBefore(cal, raws, k + 1);
    assert VersionFromDict(cal, raws[k + 1]) == Err(e);
  }

  // ---------------------------------------------------------------------------
  // App.from_dict
  // ---------------------------------------------------------------------------

  /** A bundle identifier Python finds true: present, not `null`, not empty. */
  predicate ValidBundle(raw: RawApp) {
    TruthyString(raw.bundleIdentifier)
  }

  /** The permissions `App.from_dict` assumes when the key is missing. */
  const DefaultPermissions: Permissions := Permissions([], map[])

  /**
    `App.from_dict`. A falsy bundle identifier raises
    InvalidBundleIdentifierError, unless the error message's own lookup of
    `name` raises KeyError first; otherwise the keyword arguments are evaluated
    in order, with `iconURL` required and `versions` converted entry by entry.
    `iconFallback` is `constants.ICON_URL`.
  */
  function AppFromDict(cal: Calendar, iconFallback: string, raw: RawApp): (r: Result<App, PyError>)
    ensures r == Err(InvalidBundleIdentifierError) <==> !ValidBundle(raw) && !raw.name.Absent?
    ensures !ValidBundle(raw) ==> r.Err?
    ensures r.Ok? ==> r.value.bundleIdentifier == raw.bundleIdentifier.value && r.value.bundleIdentifier != ""
    ensures r.Ok? ==> r.value.isPal == raw.isPal
    ensures r.Err? ==> r.error != InvalidAppsError
  {
    if !ValidBundle(raw) then
      if raw.name.Absent? then Err(KeyError("name")) else Err(InvalidBundleIdentifierError)
    else
      var name :- Index(raw.name, "name");
      var iconUrl :- Index(raw.iconUrl, "iconURL");
      var versions :- match raw.versions
        case Absent => Ok([])
        case Null => Err(TypeError)   // iterating over None
        case Present(vs) => ParseVersions(cal, vs);
      Ok(App(
        name,
        raw.bundleIdentifier.value,
        Get(raw.marketplaceId),
        GetOr(raw.developerName, Some("Unknown")),
        Get(raw.subtitle),
        GetOr(raw.localizedDescription, name),
        if iconUrl.None? || iconUrl.value == "" then iconFallback else iconUrl.value,
        Get(raw.tintColor),
        Get(raw.category),
        Get(raw.screenshots),
        versions,
        GetOr(raw.appPermissions, Some(DefaultPermissions)),
        Get(raw.patreon),
        raw.isPal))
  }

  /**
    `App.from_dict` succeeds exactly when the bundle identifier is valid, `name`
    and `iconURL` are present, `versions` is not `null`, and every listed
    version converts.
  */
  lemma AppFromDictOk(cal: Calendar, iconFallback: string, raw: RawApp)
    ensures AppFromDict(cal, iconFallback, raw).Ok? <==>
      && ValidBundle(raw) && !raw.name.Absent? && !raw.iconUrl.Absent? && !raw.versions.Null?
      && (raw.versions.Present? ==>
            forall k :: 0 <= k < |raw.versions.value| ==> VersionFromDict(cal, raw.versions.value[k]).Ok?)
  {
    if raw.versions.Present? {
      ParseVersionsSpec(cal, raw.versions.value);
    }
  }

  /**
    The fields `App.from_dict` fills in: each optional field is the key's value
    or `None`; developer "Unknown", the app's name as its description and empty
    permissions only when the key is missing (a `null` stays `None`);
    `constants.ICON_URL` for a `null` or empty icon; and `_versions` holds the
    listed versions one for one.
  */
  lemma AppFromDictDefaults(cal: Calendar, iconFallback: string, raw: RawApp)
    requires AppFromDict(cal, iconFallback, raw).Ok?
    ensures var app := AppFromDict(cal, iconFallback, raw).value;
      && app.name == Get(raw.name)
      && app.marketplaceId == Get(raw.marketplaceId)
      && app.developerName == GetOr(raw.developerName, Some("Unknown"))
      && app.subtitle == Get(raw.subtitle)
      && app.localizedDescription == GetOr(raw.localizedDescription, app.name)
      && app.tintColor == Get(raw.tintColor)
      && app.category == Get(raw.category)
      && app.screenshots == Get(raw.screenshots)
      && app.appPermissions == GetOr(raw.appPermissions, Some(DefaultPermissions))
      && app.patreon == Get(raw.patreon)
      && (raw.iconUrl.Null? || raw.iconUrl == Present("") ==> app.iconUrl == iconFallback)
      && (TruthyString(raw.iconUrl) ==> app.iconUrl == raw.iconUrl.value)
      && (raw.versions.Absent? ==> app.storedVersions == [])
      && (raw.versions.Present? ==>
            |app.storedVersions| == |raw.versions.value|
            && forall k :: 0 <= k < |raw.versions.value| ==>
                 VersionFromDict(cal, raw.versions.value[k]) == Ok(app.storedVersions[k]))
  {
    if raw.versions.Present? {
      ParseVersionsSpec(cal, raw.versions.value);
    }
  }

  /**
    The errors of `App.from_dict`, in the order its arguments are evaluated: a
    missing `name` raises KeyError whatever else is wrong; then, with a valid
    bundle identifier, a missing `iconURL` raises KeyError, a `null`
    `versions` TypeError, and otherwise the first version that does not
    convert decides the error.
  */
  lemma AppFromDictErrors(cal: Calendar, iconFallback: string, raw: RawApp)
    ensures var r := AppFromDict(cal, iconFallback, raw);
      && (raw.name.Absent? ==> r == Err(KeyError("name")))
      && (ValidBundle(raw) && !raw.name.Absent? ==>
            && (raw.iconUrl.Absent? ==> r == Err(KeyError("iconURL")))
            && (!raw.iconUrl.Absent? && raw.versions.Null? ==> r == Err(TypeError))
            && (!raw.iconUrl.Absent? && raw.versions.Present? && !AllConvert(cal, raw.versions.value) ==>
                  r.Err? && FirstBadVersion(cal, raw.versions.value, r.error)))
  {
    if raw.versions.Present? {
      ParseVersionsOk(cal, raw.versions.value);
      if ParseVersions(cal, raw.versions.value).Err? {
        ParseVersionsError(cal, raw.versions.value);
      }
    }
  }

  /** Every date of a built app is in LOCAL_TZ, so the app's dates compare by wall clock. */
  lemma AppDatesLocal(cal: Calendar, iconFallback: string, raw: RawApp)
    requires AppFromDict(cal, iconFallback, raw).Ok?
    ensures forall x :: x in AppFromDict(cal, iconFallback, raw).value.storedVersions ==> x.date.tz == NewYork
  {
    var app := AppFromDict(cal, iconFallback, raw).value;
    AppFromDictDefaults(cal, iconFallback, raw);
    forall x | x in app.storedVersions ensures x.date.tz == NewYork {
      var k :| 0 <= k < |app.storedVersions| && app.storedVersions[k] == x;
      assert VersionFromDict(cal, raw.versions.value[k]) == Ok(x);
    }
  }

  /** A single version whose date no parser accepts aborts the whole app. */
  lemma BadVersionAbortsApp(cal: Calendar, iconFallback: string, raw: RawApp, k: nat)
    requires raw.versions.Present? && k < |raw.versions.value|
    requires raw.versions.value[k].date.Present?
    requires NormalizedTimestamp(cal, raw.versions.value[k].date.value).Err?
    ensures AppFromDict(cal, iconFallback, raw).Err?
  {
    AppFromDictOk(cal, iconFallback, raw);
  }

  // ---------------------------------------------------------------------------
  // Source.from_dict
  // ---------------------------------------------------------------------------

  /** An app entry whose conversion `Source.from_dict` lets through: it succeeded or was suppressed. */
  predicate Survives(r: Result<App, PyError>) {
    r.Ok? || r == Err(InvalidBundleIdentifierError)
  }

  /**
    The loop of `Source.from_dict` over the first entries of `apps`:
    InvalidBundleIdentifierError is suppressed and drops the entry, any other
    error ends the loop.
  */
  function ParseApps(cal: Calendar, iconFallback: string, raws: seq<RawApp>): (r: Result<seq<App>, PyError>)
    ensures r.Err? ==> r.error != InvalidBundleIdentifierError && r.error != InvalidAppsError
  {
    if raws == [] then Ok([])
    else
      var apps :- ParseApps(cal, iconFallback, raws[..|raws| - 1]);
      match AppFromDict(cal, iconFallback, raws[|raws| - 1])
      case Ok(app) => Ok(apps + [app])
      case Err(e) => if e == InvalidBundleIdentifierError then Ok(apps) else Err(e)
  }

  /** The entries of `raws` with a valid bundle identifier, in their order. */
  function WithValidBundle(raws: seq<RawApp>): (r: seq<RawApp>)
    ensures forall x :: x in r <==> x in raws && ValidBundle(x)
    ensures (forall x :: x in raws ==> !ValidBundle(x)) ==> r == []
  {
    if raws == [] then []
    else
      var init := WithValidBundle(raws[..|raws| - 1]);
      var last := raws[|raws| - 1];
      assert forall x :: x in raws <==> x in raws[..|raws| - 1] || x == last;
      if ValidBundle(last) then init + [last] else init
  }

  /**
    The filter keeps the input order: it distributes over concatenation, so
    with `WithValidBundle([x])` being `[x]` or `[]` it is the order-preserving
    subsequence of the entries with a valid bundle identifier.
  */
  lemma {:induction false} WithValidBundleAppend(a: seq<RawApp>, b: seq<RawApp>)
    ensures WithValidBundle(a + b) == WithValidBundle(a) + WithValidBundle(b)
    decreases |b|
  {
    if b == [] {
      assert a + b == a;
    } else {
      var n := |b| - 1;
      assert (a + b)[..|a + b| - 1] == a + b[..n];
      assert (a + b)[|a + b| - 1] == b[n];
      WithValidBundleAppend(a, b[..n]);
    }
  }

  /** A single entry is kept exactly when its bundle identifier is valid. */
  lemma WithValidBundleOne(x: RawApp)
    ensures WithValidBundle([x]) == if ValidBundle(x) then [x] else []
  {
    assert [x][..0] == [];
  }

  /** Every entry of `raws` survives its conversion. */
  predicate AllSurvive(cal: Calendar, iconFallback: string, raws: seq<RawApp>) {
    forall k :: 0 <= k < |raws| ==> Survives(AppFromDict(cal, iconFallback, raws[k]))
  }

  /** `apps` is `kept` converted entry by entry. */
  predicate ConvertedFrom(cal: Calendar, iconFallback: string, kept: seq<RawApp>, apps: seq<App>) {
    |apps| == |kept| && forall k :: 0 <= k < |kept| ==> AppFromDict(cal, iconFallback, kept[k]) == Ok(apps[k])
  }

  /** `e` is the error of the first entry of `raws` that does not survive. */
  predicate FirstFailure(cal: Calendar, iconFallback: string, raws: seq<RawApp>, e: PyError) {
    && e != InvalidBundleIdentifierError
    && exists k :: 0 <= k < |raws| && AppFromDict(cal, iconFallback, raws[k]) == Err(e) && AllSurvive(cal, iconFallback, raws[..k])
  }

  /** The loop completes exactly when every entry succeeds or is suppressed. */
  lemma {:induction false} ParseAppsOk(cal: Calendar, iconFallback: string, raws: seq<RawApp>)
    ensures ParseApps(cal, iconFallback, raws).Ok? <==> AllSurvive(cal, iconFallback, raws)
  {
    if raws != [] {
      var n := |raws| - 1;
      var init := raws[..n];
      assert forall k :: 0 <= k < n ==> raws[k] == init[k];
      assert AllSurvive(cal, iconFallback, raws)
        <==> AllSurvive(cal, iconFallback, init) && Survives(AppFromDict(cal, iconFallback, raws[n]));
      ParseAppsOk(cal, iconFallback, init);
    }
  }

  /** A completed loop holds exactly the entries with a valid bundle identifier, converted, in order. */
  lemma {:induction false} ParseAppsKept(cal: Calendar, iconFallback: string, raws: seq<RawApp>)
    requires ParseApps(cal, iconFallback, raws).Ok?
    ensures ConvertedFrom(cal, iconFallback, WithValidBundle(raws), ParseApps(cal, iconFallback, raws).value)
  {
    if raws != [] {
      var n := |raws| - 1;
      var init := raws[..n];
      var kept := WithValidBundle(init);
      assert WithValidBundle(raws) == if ValidBundle(raws[n]) then kept + [raws[n]] else kept;
      ParseAppsKept(cal, iconFallback, init);
    }
  }

  /** A failed loop reports the first error other than InvalidBundleIdentifierError. */
  lemma {:induction false} ParseAppsError(cal: Calendar, iconFallback: string, raws: seq<RawApp>)
    requires ParseApps(cal, iconFallback, raws).Err?
    ensures FirstFailure(cal, iconFallback, raws, ParseApps(cal, iconFallback, raws).error)
  {
    var n := |raws| - 1;
    var init := raws[..n];
    var prefix := ParseApps(cal, iconFallback, init);
    if prefix.Err? {
      ParseAppsError(cal, iconFallback, init);
      var k :| 0 <= k < |init| && AppFromDict(cal, iconFallback, init[k]) == Err(prefix.error)
               && AllSurvive(cal, iconFallback, init[..k]);
      assert raws[k] == init[k] && raws[..k] == init[..k];
    } else {
      ParseAppsOk(cal, iconFallback, init);
      assert raws[..n] == init;
      assert AppFromDict(cal, iconFallback, raws[n]) == Err(ParseApps(cal, iconFallback, raws).error);
    }
  }

  /**
    `Source.from_dict`: a falsy `apps` raises InvalidAppsError (or KeyError
    when the error message's lookup of `name` fails first); otherwise the apps
    loop runs, then `name` is required and `news` defaults to `[]`.
  */
  function ParseSource(cal: Calendar, iconFallback: string, raw: RawSource): (r: Result<Source, PyError>)
    ensures r.Ok? ==> TruthyList(raw.apps) && !raw.name.Absent? && r.value.name == Get(raw.name)
    ensures r.Err? ==> r.error != InvalidBundleIdentifierError
  {
    if !TruthyList(raw.apps) then
      if raw.name.Absent? then Err(KeyError("name")) else Err(InvalidAppsError)
    else
      var apps :- ParseApps(cal, iconFallback, raw.apps.value);
      var name :- Index(raw.name, "name");
      Ok(Source(
        name, Get(raw.subtitle), Get(raw.description), Get(raw.iconUrl), Get(raw.headerUrl),
        Get(raw.website), Get(raw.fediUsername), Get(raw.patreonUrl), Get(raw.tintColor),
        Get(raw.featuredApps), apps, GetOr(raw.news, Some([]))))
  }

  /**
    `Source.from_dict` raises InvalidAppsError exactly when `apps` is missing,
    `null` or empty and `name` is present; with a non-empty `apps` it succeeds
    exactly when the apps loop does and `name` is present, and then its apps
    are the loop's and a missing `news` becomes `[]`. When the loop fails,
    the failing app's error reaches the caller unchanged.
  */
  lemma ParseSourceSpec(cal: Calendar, iconFallback: string, raw: RawSource)
    ensures var r := ParseSource(cal, iconFallback, raw);
      && (r == Err(InvalidAppsError) <==> !TruthyList(raw.apps) && !raw.name.Absent?)
      && (!TruthyList(raw.apps) ==> r.Err?)
      && (TruthyList(raw.apps) ==>
            && (r.Ok? <==> ParseApps(cal, iconFallback, raw.apps.value).Ok? && !raw.name.Absent?)
            && (r.Ok? ==> r.value.apps == ParseApps(cal, iconFallback, raw.apps.value).value
                          && r.value.name == Get(raw.name)
                          && (raw.news.Absent? ==> r.value.news == Some([]))))
      && (raw.name.Absent? && (!TruthyList(raw.apps) || ParseApps(cal, iconFallback, raw.apps.value).Ok?) ==>
            r == Err(KeyError("name")))
      && (TruthyList(raw.apps) && ParseApps(cal, iconFallback, raw.apps.value).Err? ==>
            && r == Err(ParseApps(cal, iconFallback, raw.apps.value).error)
            && FirstFailure(cal, iconFallback, raw.apps.value, r.error))
      && (r.Ok? ==>
            && r.value.subtitle == Get(raw.subtitle)
            && r.value.description == Get(raw.description)
            && r.value.iconUrl == Get(raw.iconUrl)
            && r.value.headerUrl == Get(raw.headerUrl)
            && r.value.website == Get(raw.website)
            && r.value.fediUsername == Get(raw.fediUsername)
            && r.value.patreonUrl == Get(raw.patreonUrl)
            && r.value.tintColor == Get(raw.tintColor)
            && r.value.featuredApps == Get(raw.featuredApps)
            && r.value.news == GetOr(raw.news, Some([])))
  {
    if TruthyList(raw.apps) && ParseApps(cal, iconFallback, raw.apps.value).Err? {
      ParseAppsError(cal, iconFallback, raw.apps.value);
    }
  }

  /**
    The asymmetry between the two checks: a source that declares apps, none of
    which has a valid bundle identifier, is accepted with no apps, while a
    source declaring none is rejected.
  */
  lemma AllInvalidBundlesAccepted(cal: Calendar, iconFallback: string, raw: RawSource)
    requires TruthyList(raw.apps) && raw.name.Present?
    requires forall x :: x in raw.apps.value ==> !ValidBundle(x) && !x.name.Absent?
    ensures ParseSource(cal, iconFallback, raw).Ok?
    ensures ParseSource(cal, iconFallback, raw).value.apps == []
  {
    var raws := raw.apps.value;
    assert forall k :: 0 <= k < |raws| ==> raws[k] in raws;
    assert AllSurvive(cal, iconFallback, raws);
    ParseAppsOk(cal, iconFallback, raws);
    ParseAppsKept(cal, iconFallback, raws);
  }

  /**
    `Source.from_dict` as the loop the source writes: append every entry that
    converts, skip the ones that raise InvalidBundleIdentifierError, stop at
    any other error.
  */
  method SourceFromDict(cal: Calendar, iconFallback: string, raw: RawSource) returns (r: Result<Source, PyError>)
    ensures r == ParseSource(cal, iconFallback, raw)
  {
    if !TruthyList(raw.apps) {
      if raw.name.Absent? {
        return Err(KeyError("name"));
      }
      return Err(InvalidAppsError);
    }
    var raws := raw.apps.value;
    var apps: seq<App> := [];
    for i := 0 to |raws|
      invariant ParseApps(cal, iconFallback, raws[..i]) == Ok(apps)
    {
      var app := AppFromDict(cal, iconFallback, raws[i]);
      ParseAppsStep(cal, iconFallback, raws, i, apps);
      if app.Ok? {
        apps := apps + [app.value];
      } else if app.error != InvalidBundleIdentifierError {
        ParsePrefixError(cal, iconFallback, raws, i + 1);
        return Err(app.error);
      }
    }
    assert raws[..|raws|] == raws;
    var name := Index(raw.name, "name");
    if name.Err? {
      return Err(name.error);
    }
    r := Ok(Source(
      name.value, Get(raw.subtitle), Get(raw.description), Get(raw.iconUrl), Get(raw.headerUrl),
      Get(raw.website), Get(raw.fediUsername), Get(raw.patreonUrl), Get(raw.tintColor),
      Get(raw.featuredApps), apps, GetOr(raw.news, Some([]))));
  }

  /** One more entry through the loop: appended, suppressed, or the loop's error. */
  lemma ParseAppsStep(cal: Calendar, iconFallback: string, raws: seq<RawApp>, i: nat, apps: seq<App>)
    requires i < |raws|
    requires ParseApps(cal, iconFallback, raws[..i]) == Ok(apps)
    ensures ParseApps(cal, iconFallback, raws[..i + 1]) ==
      match AppFromDict(cal, iconFallback, raws[i])
      case Ok(app) => Ok(apps + [app])
      case Err(e) => if e == InvalidBundleIdentifierError then Ok(apps) else Err(e)
  {
    assert raws[..i + 1][..i] == raws[..i];
    assert raws[..i + 1][i] == raws[i];
  }

  /** Once the loop has failed on a prefix, it fails on the whole list with the same error. */
  lemma {:induction false} ParsePrefixError(cal: Calendar, iconFallback: string, raws: seq<RawApp>, i: nat)
    requires i <= |raws|
    requires ParseApps(cal, iconFallback, raws[..i]).Err?
    ensures ParseApps(cal, iconFallback, raws) == ParseApps(cal, iconFallback, raws[..i])
    decreases |raws| - i
  {
    if i < |raws| {
      assert raws[..i + 1][..i] == raws[..i];
      ParsePrefixError(cal, iconFallback, raws, i + 1);
    } else {
      assert raws[..i] == raws;
    }
  }
}
