/**
  The object model of modules/repoparser.py (`AppVersion`, `App`, `Source`) and
  the raw JSON documents their `from_dict` class methods read.
*/
module Records {
  import opened Wrappers
  import opened Exceptions
  import opened Timestamps

  // ---------------------------------------------------------------------------
  // Raw JSON documents
  // ---------------------------------------------------------------------------

  /**
    One key of a JSON object: missing, present with `null`, or present with a
    value. The source treats the three differently: `data.get(k, d)` yields `d`
    only for a missing key, `data[k]` raises KeyError only for a missing key,
    and `not data.get(k)` holds for a missing key, for `null` and for an empty
    value.
  */
  datatype Field<+T> = Absent | Null | Present(value: T)

  /** `data.get(key)` */
  function Get<T>(f: Field<T>): (r: Option<T>)
    ensures r.Some? <==> f.Present?
    ensures r.Some? ==> r.value == f.value
  {
    if f.Present? then Some(f.value) else None
  }

  /** `data.get(key, default)`: the default only for a missing key, `None` for `null`. */
  function GetOr<T>(f: Field<T>, default: Option<T>): (r: Option<T>)
    ensures f.Absent? ==> r == default
    ensures f.Null? ==> r.None?
    ensures f.Present? ==> r == Some(f.value)
  {
    match f
    case Absent => default
    case Null => None
    case Present(v) => Some(v)
  }

  /** `data[key]` */
  function Index<T>(f: Field<T>, key: string): (r: Result<Option<T>, PyError>)
    ensures r.Err? <==> f.Absent?
    ensures r.Err? ==> r.error == KeyError(key)
    ensures r.Ok? ==> r.value == Get(f)
  {
    match f
    case Absent => Err(KeyError(key))
    case Null => Ok(None)
    case Present(v) => Ok(Some(v))
  }

  /** A string key that Python finds true: present, not `null`, not empty. */
  predicate TruthyString(f: Field<string>) {
    f.Present? && f.value != ""
  }

  /** A list key that Python finds true: present, not `null`, not empty. */
  predicate TruthyList<T>(f: Field<seq<T>>) {
    f.Present? && f.value != []
  }

  datatype Screenshot = Screenshot(imageUrl: string, width: Option<int>, height: Option<int>)

  datatype Permissions = Permissions(entitlements: seq<string>, privacy: map<string, string>)

  datatype Patreon = Patreon(pledge: Option<int>, currency: Option<string>, benefit: Option<string>, tiers: Option<seq<string>>)

  datatype News = News(
    title: string, identifier: string, caption: string, date: string, tintColor: Option<string>,
    imageUrl: Option<string>, notify: Option<bool>, url: Option<string>, appId: Option<string>)

  /** One entry of an app's `versions` list. */
  datatype RawVersion = RawVersion(
    version: Field<string>,
    buildVersion: Field<string>,
    marketingVersion: Field<string>,
    date: Field<string>,
    localizedDescription: Field<string>,
    downloadUrl: Field<string>,
    size: Field<int>,
    assetUrls: Field<map<string, string>>,
    minOsVersion: Field<string>,
    maxOsVersion: Field<string>)

  /** One entry of a source's `apps` list; `isPal` is the opaque `is_pal` flag. */
  datatype RawApp = RawApp(
    name: Field<string>,
    bundleIdentifier: Field<string>,
    marketplaceId: Field<string>,
    developerName: Field<string>,
    subtitle: Field<string>,
    localizedDescription: Field<string>,
    iconUrl: Field<string>,
    tintColor: Field<string>,
    category: Field<string>,
    screenshots: Field<seq<Screenshot>>,
    versions: Field<seq<RawVersion>>,
    appPermissions: Field<Permissions>,
    patreon: Field<Patreon>,
    isPal: bool)

  /** A whole source document. */
  datatype RawSource = RawSource(
    name: Field<string>,
    subtitle: Field<string>,
    description: Field<string>,
    iconUrl: Field<string>,
    headerUrl: Field<string>,
    website: Field<string>,
    fediUsername: Field<string>,
    patreonUrl: Field<string>,
    tintColor: Field<string>,
    featuredApps: Field<seq<string>>,
    apps: Field<seq<RawApp>>,
    news: Field<seq<News>>)

  // ---------------------------------------------------------------------------
  // The object model
  // ---------------------------------------------------------------------------

  /** `AppVersion` (modules/repoparser.py:55-78); `None` wherever the document had `null`. */
  datatype AppVersion = AppVersion(
    version: Option<string>,
    buildVersion: Option<string>,
    marketingVersion: Option<string>,
    date: DateTime,
    localizedDescription: Option<string>,
    downloadUrl: Option<string>,
    size: Option<int>,
    assetUrls: Option<map<string, string>>,
    minOsVersion: Option<string>,
    maxOsVersion: Option<string>)

  /**
    `App` (modules/repoparser.py:110-139). `storedVersions` is `_versions`, the
    versions as the document lists them; `isPal` is the flag `main` reads as
    `app.is_pal`.
  */
  datatype App = App(
    name: Option<string>,
    bundleIdentifier: string,
    marketplaceId: Option<string>,
    developerName: Option<string>,
    subtitle: Option<string>,
    localizedDescription: Option<string>,
    iconUrl: string,
    tintColor: Option<string>,
    category: Option<string>,
    screenshots: Option<seq<Screenshot>>,
    storedVersions: seq<AppVersion>,
    appPermissions: Option<Permissions>,
    patreon: Option<Patreon>,
    isPal: bool)

  /** `Source` (modules/repoparser.py:199-226). */
  datatype Source = Source(
    name: Option<string>,
    subtitle: Option<string>,
    description: Option<string>,
    iconUrl: Option<string>,
    headerUrl: Option<string>,
    website: Option<string>,
    fediUsername: Option<string>,
    patreonUrl: Option<string>,
    tintColor: Option<string>,
    featuredApps: Option<seq<string>>,
    apps: seq<App>,
    news: Option<seq<News>>)
}
