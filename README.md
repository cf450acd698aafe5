# AioRepo normalisation and merge engine, in Dafny

AioRepo builds one "all-in-one" AltStore source by fetching many app-catalog
sources, parsing each JSON document into `Source`, `App` and `AppVersion`
objects, and merging every app of every source into a single catalog with one
app per bundle identifier. This project models the deterministic core of that
pipeline and proves what it promises:

- `Timestamps.dfy`: `format_timestamp`. It cleans a loosely written timestamp
  by stripping it, rewriting `Z` and splitting date from time. It zero-pads
  month and day and puts a colon into a trailing `+HHMM` offset. Then it
  falls back through three parsers and puts the result in America/New_York.
  The string rewriting is modelled character by character. The library
  parsers and the time-zone conversion are the uninterpreted functions of a
  `Calendar` value.
- `Records.dfy`: the raw JSON documents (every key is missing, `null` or
  present), the Python lookups `data.get(k)`, `data.get(k, d)` and `data[k]`,
  and the `AppVersion`, `App` and `Source` records.
- `AppVersions.dfy`: the `App` properties `versions`, `latest_version` and
  `last_updated`.
  - `versions` is modelled as a stable insertion sort by date, newest first,
    followed by the dictionary loop that keeps the first entry per version
    string.
  - That loop is a method proved against the specification function.
- `RepoParser.dfy`: `AppVersion.from_dict`, `App.from_dict` and
  `Source.from_dict`. Each raises or builds, and errors are values of
  `Exceptions.PyError`. The apps loop of `Source.from_dict` is a method
  proved against a recursive function.
- `Aggregator.dfy`: the parts of main.py after the network.
  - dropping the failed fetches;
  - concatenating all apps;
  - the `filtered_apps` merge loop (a map updated in place, plus its key
    insertion order);
  - the aggregate `Source` with its fixed metadata.

Times are compared through `DateTime.wall`, the wall-clock reading in
microseconds. Python orders two datetimes that share one `tzinfo` object by
wall clock, and every date `AppVersion.from_dict` produces is in LOCAL_TZ
(`RepoParser.AppDatesLocal`). `AppVersions` and `Aggregator` take apps as
given and compare `.wall` whatever the `tz` field says, so they assume their
input dates are in LOCAL_TZ, as every app `App.from_dict` builds is. The
epoch of `last_updated` is `Timestamps.Epoch`, 1969-12-31T19:00 New York
time.

Where the code and its informal description differ, the model follows the
code:

- `App.from_dict` and `Source.from_dict` build their error messages with
  `data['name']` (modules/repoparser.py:181, 247). An app that lacks `name`
  therefore raises `KeyError("name")`, not InvalidBundleIdentifierError, and
  so does a source that lacks `name` when its `apps` is falsy, instead of
  InvalidAppsError. A source with a truthy `apps` reads `name` only after the
  apps loop, so a failing loop raises its own error first. The apps loop
  does not suppress an app's KeyError, so it aborts the whole source.
- `App.from_dict` converts every listed version, so one version with an
  unparseable date, or with a missing `version`, `date`, `downloadURL` or
  `size`, aborts the whole app. Inside `Source.from_dict` it then aborts the
  whole source.
- `Source.from_dict` rejects a missing, `null` or empty `apps` list. A
  non-empty list whose entries all have invalid bundle identifiers is
  accepted, and the source then has no apps (`RepoParser.AllInvalidBundlesAccepted`).
- `replace("Z", "+00:00")` rewrites every `Z`, not only a trailing one.
- The offset pattern `([+-]\d{2})(\d{2})$` also matches just before a final
  newline, as Python's `$` does.

## Model

| member | source | states |
|---|---|---|
| Timestamps.Strip | modules/repoparser.py:18 | the result is the slice of the input left after removing the whitespace (Python's `isspace` set) before and after it, and it neither starts nor ends with whitespace; an all-whitespace input gives the empty string |
| Timestamps.StripUnchanged | modules/repoparser.py:18 | a string with no whitespace at either end is left as it is |
| Timestamps.ReplaceZ | modules/repoparser.py:18 | no `Z` survives the rewrite and the string never gets shorter |
| Timestamps.ReplaceZChar | modules/repoparser.py:18 | on one character, `Z` becomes `+00:00` and any other character stays |
| Timestamps.ReplaceZAt | modules/repoparser.py:18 | a `Z` anywhere, between any two strings, becomes `+00:00` and the rest is rewritten independently |
| Timestamps.ReplaceZAppend | modules/repoparser.py:18 | the rewrite works character by character: it distributes over concatenation, so a `Z` anywhere is rewritten |
| Timestamps.ReplaceZUnchanged | modules/repoparser.py:18 | a string without `Z` is left as it is |
| Timestamps.IndexOf | modules/repoparser.py:19-22 | the index found holds the character and no earlier index does; none is found exactly when the character is absent |
| Timestamps.IndexOfFirst | modules/repoparser.py:19-22 | in `a + [c] + b` with no `c` in `a`, the first `c` is the one after `a` |
| Timestamps.SplitDateTime | modules/repoparser.py:19-24 | the split is on the first `T`, else on the first space, and the two parts rejoined with it give the input back; with neither, the time part is empty |
| Timestamps.Split | modules/repoparser.py:27 | `split("-")` yields at least one piece, and the whole string when it has no separator |
| Timestamps.SplitNoSep | modules/repoparser.py:27 | no piece of a split contains the separator |
| Timestamps.SplitJoinBack | modules/repoparser.py:27 | joining the pieces with the separator gives the original string back |
| Timestamps.SplitJoin | modules/repoparser.py:27 | splitting separator-free pieces joined by the separator gives the pieces back |
| Timestamps.SplitCons | modules/repoparser.py:27 | the first piece of a split ends at the first separator |
| Timestamps.Zfill | modules/repoparser.py:30 | `zfill` pads to the width with zeros on the left, after a leading `+` or `-` when there is one, keeps the string after the zeros, and leaves wider strings alone |
| Timestamps.SplitThree | modules/repoparser.py:26-30 | a date joined from three dash-free pieces splits into exactly those pieces |
| Timestamps.PadDate | modules/repoparser.py:26-30 | a date part with fewer than three dash-separated pieces is left as it is (`PadDatePieces` gives the other case) |
| Timestamps.PadDatePieces | modules/repoparser.py:26-30 | a date with at least three pieces becomes exactly year, padded month and padded day; later pieces are dropped |
| Timestamps.PadDateIdempotent | modules/repoparser.py:26-30 | padding a padded date part changes nothing |
| Timestamps.PadIsoDate | modules/repoparser.py:26-30 | a well-formed `YYYY-MM-DD` date is left as it is |
| Timestamps.FixOffset | modules/repoparser.py:33 | a trailing `[+-]DDDD` becomes `[+-]DD:DD`, also when a final newline follows it (kept at the end); a string with no match is unchanged; at most one character is added |
| Timestamps.OffsetEnd | modules/repoparser.py:33 | the pattern is found at the end of the string when it stands there, else just before a final newline; where found, it stands there |
| Timestamps.FixOffsetIdempotent | modules/repoparser.py:33 | a second offset rewrite changes nothing |
| Timestamps.PreClean | modules/repoparser.py:18-24 | the stripped, `Z`-rewritten string split in two: rejoined with `T` or a space they give it back, else the time part is empty; the date part holds no `T` |
| Timestamps.DatePart | modules/repoparser.py:26-30 | the date part the strict parse reads is already padded |
| Timestamps.Cleaned | modules/repoparser.py:18-33 | the string the second parse reads holds no offset left without its colon |
| Timestamps.PreCleanIsoDate | modules/repoparser.py:18-24 | a bare ISO date passes strip, `Z` rewrite and split unchanged, with an empty time part |
| Timestamps.PreCleanIsoDateTime | modules/repoparser.py:18-24 | an ISO date, `T` and a non-empty time that holds no `Z` and does not end in whitespace split back into that date and that time |
| Timestamps.CleanedIsoDate | modules/repoparser.py:18-33 | the whole clean-up leaves a bare ISO date unchanged |
| Timestamps.CleanedIsoDateTime | modules/repoparser.py:18-33 | the whole clean-up leaves an ISO date and time unchanged when the time part has a `:` third from its end, does not end in whitespace and holds no `Z` |
| Timestamps.InNewYork | modules/repoparser.py:40-43 | the result is in LOCAL_TZ; a naive value keeps its wall clock, an aware one keeps its instant |
| Timestamps.NormalizedTimestamp | modules/repoparser.py:13-44 | the original string's ISO parse wins, then the cleaned string's, then the strict parse of the padded date part (a naive value put in LOCAL_TZ); each success is returned in LOCAL_TZ; ValueError exactly when all three parses fail |
| Timestamps.FormatTimestamp | modules/repoparser.py:13-44 | the step-by-step rebinding of `dt`, `s` and `date_part` computes `NormalizedTimestamp` |
| Records.Get | modules/repoparser.py:98-106 | `data.get(k)` yields the key's value exactly when the key holds one, else `None` |
| Records.GetOr | modules/repoparser.py:186 | `data.get(k, d)` yields the default only for a missing key and `None` for `null` |
| Records.Index | modules/repoparser.py:97 | `data[k]` raises KeyError(k) exactly when the key is missing, and otherwise yields what `data.get(k)` yields |
| AppVersions.InsertByDate | modules/repoparser.py:144 | inserting adds exactly the one entry (a permutation of input plus entry) |
| AppVersions.InsertSorted | modules/repoparser.py:144 | inserting into a newest-first list keeps it newest first |
| AppVersions.SortByDate | modules/repoparser.py:144 | the sort is a permutation of the stored versions; `SortSorted` and `SortKeepsTies` give its order |
| AppVersions.SortSorted | modules/repoparser.py:144 | the sort orders by date, newest first |
| AppVersions.InsertPos | modules/repoparser.py:144 | an entry is inserted after exactly the entries strictly newer than it |
| AppVersions.InsertAt | modules/repoparser.py:144 | insertion leaves the other entries in their order around the new one |
| AppVersions.SortKeepsTies | modules/repoparser.py:144 | the sort is stable: of two equally dated entries of the result, the first was stored first |
| AppVersions.FirstWith | modules/repoparser.py:145 | the first entry with a version string comes from the list, carries that string and stands where no earlier entry carries it; none exactly when the string does not occur |
| AppVersions.Best | modules/repoparser.py:144-146 | the reference choice per version string on the stored order, defined without sorting; `BestSpec` states what it picks |
| AppVersions.BestSpec | modules/repoparser.py:144-146 | the reference choice per version string is the newest entry with it, the earliest among equally new ones |
| AppVersions.FirstWithInsert | modules/repoparser.py:144-145 | inserting into a sorted list changes its first entry for a string only to a newer-or-equal inserted entry |
| AppVersions.FirstWithSorted | modules/repoparser.py:144-146 | stability: the first entry per string in the sorted list is the reference choice on the stored order |
| AppVersions.DedupFrom | modules/repoparser.py:143-147 | what the dictionary keeps comes from the list and avoids the strings already held; `DedupOrder` gives its order |
| AppVersions.DedupOrder | modules/repoparser.py:143-147 | the kept entries stand in the list's order, the dict's insertion order |
| AppVersions.DedupFirst | modules/repoparser.py:145-146 | each kept entry is the first in the list with its version string |
| AppVersions.DedupVersionSet | modules/repoparser.py:145-146 | every version string not already held is kept, and no other |
| AppVersions.DedupDistinct | modules/repoparser.py:145-146 | no two kept entries share a version string |
| AppVersions.DedupSorted | modules/repoparser.py:144-147 | keeping entries of a newest-first list keeps it newest first |
| AppVersions.Versions | modules/repoparser.py:141-147 | `App.versions` as the de-duplication of the sorted stored versions; `VersionsShape`, `VersionsChoice` and `VersionsTieOrder` state what it holds and in which order |
| AppVersions.VersionsShape | modules/repoparser.py:142-147 | `versions` has pairwise distinct version strings, the same set of strings as `_versions`, only stored entries, newest first, and is empty exactly when nothing is stored |
| AppVersions.VersionsChoice | modules/repoparser.py:144-146 | each kept entry is the newest stored entry with its string and the earliest stored among equally new ones |
| AppVersions.VersionsTieOrder | modules/repoparser.py:141-147 | of two equally dated entries of `App.versions`, the first was stored first |
| AppVersions.VersionsHead | modules/repoparser.py:144-147 | the first entry of `versions` is no older than any stored version |
| AppVersions.KeepFirstPerVersion | modules/repoparser.py:143-147 | the dictionary loop and `list(versions.values())` compute the de-duplication specification |
| AppVersions.ComputeVersions | modules/repoparser.py:141-147 | the property `versions` computes the specification `Versions` |
| AppVersions.LatestVersion | modules/repoparser.py:149-154 | `latest_version` is None exactly when nothing is stored, else the first of `versions`, a stored entry with the greatest date |
| AppVersions.LastUpdated | modules/repoparser.py:156-159 | `last_updated` is the epoch when nothing is stored, else the date of a stored version that no stored version postdates |
| AppVersions.NewestWallIsMax | modules/repoparser.py:156-159 | the newest reading of a non-empty list is attained by an entry and bounds all of them |
| AppVersions.LastUpdatedNewest | modules/repoparser.py:156-159 | `last_updated` reads the maximum stored date, or the epoch |
| RepoParser.VersionFromDict | modules/repoparser.py:95-107 | succeeds exactly when `version`, `downloadURL`, `size` are present and `date` is a string a parser accepts; a missing `version`, `date`, `downloadURL` or `size` raises its own KeyError in that order, a `null` date TypeError, an unparseable one ValueError; the date is normalised into LOCAL_TZ and every other field is the key's value or `None` |
| RepoParser.ParseVersions | modules/repoparser.py:193 | converting the version list raises only the errors a version raises |
| RepoParser.ParseVersionsSpec | modules/repoparser.py:193 | the list converts exactly when every entry does, one for one and in order; otherwise it reports the first entry's error |
| RepoParser.ParseVersionsOk | modules/repoparser.py:193 | the version list converts exactly when every entry does |
| RepoParser.ParseVersionsEach | modules/repoparser.py:193 | a converted list holds the converted entries one for one, in order |
| RepoParser.ParseVersionsError | modules/repoparser.py:193 | a failed list reports the error of its first entry that does not convert |
| RepoParser.AppFromDict | modules/repoparser.py:178-196 | InvalidBundleIdentifierError exactly when the bundle id is missing, `null` or empty and `name` is present; an invalid bundle id always fails; a built app keeps its non-empty bundle id and `is_pal` |
| RepoParser.AppFromDictOk | modules/repoparser.py:179-196 | `App.from_dict` succeeds exactly when bundle id, `name` and `iconURL` are there, `versions` is not `null` and every version converts |
| RepoParser.AppFromDictDefaults | modules/repoparser.py:183-195 | every optional field is the key's value or `None`; developer "Unknown", the name as description and empty permissions only for a missing key; an empty or `null` icon becomes ICON_URL; `_versions` holds the listed versions one for one |
| RepoParser.AppFromDictErrors | modules/repoparser.py:180-193 | a missing `name` raises KeyError; then a missing `iconURL` KeyError, a `null` `versions` TypeError, and a failing version list the first bad version's error |
| RepoParser.AppDatesLocal | modules/repoparser.py:193 | every date of a built app is in LOCAL_TZ |
| RepoParser.BadVersionAbortsApp | modules/repoparser.py:193 | one version with an unparseable date makes the whole app fail |
| RepoParser.WithValidBundle | modules/repoparser.py:248-251 | the filter keeps exactly the listed entries with a valid bundle id |
| RepoParser.WithValidBundleAppend | modules/repoparser.py:248-251 | the filter keeps input order: it distributes over concatenation |
| RepoParser.WithValidBundleOne | modules/repoparser.py:248-251 | one entry is kept exactly when its bundle id is valid; with the previous row, the filter is the order-preserving subsequence of valid entries |
| RepoParser.ParseApps | modules/repoparser.py:248-251 | the apps loop never lets InvalidBundleIdentifierError (or InvalidAppsError) escape; the `ParseApps` lemmas state what it keeps |
| RepoParser.ParseAppsOk | modules/repoparser.py:248-251 | the apps loop completes exactly when every entry converts or raises InvalidBundleIdentifierError |
| RepoParser.ParseAppsKept | modules/repoparser.py:248-251 | a completed loop holds exactly the entries with a valid bundle id, converted, in input order |
| RepoParser.ParseAppsError | modules/repoparser.py:248-251 | a failed loop reports the first error other than InvalidBundleIdentifierError, which is the only one suppressed |
| RepoParser.ParseSource | modules/repoparser.py:244-265 | a built source had a non-empty `apps` list and a `name`, which it copies; InvalidBundleIdentifierError never escapes; `ParseSourceSpec` states every error and field |
| RepoParser.ParseSourceSpec | modules/repoparser.py:244-265 | InvalidAppsError exactly when `apps` is missing, `null` or empty and `name` is present, KeyError when `name` is missing and the loop does not fail first; a failing apps loop's error, that of its first unsuppressed app, is raised unchanged; otherwise success exactly when the apps loop completes and `name` is present, with the loop's apps, every optional field the key's value or `None`, and `news` defaulting to `[]` |
| RepoParser.AllInvalidBundlesAccepted | modules/repoparser.py:246-251 | a source that has a `name` and declares apps, all of which have a `name` and an invalid bundle id, is accepted with no apps |
| RepoParser.SourceFromDict | modules/repoparser.py:244-265 | the loop with its suppress computes the specification `ParseSource` |
| RepoParser.ParsePrefixError | modules/repoparser.py:248-251 | once the loop fails on a prefix, it fails on the whole list with the same error |
| RepoParser.ParseAppsStep | modules/repoparser.py:249-251 | one more entry is appended, suppressed, or ends the loop with its error |
| Aggregator.GetSources | main.py:36-38 | exactly the fetch results that are not None are kept, never more than were fetched |
| Aggregator.GetSourcesAppend | main.py:38 | the filter keeps the input order: it distributes over concatenation |
| Aggregator.AllApps | main.py:46-48 | the merge input: every source's apps, one source after the other; `AllAppsMembers` and `AllAppsAppend` state it |
| Aggregator.AllAppsMembers | main.py:46-48 | an app is in the merge input exactly when it is in one of the sources |
| Aggregator.AllAppsAppend | main.py:46-48 | the merge input is the concatenation of the sources' apps in source order |
| Aggregator.ExtendApps | main.py:46-48 | the `extend` loop builds the concatenation of all sources' apps |
| Aggregator.Skipped | main.py:52-53 | the apps the merge ignores; `SkippedIff` ties it to the source's test |
| Aggregator.SkippedIff | main.py:52-53 | an app is skipped exactly when its `versions` is empty or it is flagged `is_pal` |
| Aggregator.Updated | main.py:55-56 | the `last_updated` the merge compares; `LastUpdatedNewest` and `IsNewer` tie it to `last_updated` |
| Aggregator.Merged | main.py:50-59 | `filtered_apps` after the loop; the `Merged` lemmas state its keys, values and choices |
| Aggregator.KeyOrder | main.py:50-59 | the key insertion order of `filtered_apps`; the `KeyOrder` lemmas state it |
| Aggregator.MergedKeys | main.py:50-59 | the keys of `filtered_apps` are exactly the bundle ids of the apps not skipped |
| Aggregator.MergedValues | main.py:50-59 | each value is an input app, not skipped, filed under its own bundle id |
| Aggregator.MergedStep | main.py:54-59 | one loop step adds only the current app, and replaces a held app only with a strictly later one |
| Aggregator.MergedNewest | main.py:55-57 | the app kept for a bundle id is updated no earlier than every non-skipped app with that id |
| Aggregator.MergedFirstOnTie | main.py:56-57 | every earlier app with the kept app's bundle id is strictly older, so on a tie the first seen stays |
| Aggregator.KeyOrderMembers | main.py:54-59 | the insertion order lists exactly the bundle ids of non-skipped apps |
| Aggregator.KeyOrderDistinct | main.py:54-59 | the insertion order lists each bundle id once |
| Aggregator.KeyOrderFirstSeen | main.py:54-59 | bundle ids are listed in the order they are first taken into account |
| Aggregator.KeyOrderSpec | main.py:54-59 | the insertion order lists each key of `filtered_apps` once, in first-insertion order |
| Aggregator.IsSkipped | main.py:52 | the test `not app.versions or app.is_pal` computes `Skipped` |
| Aggregator.IsNewer | main.py:55-56 | comparing the two `last_updated` values compares the newest stored dates |
| Aggregator.MergeApps | main.py:50-59 | the in-place dict loop computes the merge specification and its key insertion order |
| Aggregator.ValuesInOrder | main.py:72 | `list(filtered_apps.values())` lists the value of each key in insertion order |
| Aggregator.AggregateApps | main.py:72 | the aggregate source's apps; the `Aggregate` lemmas state them |
| Aggregator.AggregateDistinct | main.py:50-72 | no two apps of the aggregate source share a bundle id |
| Aggregator.AggregateChosen | main.py:46-72 | every aggregate app comes from a source, is not skipped, and is the first seen among the newest with its bundle id |
| Aggregator.AggregateCovers | main.py:46-72 | every non-skipped app of every source is represented by an aggregate app with its bundle id, updated no earlier |
| Aggregator.Aggregate | main.py:61-74 | the aggregate source holds the merged apps in first-insertion order, empty news, and the fixed name, subtitle, description, website and Patreon URL, with no header, fedi user, tint or featured apps |

## Left out

- Network and files. These are modules/asyncreqs.py, modules/reposources.py,
  `get_source`'s fetch, `write`, and the `print` calls. A fetch result enters
  the model as an `Option<Source>`. modules/reposources.py is not part of
  this model.
- `asyncio.gather` concurrency. The fetch results are taken as a sequence in
  URL order. The URLs come from a set (modules/reposources.py), so that order,
  and with it which of two equally recent apps is seen first, can change
  between runs; every property here holds for every order.
- The exception list of main.py:24-31. In the code, only InvalidAppsError,
  `json.JSONDecodeError` and the transport errors `DNSError`, `Timeout`,
  `InvalidURL` and `CertificateVerifyError` become `None`; any other transport
  error (a refused connection, a proxy error) is not caught. Any other error from a source ends the whole
  run, and this propagation is not modelled.
- Real ISO-8601 parsing (`datetime.fromisoformat`, `strptime`) and the
  America/New_York DST rules. They are the uninterpreted functions of
  `Timestamps.Calendar`.
- Timestamps.InNewYork: the conversion is total, while `dt.astimezone(LOCAL_TZ)`
  (modules/repoparser.py:43) raises OverflowError for an aware value at the edge
  of datetime's range (for example `0001-01-01T00:00+05:00`); nothing catches
  it, so the run ends. The model does not capture that error.
- Timestamps.NormalizedTimestamp: a `date` that is a JSON number or another
  non-string is not modelled. The raw `date` field holds strings only.
- Timestamps.OffsetEnd: `\d` is modelled as the ASCII digits, while Python
  also matches other Unicode decimal digits.
- `constants.ICON_URL` is a parameter (`iconFallback`, `iconUrl`). The
  `constants` module is not part of this model.
- The `to_dict` serialisers. They copy fields one by one into JSON. The one
  that matters, `App.to_dict`'s version list, is `versions`
  (modules/repoparser.py:173), which `AppVersions.Versions` models.
- `is_pal`: main.py:52 reads it, but `App` defines no such attribute. It is
  an opaque boolean `isPal` of the raw entry, copied into the app.
- The field contents of `screenshots`, `appPermissions`, `patreon` and
  `news` are not validated: modules/typings.py only declares shapes.
