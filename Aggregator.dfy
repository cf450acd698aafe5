/**
  The cross-source merge of main.py: the fetched sources without the failed
  ones, all their apps in source order, one app per bundle identifier (the
  most recently updated, the first one seen on a tie), and the aggregate
  source that lists them.
*/
module Aggregator {
  import opened Wrappers
  import opened Timestamps
  import opened Records
  import opened AppVersions

  // ---------------------------------------------------------------------------
  // get_sources
  // ---------------------------------------------------------------------------

  /** `get_sources`' comprehension: the fetch results that are not `None`. */
  function GetSources(results: seq<Option<Source>>): (r: seq<Source>)
    ensures forall s :: s in r <==> Some(s) in results
    ensures |r| <= |results|
  {
    if results == [] then []
    else
      assert forall x :: x in results <==> x == results[0] || x in results[1..];
      match results[0]
      case None => GetSources(results[1..])
      case Some(s) => [s] + GetSources(results[1..])
  }

  /** The comprehension keeps the input order: it distributes over concatenation. */
  lemma {:induction false} GetSourcesAppend(a: seq<Option<Source>>, b: seq<Option<Source>>)
    ensures GetSources(a + b) == GetSources(a) + GetSources(b)
  {
    if a != [] {
      assert (a + b)[0] == a[0] && (a + b)[1..] == a[1..] + b;
      GetSourcesAppend(a[1..], b);
    } else {
      assert a + b == b;
    }
  }

  // ---------------------------------------------------------------------------
  // apps.extend(source.apps)
  // ---------------------------------------------------------------------------

  /** Every source's apps, one source after the other. */
  function AllApps(sources: seq<Source>): seq<App>
  {
    if sources == [] then []
    else AllApps(sources[..|sources| - 1]) + sources[|sources| - 1].apps
  }

  /** An app is in the merge input exactly when it is in one of the sources. */
  lemma {:induction false} AllAppsMembers(sources: seq<Source>)
    ensures forall a :: a in AllApps(sources) <==> exists s :: s in sources && a in s.apps
  {
    if sources != [] {
      var init := sources[..|sources| - 1];
      AllAppsMembers(init);
      assert forall s :: s in sources <==> s in init || s == sources[|sources| - 1];
    }
  }

  /** Concatenating source lists concatenates their apps. */
  lemma {:induction false} AllAppsAppend(a: seq<Source>, b: seq<Source>)
    ensures AllApps(a + b) == AllApps(a) + AllApps(b)
    decreases |b|
  {
    if b == [] {
      assert a + b == a;
    } else {
      var initB := b[..|b| - 1];
      assert (a + b)[..|a + b| - 1] == a + initB;
      AllAppsAppend(a, initB);
    }
  }

  /** The `for source in sources: apps.extend(source.apps)` loop. */
  method ExtendApps(sources: seq<Source>) returns (apps: seq<App>)
    ensures apps == AllApps(sources)
  {
    apps := [];
    for i := 0 to |sources|
      invariant apps == AllApps(sources[..i])
    {
      assert sources[..i + 1][..i] == sources[..i];
      apps := apps + sources[i].apps;
    }
    assert sources[..|sources|] == sources;
  }

  // ---------------------------------------------------------------------------
  // The merge into filtered_apps
  // ---------------------------------------------------------------------------

  /**
    The merge ignores an app that stores no version or is flagged `is_pal`;
    `SkippedIff` shows this is the source's `not app.versions or app.is_pal`.
  */
  predicate Skipped(app: App) {
    |app.storedVersions| == 0 || app.isPal
  }

  /** An app is skipped exactly when its de-duplicated `versions` is empty or it is flagged. */
  lemma SkippedIff(app: App)
    ensures Skipped(app) <==> |Versions(app)| == 0 || app.isPal
  {
    VersionsShape(app);
  }

  /** An app the merge takes into account, under bundle identifier `id`. */
  predicate KeptWith(app: App, id: string) {
    !Skipped(app) && app.bundleIdentifier == id
  }

  /** The bundle identifiers of the apps the merge takes into account. */
  function KeptIds(apps: seq<App>): set<string> {
    set a | a in apps && !Skipped(a) :: a.bundleIdentifier
  }

  /**
    `filtered_apps` after the merge loop has seen `apps`: an app that is not
    skipped claims its bundle identifier when it is new or when its
    `last_updated` is strictly later than the current holder's.
  */
  function Merged(apps: seq<App>): map<string, App>
  {
    if apps == [] then map[]
    else
      var m := Merged(apps[..|apps| - 1]);
      var app := apps[|apps| - 1];
      if Skipped(app) then m
      else if app.bundleIdentifier !in m then m[app.bundleIdentifier := app]
      else if Updated(app) > Updated(m[app.bundleIdentifier]) then m[app.bundleIdentifier := app]
      else m
  }

  /**
    The insertion order of `filtered_apps`' keys: a bundle identifier enters
    when it is first inserted; replacing its app keeps its place.
  */
  function KeyOrder(apps: seq<App>): seq<string>
  {
    if apps == [] then []
    else
      var init := apps[..|apps| - 1];
      var app := apps[|apps| - 1];
      if Skipped(app) || app.bundleIdentifier in Merged(init) then KeyOrder(init)
      else KeyOrder(init) + [app.bundleIdentifier]
  }

  /** `apps` without its last entry, and what that drops from membership. */
  lemma InitMembers(apps: seq<App>)
    requires apps != []
    ensures forall a :: a in apps <==> a in apps[..|apps| - 1] || a == apps[|apps| - 1]
    ensures KeptIds(apps) == KeptIds(apps[..|apps| - 1]) +
              (if Skipped(apps[|apps| - 1]) then {} else {apps[|apps| - 1].bundleIdentifier})
  {
    assert apps == apps[..|apps| - 1] + [apps[|apps| - 1]];
  }

  /** The keys of `filtered_apps` are the bundle identifiers of the apps not skipped. */
  lemma {:induction false} MergedKeys(apps: seq<App>)
    ensures Merged(apps).Keys == KeptIds(apps)
  {
    if apps != [] {
      MergedKeys(apps[..|apps| - 1]);
      InitMembers(apps);
    }
  }

  /** Every value of `filtered_apps` is an input app that is not skipped, filed under its own bundle identifier. */
  lemma {:induction false} MergedValues(apps: seq<App>)
    ensures forall id :: id in Merged(apps) ==>
      Merged(apps)[id] in apps && KeptWith(Merged(apps)[id], id)
  {
    if apps != [] {
      MergedValues(apps[..|apps| - 1]);
      InitMembers(apps);
    }
  }

  /**
    `app.last_updated` as the merge compares it, by its New York wall-clock
    reading; `LastUpdatedNewest` shows this is `LastUpdated(app).wall`.
  */
  function Updated(app: App): int {
    NewestWall(app.storedVersions)
  }

  /** One step of the merge never lowers the `last_updated` held for a bundle identifier. */
  lemma MergedStep(apps: seq<App>)
    requires apps != []
    ensures var m, m' := Merged(apps[..|apps| - 1]), Merged(apps);
      && m.Keys <= m'.Keys
      && (forall id :: id in m' && id !in m ==> m'[id] == apps[|apps| - 1])
      && (forall id :: id in m ==> Updated(m[id]) <= Updated(m'[id]))
      && (forall id :: id in m && m'[id] != m[id] ==>
            m'[id] == apps[|apps| - 1] && Updated(m[id]) < Updated(m'[id]))
  {
    var m, last := Merged(apps[..|apps| - 1]), apps[|apps| - 1];
    var id := last.bundleIdentifier;
    if Skipped(last) {
      assert Merged(apps) == m;
    } else if id !in m {
      assert Merged(apps) == m[id := last];
    } else if Updated(last) > Updated(m[id]) {
      assert Merged(apps) == m[id := last];
    } else {
      assert Merged(apps) == m;
    }
  }

  /** The app kept for a bundle identifier is updated no earlier than any other app with that identifier. */
  lemma {:induction false} MergedNewest(apps: seq<App>)
    ensures forall a :: a in apps && !Skipped(a) ==>
      a.bundleIdentifier in Merged(apps) && Updated(a) <= Updated(Merged(apps)[a.bundleIdentifier])
  {
    if apps != [] {
      var n := |apps| - 1;
      var init, last := apps[..n], apps[n];
      var m, m' := Merged(init), Merged(apps);
      MergedNewest(init);
      MergedStep(apps);
      InitMembers(apps);
      forall a | a in apps && !Skipped(a)
        ensures a.bundleIdentifier in m' && Updated(a) <= Updated(m'[a.bundleIdentifier])
      {
        if a in init {
          assert Updated(a) <= Updated(m[a.bundleIdentifier]);
        } else {
          assert a == last;
        }
      }
    }
  }

  /**
    `app`, held for `id`, is at an index of `apps` before which every app
    with that bundle identifier is strictly older.
  */
  predicate FirstAmongNewest(apps: seq<App>, id: string, app: App) {
    exists j :: 0 <= j < |apps| && apps[j] == app && NoneAsNewBefore(apps, j, id, app)
  }

  /** Every app before index `j` with bundle identifier `id` is strictly older than `app`. */
  predicate NoneAsNewBefore(apps: seq<App>, j: int, id: string, app: App)
    requires j <= |apps|
  {
    forall i :: 0 <= i < j && KeptWith(apps[i], id) ==> Updated(apps[i]) < Updated(app)
  }

  /** A witness for a prefix is a witness for the whole sequence. */
  lemma FirstAmongNewestExtend(apps: seq<App>, n: nat, id: string, app: App)
    requires n <= |apps|
    requires FirstAmongNewest(apps[..n], id, app)
    ensures FirstAmongNewest(apps, id, app)
  {
    var j :| 0 <= j < n && apps[..n][j] == app && NoneAsNewBefore(apps[..n], j, id, app);
    assert NoneAsNewBefore(apps, j, id, app) by {
      forall i | 0 <= i < j && KeptWith(apps[i], id) ensures Updated(apps[i]) < Updated(app) {
        assert apps[i] == apps[..n][i];
      }
    }
  }

  /**
    The strict comparison keeps the first app seen among equally recent ones:
    every earlier app with the same bundle identifier is strictly older than
    the one kept.
  */
  lemma {:induction false} MergedFirstOnTie(apps: seq<App>)
    ensures forall id :: id in Merged(apps) ==> FirstAmongNewest(apps, id, Merged(apps)[id])
  {
    if apps != [] {
      var n := |apps| - 1;
      var init, last := apps[..n], apps[n];
      var m, m' := Merged(init), Merged(apps);
      MergedFirstOnTie(init);
      MergedNewest(init);
      MergedStep(apps);
      forall id | id in m' ensures FirstAmongNewest(apps, id, m'[id]) {
        if id in m && m'[id] == m[id] {
          FirstAmongNewestExtend(apps, n, id, m[id]);
        } else {
          assert m'[id] == last && KeptWith(last, id);
          assert NoneAsNewBefore(apps, n, id, last) by {
            forall i | 0 <= i < n && KeptWith(apps[i], id) ensures Updated(apps[i]) < Updated(last) {
              assert apps[i] == init[i] && init[i] in init;
            }
          }
        }
      }
    }
  }

  /** `first` is taken into account before any app with bundle identifier `later` is. */
  predicate SeenBefore(apps: seq<App>, first: string, later: string) {
    exists i :: 0 <= i < |apps| && KeptWith(apps[i], first) && Unseen(apps, i, later)
  }

  /** No app up to index `i` is taken into account under `id`. */
  predicate Unseen(apps: seq<App>, i: int, id: string)
    requires i < |apps|
  {
    forall j :: 0 <= j <= i ==> !KeptWith(apps[j], id)
  }

  /** What is seen in order in a prefix is seen in that order in the whole sequence. */
  lemma SeenBeforeExtend(apps: seq<App>, n: nat, first: string, later: string)
    requires n <= |apps|
    requires SeenBefore(apps[..n], first, later)
    ensures SeenBefore(apps, first, later)
  {
    var i :| 0 <= i < n && KeptWith(apps[..n][i], first) && Unseen(apps[..n], i, later);
    assert apps[i] == apps[..n][i];
    assert Unseen(apps, i, later) by {
      forall j | 0 <= j <= i ensures !KeptWith(apps[j], later) {
        assert apps[j] == apps[..n][j];
      }
    }
  }

  /** A bundle identifier taken into account in a prefix is seen before one that prefix never takes. */
  lemma SeenBeforeNew(apps: seq<App>, n: nat, first: string, later: string)
    requires n <= |apps|
    requires first in KeptIds(apps[..n]) && later !in KeptIds(apps[..n])
    ensures SeenBefore(apps, first, later)
  {
    var a :| a in apps[..n] && !Skipped(a) && a.bundleIdentifier == first;
    var i :| 0 <= i < n && apps[..n][i] == a;
    assert apps[i] == a;
    assert Unseen(apps, i, later) by {
      forall j | 0 <= j <= i ensures !KeptWith(apps[j], later) {
        assert apps[j] == apps[..n][j] && apps[..n][j] in apps[..n];
      }
    }
  }

  /** How one more app changes the insertion order. */
  lemma KeyOrderStep(apps: seq<App>)
    requires apps != []
    ensures var init, last := apps[..|apps| - 1], apps[|apps| - 1];
      KeyOrder(apps) ==
        if Skipped(last) || last.bundleIdentifier in KeptIds(init) then KeyOrder(init)
        else KeyOrder(init) + [last.bundleIdentifier]
  {
    MergedKeys(apps[..|apps| - 1]);
  }

  /** The insertion order lists exactly the keys of `filtered_apps`. */
  lemma {:induction false} KeyOrderMembers(apps: seq<App>)
    ensures forall id :: id in KeyOrder(apps) <==> id in KeptIds(apps)
  {
    if apps != [] {
      KeyOrderMembers(apps[..|apps| - 1]);
      KeyOrderStep(apps);
      InitMembers(apps);
    }
  }

  /** The insertion order lists each key once. */
  lemma {:induction false} KeyOrderDistinct(apps: seq<App>)
    ensures forall p, q :: 0 <= p < q < |KeyOrder(apps)| ==> KeyOrder(apps)[p] != KeyOrder(apps)[q]
  {
    if apps != [] {
      var init := apps[..|apps| - 1];
      KeyOrderDistinct(init);
      KeyOrderMembers(init);
      KeyOrderStep(apps);
    }
  }

  /** Keys are listed in the order in which their bundle identifiers were first taken into account. */
  lemma {:induction false} KeyOrderFirstSeen(apps: seq<App>)
    ensures forall p, q :: 0 <= p < q < |KeyOrder(apps)| ==> SeenBefore(apps, KeyOrder(apps)[p], KeyOrder(apps)[q])
  {
    if apps != [] {
      var n := |apps| - 1;
      var init, last := apps[..n], apps[n];
      var o := KeyOrder(init);
      KeyOrderFirstSeen(init);
      KeyOrderMembers(init);
      KeyOrderStep(apps);
      forall p, q | 0 <= p < q < |KeyOrder(apps)| ensures SeenBefore(apps, KeyOrder(apps)[p], KeyOrder(apps)[q]) {
        if q < |o| {
          SeenBeforeExtend(apps, n, o[p], o[q]);
        } else {
          SeenBeforeNew(apps, n, o[p], last.bundleIdentifier);
        }
      }
    }
  }

  /**
    The insertion order lists every key of `filtered_apps` once, in the order
    in which their bundle identifiers were first taken into account.
  */
  lemma KeyOrderSpec(apps: seq<App>)
    ensures var o := KeyOrder(apps);
      && (forall id :: id in o <==> id in Merged(apps))
      && (forall p, q :: 0 <= p < q < |o| ==> o[p] != o[q])
      && (forall p, q :: 0 <= p < q < |o| ==> SeenBefore(apps, o[p], o[q]))
  {
    KeyOrderMembers(apps);
    MergedKeys(apps);
    KeyOrderDistinct(apps);
    KeyOrderFirstSeen(apps);
  }

  /** `not app.versions or app.is_pal`, computing `app.versions`. */
  method IsSkipped(app: App) returns (skip: bool)
    ensures skip == Skipped(app)
  {
    var versions := ComputeVersions(app);
    SkippedIff(app);
    skip := |versions| == 0 || app.isPal;
  }

  /** `app.last_updated > held.last_updated`. */
  method IsNewer(app: App, held: App) returns (newer: bool)
    ensures newer == (Updated(app) > Updated(held))
  {
    var lastUpdated := LastUpdated(held);
    LastUpdatedNewest(app);
    LastUpdatedNewest(held);
    newer := LastUpdated(app).wall > lastUpdated.wall;
  }

  /**
    The merge loop of `main`: a dict keyed by bundle identifier, updated in
    place, with `order` its insertion order.
  */
  method MergeApps(apps: seq<App>) returns (filtered: map<string, App>, order: seq<string>)
    ensures filtered == Merged(apps)
    ensures order == KeyOrder(apps)
  {
    filtered := map[];
    order := [];
    for i := 0 to |apps|
      invariant filtered == Merged(apps[..i])
      invariant order == KeyOrder(apps[..i])
    {
      assert apps[..i + 1][..i] == apps[..i];
      var app := apps[i];
      var skip := IsSkipped(app);
      if skip {
        continue;
      }
      if app.bundleIdentifier in filtered {
        var newer := IsNewer(app, filtered[app.bundleIdentifier]);
        if newer {
          filtered := filtered[app.bundleIdentifier := app];
        }
      } else {
        filtered := filtered[app.bundleIdentifier := app];
        order := order + [app.bundleIdentifier];
      }
    }
    assert apps[..|apps|] == apps;
  }

  // ---------------------------------------------------------------------------
  // The aggregate source
  // ---------------------------------------------------------------------------

  /** `list(filtered_apps.values())`: the values in key insertion order. */
  function ValuesInOrder(m: map<string, App>, order: seq<string>): (r: seq<App>)
    requires forall id :: id in order ==> id in m
    ensures |r| == |order|
    ensures forall p :: 0 <= p < |order| ==> r[p] == m[order[p]]
  {
    seq(|order|, p requires 0 <= p < |order| => m[order[p]])
  }

  /** The apps of the aggregate source, computed from the fetched sources. */
  function AggregateApps(sources: seq<Source>): seq<App>
  {
    var apps := AllApps(sources);
    KeyOrderSpec(apps);
    ValuesInOrder(Merged(apps), KeyOrder(apps))
  }

  /** Each bundle identifier appears once among the aggregate source's apps. */
  lemma AggregateDistinct(sources: seq<Source>)
    ensures var r := AggregateApps(sources);
      forall p, q :: 0 <= p < q < |r| ==> r[p].bundleIdentifier != r[q].bundleIdentifier
  {
    var apps := AllApps(sources);
    KeyOrderSpec(apps);
    MergedValues(apps);
  }

  /**
    Each app of the aggregate source comes from one of the sources, is not
    skipped, and is the first seen among the newest apps with its bundle
    identifier.
  */
  lemma AggregateChosen(sources: seq<Source>)
    ensures var r := AggregateApps(sources);
      forall a :: a in r ==>
        && !Skipped(a)
        && (exists s :: s in sources && a in s.apps)
        && FirstAmongNewest(AllApps(sources), a.bundleIdentifier, a)
  {
    var apps := AllApps(sources);
    var m, o := Merged(apps), KeyOrder(apps);
    var r := AggregateApps(sources);
    KeyOrderSpec(apps);
    MergedValues(apps);
    MergedFirstOnTie(apps);
    AllAppsMembers(sources);
    forall a | a in r
      ensures !Skipped(a) && (exists s :: s in sources && a in s.apps)
      ensures FirstAmongNewest(apps, a.bundleIdentifier, a)
    {
      var p :| 0 <= p < |r| && r[p] == a;
      assert a == m[o[p]];
    }
  }

  /**
    Every bundle identifier of an app that is not skipped is represented in the
    aggregate source, by an app updated no earlier than that one.
  */
  lemma AggregateCovers(sources: seq<Source>)
    ensures var r := AggregateApps(sources);
      forall s, a :: s in sources && a in s.apps && !Skipped(a) ==>
        exists b :: b in r && b.bundleIdentifier == a.bundleIdentifier && Updated(a) <= Updated(b)
  {
    var apps := AllApps(sources);
    var m, o := Merged(apps), KeyOrder(apps);
    var r := AggregateApps(sources);
    KeyOrderSpec(apps);
    MergedValues(apps);
    MergedNewest(apps);
    AllAppsMembers(sources);
    forall s, a | s in sources && a in s.apps && !Skipped(a)
      ensures exists b :: b in r && b.bundleIdentifier == a.bundleIdentifier && Updated(a) <= Updated(b)
    {
      var id := a.bundleIdentifier;
      assert a in apps;
      var p :| 0 <= p < |o| && o[p] == id;
      assert r[p] == m[id];
    }
  }

  const AioName := "RagingEnby's AIO Source"
  const AioSubtitle := "Every single repo I could find, united."
  const AioDescription := "I got really sick and tired of typing in a billion different repos. So this one repo scrapes ~100 AltSources and combines them into one, beautiful, united repository."
  const AioWebsite := "https://ragingenby.dev/"
  const AioPatreonUrl := "https://patreon.com/RagingEnby"

  /**
    `main` after the fetches: drop the failed fetches, gather every app, merge
    them by bundle identifier and build the aggregate source with its fixed
    metadata, `iconUrl` being `constants.ICON_URL`.
  */
  method Aggregate(results: seq<Option<Source>>, iconUrl: string) returns (aio: Source)
    ensures aio.apps == AggregateApps(GetSources(results))
    ensures aio.news == Some([])
    ensures aio.name == Some(AioName) && aio.subtitle == Some(AioSubtitle)
    ensures aio.description == Some(AioDescription) && aio.iconUrl == Some(iconUrl)
    ensures aio.headerUrl.None? && aio.website == Some(AioWebsite) && aio.fediUsername.None?
    ensures aio.patreonUrl == Some(AioPatreonUrl) && aio.tintColor.None? && aio.featuredApps.None?
  {
    var sources := GetSources(results);
    var apps := ExtendApps(sources);
    var filtered, order := MergeApps(apps);
    KeyOrderSpec(apps);
    aio := Source(
      Some(AioName), Some(AioSubtitle), Some(AioDescription), Some(iconUrl), None,
      Some(AioWebsite), None, Some(AioPatreonUrl), None, None,
      ValuesInOrder(filtered, order), Some([]));
  }
}
