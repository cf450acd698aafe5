/**
  The derived properties of `App` (modules/repoparser.py:141-159): `versions`,
  the stored versions newest first with one entry per version string;
  `latest_version`, the first of them; and `last_updated`, its date or the
  epoch.
*/
module AppVersions {
  import opened Wrappers
  import opened Timestamps
  import opened Records

  /** Dates never increase along `vs`. */
  predicate NewestFirst(vs: seq<AppVersion>) {
    forall i, j :: 0 <= i < j < |vs| ==> vs[j].date.wall <= vs[i].date.wall
  }

  /** No two entries of `vs` share a version string. */
  predicate DistinctVersions(vs: seq<AppVersion>) {
    forall i, j :: 0 <= i < j < |vs| ==> vs[i].version != vs[j].version
  }

  /** The version strings that occur in `vs`. */
  function VersionSet(vs: seq<AppVersion>): set<Option<string>> {
    set e | e in vs :: e.version
  }

  /** An entry no older than everything in a sorted `rest` may go in front of it. */
  lemma SortedCons(a: AppVersion, rest: seq<AppVersion>)
    requires NewestFirst(rest)
    requires forall e :: e in rest ==> e.date.wall <= a.date.wall
    ensures NewestFirst([a] + rest)
  {
    var s := [a] + rest;
    forall i, j | 0 <= i < j < |s| ensures s[j].date.wall <= s[i].date.wall {
      assert s[j] == rest[j - 1];
      if i == 0 {
        assert rest[j - 1] in rest;
      } else {
        assert s[i] == rest[i - 1];
      }
    }
  }

  /** The head of a sorted list is its newest entry. */
  lemma SortedHead(s: seq<AppVersion>)
    requires NewestFirst(s) && s != []
    ensures forall e :: e in s ==> e.date.wall <= s[0].date.wall
    ensures NewestFirst(s[1..])
  {
    forall e | e in s ensures e.date.wall <= s[0].date.wall {
      var i :| 0 <= i < |s| && s[i] == e;
    }
  }

  /** Entries of `s` are exactly those of the multiset, whatever the order. */
  lemma SameElements(s: seq<AppVersion>, t: seq<AppVersion>)
    requires multiset(s) == multiset(t)
    ensures forall e :: e in s <==> e in t
  {
    forall e ensures e in s <==> e in t {
      assert e in s <==> e in multiset(s);
      assert e in t <==> e in multiset(t);
    }
  }

  // ---------------------------------------------------------------------------
  // `sorted(self._versions, key=lambda x: x.date, reverse=True)`
  // ---------------------------------------------------------------------------

  /** `x` placed before the first element of `s` that is not newer than it. */
  function InsertByDate(x: AppVersion, s: seq<AppVersion>): (r: seq<AppVersion>)
    ensures multiset(r) == multiset(s) + multiset{x}
  {
    if s == [] || s[0].date.wall <= x.date.wall then [x] + s
    else
      assert s == [s[0]] + s[1..];
      [s[0]] + InsertByDate(x, s[1..])
  }

  /** Inserting into a sorted list keeps it sorted. */
  lemma {:induction false} InsertSorted(x: AppVersion, s: seq<AppVersion>)
    requires NewestFirst(s)
    ensures NewestFirst(InsertByDate(x, s))
  {
    if s == [] {
    } else if s[0].date.wall <= x.date.wall {
      SortedHead(s);
      SortedCons(x, s);
    } else {
      SortedHead(s);
      var rest := InsertByDate(x, s[1..]);
      InsertSorted(x, s[1..]);
      SameElements(rest, s[1..] + [x]);
      assert forall e :: e in s[1..] ==> e in s;
      SortedCons(s[0], rest);
    }
  }

  /**
    Python's stable sort by date with `reverse=True`: newest first, and entries
    with equal dates in the order they were given.
  */
  function SortByDate(vs: seq<AppVersion>): (r: seq<AppVersion>)
    ensures multiset(r) == multiset(vs)
  {
    if vs == [] then []
    else
      assert vs == [vs[0]] + vs[1..];
      InsertByDate(vs[0], SortByDate(vs[1..]))
  }

  /** The sort orders its result newest first. */
  lemma {:induction false} SortSorted(vs: seq<AppVersion>)
    ensures NewestFirst(SortByDate(vs))
  {
    if vs != [] {
      SortSorted(vs[1..]);
      InsertSorted(vs[0], SortByDate(vs[1..]));
    }
  }

  /** `x` stands somewhere before `y` in `L`. */
  predicate Before(L: seq<AppVersion>, x: AppVersion, y: AppVersion) {
    exists i, j :: 0 <= i < j < |L| && L[i] == x && L[j] == y
  }

  /** An order in the tail of `L` is an order in `L`. */
  lemma BeforeTail(L: seq<AppVersion>, x: AppVersion, y: AppVersion)
    requires L != [] && Before(L[1..], x, y)
    ensures Before(L, x, y)
  {
    var i, j :| 0 <= i < j < |L[1..]| && L[1..][i] == x && L[1..][j] == y;
    assert L[i + 1] == x && L[j + 1] == y;
  }

  /** The head of `L` stands before everything in its tail. */
  lemma BeforeHead(L: seq<AppVersion>, y: AppVersion)
    requires L != [] && y in L[1..]
    ensures Before(L, L[0], y)
  {
    var j :| 0 <= j < |L[1..]| && L[1..][j] == y;
    assert L[j + 1] == y;
  }

  /** Equally dated entries of `s` stand in the order they have in `vs`. */
  predicate TiesInOrder(s: seq<AppVersion>, vs: seq<AppVersion>) {
    forall a, b :: 0 <= a < b < |s| && s[a].date.wall == s[b].date.wall ==> Before(vs, s[a], s[b])
  }

  /** Where `InsertByDate` places `x`: after the entries strictly newer than it. */
  function InsertPos(x: AppVersion, s: seq<AppVersion>): (k: nat)
    ensures k <= |s|
    ensures forall m :: 0 <= m < k ==> x.date.wall < s[m].date.wall
    ensures k < |s| ==> s[k].date.wall <= x.date.wall
  {
    if s == [] || s[0].date.wall <= x.date.wall then 0
    else
      assert forall m :: 1 <= m < |s| ==> s[m] == s[1..][m - 1];
      1 + InsertPos(x, s[1..])
  }

  /** `InsertByDate` leaves the other entries in their order around `x`. */
  lemma {:induction false} InsertAt(x: AppVersion, s: seq<AppVersion>)
    ensures InsertByDate(x, s) == s[..InsertPos(x, s)] + [x] + s[InsertPos(x, s)..]
  {
    if s == [] || s[0].date.wall <= x.date.wall {
      assert s[..0] == [] && s[0..] == s;
    } else {
      var t := s[1..];
      assert s == [s[0]] + t;
      InsertAt(x, t);
      InsertUnder(s[0], t, x, InsertPos(x, t));
    }
  }

  /** Putting `a` in front of `t` with `x` inserted at `k` inserts `x` at `k + 1` of `[a] + t`. */
  lemma InsertUnder(a: AppVersion, t: seq<AppVersion>, x: AppVersion, k: nat)
    requires k <= |t|
    ensures [a] + (t[..k] + [x] + t[k..]) == ([a] + t)[..k + 1] + [x] + ([a] + t)[k + 1..]
  {
    assert ([a] + t)[..k + 1] == [a] + t[..k];
    assert ([a] + t)[k + 1..] == t[k..];
  }

  /**
    Placing the head of `vs` after the strictly newer entries of `t`, a list
    of the tail's entries with ties in the tail's order, keeps ties in `vs`'s
    order.
  */
  lemma InsertKeepsTies(vs: seq<AppVersion>, t: seq<AppVersion>, k: nat)
    requires vs != [] && k <= |t|
    requires forall m :: 0 <= m < k ==> vs[0].date.wall < t[m].date.wall
    requires forall e :: e in t ==> e in vs[1..]
    requires TiesInOrder(t, vs[1..])
    ensures TiesInOrder(t[..k] + [vs[0]] + t[k..], vs)
  {
    var s := t[..k] + [vs[0]] + t[k..];
    forall a, b | 0 <= a < b < |s| && s[a].date.wall == s[b].date.wall
      ensures Before(vs, s[a], s[b])
    {
      if a == k {
        assert s[b] == t[b - 1] && t[b - 1] in t;
        BeforeHead(vs, s[b]);
      } else if b == k {
        assert false;
      } else {
        var a', b' := if a < k then a else a - 1, if b < k then b else b - 1;
        assert s[a] == t[a'] && s[b] == t[b'];
        assert Before(vs[1..], t[a'], t[b']);
        BeforeTail(vs, s[a], s[b]);
      }
    }
  }

  /**
    Stability of `sorted(..., reverse=True)`: of two equally dated entries of
    the sorted list, the first was given first.
  */
  lemma {:induction false} SortKeepsTies(vs: seq<AppVersion>)
    ensures TiesInOrder(SortByDate(vs), vs)
  {
    if vs != [] {
      var t := SortByDate(vs[1..]);
      SortKeepsTies(vs[1..]);
      InsertAt(vs[0], t);
      SameElements(t, vs[1..]);
      InsertKeepsTies(vs, t, InsertPos(vs[0], t));
    }
  }

  /** The first entry of `vs` with version string `v`. */
  function FirstWith(vs: seq<AppVersion>, v: Option<string>): (r: Option<AppVersion>)
    ensures r.Some? ==> r.value in vs && r.value.version == v
    ensures r.Some? ==> FirstAt(vs, v, r.value)
    ensures r.None? <==> v !in VersionSet(vs)
  {
    if vs == [] then None
    else if vs[0].version == v then
      assert vs[..0] == [];
      assert FirstAt(vs, v, vs[0]);
      Some(vs[0])
    else
      assert forall e :: e in vs ==> e == vs[0] || e in vs[1..];
      var r := FirstWith(vs[1..], v);
      if r.Some? then
        FirstAtCons(vs, v, r.value);
        r
      else r
  }

  /** `e` stands in `vs` at an index before which no entry carries `v`. */
  predicate FirstAt(vs: seq<AppVersion>, v: Option<string>, e: AppVersion) {
    exists i :: 0 <= i < |vs| && vs[i] == e && v !in VersionSet(vs[..i])
  }

  /** Past a head that does not carry `v`, the first entry with `v` stays first. */
  lemma FirstAtCons(vs: seq<AppVersion>, v: Option<string>, e: AppVersion)
    requires vs != [] && vs[0].version != v
    requires FirstAt(vs[1..], v, e)
    ensures FirstAt(vs, v, e)
  {
    var i :| 0 <= i < |vs[1..]| && vs[1..][i] == e && v !in VersionSet(vs[1..][..i]);
    assert vs[..i + 1] == [vs[0]] + vs[1..][..i];
    VersionSetCons(vs[0], vs[1..][..i]);
    assert vs[i + 1] == e;
  }

  /**
    The reference choice for version string `v`, defined on the stored order:
    the newest entry carrying `v`, and of equally new ones the earliest.
  */
  function Best(vs: seq<AppVersion>, v: Option<string>): Option<AppVersion>
  {
    if vs == [] then None
    else
      var rest := Best(vs[1..], v);
      if vs[0].version != v then rest
      else if rest.Some? && vs[0].date.wall < rest.value.date.wall then rest
      else Some(vs[0])
  }

  /** `Best` finds an entry exactly when `v` occurs, and that entry carries `v`. */
  lemma {:induction false} BestFound(vs: seq<AppVersion>, v: Option<string>)
    ensures Best(vs, v).None? <==> v !in VersionSet(vs)
    ensures Best(vs, v).Some? ==> Best(vs, v).value in vs && Best(vs, v).value.version == v
  {
    if vs != [] {
      BestFound(vs[1..], v);
      assert forall x :: x in vs ==> x == vs[0] || x in vs[1..];
      assert forall x :: x in vs[1..] ==> x in vs;
    }
  }

  /** No entry carrying `v` is newer than `Best`'s. */
  lemma {:induction false} BestNewest(vs: seq<AppVersion>, v: Option<string>)
    ensures Best(vs, v).Some? ==>
      forall x :: x in vs && x.version == v ==> x.date.wall <= Best(vs, v).value.date.wall
  {
    if vs != [] {
      BestNewest(vs[1..], v);
      BestFound(vs[1..], v);
      assert forall x :: x in vs ==> x == vs[0] || x in vs[1..];
    }
  }

  /** Every entry carrying `v` before `Best`'s position is strictly older. */
  lemma {:induction false} BestEarliest(vs: seq<AppVersion>, v: Option<string>)
    ensures Best(vs, v).Some? ==>
      var e := Best(vs, v).value;
      exists k :: 0 <= k < |vs| && vs[k] == e
        && forall j :: 0 <= j < k && vs[j].version == v ==> vs[j].date.wall < e.date.wall
  {
    if vs != [] {
      var tail := vs[1..];
      BestEarliest(tail, v);
      var rest := Best(tail, v);
      if rest.Some? && (vs[0].version != v || vs[0].date.wall < rest.value.date.wall) {
        var e := rest.value;
        var k :| 0 <= k < |tail| && tail[k] == e
                 && forall j :: 0 <= j < k && tail[j].version == v ==> tail[j].date.wall < e.date.wall;
        assert vs[k + 1] == e;
        assert forall j :: 1 <= j < k + 1 ==> vs[j] == tail[j - 1];
      } else if vs[0].version == v {
        assert vs[0] == Best(vs, v).value;
      }
    }
  }

  /** `Best` is the newest entry with its version string, the earliest on a tie. */
  lemma BestSpec(vs: seq<AppVersion>, v: Option<string>)
    ensures Best(vs, v).None? <==> v !in VersionSet(vs)
    ensures Best(vs, v).Some? ==>
      var e := Best(vs, v).value;
      && e.version == v
      && (forall x :: x in vs && x.version == v ==> x.date.wall <= e.date.wall)
      && (exists k :: 0 <= k < |vs| && vs[k] == e
            && forall j :: 0 <= j < k && vs[j].version == v ==> vs[j].date.wall < e.date.wall)
  {
    BestFound(vs, v);
    BestNewest(vs, v);
    BestEarliest(vs, v);
  }

  /** Sorted `t` stays sorted past an insertion, so its first `v` changes only to `x`. */
  lemma {:induction false} FirstWithInsert(x: AppVersion, t: seq<AppVersion>, v: Option<string>)
    requires NewestFirst(t)
    ensures FirstWith(InsertByDate(x, t), v) ==
      if x.version == v && (FirstWith(t, v).None? || FirstWith(t, v).value.date.wall <= x.date.wall)
      then Some(x) else FirstWith(t, v)
  {
    if t == [] || t[0].date.wall <= x.date.wall {
      assert ([x] + t)[1..] == t;
      var f := FirstWith(t, v);
      if f.Some? {
        var i :| 0 <= i < |t| && t[i] == f.value;
        assert t[i].date.wall <= t[0].date.wall;
      }
    } else {
      var r := InsertByDate(x, t);
      assert r[1..] == InsertByDate(x, t[1..]);
      if t[0].version != v {
        FirstWithInsert(x, t[1..], v);
      }
    }
  }

  /** Stability: the first entry with `v` in the sorted list is the reference choice. */
  lemma {:induction false} FirstWithSorted(vs: seq<AppVersion>, v: Option<string>)
    ensures FirstWith(SortByDate(vs), v) == Best(vs, v)
  {
    if vs != [] {
      FirstWithSorted(vs[1..], v);
      SortSorted(vs[1..]);
      FirstWithInsert(vs[0], SortByDate(vs[1..]), v);
    }
  }

  // ---------------------------------------------------------------------------
  // The dictionary keyed by version string
  // ---------------------------------------------------------------------------

  /** The version strings of a list with one more entry in front. */
  lemma VersionSetCons(a: AppVersion, rest: seq<AppVersion>)
    ensures VersionSet([a] + rest) == {a.version} + VersionSet(rest)
  {
    assert forall e :: e in [a] + rest <==> e == a || e in rest;
  }

  /**
    The entries of `L` whose version string is not in `seen` and has not
    occurred earlier in `L`: what filling the dict of line 143 leaves in it,
    in insertion order.
  */
  function DedupFrom(L: seq<AppVersion>, seen: set<Option<string>>): (r: seq<AppVersion>)
    ensures forall e :: e in r ==> e in L && e.version !in seen
  {
    if L == [] then []
    else if L[0].version in seen then
      assert forall e :: e in L[1..] ==> e in L;
      DedupFrom(L[1..], seen)
    else
      assert forall e :: e in L[1..] ==> e in L;
      [L[0]] + DedupFrom(L[1..], seen + {L[0].version})
  }

  /** The entries of `r` stand in the order they have in `L`. */
  predicate KeepsOrder(r: seq<AppVersion>, L: seq<AppVersion>) {
    forall p, q :: 0 <= p < q < |r| ==> Before(L, r[p], r[q])
  }

  /** An order in the tail of `L` is an order in `L`, for a whole list of entries. */
  lemma KeepsOrderTail(r: seq<AppVersion>, L: seq<AppVersion>)
    requires L != [] && KeepsOrder(r, L[1..])
    ensures KeepsOrder(r, L)
  {
    forall p, q | 0 <= p < q < |r| ensures Before(L, r[p], r[q]) {
      BeforeTail(L, r[p], r[q]);
    }
  }

  /** The head of `L` in front of entries of its tail, kept in the tail's order. */
  lemma KeepsOrderCons(rest: seq<AppVersion>, L: seq<AppVersion>)
    requires L != [] && KeepsOrder(rest, L[1..])
    requires forall e :: e in rest ==> e in L[1..]
    ensures KeepsOrder([L[0]] + rest, L)
  {
    var r := [L[0]] + rest;
    forall p, q | 0 <= p < q < |r| ensures Before(L, r[p], r[q]) {
      assert r[q] == rest[q - 1] && rest[q - 1] in rest;
      if p == 0 {
        BeforeHead(L, r[q]);
      } else {
        assert r[p] == rest[p - 1];
        BeforeTail(L, r[p], r[q]);
      }
    }
  }

  /** The kept entries stay in `L`'s order, which is the dict's insertion order. */
  lemma {:induction false} DedupOrder(L: seq<AppVersion>, seen: set<Option<string>>)
    ensures KeepsOrder(DedupFrom(L, seen), L)
  {
    if L != [] {
      assert forall e :: e in L[1..] ==> e in L;
      if L[0].version in seen {
        DedupOrder(L[1..], seen);
        KeepsOrderTail(DedupFrom(L[1..], seen), L);
      } else {
        var seen' := seen + {L[0].version};
        DedupOrder(L[1..], seen');
        KeepsOrderCons(DedupFrom(L[1..], seen'), L);
      }
    }
  }

  /** Each kept entry is the first in `L` with its version string. */
  lemma {:induction false} DedupFirst(L: seq<AppVersion>, seen: set<Option<string>>)
    ensures forall e :: e in DedupFrom(L, seen) ==> FirstWith(L, e.version) == Some(e)
  {
    if L != [] {
      if L[0].version in seen {
        DedupFirst(L[1..], seen);
      } else {
        DedupFirst(L[1..], seen + {L[0].version});
      }
    }
  }

  /** Every version string of `L` outside `seen` is kept, and no other. */
  lemma {:induction false} DedupVersionSet(L: seq<AppVersion>, seen: set<Option<string>>)
    ensures VersionSet(DedupFrom(L, seen)) == VersionSet(L) - seen
  {
    if L != [] {
      VersionSetCons(L[0], L[1..]);
      assert [L[0]] + L[1..] == L;
      if L[0].version in seen {
        DedupVersionSet(L[1..], seen);
      } else {
        DedupVersionSet(L[1..], seen + {L[0].version});
        VersionSetCons(L[0], DedupFrom(L[1..], seen + {L[0].version}));
      }
    }
  }

  /** No two kept entries share a version string. */
  lemma {:induction false} DedupDistinct(L: seq<AppVersion>, seen: set<Option<string>>)
    ensures DistinctVersions(DedupFrom(L, seen))
  {
    if L != [] {
      if L[0].version in seen {
        assert DedupFrom(L, seen) == DedupFrom(L[1..], seen);
        DedupDistinct(L[1..], seen);
      } else {
        var seen' := seen + {L[0].version};
        var rest := DedupFrom(L[1..], seen');
        assert DedupFrom(L, seen) == [L[0]] + rest;
        DedupDistinct(L[1..], seen');
        DistinctCons(L[0], rest);
      }
    }
  }

  /** A new version string in front of distinct ones keeps them distinct. */
  lemma DistinctCons(a: AppVersion, rest: seq<AppVersion>)
    requires DistinctVersions(rest)
    requires forall e :: e in rest ==> e.version != a.version
    ensures DistinctVersions([a] + rest)
  {
    var r := [a] + rest;
    forall i, j | 0 <= i < j < |r| ensures r[i].version != r[j].version {
      assert r[j] == rest[j - 1] && rest[j - 1] in rest;
      if i > 0 {
        assert r[i] == rest[i - 1];
      }
    }
  }

  /** Keeping a subsequence of a sorted list keeps it sorted. */
  lemma {:induction false} DedupSorted(L: seq<AppVersion>, seen: set<Option<string>>)
    requires NewestFirst(L)
    ensures NewestFirst(DedupFrom(L, seen))
  {
    if L != [] {
      SortedHead(L);
      if L[0].version in seen {
        DedupSorted(L[1..], seen);
      } else {
        var rest := DedupFrom(L[1..], seen + {L[0].version});
        DedupSorted(L[1..], seen + {L[0].version});
        assert forall e :: e in L[1..] ==> e in L;
        SortedCons(L[0], rest);
      }
    }
  }

  /** One step of the dict filling: the entry at `i` is kept exactly when its string is new. */
  lemma DedupStep(L: seq<AppVersion>, i: nat, seen: set<Option<string>>)
    requires i < |L|
    ensures DedupFrom(L[i..], seen) ==
      if L[i].version in seen then DedupFrom(L[i + 1..], seen)
      else [L[i]] + DedupFrom(L[i + 1..], seen + {L[i].version})
  {
    assert L[i..][0] == L[i] && L[i..][1..] == L[i + 1..];
  }

  /** `App.versions`: the stored versions sorted newest first, one per version string. */
  function Versions(app: App): seq<AppVersion>
  {
    DedupFrom(SortByDate(app.storedVersions), {})
  }

  /**
    `App.versions` holds exactly one entry per distinct stored version string,
    each one of the stored versions, listed newest first; it is empty exactly
    when nothing is stored.
  */
  lemma VersionsShape(app: App)
    ensures var r, vs := Versions(app), app.storedVersions;
      && DistinctVersions(r)
      && VersionSet(r) == VersionSet(vs)
      && (forall e :: e in r ==> e in vs)
      && NewestFirst(r)
      && (|r| == 0 <==> |vs| == 0)
  {
    var vs := app.storedVersions;
    var sorted := SortByDate(vs);
    var r := Versions(app);
    DedupVersionSet(sorted, {});
    DedupDistinct(sorted, {});
    SortSorted(vs);
    DedupSorted(sorted, {});
    SameElements(sorted, vs);
    assert VersionSet(sorted) == VersionSet(vs);
    if |vs| > 0 {
      assert vs[0].version in VersionSet(vs);
      assert vs[0].version in VersionSet(r);
    }
  }

  /**
    The entry `App.versions` keeps for a version string is the newest stored
    entry with that string, and the earliest stored one among equally new ones.
  */
  lemma VersionsChoice(app: App)
    ensures var r, vs := Versions(app), app.storedVersions;
      && (forall e, x :: e in r && x in vs && x.version == e.version ==> x.date.wall <= e.date.wall)
      && (forall e :: e in r ==>
            exists k :: 0 <= k < |vs| && vs[k] == e
              && forall j :: 0 <= j < k && vs[j].version == e.version ==> vs[j].date.wall < e.date.wall)
  {
    var vs := app.storedVersions;
    var r := Versions(app);
    DedupFirst(SortByDate(vs), {});
    forall e | e in r
      ensures forall x :: x in vs && x.version == e.version ==> x.date.wall <= e.date.wall
      ensures exists k :: 0 <= k < |vs| && vs[k] == e
                && forall j :: 0 <= j < k && vs[j].version == e.version ==> vs[j].date.wall < e.date.wall
    {
      FirstWithSorted(vs, e.version);
      BestSpec(vs, e.version);
    }
  }

  /**
    Of two equally dated entries of `App.versions`, the first was stored
    first: the stable sort keeps their order and the dict inserts them in it.
  */
  lemma VersionsTieOrder(app: App)
    ensures TiesInOrder(Versions(app), app.storedVersions)
  {
    var r, vs := Versions(app), app.storedVersions;
    var s := SortByDate(vs);
    DedupOrder(s, {});
    SortKeepsTies(vs);
    forall p, q | 0 <= p < q < |r| && r[p].date.wall == r[q].date.wall
      ensures Before(vs, r[p], r[q])
    {
      assert Before(s, r[p], r[q]);
      var a, b :| 0 <= a < b < |s| && s[a] == r[p] && s[b] == r[q];
    }
  }

  /** The first entry of `App.versions` is no older than any stored version. */
  lemma VersionsHead(app: App)
    requires |app.storedVersions| > 0
    ensures |Versions(app)| > 0
    ensures forall x :: x in app.storedVersions ==> x.date.wall <= Versions(app)[0].date.wall
  {
    var r, vs := Versions(app), app.storedVersions;
    VersionsShape(app);
    VersionsChoice(app);
    forall x | x in vs ensures x.date.wall <= r[0].date.wall {
      assert x.version in VersionSet(vs);
      var e :| e in r && e.version == x.version;
      var i :| 0 <= i < |r| && r[i] == e;
    }
  }

  /** One step of `ComputeVersions`' loop, stated on the specification. */
  lemma DedupAdvance(L: seq<AppVersion>, i: nat, kept: seq<AppVersion>, seen: set<Option<string>>)
    requires i < |L|
    requires kept + DedupFrom(L[i..], seen) == DedupFrom(L, {})
    ensures L[i].version in seen ==> kept + DedupFrom(L[i + 1..], seen) == DedupFrom(L, {})
    ensures L[i].version !in seen ==>
      (kept + [L[i]]) + DedupFrom(L[i + 1..], seen + {L[i].version}) == DedupFrom(L, {})
  {
    DedupStep(L, i, seen);
    if L[i].version !in seen {
      var rest := DedupFrom(L[i + 1..], seen + {L[i].version});
      assert kept + ([L[i]] + rest) == (kept + [L[i]]) + rest;
    }
  }

  /**
    The loop of `App.versions` over the sorted list: a dict that gains an
    entry only for a version string it does not hold yet, then its values in
    insertion order.
  */
  method KeepFirstPerVersion(sorted: seq<AppVersion>) returns (r: seq<AppVersion>)
    ensures r == DedupFrom(sorted, {})
  {
    var versions: map<Option<string>, AppVersion> := map[];
    var order: seq<Option<string>> := [];  // the dict's insertion order
    ghost var kept: seq<AppVersion> := [];
    assert sorted[0..] == sorted && versions.Keys == {};
    for i := 0 to |sorted|
      invariant versions.Keys == set k | k in order
      invariant |order| == |kept|
      invariant forall p :: 0 <= p < |order| ==> order[p] in versions && versions[order[p]] == kept[p]
      invariant kept + DedupFrom(sorted[i..], versions.Keys) == DedupFrom(sorted, {})
    {
      var version := sorted[i];
      DedupAdvance(sorted, i, kept, versions.Keys);
      if version.version !in versions {
        ghost var seen := versions.Keys;
        versions := versions[version.version := version];
        assert versions.Keys == seen + {version.version};
        order := order + [version.version];
        kept := kept + [version];
      }
    }
    assert sorted[|sorted|..] == [];
    r := seq(|order|, p requires 0 <= p < |order| => versions[order[p]]);
    assert r == kept;
  }

  /** `App.versions`: the stored versions sorted newest first, then the loop above. */
  method ComputeVersions(app: App) returns (r: seq<AppVersion>)
    ensures r == Versions(app)
  {
    var sorted := SortByDate(app.storedVersions);
    r := KeepFirstPerVersion(sorted);
  }

  /** `App.latest_version`: `None` exactly when there are no versions, else the newest one. */
  function LatestVersion(app: App): (r: Option<AppVersion>)
    ensures r.None? <==> |app.storedVersions| == 0
    ensures r.Some? ==> r.value in app.storedVersions
    ensures r.Some? ==> forall x :: x in app.storedVersions ==> x.date.wall <= r.value.date.wall
    ensures r.Some? ==> |Versions(app)| > 0 && r.value == Versions(app)[0]
  {
    VersionsShape(app);
    var versions := Versions(app);
    if |versions| == 0 then None
    else
      VersionsHead(app);
      assert versions[0] in versions;
      Some(versions[0])
  }

  /** `App.last_updated`: the newest stored date, or the epoch when there is none. */
  function LastUpdated(app: App): (r: DateTime)
    ensures |app.storedVersions| == 0 ==> r == Epoch
    ensures |app.storedVersions| > 0 ==> exists x :: x in app.storedVersions && x.date == r
    ensures forall x :: x in app.storedVersions ==> x.date.wall <= r.wall
  {
    match LatestVersion(app)
    case Some(latest) => latest.date
    case None => Epoch
  }

  /** The newest wall-clock reading among `vs`, or the epoch's when `vs` is empty. */
  function NewestWall(vs: seq<AppVersion>): int
  {
    if vs == [] then Epoch.wall
    else if |vs| == 1 || NewestWall(vs[1..]) <= vs[0].date.wall then vs[0].date.wall
    else NewestWall(vs[1..])
  }

  /** `NewestWall` is the maximum of the dates' wall-clock readings. */
  lemma {:induction false} NewestWallIsMax(vs: seq<AppVersion>)
    requires vs != []
    ensures exists x :: x in vs && x.date.wall == NewestWall(vs)
    ensures forall x :: x in vs ==> x.date.wall <= NewestWall(vs)
  {
    assert vs[0] in vs;
    if |vs| > 1 {
      NewestWallIsMax(vs[1..]);
      var y :| y in vs[1..] && y.date.wall == NewestWall(vs[1..]);
      assert y in vs;
      forall x | x in vs ensures x.date.wall <= NewestWall(vs) {
        if x != vs[0] {
          assert x in vs[1..];
        }
      }
    }
  }

  /** `last_updated` is the newest stored date, or the epoch when nothing is stored. */
  lemma LastUpdatedNewest(app: App)
    ensures LastUpdated(app).wall == NewestWall(app.storedVersions)
  {
    if app.storedVersions != [] {
      NewestWallIsMax(app.storedVersions);
    }
  }
}
