/**
  The generator's driver (generator/opnsense/collect_api_endpoints.go, `main`): which
  walked files are parsed, how their endpoint lists are grouped into modules, and the
  controller records handed to the output template.

  The directory walk is given as its sequence of visits, in walk order; file contents
  and the matches of the generator's expressions come with each visit.
 */
module Catalog {
  import opened Runtime
  import opened Text
  import opened PathUtil
  import opened Endpoints

  /** The path fragment meant to exclude the firmware controller. */
  const ExcludeControllers := "Core/Api/FirmwareController.php"

  const WalkErrorMessage := "Error walking path"
  const ReadErrorMessage := "Error reading file"

  /** One visit of the walk: the path, whether it is a directory, whether the walk reported an error, the contents if readable. */
  datatype WalkEntry = WalkEntry(path: string, isDir: bool, walkError: bool, contents: Option<string>, matches: Matches)

  /** The matches come from the contents: every method header's text occurs in the file. */
  predicate WellMatched(e: WalkEntry)
  {
    e.contents.Some? ==> Matched(e.contents.value, e.matches.headers)
  }

  predicate AllWellMatched(entries: seq<WalkEntry>)
  {
    forall i :: 0 <= i < |entries| ==> WellMatched(entries[i])
  }

  // ---------------------------------------------------------------------------
  // Which files are parsed
  // ---------------------------------------------------------------------------

  /** A visited path is parsed when it is a file whose lowered path ends in `controller.php`, lies under `mvc/app/controllers`, and does not contain the exclusion. */
  predicate Selected(path: string, isDir: bool)
  {
    var lowered := ToLower(path);
    !isDir && HasSuffix(lowered, "controller.php") && Contains(lowered, "mvc/app/controllers")
    && !Contains(lowered, ExcludeControllers)
  }

  /** The exclusion is compared with a lowered path but holds upper-case letters, so it never excludes anything. */
  lemma ExclusionNeverApplies(path: string)
    ensures !Contains(ToLower(path), ExcludeControllers)
    ensures Selected(path, false) <==>
      HasSuffix(ToLower(path), "controller.php") && Contains(ToLower(path), "mvc/app/controllers")
  {
    var lowered := ToLower(path);
    forall k ensures !OccursAt(lowered, ExcludeControllers, k) {
      if 0 <= k && k + |ExcludeControllers| <= |lowered| {
        assert lowered[k..k + |ExcludeControllers|][0] == lowered[k];
        assert !IsUpper(lowered[k]) && IsUpper(ExcludeControllers[0]);
      }
    }
  }

  // ---------------------------------------------------------------------------
  // The module key
  // ---------------------------------------------------------------------------

  /** The key a file is grouped under: the last `\`-separated piece of its grandparent directory, lowered. */
  function ModuleKey(path: string): (r: string)
    ensures '\\' !in r
    ensures var d := Dir(Dir(path));
      && |r| <= |d|
      && r == ToLower(d[|d| - |r|..])
      && (|r| < |d| ==> d[|d| - |r| - 1] == '\\')
  {
    ToLower(LastSegment(Dir(Dir(path)), '\\'))
  }

  lemma {:induction false} DirKeepsChars(p: string, c: char)
    requires c != '.' && c != '/' && c !in p
    ensures c !in Dir(p)
  {
    var d := Dir(p);
    if d != "." && d != "/" {
      assert d == p[..|d|];
    }
  }

  /** On `/`-separated paths there is no `\` to split on: the key is the whole lowered grandparent directory. */
  lemma ModuleKeyIsGrandparent(path: string)
    requires '\\' !in path
    ensures ModuleKey(path) == ToLower(Dir(Dir(path)))
  {
    DirKeepsChars(path, '\\');
    DirKeepsChars(Dir(path), '\\');
    SplitWithoutSep(Dir(Dir(path)), '\\');
  }

  // ---------------------------------------------------------------------------
  // Parsing one visited file
  // ---------------------------------------------------------------------------

  /**
    The endpoint list of a selected file before sorting, or how Go stops: the module
    segment is indexed before the file is read, and a read failure is fatal.
   */
  function Parsed(e: WalkEntry, existing: set<string>): (r: Result<seq<Endpoint>>)
    requires WellMatched(e)
    ensures |Split(e.path, '/')| < 3 ==> r == Failed(IndexOutOfRange)
    ensures |Split(e.path, '/')| >= 3 && e.contents.None? ==> r == Failed(Fatal(ReadErrorMessage))
    ensures r.Ok? <==>
      e.contents.Some? && Facts(e.path, e.matches, existing).Ok? && AllBodiesInRange(e.contents.value, e.matches.headers)
  {
    if |Split(e.path, '/')| < 3 then Failed(IndexOutOfRange)
    else if e.contents.None? then Failed(Fatal(ReadErrorMessage))
    else
      var facts := Facts(e.path, e.matches, existing);
      if facts.Failed? then Failed(facts.abort)
      else if !AllBodiesInRange(e.contents.value, e.matches.headers) then Failed(SliceOutOfRange)
      else Ok(Unsorted(facts.value, e.contents.value, e.matches.headers))
  }

  /** parseAPIPHP on one visited file, including the read. */
  method ParseFile(e: WalkEntry, existing: set<string>) returns (r: Result<seq<Endpoint>>)
    requires WellMatched(e)
    ensures r.Failed? <==> Parsed(e, existing).Failed?
    ensures r.Failed? ==> r.abort == Parsed(e, existing).abort
    ensures r.Ok? ==> SortedByCommand(r.value) && multiset(r.value) == multiset(Parsed(e, existing).value)
  {
    var splitPath := Split(e.path, '/');
    if |splitPath| < 3 {
      return Failed(IndexOutOfRange);
    }
    if e.contents.None? {
      return Failed(Fatal(ReadErrorMessage));
    }
    r := ParseAPIPHP(e.path, e.contents.value, e.matches, existing);
  }

  // ---------------------------------------------------------------------------
  // The walk callback and the module map
  // ---------------------------------------------------------------------------

  /** How a visit stops the generator, if it does: a walk error, or a selected file whose parse stops. */
  function Stop(e: WalkEntry, existing: set<string>): Option<Abort>
    requires WellMatched(e)
  {
    if e.walkError then Some(Fatal(WalkErrorMessage))
    else if Selected(e.path, e.isDir) && Parsed(e, existing).Failed? then Some(Parsed(e, existing).abort)
    else None
  }

  /** A visit adds a list to the module map: a selected file with a non-empty endpoint list. */
  predicate Contributes(e: WalkEntry, existing: set<string>)
    requires WellMatched(e)
  {
    !e.walkError && Selected(e.path, e.isDir) && Parsed(e, existing).Ok? && |Parsed(e, existing).value| > 0
  }

  /** What one visit means for the module map: whether it stops the generator, whether it adds a list, under which key, and the pre-sort list. */
  datatype Visit = Visit(stop: Option<Abort>, adds: bool, key: string, unsorted: seq<Endpoint>)

  function VisitOf(e: WalkEntry, existing: set<string>): (v: Visit)
    requires WellMatched(e)
    ensures v.adds ==> v.stop.None? && |v.unsorted| > 0
  {
    var p := Parsed(e, existing);
    Visit(Stop(e, existing), Contributes(e, existing), ModuleKey(e.path), if p.Ok? then p.value else [])
  }

  /** `visits` is the meaning of `entries`, visit by visit. */
  ghost predicate Describes(visits: seq<Visit>, entries: seq<WalkEntry>, existing: set<string>)
    requires AllWellMatched(entries)
  {
    && |visits| == |entries|
    && forall i {:trigger VisitOf(entries[i], existing)} :: 0 <= i < |entries| ==> visits[i] == VisitOf(entries[i], existing)
  }

  /** The meaning of each visit, in walk order. */
  function Visits(entries: seq<WalkEntry>, existing: set<string>): (r: seq<Visit>)
    requires AllWellMatched(entries)
    ensures Describes(r, entries, existing)
  {
    seq(|entries|, i requires 0 <= i < |entries| => VisitOf(entries[i], existing))
  }

  /** The positions, among the first `n` visits, of those that add a list under `key`, in walk order. */
  function KeyIndices(visits: seq<Visit>, key: string, n: nat): seq<nat>
    requires n <= |visits|
  {
    if n == 0 then []
    else
      var prev := KeyIndices(visits, key, n - 1);
      if visits[n - 1].adds && visits[n - 1].key == key then prev + [n - 1] else prev
  }

  /** The positions kept are exactly the visits that add under `key`, in increasing order. */
  lemma {:induction false} KeyIndicesSpec(visits: seq<Visit>, key: string, n: nat)
    requires n <= |visits|
    ensures var r := KeyIndices(visits, key, n);
      && (forall t :: 0 <= t < |r| ==> r[t] < n && visits[r[t]].adds && visits[r[t]].key == key)
      && (forall t, u :: 0 <= t < u < |r| ==> r[t] < r[u])
      && (forall i :: 0 <= i < n && visits[i].adds && visits[i].key == key ==> i in r)
  {
    if n > 0 {
      KeyIndicesSpec(visits, key, n - 1);
    }
  }

  /** `lists` holds, in order, a sorted permutation of the pre-sort list of each visit at `ix`. */
  predicate ListsFor(lists: seq<seq<Endpoint>>, visits: seq<Visit>, ix: seq<nat>)
  {
    && |lists| == |ix|
    && forall t :: 0 <= t < |ix| ==>
        && ix[t] < |visits|
        && SortedByCommand(lists[t])
        && multiset(lists[t]) == multiset(visits[ix[t]].unsorted)
  }

  /** The module map after the first `n` visits: a key per module that received a list, each with its lists in walk order. */
  ghost predicate ModulesAfter(modules: map<string, seq<seq<Endpoint>>>, visits: seq<Visit>, n: nat)
    requires n <= |visits|
  {
    && (forall key :: key in modules <==> |KeyIndices(visits, key, n)| > 0)
    && (forall key :: key in modules ==> ListsFor(modules[key], visits, KeyIndices(visits, key, n)))
  }

  lemma KeyIndicesStep(visits: seq<Visit>, key: string, n: nat)
    requires n < |visits|
    ensures KeyIndices(visits, key, n + 1) ==
      if visits[n].adds && visits[n].key == key then KeyIndices(visits, key, n) + [n] else KeyIndices(visits, key, n)
  {
  }

  lemma ListsForAppend(lists: seq<seq<Endpoint>>, visits: seq<Visit>, ix: seq<nat>, n: nat, payload: seq<Endpoint>)
    requires n < |visits| && ListsFor(lists, visits, ix)
    requires SortedByCommand(payload) && multiset(payload) == multiset(visits[n].unsorted)
    ensures ListsFor(lists + [payload], visits, ix + [n])
  {
    var l, x := lists + [payload], ix + [n];
    forall t | 0 <= t < |x| ensures x[t] < |visits| && SortedByCommand(l[t]) && multiset(l[t]) == multiset(visits[x[t]].unsorted) {
      if t < |ix| {
        assert l[t] == lists[t] && x[t] == ix[t];
      }
    }
  }

  /** After a visit that adds, the keys are those of the earlier visits plus the visit's own key. */
  lemma KeysAfterStep(modules: map<string, seq<seq<Endpoint>>>, visits: seq<Visit>, n: nat, next: map<string, seq<seq<Endpoint>>>)
    requires n < |visits| && ModulesAfter(modules, visits, n)
    requires visits[n].adds && next.Keys == modules.Keys + {visits[n].key}
    ensures forall k :: k in next <==> |KeyIndices(visits, k, n + 1)| > 0
  {
    forall k ensures k in next <==> |KeyIndices(visits, k, n + 1)| > 0 {
      KeyIndicesStep(visits, k, n);
    }
  }

  /** After a visit that adds, its key's lists end with its sorted list and the other keys keep theirs. */
  lemma ListsAfterStep(modules: map<string, seq<seq<Endpoint>>>, visits: seq<Visit>, n: nat, payload: seq<Endpoint>,
                       next: map<string, seq<seq<Endpoint>>>)
    requires n < |visits| && ModulesAfter(modules, visits, n)
    requires visits[n].adds
    requires SortedByCommand(payload) && multiset(payload) == multiset(visits[n].unsorted)
    requires next == modules[visits[n].key := (if visits[n].key in modules then modules[visits[n].key] else []) + [payload]]
    ensures forall k :: k in next ==> ListsFor(next[k], visits, KeyIndices(visits, k, n + 1))
  {
    var key := visits[n].key;
    var lists := if key in modules then modules[key] else [];
    forall k | k in next ensures ListsFor(next[k], visits, KeyIndices(visits, k, n + 1)) {
      KeyIndicesStep(visits, k, n);
      if k == key {
        ListsForAppend(lists, visits, KeyIndices(visits, k, n), n, payload);
      }
    }
  }

  /** One more visit: a visit that adds appends its list under its key, and every other key is unchanged. */
  lemma ModulesAfterStep(
    modules: map<string, seq<seq<Endpoint>>>, visits: seq<Visit>, n: nat, payload: seq<Endpoint>)
    requires n < |visits| && ModulesAfter(modules, visits, n)
    requires visits[n].adds
    requires SortedByCommand(payload) && multiset(payload) == multiset(visits[n].unsorted)
    ensures var key := visits[n].key;
      var lists := if key in modules then modules[key] else [];
      ModulesAfter(modules[key := lists + [payload]], visits, n + 1)
  {
    var key := visits[n].key;
    var lists := if key in modules then modules[key] else [];
    var next := modules[key := lists + [payload]];
    KeysAfterStep(modules, visits, n, next);
    ListsAfterStep(modules, visits, n, payload, next);
  }

  /** A visit that adds nothing leaves the map as it was. */
  lemma ModulesAfterSkip(modules: map<string, seq<seq<Endpoint>>>, visits: seq<Visit>, n: nat)
    requires n < |visits| && ModulesAfter(modules, visits, n)
    requires !visits[n].adds
    ensures ModulesAfter(modules, visits, n + 1)
  {
    forall k ensures KeyIndices(visits, k, n + 1) == KeyIndices(visits, k, n) {
      KeyIndicesStep(visits, k, n);
    }
  }

  /**
    The walk callback for one visit: a walk error or a failed parse of a selected file
    stops the generator; a selected file with endpoints has its sorted list added to the map.
   */
  method WalkCallback(entries: seq<WalkEntry>, n: nat, existing: set<string>, allModules: map<string, seq<seq<Endpoint>>>, ghost visits: seq<Visit>)
      returns (r: Result<map<string, seq<seq<Endpoint>>>>)
    requires AllWellMatched(entries) && Describes(visits, entries, existing) && n < |entries|
    requires ModulesAfter(allModules, visits, n)
    ensures r.Failed? <==> visits[n].stop.Some?
    ensures r.Failed? ==> visits[n].stop == Some(r.abort)
    ensures r.Ok? ==> ModulesAfter(r.value, visits, n + 1)
  {
    var e := entries[n];
    assert visits[n] == VisitOf(e, existing);
    if e.walkError {
      return Failed(Fatal(WalkErrorMessage));
    }
    if !Selected(e.path, e.isDir) {
      ModulesAfterSkip(allModules, visits, n);
      return Ok(allModules);
    }
    var payload := ParseFile(e, existing);
    if payload.Failed? {
      return Failed(payload.abort);
    }
    assert |payload.value| == |multiset(payload.value)| == |Parsed(e, existing).value|;
    var m := AddToModule(allModules, visits, n, ModuleKey(e.path), payload.value);
    return Ok(m);
  }

  /** The callback's map update: a non-empty list is appended under the file's key, creating the key on first use. */
  method AddToModule(allModules: map<string, seq<seq<Endpoint>>>, ghost visits: seq<Visit>, ghost n: nat, moduleName: string, payload: seq<Endpoint>)
      returns (m: map<string, seq<seq<Endpoint>>>)
    requires n < |visits| && ModulesAfter(allModules, visits, n)
    requires moduleName == visits[n].key && (|payload| > 0 <==> visits[n].adds)
    requires visits[n].adds ==> SortedByCommand(payload) && multiset(payload) == multiset(visits[n].unsorted)
    ensures ModulesAfter(m, visits, n + 1)
    ensures |payload| > 0 ==>
      m == allModules[moduleName := (if moduleName in allModules then allModules[moduleName] else []) + [payload]]
    ensures |payload| == 0 ==> m == allModules
  {
    m := allModules;
    if |payload| > 0 {
      ghost var lists := if moduleName in allModules then allModules[moduleName] else [];
      ModulesAfterStep(allModules, visits, n, payload);
      if moduleName !in m {
        m := m[moduleName := []];
      }
      assert m[moduleName] == lists;
      m := m[moduleName := m[moduleName] + [payload]];
      assert m == allModules[moduleName := lists + [payload]];
    } else {
      ModulesAfterSkip(m, visits, n);
    }
  }

  /** Visit `i` is the first that stops the generator. */
  predicate StopsFirstAt(visits: seq<Visit>, i: nat)
  {
    i < |visits| && visits[i].stop.Some? && forall j :: 0 <= j < i ==> visits[j].stop.None?
  }

  /**
    The walk and its callback: each selected file is parsed and, when it yields endpoints,
    appended to its module's list; the first walk error or failed parse stops the generator.
   */
  method Collect(entries: seq<WalkEntry>, existing: set<string>) returns (r: Result<map<string, seq<seq<Endpoint>>>>)
    requires AllWellMatched(entries)
    ensures var visits := Visits(entries, existing);
      && (r.Failed? <==> exists i :: 0 <= i < |visits| && visits[i].stop.Some?)
      && (r.Failed? ==> exists i: nat :: StopsFirstAt(visits, i) && visits[i].stop == Some(r.abort))
      && (r.Ok? ==> ModulesAfter(r.value, visits, |visits|))
  {
    r := Walk(entries, existing, Visits(entries, existing));
  }

  /** The loop of `Collect`, stated over any description `visits` of the entries. */
  method Walk(entries: seq<WalkEntry>, existing: set<string>, ghost visits: seq<Visit>)
      returns (r: Result<map<string, seq<seq<Endpoint>>>>)
    requires AllWellMatched(entries) && Describes(visits, entries, existing)
    ensures r.Failed? <==> exists i :: 0 <= i < |visits| && visits[i].stop.Some?
    ensures r.Failed? ==> exists i: nat :: StopsFirstAt(visits, i) && visits[i].stop == Some(r.abort)
    ensures r.Ok? ==> ModulesAfter(r.value, visits, |visits|)
  {
    var allModules: map<string, seq<seq<Endpoint>>> := map[];
    var i := 0;
    while i < |entries|
      invariant 0 <= i <= |entries|
      invariant forall j :: 0 <= j < i ==> visits[j].stop.None?
      invariant ModulesAfter(allModules, visits, i)
    {
      var next := WalkCallback(entries, i, existing, allModules, visits);
      if next.Failed? {
        assert StopsFirstAt(visits, i);
        return Failed(next.abort);
      }
      allModules := next.value;
      i := i + 1;
    }
    assert forall j :: 0 <= j < |visits| ==> visits[j].stop.None?;
    return Ok(allModules);
  }

  /** Every list in the module map is non-empty, so a controller record can read its endpoint 0. */
  lemma ModuleListsNonEmpty(modules: map<string, seq<seq<Endpoint>>>, visits: seq<Visit>)
    requires forall i :: 0 <= i < |visits| && visits[i].adds ==> |visits[i].unsorted| > 0
    requires ModulesAfter(modules, visits, |visits|)
    ensures forall key, t :: key in modules && 0 <= t < |modules[key]| ==> |modules[key][t]| > 0
  {
    forall key, t | key in modules && 0 <= t < |modules[key]| ensures |modules[key][t]| > 0 {
      var ix := KeyIndices(visits, key, |visits|);
      KeyIndicesSpec(visits, key, |visits|);
      assert |multiset(modules[key][t])| == |visits[ix[t]].unsorted|;
    }
  }
}
