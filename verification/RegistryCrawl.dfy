/** The bounded breadth-first crawl of registry indexes, against reachability in the dependency graph. */
module RegistryCrawl {
  import opened Text

  /** The dependency names of each release of one package. */
  type Index = seq<seq<string>>

  /** The registry as the crawl sees it: what fetching a package gives, and whether the resolver takes the index. */
  datatype Registry = Registry(fetch: string -> Option<Index>, accepts: (string, Index) -> bool)

  datatype CrawlError = GraphTooLarge(maximum: nat) | FetchFailed(package: string) | IndexRejected(package: string)

  ghost predicate DependsOn(index: Index, name: string) {
    exists i :: 0 <= i < |index| && name in index[i]
  }

  ghost predicate Edge(r: Registry, a: string, b: string) {
    r.fetch(a).Some? && DependsOn(r.fetch(a).value, b)
  }

  ghost predicate IsPath(r: Registry, path: seq<string>) {
    |path| > 0 && forall i :: 0 <= i < |path| - 1 ==> Edge(r, path[i], path[i + 1])
  }

  /** Reachable from the root through any release's dependencies. */
  ghost predicate Reachable(r: Registry, root: string, name: string) {
    exists path :: IsPath(r, path) && path[0] == root && path[|path| - 1] == name
  }

  lemma RootReachable(r: Registry, root: string)
    ensures Reachable(r, root, root)
  {
    assert IsPath(r, [root]);
  }

  lemma ReachFurther(r: Registry, root: string, a: string, b: string)
    requires Reachable(r, root, a) && Edge(r, a, b)
    ensures Reachable(r, root, b)
  {
    var path :| IsPath(r, path) && path[0] == root && path[|path| - 1] == a;
    var longer := path + [b];
    forall i | 0 <= i < |longer| - 1
      ensures Edge(r, longer[i], longer[i + 1])
    {
      assert i < |path| - 1 ==> Edge(r, path[i], path[i + 1]);
    }
    assert IsPath(r, longer);
  }

  /** Whatever contains the root and is closed under edges contains everything reachable. */
  lemma {:induction false} ClosedContainsPath(r: Registry, closed: set<string>, path: seq<string>)
    requires forall a, b :: a in closed && Edge(r, a, b) ==> b in closed
    requires IsPath(r, path) && path[0] in closed
    ensures path[|path| - 1] in closed
    decreases |path|
  {
    if |path| > 1 {
      assert Edge(r, path[0], path[1]);
      forall i | 0 <= i < |path[1..]| - 1
        ensures Edge(r, path[1..][i], path[1..][i + 1])
      {
        assert Edge(r, path[i + 1], path[i + 2]);
      }
      ClosedContainsPath(r, closed, path[1..]);
    }
  }

  ghost predicate AllReachable(r: Registry, root: string, names: set<string>) {
    forall name :: name in names ==> Reachable(r, root, name)
  }

  /** More than `maximum` packages can be reached; the graph may be infinite. */
  ghost predicate MoreThan(r: Registry, root: string, maximum: nat) {
    exists names: set<string> :: |names| > maximum && AllReachable(r, root, names)
  }

  function Elements(s: seq<string>): set<string> { set x | x in s }

  lemma NothingFetched()
    ensures Distinct<string>([]) && Elements([]) == {}
  {}

  lemma OneFetched(fetched: seq<string>, package: string)
    requires Distinct(fetched) && package !in Elements(fetched)
    ensures Distinct(fetched + [package]) && Elements(fetched + [package]) == Elements(fetched) + {package}
  {}

  lemma SubsetIsSmaller(a: set<string>, b: set<string>)
    requires a <= b
    ensures |a| <= |b|
  {
    assert |b| == |a| + |b - a| by {
      assert b == a + (b - a);
    }
  }

  /** Everything queued so far is done or still waiting, once. */
  ghost predicate Frontier(done: set<string>, queued: set<string>, queue: seq<string>) {
    Distinct(queue) && queued == done + Elements(queue) && done !! Elements(queue)
  }

  /** Only reachable packages are queued, the indexes are the fetched ones, and their dependencies are queued. */
  ghost predicate Known(r: Registry, root: string, indexes: map<string, Index>, queued: set<string>) {
    && AllReachable(r, root, queued)
    && (forall name :: name in indexes ==> name in queued && r.fetch(name) == Some(indexes[name]))
    && (forall name, d :: name in indexes && DependsOn(indexes[name], d) ==> d in queued)
  }

  lemma StartOfCrawl(r: Registry, root: string)
    ensures Frontier({}, {root}, [root]) && Known(r, root, map[], {root})
  {
    RootReachable(r, root);
  }

  lemma FirstOfQueue(done: set<string>, queued: set<string>, queue: seq<string>)
    requires Frontier(done, queued, queue) && queue != []
    ensures queue[0] in queued && queue[0] !in done && Frontier(done + {queue[0]}, queued, queue[1..])
  {
    assert queue == [queue[0]] + queue[1..];
  }

  lemma IndexAdded(r: Registry, root: string, indexes: map<string, Index>, package: string, index: Index,
                   queued: set<string>, queue: seq<string>)
    requires Known(r, root, indexes, queued) && r.fetch(package) == Some(index)
    requires Frontier(indexes.Keys + {package}, queued, queue)
    requires forall d :: DependsOn(index, d) ==> d in queued
    ensures Known(r, root, indexes[package := index], queued)
  {}

  lemma MoreQueued(r: Registry, root: string, indexes: map<string, Index>, queued: set<string>, queued': set<string>)
    requires Known(r, root, indexes, queued) && queued <= queued' && AllReachable(r, root, queued')
    ensures Known(r, root, indexes, queued')
  {}

  lemma KnownIsReachable(r: Registry, root: string, indexes: map<string, Index>, queued: set<string>)
    requires Known(r, root, indexes, queued)
    ensures AllReachable(r, root, queued) && AllReachable(r, root, indexes.Keys)
    ensures forall name :: name in queued ==> Reachable(r, root, name)
  {}

  /** Crawl from the root. `fetched` lists the packages in the order they were fetched. */
  method HydrateCatalog(registry: Registry, root: string, maximum: nat)
    returns (r: Result<map<string, Index>, CrawlError>, fetched: seq<string>)
    ensures Distinct(fetched)
    ensures r.Ok? ==>
              && (forall name :: name in r.value <==> Reachable(registry, root, name))
              && (forall name :: name in r.value ==> registry.fetch(name) == Some(r.value[name]))
              && Elements(fetched) == r.value.Keys
              && |r.value| <= maximum && !MoreThan(registry, root, maximum)
    ensures r.Err? ==>
              match r.error
              case GraphTooLarge(m) => m == maximum && MoreThan(registry, root, maximum)
              case FetchFailed(name) => Reachable(registry, root, name) && registry.fetch(name).None?
              case IndexRejected(name) =>
                && Reachable(registry, root, name) && registry.fetch(name).Some?
                && !registry.accepts(name, registry.fetch(name).value)
  {
    hide Reachable, DependsOn, MoreThan, Known, Frontier, AllReachable, Distinct, Elements;
    NothingFetched();
    StartOfCrawl(registry, root);
    var indexes: map<string, Index> := map[];
    var queued := {root};
    var queue := [root];
    fetched := [];
    while queue != []
      invariant |indexes| <= maximum && root in queued
      invariant Frontier(indexes.Keys, queued, queue) && Known(registry, root, indexes, queued)
      invariant Distinct(fetched) && Elements(fetched) == indexes.Keys
      decreases maximum - |indexes|
    {
      var package := queue[0];
      FirstOfQueue(indexes.Keys, queued, queue);
      queue := queue[1..];
      KnownIsReachable(registry, root, indexes, queued);
      if |indexes| >= maximum {
        TooMany(registry, root, indexes.Keys, package, maximum);
        return Err(GraphTooLarge(maximum)), fetched;
      }
      var answer := registry.fetch(package);
      if answer.None? {
        return Err(FetchFailed(package)), fetched;
      }
      var index := answer.value;
      ghost var before := queued;
      queue, queued := Enqueue(registry, root, index, package, queue, queued, indexes.Keys);
      MoreQueued(registry, root, indexes, before, queued);
      if !registry.accepts(package, index) {
        return Err(IndexRejected(package)), fetched;
      }
      IndexAdded(registry, root, indexes, package, index, queued, queue);
      assert indexes[package := index].Keys == indexes.Keys + {package};
      OneFetched(fetched, package);
      indexes := indexes[package := index];
      fetched := fetched + [package];
    }
    ClosedIsReachable(registry, root, indexes, queued);
    NotMoreThan(registry, root, indexes, maximum);
    return Ok(indexes), fetched;
  }

  lemma TooMany(r: Registry, root: string, names: set<string>, package: string, maximum: nat)
    requires |names| >= maximum && package !in names
    requires AllReachable(r, root, names) && Reachable(r, root, package)
    ensures MoreThan(r, root, maximum)
  {
    var all := names + {package};
    assert |all| == |names| + 1 && AllReachable(r, root, all);
  }

  lemma NotMoreThan(r: Registry, root: string, indexes: map<string, Index>, maximum: nat)
    requires |indexes| <= maximum && forall name :: Reachable(r, root, name) <==> name in indexes
    ensures !MoreThan(r, root, maximum)
  {
    forall names: set<string> | AllReachable(r, root, names)
      ensures |names| <= maximum
    {
      SubsetIsSmaller(names, indexes.Keys);
      assert |indexes.Keys| == |indexes|;
    }
  }

  lemma ClosedIsReachable(r: Registry, root: string, indexes: map<string, Index>, queued: set<string>)
    requires root in queued && Known(r, root, indexes, queued) && Frontier(indexes.Keys, queued, [])
    ensures forall name :: Reachable(r, root, name) <==> name in indexes
    ensures forall name :: name in indexes ==> r.fetch(name) == Some(indexes[name])
  {
    forall name | Reachable(r, root, name)
      ensures name in indexes
    {
      var path :| IsPath(r, path) && path[0] == root && path[|path| - 1] == name;
      ClosedContainsPath(r, indexes.Keys, path);
    }
  }

  /** Every dependency of every release, each queued at most once. */
  method Enqueue(registry: Registry, ghost root: string, index: Index, ghost package: string, queue: seq<string>,
                 queued: set<string>, indexed: set<string>)
    returns (queue': seq<string>, queued': set<string>)
    requires Frontier(indexed + {package}, queued, queue) && package !in indexed
    requires registry.fetch(package) == Some(index) && AllReachable(registry, root, queued)
    ensures Frontier(indexed + {package}, queued', queue') && queued <= queued'
    ensures AllReachable(registry, root, queued')
    ensures forall d :: DependsOn(index, d) ==> d in queued'
  {
    queue', queued' := queue, queued;
    for i := 0 to |index|
      invariant Frontier(indexed + {package}, queued', queue') && queued <= queued'
      invariant AllReachable(registry, root, queued')
      invariant forall k, d :: 0 <= k < i && d in index[k] ==> d in queued'
    {
      for j := 0 to |index[i]|
        invariant Frontier(indexed + {package}, queued', queue') && queued <= queued'
        invariant AllReachable(registry, root, queued')
        invariant forall k, d :: 0 <= k < i && d in index[k] ==> d in queued'
        invariant forall k :: 0 <= k < j ==> index[i][k] in queued'
      {
        var dependency := index[i][j];
        if dependency !in indexed && dependency !in queued' {
          assert DependsOn(index, dependency);
          ReachFurther(registry, root, package, dependency);
          queue', queued' := queue' + [dependency], queued' + {dependency};
        }
      }
    }
  }
}
