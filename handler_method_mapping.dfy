/**
 * The handler-method registry and resolver of Spring MVC's
 * `AbstractHandlerMethodMapping<T>`.
 *
 * `T` is the mapping type chosen by a subclass (request-mapping conditions)
 * and `H` stands for `HandlerMethod`.  Equality on both is the Java
 * `equals`.  The subclass extension points are parameters:
 *   - `getMappingPaths` is `pathsOf: T -> set<string>`;
 *   - `getMatchingMapping`, already applied to the lookup path and the
 *     request, is `matching: T -> Option<T>`;
 *   - `getMappingComparator`, for that same path and request, is
 *     `cmp: (T, T) -> int`;
 *   - `handleNoMatch`, already applied to the request, is
 *     `noMatch: (set<T>, string) -> Option<H>`.
 */
module HandlerMethods {
  import opened Wrappers
  import opened Ordering

  /** A narrowed mapping together with the handler method of the candidate it came from. */
  datatype Match<T, H> = Match(mapping: T, handlerMethod: H)

  /** The `IllegalStateException` of `registerHandlerMethod`. */
  datatype RegistrationError<T, H> = AmbiguousMapping(mapping: T, existing: H, rejected: H)

  /** The `IllegalStateException` of `lookupHandlerMethod`: the two best matches compare equal. */
  datatype LookupError<T, H> = AmbiguousHandlerMethods(best: Match<T, H>, secondBest: Match<T, H>)

  /** A method found on a handler bean together with the mapping derived for it. */
  datatype DetectedMethod<T, H> = DetectedMethod(mapping: T, handlerMethod: H)

  /**
   * The registry's state as a value: `handlerMethods` is a `LinkedHashMap`,
   * so its keys also have an insertion order, `mappingOrder`; `urlMap` is the
   * `LinkedMultiValueMap` from a URL path to its list of mappings.
   */
  datatype Registry<T, H> = Registry(handlerMethods: map<T, H>, mappingOrder: seq<T>, urlMap: map<string, seq<T>>)

  /** What the result of a registration loop is: the state reached and the exception that stopped it, if any. */
  datatype Detection<T, H> = Detection(registry: Registry<T, H>, failure: Option<RegistrationError<T, H>>)

  /**
   * The invariant that registration keeps: the insertion order lists every
   * registered mapping exactly once, and every path lists only registered
   * mappings (a path is only ever created by adding a mapping to it).
   */
  ghost predicate WellFormed<T(!new), H(!new)>(reg: Registry<T, H>) {
    && (forall i, j :: 0 <= i < j < |reg.mappingOrder| ==> reg.mappingOrder[i] != reg.mappingOrder[j])
    && (forall m :: m in reg.handlerMethods <==> m in reg.mappingOrder)
    && (forall p :: p in reg.urlMap ==> reg.urlMap[p] != [])
    && (forall p, m :: p in reg.urlMap && m in reg.urlMap[p] ==> m in reg.handlerMethods)
  }

  function EmptyRegistry<T(==, !new), H(==, !new)>(): Registry<T, H> {
    Registry(map[], [], map[])
  }

  /** The list stored under `path`, the empty list standing for a missing entry. */
  function PathList<T(==)>(urlMap: map<string, seq<T>>, path: string): seq<T> {
    if path in urlMap then urlMap[path] else []
  }

  /** `urlMap.add(path, mapping)` for every path in `paths`. */
  function AddPaths<T(==)>(urlMap: map<string, seq<T>>, paths: set<string>, mapping: T): (r: map<string, seq<T>>)
    ensures r.Keys == urlMap.Keys + paths
  {
    map p | p in urlMap.Keys + paths :: if p in paths then PathList(urlMap, p) + [mapping] else urlMap[p]
  }

  /** The mapping is already bound to a handler method that is not equal to `handlerMethod`. */
  predicate Conflicts<T(==, !new), H(==, !new)>(handlerMethods: map<T, H>, mapping: T, handlerMethod: H) {
    mapping in handlerMethods && handlerMethods[mapping] != handlerMethod
  }

  /** The state after a registration that did not conflict. */
  function Registered<T(==, !new), H(==, !new)>(reg: Registry<T, H>, paths: set<string>, mapping: T, handlerMethod: H): Registry<T, H> {
    Registry(
      reg.handlerMethods[mapping := handlerMethod],
      if mapping in reg.handlerMethods then reg.mappingOrder else reg.mappingOrder + [mapping],
      AddPaths(reg.urlMap, paths, mapping))
  }

  /**
   * The registration loop of `detectHandlerMethods`: each detected method is
   * registered in turn; the first conflict throws, leaving the earlier
   * registrations in place.
   */
  function RegisterAll<T(==, !new), H(==, !new)>(reg: Registry<T, H>, detected: seq<DetectedMethod<T, H>>, pathsOf: T -> set<string>): (r: Detection<T, H>)
    ensures r.failure.Some? ==> var e := r.failure.value;
      && DetectedMethod(e.mapping, e.rejected) in detected
      && Conflicts(r.registry.handlerMethods, e.mapping, e.rejected)
      && r.registry.handlerMethods[e.mapping] == e.existing
    decreases |detected|
  {
    if detected == [] then Detection(reg, None)
    else
      var d := detected[0];
      if Conflicts(reg.handlerMethods, d.mapping, d.handlerMethod) then
        Detection(reg, Some(AmbiguousMapping(d.mapping, reg.handlerMethods[d.mapping], d.handlerMethod)))
      else
        RegisterAll(Registered(reg, pathsOf(d.mapping), d.mapping, d.handlerMethod), detected[1..], pathsOf)
  }

  /**
   * The mappings a lookup considers: the list stored for the exact path, or
   * else every registered mapping in insertion order.
   */
  function Candidates<T(==, !new), H(==, !new)>(reg: Registry<T, H>, lookupPath: string): (cs: seq<T>)
    requires WellFormed(reg)
    ensures forall c :: c in cs ==> c in reg.handlerMethods
    ensures lookupPath in reg.urlMap ==> cs == reg.urlMap[lookupPath] && cs != []
    ensures lookupPath !in reg.urlMap ==> |cs| == |reg.handlerMethods| && forall m :: m in reg.handlerMethods ==> m in cs
  {
    OrderLength(reg);
    if lookupPath in reg.urlMap then reg.urlMap[lookupPath] else reg.mappingOrder
  }

  /** The insertion order is as long as the map has keys, since it lists each of them once. */
  lemma OrderLength<T(!new), H(!new)>(reg: Registry<T, H>)
    requires WellFormed(reg)
    ensures |reg.mappingOrder| == |reg.handlerMethods|
  {
    DistinctCardinality(reg.mappingOrder);
    assert reg.handlerMethods.Keys == set m | m in reg.mappingOrder;
  }

  lemma {:induction false} DistinctCardinality<T>(s: seq<T>)
    requires forall i, j :: 0 <= i < j < |s| ==> s[i] != s[j]
    ensures |set m | m in s| == |s|
  {
    if s != [] {
      var init := s[..|s| - 1];
      DistinctCardinality(init);
      assert (set m | m in s) == (set m | m in init) + {s[|s| - 1]};
      assert s[|s| - 1] !in init;
    }
  }

  /** The matches the loop of `lookupHandlerMethod` collects from `cands`, in order. */
  function MatchesOf<T(==, !new), H(==, !new)>(cands: seq<T>, handlerMethods: map<T, H>, matching: T -> Option<T>): seq<Match<T, H>>
    requires forall c :: c in cands ==> c in handlerMethods
  {
    if cands == [] then []
    else
      var last := cands[|cands| - 1];
      MatchesOf(cands[..|cands| - 1], handlerMethods, matching)
        + match matching(last) { case None => [] case Some(n) => [Match(n, handlerMethods[last])] }
  }

  /** `MatchComparator`: compares two matches by their narrowed mappings. */
  function MatchComparator<T(==, !new), H(==, !new)>(cmp: (T, T) -> int): (r: (Match<T, H>, Match<T, H>) -> int)
    ensures forall a, b :: r(a, b) == cmp(a.mapping, b.mapping)
  {
    (a: Match<T, H>, b: Match<T, H>) => cmp(a.mapping, b.mapping)
  }

  /** The default `handleNoMatch`: no handler method. */
  function HandleNoMatch<T(==, !new), H(==, !new)>(mappings: set<T>, lookupPath: string): (r: Option<H>)
    ensures r == None
  {
    None
  }

  /** The error a lookup reports names two best matches at different positions that compare equal. */
  ghost predicate TiedBest<T(!new), H(!new)>(e: LookupError<T, H>, ms: seq<Match<T, H>>, cmp: (T, T) -> int) {
    && e.best in ms && e.secondBest in ms
    && IsBest(e.best, ms, MatchComparator(cmp)) && IsBest(e.secondBest, ms, MatchComparator(cmp))
    && multiset{e.best, e.secondBest} <= multiset(ms)
    && cmp(e.best.mapping, e.secondBest.mapping) == 0
  }

  /** `h` is the handler method of the match that is strictly better than every other match. */
  ghost predicate SelectsBest<T(!new), H(!new)>(h: H, ms: seq<Match<T, H>>, cmp: (T, T) -> int) {
    exists x :: UniqueBest(x, ms, MatchComparator(cmp)) && x.handlerMethod == h
  }

  // ---------------------------------------------------------------------------
  // Registration

  lemma RegisteredWellFormed<T(!new), H(!new)>(reg: Registry<T, H>, paths: set<string>, mapping: T, handlerMethod: H)
    requires WellFormed(reg)
    ensures WellFormed(Registered(reg, paths, mapping, handlerMethod))
  {
    var r := Registered(reg, paths, mapping, handlerMethod);
    if mapping !in reg.handlerMethods {
      assert mapping !in reg.mappingOrder;
      forall i, j | 0 <= i < j < |r.mappingOrder| ensures r.mappingOrder[i] != r.mappingOrder[j] {
        if j == |reg.mappingOrder| {
          assert reg.mappingOrder[i] in reg.mappingOrder;
        }
      }
    }
  }

  /** `AddPaths` appends the mapping to the list of every given path and leaves every other path alone. */
  lemma AddPathsAppends<T>(urlMap: map<string, seq<T>>, paths: set<string>, mapping: T)
    ensures forall p :: p in paths ==> p in AddPaths(urlMap, paths, mapping) && AddPaths(urlMap, paths, mapping)[p] == PathList(urlMap, p) + [mapping]
    ensures forall p :: p !in paths ==> (p in AddPaths(urlMap, paths, mapping) <==> p in urlMap)
    ensures forall p :: p !in paths ==> PathList(AddPaths(urlMap, paths, mapping), p) == PathList(urlMap, p)
  {
  }

  /** Adding one more path is one more `urlMap.add`. */
  lemma AddPathsStep<T>(urlMap: map<string, seq<T>>, done: set<string>, path: string, mapping: T)
    requires path !in done
    ensures var before := AddPaths(urlMap, done, mapping);
      AddPaths(urlMap, done + {path}, mapping) == before[path := PathList(before, path) + [mapping]]
  {
  }

  /**
   * A registration loop that succeeds never changes a binding that existed
   * before it: a later registration of the same mapping must bring an equal
   * handler method.
   */
  lemma {:induction false} RegisterAllKeepsBindings<T(!new), H(!new)>(reg: Registry<T, H>, detected: seq<DetectedMethod<T, H>>, pathsOf: T -> set<string>)
    requires RegisterAll(reg, detected, pathsOf).failure == None
    ensures var out := RegisterAll(reg, detected, pathsOf).registry.handlerMethods;
      forall m :: m in reg.handlerMethods ==> m in out && out[m] == reg.handlerMethods[m]
    decreases |detected|
  {
    if detected != [] {
      var d := detected[0];
      var next := Registered(reg, pathsOf(d.mapping), d.mapping, d.handlerMethod);
      RegisterAllKeepsBindings(next, detected[1..], pathsOf);
    }
  }

  /** After a registration loop that succeeds, every detected mapping is bound to its handler method. */
  lemma {:induction false} RegisterAllBindsEach<T(!new), H(!new)>(reg: Registry<T, H>, detected: seq<DetectedMethod<T, H>>, pathsOf: T -> set<string>)
    requires RegisterAll(reg, detected, pathsOf).failure == None
    ensures var out := RegisterAll(reg, detected, pathsOf).registry.handlerMethods;
      forall i :: 0 <= i < |detected| ==> detected[i].mapping in out && out[detected[i].mapping] == detected[i].handlerMethod
    decreases |detected|
  {
    if detected != [] {
      var d := detected[0];
      var next := Registered(reg, pathsOf(d.mapping), d.mapping, d.handlerMethod);
      RegisterAllKeepsBindings(next, detected[1..], pathsOf);
      RegisterAllBindsEach(next, detected[1..], pathsOf);
      var out := RegisterAll(reg, detected, pathsOf).registry.handlerMethods;
      forall i | 0 <= i < |detected| ensures detected[i].mapping in out && out[detected[i].mapping] == detected[i].handlerMethod {
        if i > 0 {
          assert detected[i] == detected[1..][i - 1];
        }
      }
    }
  }

  /**
   * A registration loop fails when two detected methods bring the same
   * mapping with handler methods that are not equal.
   */
  lemma RegisterAllFailsOnDuplicate<T(!new), H(!new)>(reg: Registry<T, H>, detected: seq<DetectedMethod<T, H>>, pathsOf: T -> set<string>, i: nat, j: nat)
    requires i < j < |detected|
    requires detected[i].mapping == detected[j].mapping && detected[i].handlerMethod != detected[j].handlerMethod
    ensures RegisterAll(reg, detected, pathsOf).failure.Some?
  {
    if RegisterAll(reg, detected, pathsOf).failure == None {
      RegisterAllBindsEach(reg, detected, pathsOf);
    }
  }

  /** A registration loop fails when a detected method brings a mapping already bound to a different handler method. */
  lemma RegisterAllFailsOnExisting<T(!new), H(!new)>(reg: Registry<T, H>, detected: seq<DetectedMethod<T, H>>, pathsOf: T -> set<string>, i: nat)
    requires i < |detected|
    requires Conflicts(reg.handlerMethods, detected[i].mapping, detected[i].handlerMethod)
    ensures RegisterAll(reg, detected, pathsOf).failure.Some?
  {
    if RegisterAll(reg, detected, pathsOf).failure == None {
      RegisterAllBindsEach(reg, detected, pathsOf);
      RegisterAllKeepsBindings(reg, detected, pathsOf);
    }
  }

  /**
   * The `i`-th detected method conflicts: its mapping is bound in
   * `handlerMethods`, or by an earlier detected method, to a handler method
   * that is not equal to its own.
   */
  ghost predicate ConflictAt<T(!new), H(!new)>(handlerMethods: map<T, H>, detected: seq<DetectedMethod<T, H>>, i: int)
    requires 0 <= i < |detected|
  {
    || Conflicts(handlerMethods, detected[i].mapping, detected[i].handlerMethod)
    || exists j :: 0 <= j < i && detected[j].mapping == detected[i].mapping && detected[j].handlerMethod != detected[i].handlerMethod
  }

  /**
   * Conversely, a registration loop that fails met a conflict: some detected
   * method brings a mapping that is already bound to a different handler
   * method, or that an earlier detected method bound to a different one.
   */
  lemma {:induction false} RegisterAllFailureHasConflict<T(!new), H(!new)>(reg: Registry<T, H>, detected: seq<DetectedMethod<T, H>>, pathsOf: T -> set<string>)
    requires RegisterAll(reg, detected, pathsOf).failure.Some?
    ensures exists i :: 0 <= i < |detected| && ConflictAt(reg.handlerMethods, detected, i)
    decreases |detected|
  {
    var d := detected[0];
    if !Conflicts(reg.handlerMethods, d.mapping, d.handlerMethod) {
      var next := Registered(reg, pathsOf(d.mapping), d.mapping, d.handlerMethod);
      var rest := detected[1..];
      RegisterAllFailureHasConflict(next, rest, pathsOf);
      var k :| 0 <= k < |rest| && ConflictAt(next.handlerMethods, rest, k);
      assert detected[k + 1] == rest[k];
      if Conflicts(next.handlerMethods, rest[k].mapping, rest[k].handlerMethod) {
        if rest[k].mapping == d.mapping {
          assert detected[0].mapping == detected[k + 1].mapping && detected[0].handlerMethod != detected[k + 1].handlerMethod;
        } else {
          assert Conflicts(reg.handlerMethods, detected[k + 1].mapping, detected[k + 1].handlerMethod);
        }
        assert ConflictAt(reg.handlerMethods, detected, k + 1);
      } else {
        var j :| 0 <= j < k && rest[j].mapping == rest[k].mapping && rest[j].handlerMethod != rest[k].handlerMethod;
        assert detected[j + 1] == rest[j];
        assert ConflictAt(reg.handlerMethods, detected, k + 1);
      }
    } else {
      assert ConflictAt(reg.handlerMethods, detected, 0);
    }
  }

  /**
   * Registering a mapping a second time with an equal handler method
   * succeeds and leaves `handlerMethods` and its order as they were, but
   * appends the mapping once more to the list of each of its paths.
   */
  lemma ReRegisterAppendsAgain<T(!new), H(!new)>(reg: Registry<T, H>, paths: set<string>, mapping: T, handlerMethod: H)
    ensures var once := Registered(reg, paths, mapping, handlerMethod);
      var twice := Registered(once, paths, mapping, handlerMethod);
      && !Conflicts(once.handlerMethods, mapping, handlerMethod)
      && twice.handlerMethods == once.handlerMethods
      && twice.mappingOrder == once.mappingOrder
      && forall p :: p in paths ==> PathList(twice.urlMap, p) == PathList(reg.urlMap, p) + [mapping, mapping]
  {
    var once := Registered(reg, paths, mapping, handlerMethod);
    AddPathsAppends(reg.urlMap, paths, mapping);
    AddPathsAppends(once.urlMap, paths, mapping);
  }

  // ---------------------------------------------------------------------------
  // Lookup

  /** The matches are exactly the narrowed candidates, each with the handler method of its candidate. */
  lemma {:induction false} MatchesOfMembers<T(!new), H(!new)>(cands: seq<T>, handlerMethods: map<T, H>, matching: T -> Option<T>)
    requires forall c :: c in cands ==> c in handlerMethods
    ensures forall x :: x in MatchesOf(cands, handlerMethods, matching) <==>
      exists c :: c in cands && matching(c) == Some(x.mapping) && handlerMethods[c] == x.handlerMethod
    decreases |cands|
  {
    if cands != [] {
      var init := cands[..|cands| - 1];
      var last := cands[|cands| - 1];
      assert cands == init + [last];
      MatchesOfMembers(init, handlerMethods, matching);
    }
  }

  /** Every match comes from a candidate that narrows to its mapping and is bound to its handler method. */
  lemma MatchOrigin<T(!new), H(!new)>(cands: seq<T>, handlerMethods: map<T, H>, matching: T -> Option<T>, x: Match<T, H>)
    requires forall c :: c in cands ==> c in handlerMethods
    requires x in MatchesOf(cands, handlerMethods, matching)
    ensures exists c :: c in cands && matching(c) == Some(x.mapping) && handlerMethods[c] == x.handlerMethod
  {
    MatchesOfMembers(cands, handlerMethods, matching);
  }

  /** No match is collected exactly when no candidate narrows to a match. */
  lemma NoMatchesIff<T(!new), H(!new)>(cands: seq<T>, handlerMethods: map<T, H>, matching: T -> Option<T>)
    requires forall c :: c in cands ==> c in handlerMethods
    ensures MatchesOf(cands, handlerMethods, matching) == [] <==> forall c :: c in cands ==> matching(c) == None
  {
    var ms := MatchesOf(cands, handlerMethods, matching);
    MatchesOfMembers(cands, handlerMethods, matching);
    forall c | c in cands && matching(c).Some? ensures Match(matching(c).value, handlerMethods[c]) in ms {
    }
    if ms != [] {
      assert ms[0] in ms;
    }
  }

  /**
   * A path that has no entry in `urlMap` falls back to scanning every
   * registered mapping, so every registered mapping that matches the request
   * takes part in the lookup.
   */
  lemma FallbackScansAll<T(!new), H(!new)>(reg: Registry<T, H>, lookupPath: string, matching: T -> Option<T>, mapping: T)
    requires WellFormed(reg)
    requires lookupPath !in reg.urlMap
    requires mapping in reg.handlerMethods && matching(mapping).Some?
    ensures Match(matching(mapping).value, reg.handlerMethods[mapping]) in MatchesOf(Candidates(reg, lookupPath), reg.handlerMethods, matching)
  {
    MatchesOfMembers(Candidates(reg, lookupPath), reg.handlerMethods, matching);
  }

  lemma MatchComparatorPreorder<T(!new), H(!new)>(cmp: (T, T) -> int)
    requires TotalPreorder(cmp)
    ensures TotalPreorder(MatchComparator<T, H>(cmp))
  {
    var mc := MatchComparator<T, H>(cmp);
    forall a: Match<T, H>, b: Match<T, H> ensures mc(a, b) < 0 <==> mc(b, a) > 0 {
      assert cmp(a.mapping, b.mapping) < 0 <==> cmp(b.mapping, a.mapping) > 0;
    }
    forall a: Match<T, H>, b: Match<T, H>, c: Match<T, H> | mc(a, b) <= 0 && mc(b, c) <= 0
      ensures mc(a, c) <= 0
    {
      assert cmp(a.mapping, b.mapping) <= 0 && cmp(b.mapping, c.mapping) <= 0;
      assert cmp(a.mapping, c.mapping) <= 0;
    }
  }

  /**
   * On a fresh registry, registering the same mapping twice with an equal
   * handler method lists it twice under each of its paths, so a lookup of
   * such a path that the mapping matches collects two matches that tie.
   */
  lemma ReRegisterMakesLookupAmbiguous<T(!new), H(!new)>(
    paths: set<string>, mapping: T, handlerMethod: H,
    lookupPath: string, matching: T -> Option<T>, cmp: (T, T) -> int)
    requires TotalPreorder(cmp)
    requires lookupPath in paths && matching(mapping).Some?
    ensures var twice := Registered(Registered(EmptyRegistry(), paths, mapping, handlerMethod), paths, mapping, handlerMethod);
      && lookupPath in twice.urlMap && twice.urlMap[lookupPath] == [mapping, mapping]
      && HasTie(MatchesOf([mapping, mapping], twice.handlerMethods, matching), MatchComparator(cmp))
  {
    var empty: Registry<T, H> := EmptyRegistry();
    var once := Registered(empty, paths, mapping, handlerMethod);
    var twice := Registered(once, paths, mapping, handlerMethod);
    AddPathsAppends(empty.urlMap, paths, mapping);
    AddPathsAppends(once.urlMap, paths, mapping);
    assert twice.urlMap[lookupPath] == [mapping, mapping];
    assert twice.handlerMethods == map[mapping := handlerMethod];
    DoubleMatchTies(mapping, twice.handlerMethods, matching, cmp);
  }

  /**
   * On any well-formed registry, registering a mapping twice with an equal
   * handler method lists it at least twice under each of its paths, so a
   * lookup of such a path ties whenever that mapping's match is best.
   */
  lemma ReRegisterTiesWhenBest<T(!new), H(!new)>(
    reg: Registry<T, H>, paths: set<string>, mapping: T, handlerMethod: H,
    lookupPath: string, matching: T -> Option<T>, cmp: (T, T) -> int)
    requires WellFormed(reg) && !Conflicts(reg.handlerMethods, mapping, handlerMethod)
    requires lookupPath in paths && matching(mapping).Some?
    ensures WellFormed(Registered(Registered(reg, paths, mapping, handlerMethod), paths, mapping, handlerMethod))
    ensures var twice := Registered(Registered(reg, paths, mapping, handlerMethod), paths, mapping, handlerMethod);
      var ms := MatchesOf(Candidates(twice, lookupPath), twice.handlerMethods, matching);
      IsBest(Match(matching(mapping).value, handlerMethod), ms, MatchComparator(cmp)) ==> HasTie(ms, MatchComparator(cmp))
  {
    var once := Registered(reg, paths, mapping, handlerMethod);
    RegisteredWellFormed(reg, paths, mapping, handlerMethod);
    RegisteredWellFormed(once, paths, mapping, handlerMethod);
    var twice := Registered(once, paths, mapping, handlerMethod);
    ReRegisterAppendsAgain(reg, paths, mapping, handlerMethod);
    AddPathsAppends(once.urlMap, paths, mapping);
    var cands := twice.urlMap[lookupPath];
    assert cands == PathList(reg.urlMap, lookupPath) + [mapping, mapping];
    assert multiset(cands)[mapping] >= 2;
    RepeatedCandidateTies(cands, mapping, twice.handlerMethods, matching, cmp);
  }

  /** A registered mapping listed twice yields the same match twice, which ties with itself. */
  lemma DoubleMatchTies<T(!new), H(!new)>(mapping: T, handlerMethods: map<T, H>, matching: T -> Option<T>, cmp: (T, T) -> int)
    requires TotalPreorder(cmp)
    requires mapping in handlerMethods && matching(mapping).Some?
    ensures HasTie(MatchesOf([mapping, mapping], handlerMethods, matching), MatchComparator(cmp))
  {
    var x := Match(matching(mapping).value, handlerMethods[mapping]);
    var ms := MatchesOf([mapping, mapping], handlerMethods, matching);
    assert [mapping, mapping][..1] == [mapping];
    assert MatchesOf([mapping], handlerMethods, matching) == [x];
    assert ms == [x, x];
    MatchComparatorPreorder<T, H>(cmp);
    CompareReflexive(MatchComparator<T, H>(cmp), x);
    assert IsBest(x, ms, MatchComparator(cmp));
    assert multiset{x, x} <= multiset(ms);
  }

  /**
   * A candidate listed at least twice, anywhere in the list, yields its match
   * at least twice; if that match is best, it ties with itself.
   */
  lemma RepeatedCandidateTies<T(!new), H(!new)>(cands: seq<T>, c: T, handlerMethods: map<T, H>, matching: T -> Option<T>, cmp: (T, T) -> int)
    requires forall d :: d in cands ==> d in handlerMethods
    requires multiset(cands)[c] >= 2 && matching(c).Some?
    ensures var ms := MatchesOf(cands, handlerMethods, matching);
      IsBest(Match(matching(c).value, handlerMethods[c]), ms, MatchComparator(cmp)) ==> HasTie(ms, MatchComparator(cmp))
  {
    var x := Match(matching(c).value, handlerMethods[c]);
    var ms := MatchesOf(cands, handlerMethods, matching);
    MatchesOfCount(cands, c, handlerMethods, matching);
    assert multiset{x, x}[x] == 2;
    assert multiset{x, x} <= multiset(ms);
    assert x in ms;
  }

  /** Each occurrence of a candidate that narrows contributes one occurrence of its match. */
  lemma {:induction false} MatchesOfCount<T(!new), H(!new)>(cands: seq<T>, c: T, handlerMethods: map<T, H>, matching: T -> Option<T>)
    requires forall d :: d in cands ==> d in handlerMethods
    requires c in handlerMethods && matching(c).Some?
    ensures multiset(MatchesOf(cands, handlerMethods, matching))[Match(matching(c).value, handlerMethods[c])] >= multiset(cands)[c]
    decreases |cands|
  {
    if cands != [] {
      var init := cands[..|cands| - 1];
      var last := cands[|cands| - 1];
      assert cands == init + [last];
      MatchesOfCount(init, c, handlerMethods, matching);
    }
  }

  /** When the first two sorted matches compare equal, the error names a tie for best. */
  lemma TiedOutcome<T(!new), H(!new)>(sorted: seq<Match<T, H>>, ms: seq<Match<T, H>>, cmp: (T, T) -> int)
    requires TotalPreorder(cmp)
    requires Sorted(sorted, MatchComparator(cmp)) && multiset(sorted) == multiset(ms)
    requires |sorted| > 1 && cmp(sorted[0].mapping, sorted[1].mapping) == 0
    ensures HasTie(ms, MatchComparator(cmp))
    ensures TiedBest(AmbiguousHandlerMethods(sorted[0], sorted[1]), ms, cmp)
  {
    MatchComparatorPreorder<T, H>(cmp);
    SortedHeadTie(sorted, ms, MatchComparator(cmp));
  }

  /** Otherwise the head of the sorted matches is the unique best match. */
  lemma UniqueOutcome<T(!new), H(!new)>(sorted: seq<Match<T, H>>, ms: seq<Match<T, H>>, cmp: (T, T) -> int)
    requires TotalPreorder(cmp)
    requires Sorted(sorted, MatchComparator(cmp)) && multiset(sorted) == multiset(ms)
    requires sorted != [] && (|sorted| > 1 ==> cmp(sorted[0].mapping, sorted[1].mapping) != 0)
    ensures sorted[0] in ms
    ensures !HasTie(ms, MatchComparator(cmp))
    ensures SelectsBest(sorted[0].handlerMethod, ms, cmp)
  {
    MatchComparatorPreorder<T, H>(cmp);
    SortedHeadUnique(sorted, ms, MatchComparator(cmp));
    UniqueBestExcludesTie(sorted[0], ms, MatchComparator(cmp));
  }

  // ---------------------------------------------------------------------------
  // The registry object

  class HandlerMethodMapping<T(==, !new), H(==, !new)> {
    var handlerMethods: map<T, H>
    var mappingOrder: seq<T>
    var urlMap: map<string, seq<T>>

    function State(): Registry<T, H>
      reads this
    {
      Registry(handlerMethods, mappingOrder, urlMap)
    }

    ghost predicate Valid()
      reads this
    {
      WellFormed(State())
    }

    constructor ()
      ensures Valid() && State() == EmptyRegistry()
    {
      handlerMethods := map[];
      mappingOrder := [];
      urlMap := map[];
    }

    /**
     * `registerHandlerMethod`: binds `mapping` to `handlerMethod` and adds
     * `mapping` to the list of each of its paths, unless `mapping` is already
     * bound to a handler method that is not equal to `handlerMethod`.
     */
    method RegisterHandlerMethod(paths: set<string>, mapping: T, handlerMethod: H) returns (r: Outcome<RegistrationError<T, H>>)
      requires Valid()
      modifies this
      ensures Valid()
      ensures r.Fail? <==> Conflicts(old(handlerMethods), mapping, handlerMethod)
      ensures r.Fail? ==> r.error == AmbiguousMapping(mapping, old(handlerMethods)[mapping], handlerMethod)
      ensures r.Fail? ==> State() == old(State())
      ensures r.Pass? ==> State() == Registered(old(State()), paths, mapping, handlerMethod)
      ensures r.Pass? ==> handlerMethods == old(handlerMethods)[mapping := handlerMethod]
      ensures r.Pass? ==> mappingOrder == if mapping in old(handlerMethods) then old(mappingOrder) else old(mappingOrder) + [mapping]
      ensures r.Pass? ==> forall p :: p in paths ==> p in urlMap && urlMap[p] == PathList(old(urlMap), p) + [mapping]
      ensures r.Pass? ==> forall p :: p !in paths ==> (p in urlMap <==> p in old(urlMap)) && PathList(urlMap, p) == PathList(old(urlMap), p)
    {
      if mapping in handlerMethods && handlerMethods[mapping] != handlerMethod {
        return Fail(AmbiguousMapping(mapping, handlerMethods[mapping], handlerMethod));
      }
      RegisteredWellFormed(State(), paths, mapping, handlerMethod);
      AddPathsAppends(urlMap, paths, mapping);
      if mapping !in handlerMethods {
        mappingOrder := mappingOrder + [mapping];
      }
      handlerMethods := handlerMethods[mapping := handlerMethod];
      var remaining := paths;
      while remaining != {}
        invariant remaining <= paths
        invariant urlMap == AddPaths(old(urlMap), paths - remaining, mapping)
        invariant handlerMethods == old(handlerMethods)[mapping := handlerMethod]
        invariant mappingOrder == if mapping in old(handlerMethods) then old(mappingOrder) else old(mappingOrder) + [mapping]
        decreases remaining
      {
        var path :| path in remaining;
        AddPathsStep(old(urlMap), paths - remaining, path, mapping);
        urlMap := urlMap[path := PathList(urlMap, path) + [mapping]];
        assert paths - (remaining - {path}) == (paths - remaining) + {path};
        remaining := remaining - {path};
      }
      assert paths - remaining == paths;
      assert State() == Registered(old(State()), paths, mapping, handlerMethod);
      r := Pass;
    }

    /**
     * The registration loop of `detectHandlerMethods` over the methods
     * detected on one handler bean, each with the mapping derived for it.
     */
    method DetectHandlerMethods(detected: seq<DetectedMethod<T, H>>, pathsOf: T -> set<string>) returns (r: Outcome<RegistrationError<T, H>>)
      requires Valid()
      modifies this
      ensures Valid()
      ensures RegisterAll(old(State()), detected, pathsOf) == Detection(State(), if r.Fail? then Some(r.error) else None)
    {
      for i := 0 to |detected|
        invariant Valid()
        invariant RegisterAll(old(State()), detected, pathsOf) == RegisterAll(State(), detected[i..], pathsOf)
      {
        var d := detected[i];
        assert detected[i..][1..] == detected[i + 1..];
        r := RegisterHandlerMethod(pathsOf(d.mapping), d.mapping, d.handlerMethod);
        if r.Fail? {
          return;
        }
      }
      r := Pass;
    }

    /** The loop of `lookupHandlerMethod` that collects a match for every candidate that narrows to one. */
    method CollectMatches(mappings: seq<T>, matching: T -> Option<T>) returns (matches: seq<Match<T, H>>)
      requires forall c :: c in mappings ==> c in handlerMethods
      ensures matches == MatchesOf(mappings, handlerMethods, matching)
    {
      matches := [];
      for i := 0 to |mappings|
        invariant matches == MatchesOf(mappings[..i], handlerMethods, matching)
      {
        assert mappings[..i + 1][..i] == mappings[..i];
        var narrowed := matching(mappings[i]);
        if narrowed.Some? {
          matches := matches + [Match(narrowed.value, handlerMethods[mappings[i]])];
        }
      }
      assert mappings[..|mappings|] == mappings;
    }

    /**
     * `lookupHandlerMethod`: collects the matches of the candidates, sorts
     * them best first, fails when the two best compare equal, and otherwise
     * returns the handler method of the best; with no match at all it defers
     * to `noMatch`.
     */
    method LookupHandlerMethod(lookupPath: string, matching: T -> Option<T>, cmp: (T, T) -> int, noMatch: (set<T>, string) -> Option<H>)
      returns (r: Result<Option<H>, LookupError<T, H>>)
      requires Valid()
      requires TotalPreorder(cmp)
      ensures var ms := MatchesOf(Candidates(State(), lookupPath), handlerMethods, matching);
        && (ms == [] ==> r == Ok(noMatch(handlerMethods.Keys, lookupPath)))
        && (ms != [] ==> (r.Err? <==> HasTie(ms, MatchComparator(cmp))))
        && (r.Err? ==> TiedBest(r.error, ms, cmp))
        && (ms != [] && r.Ok? ==> r.value.Some? && SelectsBest(r.value.value, ms, cmp))
      ensures var cands := Candidates(State(), lookupPath);
        MatchesOf(cands, handlerMethods, matching) != [] && r.Ok? ==>
          exists c :: c in cands && matching(c).Some? && handlerMethods[c] == r.value.value
    {
      var mappings := if lookupPath in urlMap then urlMap[lookupPath] else mappingOrder;
      assert mappings == Candidates(State(), lookupPath);
      var matches := CollectMatches(mappings, matching);
      if matches != [] {
        var comparator := MatchComparator<T, H>(cmp);
        MatchComparatorPreorder<T, H>(cmp);
        var sorted := Sort(matches, comparator);
        var bestMatch := sorted[0];
        if |sorted| > 1 {
          var secondBestMatch := sorted[1];
          if comparator(bestMatch, secondBestMatch) == 0 {
            TiedOutcome(sorted, matches, cmp);
            return Err(AmbiguousHandlerMethods(bestMatch, secondBestMatch));
          }
        }
        UniqueOutcome(sorted, matches, cmp);
        MatchOrigin(mappings, handlerMethods, matching, bestMatch);
        r := Ok(Some(bestMatch.handlerMethod));
      } else {
        r := Ok(noMatch(handlerMethods.Keys, lookupPath));
      }
    }

    /**
     * A lookup with the default `handleNoMatch`: it finds no handler method
     * exactly when no candidate matches, and what it finds is registered.
     */
    method LookupWithDefaultNoMatch(lookupPath: string, matching: T -> Option<T>, cmp: (T, T) -> int)
      returns (r: Result<Option<H>, LookupError<T, H>>)
      requires Valid()
      requires TotalPreorder(cmp)
      ensures r == Ok(None) <==> forall c :: c in Candidates(State(), lookupPath) ==> matching(c) == None
      ensures r.Ok? && r.value.Some? ==> r.value.value in handlerMethods.Values
    {
      r := LookupHandlerMethod(lookupPath, matching, cmp, HandleNoMatch);
      NoMatchesIff(Candidates(State(), lookupPath), handlerMethods, matching);
    }
  }
}
