# Handler-method registry and resolver

A Dafny model of the core of Spring MVC's `AbstractHandlerMethodMapping<T>`. This class keeps a registry of handler methods keyed by a request mapping `T`, plus an index from URL path to mappings. Given a lookup path, it resolves the best-matching handler method.

The state is modelled as a class, `HandlerMethods.HandlerMethodMapping`, with three mutable fields:

- `handlerMethods: map<T, H>`: the `LinkedHashMap` from mapping to handler method.
- `mappingOrder: seq<T>`: the insertion order of that map's keys. Re-putting a key that is already there keeps its place.
- `urlMap: map<string, seq<T>>`: the `LinkedMultiValueMap` from URL path to a list of mappings. `add` appends to the path's list and creates the list when the path is new.

`H` stands for `HandlerMethod`. Java `equals` on mappings and handler methods is modelled as Dafny value equality. The subclass extension points are parameters:

- `getMappingPaths` is `pathsOf: T -> set<string>`.
- `getMatchingMapping`, already applied to the lookup path and the request, is `matching: T -> Option<T>`.
- `getMappingComparator`, for the same path and request, is `cmp: (T, T) -> int`. Callers must pass a comparator that meets Java's `Comparator` contract (`Ordering.TotalPreorder`).
- `handleNoMatch` is `noMatch: (set<T>, string) -> Option<H>`. Its default, `HandleNoMatch`, returns `None`, which stands for Java's `null`.

Exceptions become values. A registration conflict is `Fail(AmbiguousMapping(..))`. An ambiguous lookup is `Err(AmbiguousHandlerMethods(best, secondBest))`.

A lookup has five steps:

1. It takes the list stored for the exact path, or every registered mapping in insertion order if the path has no entry (`Candidates`).
2. It narrows each candidate (`CollectMatches`, specified by `MatchesOf`).
3. It sorts the matches best first with a stable insertion sort (`Ordering.Sort`), standing in for `Collections.sort`.
4. It fails if the first two compare equal.
5. Otherwise it returns the handler method of the first match.

The lookup's contract does not depend on the sort. An error happens exactly when two occurrences tie for best (`HasTie`). Otherwise the result is the handler method of the single match that is strictly better than all the others (`UniqueBest`).

Registering the same mapping twice with an equal handler method is not idempotent. The conflict check lets it through (AbstractHandlerMethodMapping.java:170-175), and `registerHandlerMethod` then appends the mapping again to each of its path lists (AbstractHandlerMethodMapping.java:180-182). As a result, a later lookup of such a path collects the same match twice, and if that match is the best one, the lookup fails as ambiguous (`ReRegisterAppendsAgain`, `ReRegisterTiesWhenBest`, `ReRegisterMakesLookupAmbiguous`).

Files: `wrappers.dfy` (Option, Result, Outcome), `ordering.dfy` (the comparator contract, sorting, best and tie), `handler_method_mapping.dfy` (the registry).

## Model

| member | source | states |
|---|---|---|
| HandlerMethods.HandlerMethodMapping.constructor | org.springframework.web.servlet/src/main/java/org/springframework/web/servlet/handler/AbstractHandlerMethodMapping.java:54-56 | both maps start empty and the registry invariant holds |
| HandlerMethods.HandlerMethodMapping.RegisterHandlerMethod | org.springframework.web.servlet/src/main/java/org/springframework/web/servlet/handler/AbstractHandlerMethodMapping.java:167-183 | fails exactly when the mapping is bound to a non-equal handler method, and then reports the old and the new handler and changes nothing; otherwise binds the mapping, leaves every other binding alone, keeps the key order, appends the mapping to the list of each of its paths and leaves other paths unchanged; keeps the registry invariant |
| HandlerMethods.RegisteredWellFormed | org.springframework.web.servlet/src/main/java/org/springframework/web/servlet/handler/AbstractHandlerMethodMapping.java:176-182 | a registration keeps the invariant: the key order lists each registered mapping once, and path lists are non-empty and hold only registered mappings |
| HandlerMethods.AddPaths | org.springframework.web.servlet/src/main/java/org/springframework/web/servlet/handler/AbstractHandlerMethodMapping.java:180-182 | adding the mapping under its paths creates an entry for every given path and no other |
| HandlerMethods.AddPathsAppends | org.springframework.web.servlet/src/main/java/org/springframework/web/servlet/handler/AbstractHandlerMethodMapping.java:180-182 | the add loop leaves the old list plus the mapping under each given path, and leaves all other paths as they were |
| HandlerMethods.ReRegisterAppendsAgain | org.springframework.web.servlet/src/main/java/org/springframework/web/servlet/handler/AbstractHandlerMethodMapping.java:170-182 | registering again with an equal handler method does not conflict and leaves `handlerMethods` and its order unchanged, but each path list ends with the mapping twice |
| HandlerMethods.ReRegisterMakesLookupAmbiguous | org.springframework.web.servlet/src/main/java/org/springframework/web/servlet/handler/AbstractHandlerMethodMapping.java:170-182 | on a fresh registry, registering a mapping twice with an equal handler method lists it twice under each of its paths, and the two matches it then yields tie for best |
| HandlerMethods.ReRegisterTiesWhenBest | org.springframework.web.servlet/src/main/java/org/springframework/web/servlet/handler/AbstractHandlerMethodMapping.java:170-182 | on any well-formed registry, after registering a mapping twice with an equal handler method, a lookup of one of its paths has a tie for best whenever that mapping's match is best |
| HandlerMethods.DoubleMatchTies | org.springframework.web.servlet/src/main/java/org/springframework/web/servlet/handler/AbstractHandlerMethodMapping.java:231-249 | a registered mapping listed twice yields the same match twice, which is a tie for best |
| HandlerMethods.RepeatedCandidateTies | org.springframework.web.servlet/src/main/java/org/springframework/web/servlet/handler/AbstractHandlerMethodMapping.java:231-236 | a candidate listed at least twice anywhere in the list yields its match at least twice, which ties with itself when it is best |
| HandlerMethods.MatchesOfCount | org.springframework.web.servlet/src/main/java/org/springframework/web/servlet/handler/AbstractHandlerMethodMapping.java:231-236 | each occurrence of a candidate that narrows contributes one occurrence of its match |
| HandlerMethods.HandlerMethodMapping.DetectHandlerMethods | org.springframework.web.servlet/src/main/java/org/springframework/web/servlet/handler/AbstractHandlerMethodMapping.java:141-146 | registers the detected methods in turn and stops at the first conflict, keeping the earlier registrations; the final state and error are those of `RegisterAll` |
| HandlerMethods.RegisterAll | org.springframework.web.servlet/src/main/java/org/springframework/web/servlet/handler/AbstractHandlerMethodMapping.java:141-146 | when the loop fails, the error names one of the detected methods (its mapping and rejected handler) whose mapping is, in the state reached, bound to the reported existing handler method, which differs from the rejected one |
| HandlerMethods.RegisterAllKeepsBindings | org.springframework.web.servlet/src/main/java/org/springframework/web/servlet/handler/AbstractHandlerMethodMapping.java:141-146 | a registration loop that succeeds never changes a binding that existed before it |
| HandlerMethods.RegisterAllBindsEach | org.springframework.web.servlet/src/main/java/org/springframework/web/servlet/handler/AbstractHandlerMethodMapping.java:141-146 | after a registration loop that succeeds, every detected mapping is bound to its own handler method |
| HandlerMethods.RegisterAllFailsOnDuplicate | org.springframework.web.servlet/src/main/java/org/springframework/web/servlet/handler/AbstractHandlerMethodMapping.java:170-175 | the loop fails if two detected methods bring the same mapping with non-equal handler methods |
| HandlerMethods.RegisterAllFailsOnExisting | org.springframework.web.servlet/src/main/java/org/springframework/web/servlet/handler/AbstractHandlerMethodMapping.java:170-175 | the loop fails if a detected method brings a mapping already bound to a different handler method |
| HandlerMethods.RegisterAllFailureHasConflict | org.springframework.web.servlet/src/main/java/org/springframework/web/servlet/handler/AbstractHandlerMethodMapping.java:141-146 | conversely, a loop that fails met a conflict: some detected method brings a mapping already bound to a different handler method, or bound by an earlier detected method to a different one |
| HandlerMethods.Candidates | org.springframework.web.servlet/src/main/java/org/springframework/web/servlet/handler/AbstractHandlerMethodMapping.java:224-227 | the candidates are the path's list when the path has an entry; otherwise they list every registered mapping exactly once; every candidate is registered |
| HandlerMethods.FallbackScansAll | org.springframework.web.servlet/src/main/java/org/springframework/web/servlet/handler/AbstractHandlerMethodMapping.java:224-227 | for a path without an entry, every registered mapping that narrows to a match contributes that match |
| HandlerMethods.HandlerMethodMapping.CollectMatches | org.springframework.web.servlet/src/main/java/org/springframework/web/servlet/handler/AbstractHandlerMethodMapping.java:229-236 | the collect loop produces `MatchesOf` the candidates |
| HandlerMethods.MatchesOfMembers | org.springframework.web.servlet/src/main/java/org/springframework/web/servlet/handler/AbstractHandlerMethodMapping.java:231-236 | a value is a match exactly when some candidate narrows to its mapping and is bound to its handler method |
| HandlerMethods.MatchOrigin | org.springframework.web.servlet/src/main/java/org/springframework/web/servlet/handler/AbstractHandlerMethodMapping.java:233-234 | each match carries the handler method registered for the original candidate it came from |
| HandlerMethods.MatchComparator | org.springframework.web.servlet/src/main/java/org/springframework/web/servlet/handler/AbstractHandlerMethodMapping.java:336-338 | compares two matches by their narrowed mappings with the mapping comparator |
| HandlerMethods.NoMatchesIff | org.springframework.web.servlet/src/main/java/org/springframework/web/servlet/handler/AbstractHandlerMethodMapping.java:238 | there are no matches exactly when no candidate narrows to one |
| HandlerMethods.MatchComparatorPreorder | org.springframework.web.servlet/src/main/java/org/springframework/web/servlet/handler/AbstractHandlerMethodMapping.java:328-339 | comparing matches by their mappings keeps the comparator contract |
| Ordering.Insert | org.springframework.web.servlet/src/main/java/org/springframework/web/servlet/handler/AbstractHandlerMethodMapping.java:240 | inserting into a sorted list keeps it sorted and adds exactly that element |
| Ordering.Sort | org.springframework.web.servlet/src/main/java/org/springframework/web/servlet/handler/AbstractHandlerMethodMapping.java:240 | the result is sorted best first and is a permutation of the matches |
| Ordering.SortedHeadTie | org.springframework.web.servlet/src/main/java/org/springframework/web/servlet/handler/AbstractHandlerMethodMapping.java:246-249 | if the first two sorted matches compare equal, they are two distinct occurrences that are both best |
| Ordering.SortedHeadUnique | org.springframework.web.servlet/src/main/java/org/springframework/web/servlet/handler/AbstractHandlerMethodMapping.java:246-259 | otherwise the first sorted match occurs once and is strictly better than every other match |
| Ordering.TieOrUniqueBest | org.springframework.web.servlet/src/main/java/org/springframework/web/servlet/handler/AbstractHandlerMethodMapping.java:246-259 | for non-empty matches, exactly one holds: two occurrences tie for best, or one element is strictly best |
| Ordering.BestExists | org.springframework.web.servlet/src/main/java/org/springframework/web/servlet/handler/AbstractHandlerMethodMapping.java:289-296 | under the comparator contract, every non-empty list of matches has a best element |
| HandlerMethods.HandlerMethodMapping.LookupHandlerMethod | org.springframework.web.servlet/src/main/java/org/springframework/web/servlet/handler/AbstractHandlerMethodMapping.java:223-264 | with no matches it returns `noMatch` of the registered mappings; otherwise it fails exactly when two matches tie for best, and the error names two best occurrences that compare equal; otherwise it returns the handler method of the unique best match, which is the handler registered for a candidate that narrowed to it |
| HandlerMethods.HandleNoMatch | org.springframework.web.servlet/src/main/java/org/springframework/web/servlet/handler/AbstractHandlerMethodMapping.java:306-309 | the default `handleNoMatch` always gives `None`, standing for Java's `null` |
| HandlerMethods.HandlerMethodMapping.LookupWithDefaultNoMatch | org.springframework.web.servlet/src/main/java/org/springframework/web/servlet/handler/AbstractHandlerMethodMapping.java:306-309 | with the default `handleNoMatch`, a lookup finds no handler method exactly when no candidate matches, and any handler it finds is registered |

## Left out

- HandlerMethods.HandlerMethodMapping.LookupHandlerMethod: the ambiguity error names two best matches that compare equal, but the contract does not say which two. Java's sort is stable, so they are the first two best in collection order; the model's insertion sort is stable too, but stability is not proved.
- `Collections.sort` is a library merge sort that sorts the `ArrayList` in place. The model uses an insertion sort on a sequence, and only its sortedness and permutation are used.
- A comparator that breaks the `Comparator` contract is excluded by a precondition. The model does not cover Java's behaviour in that case.
- `initHandlerMethods`, `isHandler`, `getMappingForMethod` and `HandlerMethodSelector.selectMethods` are left out. They discover handlers by reflection over the application context. `DetectHandlerMethods` takes the detected (mapping, handler method) pairs as a sequence instead, in whatever order the method set yields them.
- `getHandlerInternal` and `createWithResolvedBean` are left out because they need the servlet request and the bean factory. The `UrlPathHelper` setters and the computation of the lookup path are left out too; the model takes the lookup path as a parameter.
- `noMatch` is total: an overriding `handleNoMatch` that throws (it is declared `throws Exception`) is not modelled, and neither is `lookupHandlerMethod` passing that exception on.
- Logging is left out, and so is the `handleMatch` hook, which is empty in this class.
- The `HttpServletRequest` is not modelled. `matching`, `cmp` and `noMatch` are taken as already applied to it.
- The `Assert.notNull` checks on the mapping and the handler method are left out because Dafny values cannot be null.
- The exception messages are left out. The error values carry the objects the messages name.
- The other files of the repository are not part of this model: the REST client interface, the XML message converter, and the container tests.
