/**
 A request that the service handles with nobody else about, step by step, is answered as `FileService.GetFile` answers
 it; and a background store is one `Set`.
 */
module ServiceEffects {
  import opened Basics
  import opened FileRequests
  import opened FileServices
  import opened ServiceRuns
  import C = CacheModel
  import R = CacheRuns
  import W = CacheConcurrency
  import L = LookupRaces

  /** The only lookup leaves: with a file its request is answered, without one it goes on to the node. */
  lemma {:induction false} Leaving(cfg: C.Config, be: Backend, s: Service, id: nat)
    requires id in s.world.readers && s.world.readers.Keys == {id} && s.waiting.Keys == {id}
    requires s.world.readers[id].phase.Returning?
    ensures Enabled(cfg, s, Advance(id))
    ensures var t, phase := Next(cfg, be, s, Advance(id)), s.world.readers[id].phase;
            && t.world.readers == map[] && t.waiting == map[] && t.pending == s.pending
            && t.world.cache == s.world.cache && t.world.clock == s.world.clock
            && if phase.answer.Success? then
                 && t.fetching == s.fetching
                 && t.responses
                      == s.responses + [Response(s.waiting[id], Cached(phase.age), Success(phase.answer.value))]
               else
                 t.fetching == s.fetching + [s.waiting[id]] && t.responses == s.responses
  {
  }

  /** The only fetch comes back: its request is answered, and what it fetched is left to be stored if it may be. */
  lemma {:induction false} ComingBack(cfg: C.Config, be: Backend, s: Service, req: FileRequest, outcome: Outcome)
    requires s.fetching == [req]
    ensures Enabled(cfg, s, Finish(0, outcome))
    ensures var t, answer := Next(cfg, be, s, Finish(0, outcome)), Fetch(be, req, outcome);
            && t.world == s.world && t.waiting == s.waiting && t.fetching == []
            && t.responses == s.responses + [Response(req, Fetched, answer)]
            && t.pending == s.pending + (if answer.Success? && req.useCache
                                         then [PendingSet(CacheKey(req), answer.value)] else [])
  {
  }

  /** One request, asked of a quiet service, and what its lookup and its fetch meet. */
  datatype Visit = Visit(
    cfg: C.Config, be: Backend, start: Service, id: nat, req: FileRequest, cancelled: bool, outcome: Outcome)
  {
    /** Nobody is inside the cache and nothing is on its way to the node. */
    ghost predicate Quiet() {
      start.world.readers == map[] && start.waiting == map[] && start.fetching == []
    }

    /** The request's own actions: it is asked, its lookup advances, its fetch comes back. */
    ghost predicate Own(run: seq<Action>) {
      && run != [] && run[0] == Ask(id, req, cancelled)
      && forall i :: 0 < i < |run| ==> run[i] == Advance(id) || run[i] == Finish(0, outcome)
    }

    ghost predicate Takes(run: seq<Action>, s: Service) {
      Own(run) && Legal(cfg, be, start, run) && After(cfg, be, start, run) == s
    }

    /** The request's own actions lead to this state. */
    ghost predicate Leads(s: Service) {
      exists run :: Takes(run, s)
    }

    lemma {:induction false} Begins()
      requires Quiet()
      ensures Enabled(cfg, start, Ask(id, req, cancelled))
      ensures Leads(Next(cfg, be, start, Ask(id, req, cancelled)))
    {
      var run := [Ask(id, req, cancelled)];
      assert Front(run) == [] && Last(run) == Ask(id, req, cancelled);
      assert Legal(cfg, be, start, []) && After(cfg, be, start, []) == start;
      assert Legal(cfg, be, start, run) && After(cfg, be, start, run) == Next(cfg, be, start, Last(run));
      assert Takes(run, Next(cfg, be, start, Ask(id, req, cancelled)));
    }

    lemma {:induction false} GoesOn(s: Service, a: Action)
      requires Leads(s) && Enabled(cfg, s, a) && (a == Advance(id) || a == Finish(0, outcome))
      ensures Leads(Next(cfg, be, s, a))
    {
      var run :| Takes(run, s);
      var more := run + [a];
      assert Front(more) == run && Last(more) == a && more[0] == run[0];
      forall i | 0 < i < |more| ensures more[i] == Advance(id) || more[i] == Finish(0, outcome) {
        assert i < |run| ==> more[i] == run[i];
      }
      assert Takes(more, Next(cfg, be, s, a));
    }

    /** While the lookup is inside, nothing but the cache moves. */
    lemma {:induction false} LooksUp(s: Service, n: nat)
      requires Leads(s) && L.StaysInside(cfg, s.world, id, n + 1)
      ensures Leads(s.(world := L.Alone(cfg, s.world, id, n)))
      decreases n
    {
      if n == 0 {
        assert s.(world := L.Alone(cfg, s.world, id, 0)) == s;
      } else {
        var t := s.(world := L.Alone(cfg, s.world, id, n - 1));
        LooksUp(s, n - 1);
        GoesOn(t, Advance(id));
        assert Next(cfg, be, t, Advance(id)) == s.(world := L.Alone(cfg, s.world, id, n));
      }
    }

    /** Whether the cache is asked at all, and what it then answers. */
    predicate Looks() {
      Accepted(req) && req.useCache && !cancelled
    }

    function Found(): Result<C.File, C.CacheError> {
      if Looks() then C.GetAnswer(cfg, start.world.cache, CacheKey(req), start.world.clock) else Failure(C.CacheMiss)
    }

    /** The cache after the request. */
    function Cache(): C.Cache {
      if Looks() then C.Get(cfg, start.world.cache, CacheKey(req), start.world.clock) else start.world.cache
    }

    function Answer(): Result<C.File, ServiceError> {
      if !Accepted(req) then Failure(InvalidRequest(Validate(req).value))
      else if Found().Success? then Success(Found().value)
      else Fetch(be, req, outcome)
    }

    /** The service ends up as the contract of `GetFile` says. */
    ghost predicate AsGetFile(s: Service) {
      && s.world.cache == Cache() && s.world.clock == start.world.clock
      && s.world.readers == map[] && s.waiting == map[] && s.fetching == []
      && |s.responses| == |start.responses| + 1 && start.responses <= s.responses
      && Last(s.responses).req == req && Last(s.responses).answer == Answer()
      && s.pending == start.pending + (if Accepted(req) && req.useCache && Found().Failure? && Answer().Success?
                                       then [PendingSet(CacheKey(req), Answer().value)] else [])
    }

    /** On its way to the node, with the cache as the lookup, if any, has left it. */
    ghost predicate Fetching(s: Service) {
      && s.world.cache == Cache() && s.world.clock == start.world.clock
      && s.world.readers == map[] && s.waiting == map[] && s.fetching == [req]
      && s.responses == start.responses && s.pending == start.pending
    }

    lemma {:induction false} Fetches(s: Service)
      requires Leads(s) && Fetching(s) && Accepted(req) && Found().Failure?
      ensures exists t :: Leads(t) && AsGetFile(t)
    {
      ComingBack(cfg, be, s, req, outcome);
      GoesOn(s, Finish(0, outcome));
      var t := Next(cfg, be, s, Finish(0, outcome));
      assert Last(t.responses) == Response(req, Fetched, Fetch(be, req, outcome));
      assert AsGetFile(t);
    }

    /** The lookup about to return, in a service where nothing else has happened. */
    ghost predicate Returns(s: Service) {
      && s.world.cache == Cache() && s.world.clock == start.world.clock
      && id in s.world.readers && s.world.readers.Keys == {id} && s.waiting == map[id := req]
      && s.world.readers[id].phase.Returning? && s.world.readers[id].phase.answer == Found()
      && s.fetching == [] && s.responses == start.responses && s.pending == start.pending
    }

    lemma {:induction false} Enters() returns (s: Service)
      requires Quiet() && Looks()
      ensures Leads(s) && Returns(s)
    {
      Begins();
      s := Next(cfg, be, start, Ask(id, req, cancelled));
      var n := L.LookupPath(cfg, s.world, id, CacheKey(req));
      LooksUp(s, n);
      s := s.(world := L.Alone(cfg, s.world, id, n));
    }

    lemma {:induction false} LeavesWithFile(s: Service)
      requires Leads(s) && Returns(s) && Looks() && Found().Success?
      ensures exists t :: Leads(t) && AsGetFile(t)
    {
      GoesOn(s, Advance(id));
      Leaving(cfg, be, s, id);
      var t := Next(cfg, be, s, Advance(id));
      assert Last(t.responses).answer == Success(Found().value);
      assert AsGetFile(t);
    }

    lemma {:induction false} LeavesForNode(s: Service) returns (t: Service)
      requires Leads(s) && Returns(s) && Looks() && Found().Failure?
      ensures Leads(t) && Fetching(t)
    {
      GoesOn(s, Advance(id));
      Leaving(cfg, be, s, id);
      t := Next(cfg, be, s, Advance(id));
    }

    lemma {:induction false} Serves()
      requires Quiet()
      ensures exists s :: Leads(s) && AsGetFile(s)
    {
      if Looks() {
        var s := Enters();
        if Found().Success? {
          LeavesWithFile(s);
        } else {
          var t := LeavesForNode(s);
          Fetches(t);
        }
      } else {
        Begins();
        var s := Next(cfg, be, start, Ask(id, req, cancelled));
        if Accepted(req) {
          Fetches(s);
        } else {
          assert Last(s.responses).answer == Answer();
          assert AsGetFile(s);
        }
      }
    }

    /**
     Alone, by its own actions, a request brings the service to where the contract of `GetFile` says: an invalid one is
     rejected; one that may use the cache and is not cancelled looks there first; only then is it fetched, and what is
     fetched is left to be stored if the request may use the cache.
     */
    lemma {:induction false} AloneIsGetFile()
      requires start.world.readers == map[] && start.waiting == map[] && start.fetching == []
      ensures exists s :: Leads(s) &&
                var looks := Accepted(req) && req.useCache && !cancelled;
                var found := C.GetAnswer(cfg, start.world.cache, CacheKey(req), start.world.clock);
                var answer := if !Accepted(req) then Failure(InvalidRequest(Validate(req).value))
                              else if looks && found.Success? then Success(found.value)
                              else Fetch(be, req, outcome);
                && s.world.cache == (if looks then C.Get(cfg, start.world.cache, CacheKey(req), start.world.clock)
                                     else start.world.cache)
                && s.world.clock == start.world.clock && s.world.readers == map[]
                && s.waiting == map[] && s.fetching == []
                && |s.responses| == |start.responses| + 1 && s.responses[..|start.responses|] == start.responses
                && s.responses[|start.responses|].req == req && s.responses[|start.responses|].answer == answer
                && s.pending == start.pending
                     + (if Accepted(req) && req.useCache && !(looks && found.Success?) && answer.Success?
                        then [PendingSet(CacheKey(req), answer.value)] else [])
    {
      Serves();
      var s :| Leads(s) && AsGetFile(s);
    }
  }

  /** A background store that gets the write lock is one `Set`, at that time; one that is lost changes no cache. */
  lemma {:induction false} StoresAreSets(cfg: C.Config, be: Backend, s: Service, i: nat, walk: seq<string>)
    requires i < |s.pending| && s.world.readers == map[]
    requires C.NeedsRoom(cfg, s.world.cache, |s.pending[i].file.content|) ==> C.Walks(s.world.cache.dir, walk)
    ensures Enabled(cfg, s, Store(i, walk)) && Enabled(cfg, s, Lose(i))
    ensures var stored, lost := Next(cfg, be, s, Store(i, walk)), Next(cfg, be, s, Lose(i));
            && stored.world.cache
                 == C.Set(cfg, s.world.cache, s.pending[i].key, s.pending[i].file, walk, s.world.clock)
            && stored.pending == s.pending[..i] + s.pending[i + 1..] && stored.responses == s.responses
            && lost == s.(pending := s.pending[..i] + s.pending[i + 1..])
  {
  }
}
