/** The semantics of `handle`: walk the entries in sorted order, skip those
    that do not match, call each matching handler in turn, and stop at the
    first result that is not `null`. */
module Dispatcher {
  import opened Types
  import opened Matcher
  import opened Ordering

  /** What one dispatch yields, and the ids whose handlers it called, in
      the order it called them. */
  datatype Outcome = Outcome(result: HandlerResult, invoked: seq<string>)

  /** The dispatch loop over `es`. A `null` result goes on to the next
      entry; `undefined` and a response are returned as they are; when the
      entries run out the result is `undefined`. */
  function Dispatch(es: seq<Registered>, req: Request, test: RegexTest): (o: Outcome)
    ensures !o.result.Null?
    ensures |o.invoked| <= |es|
  {
    if es == [] then Outcome(Undefined, [])
    else if !Matches(req, es[0].config, test) then Dispatch(es[1..], req, test)
    else
      var response := es[0].handler(req);
      if !response.Null? then Outcome(response, [es[0].config.id])
      else
        var rest := Dispatch(es[1..], req, test);
        Outcome(rest.result, [es[0].config.id] + rest.invoked)
  }

  /** The entries of `es` that match the request, in order. */
  function Matching(es: seq<Registered>, req: Request, test: RegexTest): seq<Registered>
  {
    if es == [] then []
    else (if Matches(req, es[0].config, test) then [es[0]] else []) + Matching(es[1..], req, test)
  }

  function Ids(es: seq<Registered>): seq<string>
  {
    seq(|es|, i requires 0 <= i < |es| => es[i].config.id)
  }

  /** What each entry's handler returns for the request. */
  function ResultsFor(es: seq<Registered>, req: Request): seq<HandlerResult>
  {
    seq(|es|, i requires 0 <= i < |es| => es[i].handler(req))
  }

  /** The index of the first result that is not `null`, or `|rs|`. */
  function FirstNonNull(rs: seq<HandlerResult>): (k: nat)
    ensures k <= |rs|
    ensures forall j :: 0 <= j < k ==> rs[j].Null?
    ensures k < |rs| ==> !rs[k].Null?
  {
    if rs == [] || !rs[0].Null? then 0
    else 1 + FirstNonNull(rs[1..])
  }

  /** The reference reading of a dispatch, given the matching entries in
      order: the handlers up to and including the first one whose result is
      not `null` are called, and that result is returned; when there is
      none, every one of them is called and the result is `undefined`. */
  ghost function FirstResponse(m: seq<Registered>, req: Request): Outcome
  {
    var rs := ResultsFor(m, req);
    var k := FirstNonNull(rs);
    if k < |rs| then Outcome(rs[k], Ids(m[..k + 1])) else Outcome(Undefined, Ids(m))
  }

  /** The reference reading, one entry at a time. */
  lemma FirstResponseCons(e: Registered, m: seq<Registered>, req: Request)
    ensures e.handler(req).Null? ==>
      FirstResponse([e] + m, req) ==
        Outcome(FirstResponse(m, req).result, [e.config.id] + FirstResponse(m, req).invoked)
    ensures !e.handler(req).Null? ==>
      FirstResponse([e] + m, req) == Outcome(e.handler(req), [e.config.id])
  {
    var rs := ResultsFor([e] + m, req);
    var rs' := ResultsFor(m, req);
    assert rs == [e.handler(req)] + rs';
    if e.handler(req).Null? {
      assert rs[1..] == rs';
      var k' := FirstNonNull(rs');
      assert FirstNonNull(rs) == 1 + k';
      if k' < |rs'| {
        assert ([e] + m)[..k' + 2] == [e] + m[..k' + 1];
        IdsCons(e, m[..k' + 1]);
      } else {
        IdsCons(e, m);
      }
    } else {
      assert ([e] + m)[..1] == [e];
    }
  }

  /** Dispatch agrees with the reference reading on the matching entries. */
  lemma {:induction false} DispatchIsFirstNonNull(es: seq<Registered>, req: Request, test: RegexTest)
    ensures Dispatch(es, req, test) == FirstResponse(Matching(es, req, test), req)
  {
    if es != [] {
      DispatchIsFirstNonNull(es[1..], req, test);
      if Matches(req, es[0].config, test) {
        assert Matching(es, req, test) == [es[0]] + Matching(es[1..], req, test);
        FirstResponseCons(es[0], Matching(es[1..], req, test), req);
      } else {
        assert Matching(es, req, test) == Matching(es[1..], req, test);
      }
    } else {
      assert ResultsFor([], req) == [];
    }
  }

  lemma IdsCons(e: Registered, s: seq<Registered>)
    ensures Ids([e] + s) == [e.config.id] + Ids(s)
  {
  }

  /** Fallthrough: when nothing matches, no handler runs and the result is
      `undefined`. */
  lemma NoMatchFallsThrough(es: seq<Registered>, req: Request, test: RegexTest)
    requires forall i :: 0 <= i < |es| ==> !Matches(req, es[i].config, test)
    ensures Dispatch(es, req, test) == Outcome(Undefined, [])
  {
    MatchingOnlyMatches(es, req, test);
    DispatchIsFirstNonNull(es, req, test);
  }

  /** Fallthrough: when every matching handler returns `null`, all of them
      run, in order, and the result is `undefined`. */
  lemma AllNullFallsThrough(es: seq<Registered>, req: Request, test: RegexTest)
    requires forall i :: 0 <= i < |es| && Matches(req, es[i].config, test) ==> es[i].handler(req).Null?
    ensures Dispatch(es, req, test) == Outcome(Undefined, Ids(Matching(es, req, test)))
  {
    MatchingOnlyMatches(es, req, test);
    DispatchIsFirstNonNull(es, req, test);
  }

  lemma {:induction false} MatchingOnlyMatches(es: seq<Registered>, req: Request, test: RegexTest)
    ensures forall x :: x in Matching(es, req, test) <==> x in es && Matches(req, x.config, test)
  {
    if es != [] {
      MatchingOnlyMatches(es[1..], req, test);
      assert es == [es[0]] + es[1..];
    }
  }

  /** Short-circuit: once a matching entry's handler returns something
      other than `null`, no later entry's handler is called. */
  lemma {:induction false} ResponseStopsLaterEntries(es: seq<Registered>, req: Request, test: RegexTest, i: int, j: int)
    requires DistinctIds(es)
    requires 0 <= i < j < |es|
    requires Matches(req, es[i].config, test) && !es[i].handler(req).Null?
    ensures es[j].config.id !in Dispatch(es, req, test).invoked
  {
    assert es == [es[0]] + es[1..];
    DistinctTail(es[0], es[1..]);
    DispatchStep(es, req, test);
    var first := es[0].config.id;
    var inv := Dispatch(es, req, test).invoked;
    if i > 0 {
      var tail := es[1..];
      assert tail[i - 1] == es[i] && tail[j - 1] == es[j];
      ResponseStopsLaterEntries(tail, req, test, i - 1, j - 1);
      var rest := Dispatch(tail, req, test).invoked;
      assert es[j].config.id != first && es[j].config.id !in rest;
      assert inv == rest || inv == [first] + rest || inv == [first];
    } else {
      assert inv == [first];
    }
  }

  /** The ids of the entries of `es` that match the request. */
  ghost function MatchedIds(es: seq<Registered>, req: Request, test: RegexTest): set<string>
  {
    set k | 0 <= k < |es| && Matches(req, es[k].config, test) :: es[k].config.id
  }

  ghost predicate NoRepeats(ids: seq<string>)
  {
    forall a, b :: 0 <= a < b < |ids| ==> ids[a] != ids[b]
  }

  lemma MatchedIdsDrop(es: seq<Registered>, req: Request, test: RegexTest)
    requires es != []
    ensures MatchedIds(es[1..], req, test) <= MatchedIds(es, req, test)
    ensures Matches(req, es[0].config, test) ==> es[0].config.id in MatchedIds(es, req, test)
    ensures DistinctIds(es) ==> es[0].config.id !in MatchedIds(es[1..], req, test)
  {
    forall x | x in MatchedIds(es[1..], req, test) ensures x in MatchedIds(es, req, test) {
      var k :| 0 <= k < |es[1..]| && Matches(req, es[1..][k].config, test) && es[1..][k].config.id == x;
      assert es[k + 1] == es[1..][k];
    }
    if Matches(req, es[0].config, test) {
      assert es[0].config.id == es[0].config.id;
    }
    if DistinctIds(es) {
      forall k | 0 <= k < |es[1..]| ensures es[1..][k].config.id != es[0].config.id {
        assert es[1..][k] == es[k + 1];
      }
    }
  }

  /** Each handler runs at most once per dispatch, and only for an entry
      that matches: with one entry per id, re-registering an id never
      makes its handler run twice. */
  lemma {:induction false} DispatchCallsEachOnce(es: seq<Registered>, req: Request, test: RegexTest)
    requires DistinctIds(es)
    ensures NoRepeats(Dispatch(es, req, test).invoked)
    ensures forall x :: x in Dispatch(es, req, test).invoked ==> x in MatchedIds(es, req, test)
  {
    if es != [] {
      assert es == [es[0]] + es[1..];
      DistinctTail(es[0], es[1..]);
      DispatchCallsEachOnce(es[1..], req, test);
      MatchedIdsDrop(es, req, test);
      DispatchStep(es, req, test);
      var first := es[0].config.id;
      var rest := Dispatch(es[1..], req, test).invoked;
      var inv := Dispatch(es, req, test).invoked;
      if inv == [first] + rest {
        assert Matches(req, es[0].config, test);
        forall a, b | 0 <= a < b < |inv| ensures inv[a] != inv[b] {
          assert inv[b] == rest[b - 1];
          if a > 0 {
            assert inv[a] == rest[a - 1];
          }
        }
      } else if inv == [first] {
        assert Matches(req, es[0].config, test);
      }
    }
  }

  /** One step of the dispatch loop, as seen from the ids it calls. */
  lemma DispatchStep(es: seq<Registered>, req: Request, test: RegexTest)
    requires es != []
    ensures var first := es[0].config.id;
      var rest := Dispatch(es[1..], req, test).invoked;
      var inv := Dispatch(es, req, test).invoked;
      inv == rest || inv == [first] + rest || inv == [first]
    ensures Matches(req, es[0].config, test) && !es[0].handler(req).Null? ==>
      Dispatch(es, req, test).invoked == [es[0].config.id]
  {
  }

  /** Priority ordering: on sorted entries, an entry of lower priority that
      matches and responds keeps every entry of higher priority from
      running. */
  lemma LowerPriorityWins(es: seq<Registered>, req: Request, test: RegexTest, a: Registered, b: Registered)
    requires Sorted(es) && DistinctIds(es)
    requires a in es && b in es && Key(a) < Key(b)
    requires Matches(req, a.config, test) && !a.handler(req).Null?
    ensures b.config.id !in Dispatch(es, req, test).invoked
  {
    var i :| 0 <= i < |es| && es[i] == a;
    var j :| 0 <= j < |es| && es[j] == b;
    ResponseStopsLaterEntries(es, req, test, i, j);
  }

  /** The two-interceptor example: A (priority 1) lets the request through
      with `null`, B (priority 2) answers 403; B is registered first. */
  lemma {:induction false} AdminExample(test: RegexTest)
    requires test(Regex("^/admin", ""), "/admin/x")
    ensures
      var forbidden := Response(403, "Forbidden");
      var a := Registered(Config("A", Single(Source("^/admin")), Some(1), None), (r: Request) => Null);
      var b := Registered(Config("B", Single(Source("^/admin")), Some(2), None), (r: Request) => Resp(forbidden));
      Dispatch(SortByPriority([b, a]), Request("/admin/x", [], [], []), test) == Outcome(Resp(forbidden), ["A", "B"])
  {
    var forbidden := Response(403, "Forbidden");
    var a := Registered(Config("A", Single(Source("^/admin")), Some(1), None), (r: Request) => Null);
    var b := Registered(Config("B", Single(Source("^/admin")), Some(2), None), (r: Request) => Resp(forbidden));
    var req := Request("/admin/x", [], [], []);
    assert [b, a][1..] == [a];
    assert SortByPriority([a]) == [a];
    assert SortByPriority([b, a]) == [a, b];
    assert [a, b][1..] == [b];
    assert Matches(req, a.config, test) && Matches(req, b.config, test);
  }
}
