/** `InterceptorRegistry`: an insertion-ordered map from interceptor id to
    its stored configuration and handler, the projection of its path
    patterns, and the dispatch of a request through it. */
module Registry {
  import opened Types
  import opened Matcher
  import opened Ordering
  import opened Dispatcher

  /** `Array.from(map.values())` for a map whose keys, in insertion order,
      are `ids`. */
  function Lookup(ids: seq<string>, m: map<string, Registered>): (vs: seq<Registered>)
    requires forall id :: id in ids ==> id in m
    ensures |vs| == |ids|
    ensures forall i :: 0 <= i < |ids| ==> vs[i] == m[ids[i]]
  {
    seq(|ids|, i requires 0 <= i < |ids| => m[ids[i]])
  }

  /** Setting a key that is already present changes its value in place. */
  lemma LookupUpdate(ids: seq<string>, m: map<string, Registered>, i: int, e: Registered)
    requires forall id :: id in ids ==> id in m
    requires 0 <= i < |ids|
    requires forall j :: 0 <= j < |ids| && j != i ==> ids[j] != ids[i]
    ensures Lookup(ids, m[ids[i] := e]) == Lookup(ids, m)[i := e]
  {
  }

  /** Setting a new key appends its value. */
  lemma LookupAppend(ids: seq<string>, m: map<string, Registered>, id: string, e: Registered)
    requires forall x :: x in ids ==> x in m
    requires id !in ids
    ensures Lookup(ids + [id], m[id := e]) == Lookup(ids, m) + [e]
  {
  }

  /** `flatMap` of each entry's pattern, a single one taken as a
      one-element list, in the entries' order. */
  function Flatten(es: seq<Registered>): (ps: seq<Pattern>)
    ensures forall p :: p in ps <==> exists e :: e in es && p in PatternsOf(e.config.pattern)
  {
    if es == [] then []
    else
      var rest := Flatten(es[1..]);
      assert forall e :: e in es <==> e == es[0] || e in es[1..];
      PatternsOf(es[0].config.pattern) + rest
  }

  /** Flattening runs entry by entry: the patterns of a longer registry
      are those of its first part followed by those of the rest. */
  lemma {:induction false} FlattenAppend(a: seq<Registered>, b: seq<Registered>)
    ensures Flatten(a + b) == Flatten(a) + Flatten(b)
  {
    if a != [] {
      assert (a + b)[1..] == a[1..] + b;
      FlattenAppend(a[1..], b);
    } else {
      assert a + b == b;
    }
  }

  /** Replacing one entry replaces its patterns where they stood. */
  lemma FlattenReplace(s: seq<Registered>, i: int, e: Registered)
    requires 0 <= i < |s|
    ensures Flatten(s[i := e]) ==
      Flatten(s[..i]) + PatternsOf(e.config.pattern) + Flatten(s[i + 1..])
  {
    assert s[i := e] == s[..i] + ([e] + s[i + 1..]);
    FlattenAppend(s[..i], [e] + s[i + 1..]);
    assert ([e] + s[i + 1..])[1..] == s[i + 1..];
  }

  class InterceptorRegistry {
    /** The map's keys in insertion order. */
    var order: seq<string>
    /** The map's contents. */
    var interceptors: map<string, Registered>
    /** The ids for which `use` printed its overwrite warning. */
    ghost var warnings: seq<string>

    ghost predicate Valid()
      reads this
    {
      && (forall id :: id in interceptors <==> id in order)
      && (forall i, j :: 0 <= i < j < |order| ==> order[i] != order[j])
      && (forall id :: id in interceptors ==>
            interceptors[id].config.id == id && interceptors[id].config.priority.Some?)
    }

    constructor ()
      ensures Valid()
      ensures order == [] && interceptors == map[] && warnings == []
    {
      order := [];
      interceptors := map[];
      warnings := [];
    }

    /** The entries in the map's iteration order. */
    function Values(): (vs: seq<Registered>)
      reads this
      requires Valid()
      ensures |vs| == |order|
      ensures forall i :: 0 <= i < |order| ==> vs[i] == interceptors[order[i]]
      ensures DistinctIds(vs)
    {
      Lookup(order, interceptors)
    }

    /** `use`: stores a copy of `config` with its priority defaulted to 0,
        and `handler`, under `config.id`. A new id goes to the end of the
        iteration order; an id already present keeps its place and only its
        entry changes. Returns the registry itself. */
    method Use(config: Config, handler: Handler) returns (self: InterceptorRegistry)
      requires Valid()
      modifies this
      ensures Valid() && self == this
      ensures interceptors == old(interceptors)[config.id := Registered(Normalize(config), handler)]
      ensures config.id in old(interceptors) ==>
        && order == old(order)
        && warnings == old(warnings) + [config.id]
        && exists i :: 0 <= i < |order| && order[i] == config.id
             && Values() == old(Values())[i := Registered(Normalize(config), handler)]
      ensures config.id !in old(interceptors) ==>
        && order == old(order) + [config.id]
        && warnings == old(warnings)
        && Values() == old(Values()) + [Registered(Normalize(config), handler)]
    {
      ghost var before := Values();
      var entry := Registered(Normalize(config), handler);
      if config.id in interceptors {
        warnings := warnings + [config.id];
        ghost var i :| 0 <= i < |order| && order[i] == config.id;
        LookupUpdate(order, interceptors, i, entry);
        interceptors := interceptors[config.id := entry];
      } else {
        LookupAppend(order, interceptors, config.id, entry);
        order := order + [config.id];
        interceptors := interceptors[config.id := entry];
      }
      self := this;
    }

    /** `getPatterns`: every entry's patterns, in registry order. */
    function GetPatterns(): (ps: seq<Pattern>)
      reads this
      requires Valid()
      ensures forall p :: p in ps <==>
        exists id :: id in interceptors && p in PatternsOf(interceptors[id].config.pattern)
    {
      var vs := Values();
      assert forall e :: e in vs <==> exists id :: id in interceptors && interceptors[id] == e by {
        forall e ensures e in vs <==> exists id :: id in interceptors && interceptors[id] == e {
          if e in vs {
            var i :| 0 <= i < |vs| && vs[i] == e;
            assert interceptors[order[i]] == e;
          }
          if exists id :: id in interceptors && interceptors[id] == e {
            var id :| id in interceptors && interceptors[id] == e;
            var i :| 0 <= i < |order| && order[i] == id;
            assert vs[i] == e;
          }
        }
      }
      Flatten(vs)
    }

    /** `getMatchers`: the same sequence as `getPatterns`. */
    function GetMatchers(): (ps: seq<Pattern>)
      reads this
      requires Valid()
      ensures ps == GetPatterns()
    {
      GetPatterns()
    }

    /** `getSortedInterceptors`: the entries sorted by priority, stably. */
    function GetSortedInterceptors(): (es: seq<Registered>)
      reads this
      requires Valid()
      ensures Sorted(es) && DistinctIds(es)
      ensures multiset(es) == multiset(Values())
      ensures forall p :: WithPriority(es, p) == WithPriority(Values(), p)
    {
      SortByPriorityCorrect(Values());
      SortByPriority(Values())
    }

    /** `handle`: runs the handlers of the matching entries in priority
        order until one returns something other than `null`, and returns
        that; `invoked` lists the ids whose handlers were called. */
    method Handle(req: Request, test: RegexTest) returns (r: HandlerResult, invoked: seq<string>)
      requires Valid()
      ensures Dispatch(GetSortedInterceptors(), req, test) == Outcome(r, invoked)
    {
      var sorted := GetSortedInterceptors();
      invoked := [];
      var i := 0;
      while i < |sorted|
        invariant 0 <= i <= |sorted|
        invariant Dispatch(sorted[i..], req, test).result == Dispatch(sorted, req, test).result
        invariant invoked + Dispatch(sorted[i..], req, test).invoked == Dispatch(sorted, req, test).invoked
      {
        var interceptor := sorted[i];
        assert sorted[i..][1..] == sorted[i + 1..];
        if !Matches(req, interceptor.config, test) {
          i := i + 1;
          continue;
        }
        var response := interceptor.handler(req);
        invoked := invoked + [interceptor.config.id];
        if !response.Null? {
          return response, invoked;
        }
        i := i + 1;
      }
      return Undefined, invoked;
    }
  }

  /** Priority ordering through the registry: an entry of lower priority
      that matches and responds keeps every entry of higher priority from
      running. */
  lemma HandleHonoursPriority(reg: InterceptorRegistry, req: Request, test: RegexTest, a: string, b: string)
    requires reg.Valid()
    requires a in reg.interceptors && b in reg.interceptors
    requires Key(reg.interceptors[a]) < Key(reg.interceptors[b])
    requires Matches(req, reg.interceptors[a].config, test)
    requires !reg.interceptors[a].handler(req).Null?
    ensures b !in Dispatch(reg.GetSortedInterceptors(), req, test).invoked
  {
    var vs := reg.Values();
    var es := reg.GetSortedInterceptors();
    var i :| 0 <= i < |reg.order| && reg.order[i] == a;
    var j :| 0 <= j < |reg.order| && reg.order[j] == b;
    InMultiset(vs[i], vs, es);
    InMultiset(vs[j], vs, es);
    LowerPriorityWins(es, req, test, vs[i], vs[j]);
  }
}
