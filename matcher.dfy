/** The pure predicates that decide whether a request satisfies an
    interceptor's path patterns and conditions. */
module Matcher {
  import opened Types

  /** `Object.fromEntries(pairs)`, and the `forEach` that fills the cookie
      record by assignment: the pairs are stored left to right, so for a
      name that occurs several times the last value wins. Names that an
      object treats specially (`__proto__`) are stored like any other. */
  function FromEntries(kvs: seq<(string, string)>): (r: map<string, string>)
    ensures forall k :: k in r <==> exists i :: 0 <= i < |kvs| && kvs[i].0 == k
  {
    if kvs == [] then map[]
    else
      var init := kvs[..|kvs| - 1];
      var r := FromEntries(init)[kvs[|kvs| - 1].0 := kvs[|kvs| - 1].1];
      assert forall k :: (exists i :: 0 <= i < |kvs| && kvs[i].0 == k) ==> k in r by {
        forall k, i | 0 <= i < |kvs| && kvs[i].0 == k ensures k in r {
          if i < |init| {
            assert init[i].0 == k;
          }
        }
      }
      r
  }

  /** The record holds, under each name, the value of the last pair that
      carries the name. */
  lemma {:induction false} FromEntriesLastWins(kvs: seq<(string, string)>, k: string)
    requires k in FromEntries(kvs)
    ensures IsLast(kvs, k, FromEntries(kvs)[k])
  {
    var init := kvs[..|kvs| - 1];
    var last := kvs[|kvs| - 1];
    var v := FromEntries(kvs)[k];
    if k == last.0 {
      assert kvs[|kvs| - 1] == (k, v);
    } else {
      assert FromEntries(init)[k] == v;
      FromEntriesLastWins(init, k);
      var i :| 0 <= i < |init| && init[i] == (k, v)
        && forall j :: i < j < |init| ==> init[j].0 != k;
      assert kvs[i] == (k, v);
      assert forall j :: i < j < |kvs| ==> kvs[j].0 != k by {
        forall j | i < j < |kvs| ensures kvs[j].0 != k {
          if j < |init| {
            assert init[j] == kvs[j];
          }
        }
      }
    }
  }

  /** `v` is the value of the last pair named `k`. */
  ghost predicate IsLast(kvs: seq<(string, string)>, k: string, v: string)
  {
    exists i :: 0 <= i < |kvs| && kvs[i] == (k, v)
      && forall j :: i < j < |kvs| ==> kvs[j].0 != k
  }

  /** One pattern tested against the path; a string is compiled as
      `new RegExp(p)`, with no flags. */
  predicate TestPattern(p: Pattern, path: string, test: RegexTest)
  {
    match p
    case Source(s) => test(Regex(s, ""), path)
    case Compiled(re) => test(re, path)
  }

  /** `patterns.some(...)`. */
  function AnyMatches(ps: seq<Pattern>, path: string, test: RegexTest): (r: bool)
    ensures r <==> exists i :: 0 <= i < |ps| && TestPattern(ps[i], path, test)
  {
    if ps == [] then false
    else TestPattern(ps[0], path, test) || AnyMatches(ps[1..], path, test)
  }

  /** `matchesPattern`: the path matches at least one of the patterns. */
  function MatchesPattern(req: Request, spec: PatternSpec, test: RegexTest): (r: bool)
    ensures r <==> exists p :: p in PatternsOf(spec) && TestPattern(p, req.pathname, test)
    ensures spec == List([]) ==> !r
    ensures spec.Single? ==> r == TestPattern(spec.p, req.pathname, test)
  {
    AnyMatches(PatternsOf(spec), req.pathname, test)
  }

  /** One expected value against the actual one. */
  predicate ValueMatches(m: ValueMatcher, actual: string, test: RegexTest)
  {
    match m
    case Test(re) => test(re, actual)
    case Exact(s) => s == actual
  }

  /** `matchesRecord`: every expected key is present with a non-empty
      value (an empty string is falsy, like a missing key) that matches. */
  predicate MatchesRecord(actual: map<string, string>, expected: Expected, test: RegexTest)
  {
    forall k | k in expected ::
      k in actual && actual[k] != "" && ValueMatches(expected[k], actual[k], test)
  }

  /** A present category is checked against the request's record. */
  predicate CategoryPasses(cat: Option<Expected>, kvs: seq<(string, string)>, test: RegexTest)
  {
    match cat
    case None => true
    case Some(expected) => MatchesRecord(FromEntries(kvs), expected, test)
  }

  /** `matchesConditions`: absent conditions match; otherwise the headers,
      the query and the cookies must each pass when present. */
  predicate MatchesConditions(req: Request, conditions: Option<Conditions>, test: RegexTest)
  {
    match conditions
    case None => true
    case Some(c) =>
      && CategoryPasses(c.headers, req.headers, test)
      && CategoryPasses(c.query, req.query, test)
      && CategoryPasses(c.cookies, req.cookies, test)
  }

  /** `matches`: a path pattern matches and the conditions hold. */
  predicate Matches(req: Request, config: Config, test: RegexTest)
  {
    MatchesPattern(req, config.pattern, test) && MatchesConditions(req, config.conditions, test)
  }

  // ---------------------------------------------------------------------
  // A declarative reference for matching, stated on the request's raw
  // name/value pairs, and the proof that the matcher agrees with it.

  /** Expected key `k` is satisfied by the last pair that names it. */
  ghost predicate KeySatisfied(kvs: seq<(string, string)>, k: string, m: ValueMatcher, test: RegexTest)
  {
    exists i :: 0 <= i < |kvs| && kvs[i].0 == k
      && (forall j :: i < j < |kvs| ==> kvs[j].0 != k)
      && kvs[i].1 != "" && ValueMatches(m, kvs[i].1, test)
  }

  ghost predicate CategoryHolds(cat: Option<Expected>, kvs: seq<(string, string)>, test: RegexTest)
  {
    cat.Some? ==> forall k | k in cat.value :: KeySatisfied(kvs, k, cat.value[k], test)
  }

  /** A request is admitted by a configuration when its path matches one
      of the patterns and every present category holds for every key. */
  ghost predicate Admits(req: Request, config: Config, test: RegexTest)
  {
    && (exists p :: p in PatternsOf(config.pattern) && TestPattern(p, req.pathname, test))
    && (config.conditions.Some? ==>
          && CategoryHolds(config.conditions.value.headers, req.headers, test)
          && CategoryHolds(config.conditions.value.query, req.query, test)
          && CategoryHolds(config.conditions.value.cookies, req.cookies, test))
  }

  /** Two last occurrences of one name are the same pair. */
  lemma LastIsUnique(kvs: seq<(string, string)>, k: string, i: int, v: string)
    requires 0 <= i < |kvs| && kvs[i].0 == k
    requires forall j :: i < j < |kvs| ==> kvs[j].0 != k
    requires IsLast(kvs, k, v)
    ensures kvs[i].1 == v
  {
    var i' :| 0 <= i' < |kvs| && kvs[i'] == (k, v) && forall j :: i' < j < |kvs| ==> kvs[j].0 != k;
    assert i' == i;
  }

  lemma {:induction false} CategoryPassesIffHolds(cat: Option<Expected>, kvs: seq<(string, string)>, test: RegexTest)
    ensures CategoryPasses(cat, kvs, test) <==> CategoryHolds(cat, kvs, test)
  {
    if cat.Some? {
      var actual := FromEntries(kvs);
      if CategoryPasses(cat, kvs, test) {
        forall k | k in cat.value ensures KeySatisfied(kvs, k, cat.value[k], test) {
          FromEntriesLastWins(kvs, k);
          var i :| 0 <= i < |kvs| && kvs[i] == (k, actual[k])
            && forall j :: i < j < |kvs| ==> kvs[j].0 != k;
          assert kvs[i].0 == k;
        }
      }
      if CategoryHolds(cat, kvs, test) {
        forall k | k in cat.value
          ensures k in actual && actual[k] != "" && ValueMatches(cat.value[k], actual[k], test)
        {
          var i :| 0 <= i < |kvs| && kvs[i].0 == k
            && (forall j :: i < j < |kvs| ==> kvs[j].0 != k)
            && kvs[i].1 != "" && ValueMatches(cat.value[k], kvs[i].1, test);
          FromEntriesLastWins(kvs, k);
          LastIsUnique(kvs, k, i, actual[k]);
        }
      }
    }
  }

  /** The matcher decides exactly the reference: OR across the patterns,
      AND across the present categories and across the keys of each, with
      a missing key or an empty value failing. */
  lemma {:induction false} MatchesIffAdmits(req: Request, config: Config, test: RegexTest)
    ensures Matches(req, config, test) <==> Admits(req, config, test)
  {
    if config.conditions.Some? {
      var c := config.conditions.value;
      CategoryPassesIffHolds(c.headers, req.headers, test);
      CategoryPassesIffHolds(c.query, req.query, test);
      CategoryPassesIffHolds(c.cookies, req.cookies, test);
    }
  }

  /** A present category with a key that the request lacks, or whose last
      occurrence carries an empty value, fails the whole match. */
  lemma {:induction false} MissingOrEmptyFails(req: Request, config: Config, test: RegexTest, k: string)
    requires config.conditions.Some?
    requires var c := config.conditions.value;
      c.cookies.Some? && k in c.cookies.value
    requires forall i :: (0 <= i < |req.cookies| && req.cookies[i].0 == k
      && forall j :: i < j < |req.cookies| ==> req.cookies[j].0 != k) ==> req.cookies[i].1 == ""
    ensures !Matches(req, config, test)
  {
    var c := config.conditions.value;
    var actual := FromEntries(req.cookies);
    if k in actual {
      FromEntriesLastWins(req.cookies, k);
      var i :| 0 <= i < |req.cookies| && req.cookies[i] == (k, actual[k])
        && forall j :: i < j < |req.cookies| ==> req.cookies[j].0 != k;
      assert actual[k] == "";
    }
    assert !MatchesRecord(actual, c.cookies.value, test);
  }

  /** An empty expected record in every category passes vacuously. */
  lemma EmptyCategoriesPass(req: Request, test: RegexTest)
    ensures MatchesConditions(req, Some(Conditions(Some(map[]), Some(map[]), Some(map[]))), test)
  {
  }

  /** The cookie example: `session` must match `/^valid-/`. */
  lemma {:induction false} SessionCookieExample(test: RegexTest, pattern: string)
    requires test(Regex(pattern, ""), "/") && test(Regex("^valid-", ""), "valid-123")
    ensures var config := Config("S", Single(Source(pattern)), None,
        Some(Conditions(None, None, Some(map["session" := Test(Regex("^valid-", ""))]))));
      && Matches(Request("/", [], [], [("session", "valid-123")]), config, test)
      && !Matches(Request("/", [], [], [("session", "")]), config, test)
      && !Matches(Request("/", [], [], [("other", "valid-123")]), config, test)
      && !Matches(Request("/", [], [], [("session", "valid-1"), ("session", "")]), config, test)
  {
    var config := Config("S", Single(Source(pattern)), None,
        Some(Conditions(None, None, Some(map["session" := Test(Regex("^valid-", ""))]))));
    var good := [("session", "valid-123")];
    assert FromEntries(good) == map["session" := "valid-123"] by {
      assert good[..0] == [];
    }
    MissingOrEmptyFails(Request("/", [], [], [("session", "")]), config, test, "session");
    MissingOrEmptyFails(Request("/", [], [], [("other", "valid-123")]), config, test, "session");
    var twice := [("session", "valid-1"), ("session", "")];
    assert twice[1].0 == "session" && twice[1].1 == "";
    MissingOrEmptyFails(Request("/", [], [], twice), config, test, "session");
  }
}
