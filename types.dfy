/** The values an interceptor registry works on: interceptor configurations,
    path patterns, condition matchers, requests and handler results. */
module Types {

  datatype Option<+T> = None | Some(value: T)

  /** A regular expression, as `new RegExp(source, flags)` would build it. */
  datatype Regex = Regex(source: string, flags: string)

  /** The regular-expression engine's `.test`: whether `re` finds a match in
      the text. It is a foreign library, so the model leaves it uninterpreted
      and every operation that needs it takes it as a parameter. */
  type RegexTest = (Regex, string) -> bool

  /** One path pattern: a string is the source of a regular expression,
      compiled without flags on every test; a compiled one is used as is. */
  datatype Pattern = Source(src: string) | Compiled(re: Regex)

  /** The `pattern` field of a configuration: one pattern or an array of them. */
  datatype PatternSpec = Single(p: Pattern) | List(ps: seq<Pattern>)

  /** The value expected for a header, query parameter or cookie: a string
      asks for exact equality, a regular expression for a `.test`. */
  datatype ValueMatcher = Exact(value: string) | Test(re: Regex)

  /** An expected record (`Record<string, string | RegExp>`). */
  type Expected = map<string, ValueMatcher>

  /** The optional `conditions` of a configuration; each category is optional. */
  datatype Conditions = Conditions(
    headers: Option<Expected>,
    query: Option<Expected>,
    cookies: Option<Expected>)

  datatype Config = Config(
    id: string,
    pattern: PatternSpec,
    priority: Option<int>,
    conditions: Option<Conditions>)

  /** An incoming request: its path and its headers, query parameters and
      cookies, each as the name/value pairs the framework enumerates. */
  datatype Request = Request(
    pathname: string,
    headers: seq<(string, string)>,
    query: seq<(string, string)>,
    cookies: seq<(string, string)>)

  /** The response object a handler may produce; its content is opaque to
      the registry. */
  datatype Response = Response(status: int, body: string)

  /** What a handler's (awaited) call yields. `Null` asks the registry to
      go on with the next interceptor; `Undefined` (a handler returning
      nothing) and a response both end the dispatch. */
  datatype HandlerResult = Null | Undefined | Resp(response: Response)

  type Handler = Request -> HandlerResult

  /** An entry of the registry: the stored configuration and its handler. */
  datatype Registered = Registered(config: Config, handler: Handler)

  /** `config.priority || 0`. */
  function PriorityOf(c: Config): int
  {
    match c.priority
    case Some(p) => p
    case None => 0
  }

  /** The configuration `use` stores: a copy of `c` whose priority is set. */
  function Normalize(c: Config): (r: Config)
    ensures r.priority.Some? && PriorityOf(r) == PriorityOf(c)
    ensures c.priority.Some? ==> r == c
    ensures r.id == c.id && r.pattern == c.pattern && r.conditions == c.conditions
  {
    c.(priority := Some(PriorityOf(c)))
  }

  /** The sort key of an entry. */
  function Key(e: Registered): int
  {
    PriorityOf(e.config)
  }

  /** `Array.isArray(pattern) ? pattern : [pattern]`. */
  function PatternsOf(spec: PatternSpec): seq<Pattern>
  {
    match spec
    case Single(p) => [p]
    case List(ps) => ps
  }
}
