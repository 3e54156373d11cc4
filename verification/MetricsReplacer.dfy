/**
 The replacer on the heap.  A Go map or struct behind a pointer is an object with the texts it holds; the
 map of parameters is an object as well, because the second pass hands over the very map it rewrites.
 */
module MetricsReplacer {
  import opened Collections
  import opened Substitution
  import opened Resolution
  import opened JobParams

  class StringMap {
    var entries: Params
    constructor (entries: Params)
      ensures this.entries == entries
    {
      this.entries := entries;
    }
  }

  class Authorization {
    var texts: Params
    constructor (texts: Params)
      ensures this.texts == texts
    {
      this.texts := texts;
    }
  }

  class JdbcParams {
    var texts: Params
  }

  class SshParams {
    var texts: Params
  }

  class RedisParams {
    var texts: Params
  }

  ghost function Entries(m: StringMap?): Option<Params>
    reads m
  {
    if m == null then None else Some(m.entries)
  }

  ghost function JdbcTexts(p: JdbcParams?): Option<Params>
    reads p
  {
    if p == null then None else Some(p.texts)
  }

  ghost function SshTexts(p: SshParams?): Option<Params>
    reads p
  {
    if p == null then None else Some(p.texts)
  }

  ghost function RedisTexts(p: RedisParams?): Option<Params>
    reads p
  {
    if p == null then None else Some(p.texts)
  }

  /** Header and query maps are always exchanged as a whole, so they are values here. */
  class Http {
    var texts: Params
    var headers: Option<Params>
    var query: Option<Params>
    var auth: Authorization?

    constructor (texts: Params, headers: Option<Params>, query: Option<Params>, auth: Authorization?)
      ensures this.texts == texts && this.headers == headers && this.query == query && this.auth == auth
    {
      this.texts, this.headers, this.query, this.auth := texts, headers, query, auth;
    }

    ghost function Contents(): HttpView
      reads this, auth
    {
      HttpView(texts, headers, query, if auth == null then None else Some(auth.texts))
    }
  }

  ghost function HttpContents(h: Http?): Option<HttpView>
    reads h, if h == null then null else h.auth
  {
    if h == null then None else Some(h.Contents())
  }

  class Metrics {
    var texts: Params
    var configMap: StringMap?
    var http: Http?
    var jdbc: JdbcParams?
    var ssh: SshParams?
    var redis: RedisParams?

    constructor Like(m: Metrics)
      ensures texts == m.texts && configMap == m.configMap && http == m.http
      ensures jdbc == m.jdbc && ssh == m.ssh && redis == m.redis
    {
      texts, configMap, http, jdbc, ssh, redis := m.texts, m.configMap, m.http, m.jdbc, m.ssh, m.redis;
    }

    ghost function Contents(): View
      reads this, configMap, http, jdbc, ssh, redis, if http == null then null else http.auth
    {
      View(texts, Entries(configMap), HttpContents(http), JdbcTexts(jdbc), SshTexts(ssh), RedisTexts(redis))
    }
  }

  /** Every field of a struct is replaced on its own. */
  method ReplaceTexts(texts: Params, params: Params) returns (out: Params)
    ensures TextsOutcome(texts, params, out)
  {
    out := texts;
    var left := texts.Keys;
    while left != {}
      invariant left <= texts.Keys == out.Keys
      invariant forall k :: k in texts && k !in left ==> Outcome(texts[k], params, out[k])
      invariant forall k :: k in left ==> out[k] == texts[k]
    {
      var k := Choose(left);
      var text := ReplaceParamPlaceholders(texts[k], params);
      out, left := out[k := text], left - {k};
    }
  }

  /** Headers and query parameters: keys are replaced too, and a key that stays unresolved is dropped. */
  method ReplaceEntries(entries: Params, params: Params) returns (out: Params)
    ensures EntriesOutcome(entries, params, out)
  {
    out := map[];
    ghost var order: seq<string> := [];
    var left := entries.Keys;
    while left != {}
      invariant left <= entries.Keys
      invariant forall k :: k in order <==> k in entries && k !in left
      invariant forall i, j :: 0 <= i < j < |order| ==> order[i] != order[j]
      invariant EntriesOutcomeBy(order, entries, params, out)
    {
      var k := Choose(left);
      ghost var before := out;
      out := ReplaceEntry(k, entries[k], params, out);
      EntriesOutcomeExtends(order, entries, params, before, k, out);
      order, left := order + [k], left - {k};
    }
  }

  method ReplaceEntry(k: string, value: string, params: Params, done: Params) returns (out: Params)
    ensures EntryOutcome(k, value, params, done, out)
  {
    var key := ReplaceParamPlaceholders(k, params);
    var text := ReplaceParamPlaceholders(value, params);
    out := done;
    if key != "" && !Contains(key, MARK) {
      out := done[key := text];
    }
    assert Outcome(k, params, key) && Outcome(value, params, text) && out == Put(done, key, text);
  }

  method ReplaceHttp(h: Http, params: StringMap)
    modifies h, h.auth
    ensures HttpOutcome(old(h.Contents()), params.entries, h.Contents())
    ensures h.auth == old(h.auth)
  {
    h.texts := ReplaceTexts(h.texts, params.entries);
    if h.headers.Some? {
      var entries := ReplaceEntries(h.headers.value, params.entries);
      h.headers := Some(entries);
    }
    if h.query.Some? {
      var entries := ReplaceEntries(h.query.value, params.entries);
      h.query := Some(entries);
    }
    if h.auth != null {
      h.auth.texts := ReplaceTexts(h.auth.texts, params.entries);
    }
  }

  method ReplaceMapEntry(target: StringMap, params: StringMap, k: string)
    requires k in target.entries
    modifies target
    ensures EntryReplaced(old(target.entries), k, old(params.entries), target.entries)
  {
    var text := ReplaceParamPlaceholders(target.entries[k], params.entries);
    target.entries := target.entries[k := text];
  }

  /** The entries of the list are replaced, by the map itself or by a map that stays as it is. */
  ghost predicate MapSoFar(order: seq<string>, was: Params, own: bool, params: Params, now: Params) {
    && now.Keys == was.Keys
    && if own then SelfOutcomeBy(order, was, now) else
         forall k :: k in was ==> if k in order then Outcome(was[k], params, now[k]) else now[k] == was[k]
  }

  lemma MapNext(order: seq<string>, was: Params, own: bool, params: Params, before: Params, k: string, now: Params)
    requires MapSoFar(order, was, own, params, before) && k in was && k !in order
    requires EntryReplaced(before, k, if own then before else params, now)
    ensures MapSoFar(order + [k], was, own, params, now)
  {
    if own {
      SelfOutcomeExtends(order, was, before, k, now);
    }
  }

  /** A map is rewritten entry by entry, possibly by its own entries. */
  method ReplaceMap(target: StringMap, params: StringMap)
    modifies target
    ensures params != target ==> TextsOutcome(old(target.entries), old(params.entries), target.entries)
    ensures params == target ==> SelfOutcome(old(target.entries), target.entries)
  {
    ghost var was, with, order: seq<string> := target.entries, params.entries, [];
    var left := target.entries.Keys;
    while left != {}
      invariant left <= was.Keys && Lists(order, was.Keys - left)
      invariant params != target ==> params.entries == with
      invariant MapSoFar(order, was, params == target, with, target.entries)
    {
      var k := Choose(left);
      ghost var before := target.entries;
      ReplaceMapEntry(target, params, k);
      MapNext(order, was, params == target, with, before, k, target.entries);
      ListsMore(order, k, was.Keys - left);
      assert was.Keys - left + {k} == was.Keys - (left - {k});
      order, left := order + [k], left - {k};
    }
    assert was.Keys - {} == was.Keys;
  }

  /** The structs that a metric shares with its clones are overwritten. */
  method ReplaceShared(m: Metrics, params: StringMap)
    modifies m.jdbc, m.ssh, m.redis
    ensures OptTexts(old(JdbcTexts(m.jdbc)), params.entries, JdbcTexts(m.jdbc))
    ensures OptTexts(old(SshTexts(m.ssh)), params.entries, SshTexts(m.ssh))
    ensures OptTexts(old(RedisTexts(m.redis)), params.entries, RedisTexts(m.redis))
  {
    if m.jdbc != null {
      m.jdbc.texts := ReplaceTexts(m.jdbc.texts, params.entries);
    }
    if m.ssh != null {
      m.ssh.texts := ReplaceTexts(m.ssh.texts, params.entries);
    }
    if m.redis != null {
      m.redis.texts := ReplaceTexts(m.redis.texts, params.entries);
    }
  }

  /** One replacement pass over a metric. */
  method ReplaceMetricsParams(m: Metrics, params: StringMap)
    modifies m`texts, m.configMap, m.jdbc, m.ssh, m.redis, m.http, if m.http == null then null else m.http.auth
    ensures TextsOutcome(old(m.texts), old(params.entries), m.texts)
    ensures OptTexts(old(JdbcTexts(m.jdbc)), old(params.entries), JdbcTexts(m.jdbc))
    ensures OptTexts(old(SshTexts(m.ssh)), old(params.entries), SshTexts(m.ssh))
    ensures OptTexts(old(RedisTexts(m.redis)), old(params.entries), RedisTexts(m.redis))
    ensures m.http != null ==> m.http.auth == old(m.http.auth)
    ensures m.http != null ==> HttpOutcome(old(m.http.Contents()), old(params.entries), m.http.Contents())
    ensures params != m.configMap ==>
              OptTexts(old(Entries(m.configMap)), old(params.entries), Entries(m.configMap))
    ensures params == m.configMap ==> SelfOutcome(old(params.entries), params.entries)
  {
    ReplaceFields(m, params);
    if m.configMap != null {
      ReplaceMap(m.configMap, params);
    }
  }

  /** Everything but the metric's own map. */
  method ReplaceFields(m: Metrics, params: StringMap)
    modifies m`texts, m.jdbc, m.ssh, m.redis, m.http, if m.http == null then null else m.http.auth
    ensures TextsOutcome(old(m.texts), params.entries, m.texts)
    ensures OptTexts(old(JdbcTexts(m.jdbc)), params.entries, JdbcTexts(m.jdbc))
    ensures OptTexts(old(SshTexts(m.ssh)), params.entries, SshTexts(m.ssh))
    ensures OptTexts(old(RedisTexts(m.redis)), params.entries, RedisTexts(m.redis))
    ensures m.http != null ==> m.http.auth == old(m.http.auth)
    ensures m.http != null ==> HttpOutcome(old(m.http.Contents()), params.entries, m.http.Contents())
  {
    ReplaceShared(m, params);
    if m.http != null {
      ReplaceHttp(m.http, params);
    }
    m.texts := ReplaceTexts(m.texts, params.entries);
  }

  /** The copy has its own map and HTTP settings and shares the JDBC, SSH and Redis structs. */
  method CloneMetrics(m: Metrics) returns (c: Metrics)
    ensures fresh(c) && c.Contents() == m.Contents()
    ensures c.configMap == null || fresh(c.configMap)
    ensures c.http == null || fresh(c.http)
    ensures c.http == null || c.http.auth == null || fresh(c.http.auth)
    ensures c.jdbc == m.jdbc && c.ssh == m.ssh && c.redis == m.redis
  {
    c := new Metrics.Like(m);
    if m.configMap != null {
      c.configMap := new StringMap(m.configMap.entries);
    }
    if m.http != null {
      var auth := m.http.auth;
      if auth != null {
        auth := new Authorization(auth.texts);
      }
      c.http := new Http(m.http.texts, m.http.headers, m.http.query, auth);
    }
  }

  method CreateParamMap(config: seq<ConfigEntry>) returns (params: StringMap)
    ensures fresh(params) && params.entries == SimpleMap(config)
    ensures forall k :: k in params.entries <==> Sets(config, k)
    ensures forall i :: IsLastEntry(config, i) ==>
      config[i].key in params.entries && params.entries[config[i].key] == config[i].simple
  {
    params := new StringMap(map[]);
    for i := 0 to |config|
      invariant params.entries == SimpleMap(config[..i])
    {
      assert config[..i + 1][..i] == config[..i];
      params.entries := params.entries[config[i].key := config[i].simple];
    }
    assert config[..|config|] == config;
    SimpleMapIs(config);
  }

  method MergeConfig(m: Metrics, config: seq<ConfigEntry>)
    modifies m`configMap, m.configMap
    ensures m.configMap != null && m.configMap.entries == Merged(MapOf(old(Entries(m.configMap))), config)
    ensures forall i :: IsLastEntry(config, i) ==>
      config[i].key in m.configMap.entries && m.configMap.entries[config[i].key] == config[i].printed
    ensures forall k :: !Sets(config, k) ==>
      var own := MapOf(old(Entries(m.configMap)));
      (k in m.configMap.entries <==> k in own) && (k in own ==> m.configMap.entries[k] == own[k])
    ensures old(m.configMap) == null ==> fresh(m.configMap)
    ensures old(m.configMap) != null ==> m.configMap == old(m.configMap)
  {
    ghost var base := MapOf(Entries(m.configMap));
    if m.configMap == null {
      m.configMap := new StringMap(map[]);
    }
    var target := m.configMap;
    for i := 0 to |config|
      invariant m.configMap == target && target.entries == Merged(base, config[..i])
    {
      assert config[..i + 1][..i] == config[..i];
      target.entries := target.entries[config[i].key := config[i].printed];
    }
    assert config[..|config|] == config;
    MergedMapIs(base, config);
  }

  /** The replacer's part of an execution: a clone with the job's parameters filled in. */
  method ReplaceInClone(m: Metrics, config: seq<ConfigEntry>) returns (c: Metrics)
    modifies m.jdbc, m.ssh, m.redis
    ensures fresh(c) && (c.configMap == null || fresh(c.configMap))
    ensures c.http == null || (fresh(c.http) && (c.http.auth == null || fresh(c.http.auth)))
    ensures c.jdbc == m.jdbc && c.ssh == m.ssh && c.redis == m.redis
    ensures PassOutcome(old(m.Contents()), SimpleMap(config), c.Contents())
    ensures OptTexts(old(Entries(m.configMap)), SimpleMap(config), Entries(c.configMap))
  {
    var params := CreateParamMap(config);
    c := CloneMetrics(m);
    ReplaceMetricsParams(c, params);
  }

  /** The collector's part: the configuration is merged, and the metric's own map is applied to the metric. */
  method CollectPass(c: Metrics, config: seq<ConfigEntry>)
    modifies c, c.configMap, c.jdbc, c.ssh, c.redis, c.http, if c.http == null then null else c.http.auth
    ensures c.jdbc == old(c.jdbc) && c.ssh == old(c.ssh) && c.redis == old(c.redis)
    ensures var own := Merged(MapOf(old(Entries(c.configMap))), config);
      && PassOutcome(old(c.Contents()), own, c.Contents())
      && c.configMap != null && SelfOutcome(own, c.configMap.entries)
  {
    MergeConfig(c, config);
    ReplaceMetricsParams(c, c.configMap);
  }

  method ExecuteOnClone(m: Metrics, config: seq<ConfigEntry>) returns (c: Metrics, ghost mid: View)
    modifies m.jdbc, m.ssh, m.redis
    ensures fresh(c) && ExecutionOutcome(old(m.Contents()), config, mid, c.Contents())
    ensures c.jdbc == m.jdbc && c.ssh == m.ssh && c.redis == m.redis
  {
    c := ReplaceInClone(m, config);
    mid := c.Contents();
    CollectPass(c, config);
  }

  /** One execution of a metric.  Of the original, only the shared structs change, to what the clone holds. */
  method Execute(m: Metrics, config: seq<ConfigEntry>) returns (c: Metrics, ghost e: Execution)
    modifies m.jdbc, m.ssh, m.redis
    ensures fresh(c) && Outcomes(config)(e) && e.before == old(m.Contents()) && e.out == c.Contents()
    ensures m.Contents() == AfterExecution(old(m.Contents()), c.Contents())
  {
    ghost var before := m.Contents();
    ghost var mid;
    c, mid := ExecuteOnClone(m, config);
    e := Execution(before, mid, c.Contents());
  }

  /** A cyclic job executed any number of times yields the same contents each time.  Only the shared structs
      of the original are ever written. */
  method ExecuteTimes(m: Metrics, config: seq<ConfigEntry>, times: nat, ghost keys: set<string>)
    returns (ghost outs: seq<View>)
    requires WellPosed(m.Contents(), config, keys)
    modifies m.jdbc, m.ssh, m.redis
    ensures |outs| == times
    ensures forall i :: 0 <= i < times ==> Gives(outs[i], old(m.Contents()), config, keys)
  {
    ghost var h, start := [], m.Contents();
    for i := 0 to times
      invariant |h| == i && IsHistory(h, Outcomes(config))
      invariant i > 0 ==> h[0].before == start && m.Contents() == AfterExecution(h[i - 1].before, h[i - 1].out)
      invariant i == 0 ==> m.Contents() == start
    {
      var c, e := Execute(m, config);
      HistoryExtends(h, Outcomes(config), e);
      h := h + [e];
    }
    outs := seq(times, i requires 0 <= i < times => h[i].out);
    forall i | 0 <= i < times ensures Gives(outs[i], start, config, keys) {
      EveryExecutionSame(h, config, keys, i);
    }
  }

  // ---------------------------------------------------------------- all metrics of a job

  /** The structs that the metrics share with their clones, by type. */
  ghost function Jdbcs(ms: seq<Metrics>): set<JdbcParams>
    reads ms
  {
    set m | m in ms && m.jdbc != null :: m.jdbc as JdbcParams
  }

  ghost function Sshs(ms: seq<Metrics>): set<SshParams>
    reads ms
  {
    set m | m in ms && m.ssh != null :: m.ssh as SshParams
  }

  ghost function Redises(ms: seq<Metrics>): set<RedisParams>
    reads ms
  {
    set m | m in ms && m.redis != null :: m.redis as RedisParams
  }

  /** No two metrics point to the same struct. */
  ghost predicate Apart(ms: seq<Metrics>)
    reads ms
  {
    forall i, j :: 0 <= i < |ms| && 0 <= j < |ms| && i != j ==>
      && (ms[i].jdbc == null || ms[i].jdbc != ms[j].jdbc)
      && (ms[i].ssh == null || ms[i].ssh != ms[j].ssh)
      && (ms[i].redis == null || ms[i].redis != ms[j].redis)
  }

  /** One execution of every metric of a job. */
  method ExecuteJob(ms: seq<Metrics>, config: seq<ConfigEntry>) returns (ghost es: seq<Execution>)
    requires Apart(ms)
    modifies Jdbcs(ms), Sshs(ms), Redises(ms)
    ensures |es| == |ms|
    ensures forall k :: 0 <= k < |ms| ==> Outcomes(config)(es[k]) && es[k].before == old(ms[k].Contents())
    ensures forall k :: 0 <= k < |ms| ==> ms[k].Contents() == AfterExecution(es[k].before, es[k].out)
  {
    es := [];
    for i := 0 to |ms|
      invariant |es| == i
      invariant forall k :: 0 <= k < i ==> Outcomes(config)(es[k]) && es[k].before == old(ms[k].Contents())
      invariant forall k :: 0 <= k < i ==> ms[k].Contents() == AfterExecution(es[k].before, es[k].out)
      invariant forall k :: i <= k < |ms| ==> ms[k].Contents() == old(ms[k].Contents())
    {
      assert ms[i] in ms;
      var c, e := ExecuteBeside(ms, i, config);
      es := es + [e];
    }
  }

  /** The execution of one metric leaves the others alone. */
  method ExecuteBeside(ms: seq<Metrics>, i: nat, config: seq<ConfigEntry>) returns (c: Metrics, ghost e: Execution)
    requires i < |ms| && Apart(ms)
    modifies ms[i].jdbc, ms[i].ssh, ms[i].redis
    ensures Outcomes(config)(e) && e.before == old(ms[i].Contents())
    ensures ms[i].Contents() == AfterExecution(e.before, e.out)
    ensures forall k :: 0 <= k < |ms| && k != i ==> ms[k].Contents() == old(ms[k].Contents())
  {
    c, e := Execute(ms[i], config);
  }

  /** Every execution of a job gives each of its metrics the contents that the first execution gave it. */
  method ExecuteJobTimes(ms: seq<Metrics>, config: seq<ConfigEntry>, times: nat, ghost keys: set<string>)
    returns (ghost rounds: seq<seq<Execution>>)
    requires Apart(ms) && forall k :: 0 <= k < |ms| ==> WellPosed(ms[k].Contents(), config, keys)
    modifies Jdbcs(ms), Sshs(ms), Redises(ms)
    ensures |rounds| == times && forall i :: 0 <= i < times ==> |rounds[i]| == |ms|
    ensures forall i, k :: 0 <= i < times && 0 <= k < |ms| ==> Gives(rounds[i][k].out, old(ms[k].Contents()), config, keys)
  {
    rounds := [];
    ghost var starts := seq(|ms|, k requires 0 <= k < |ms| reads * => ms[k].Contents());
    for i := 0 to times
      invariant Apart(ms) && Jdbcs(ms) == old(Jdbcs(ms)) && Sshs(ms) == old(Sshs(ms)) && Redises(ms) == old(Redises(ms))
      invariant |rounds| == i && forall j :: 0 <= j < i ==> |rounds[j]| == |ms|
      invariant forall j, k :: 0 <= j < i && 0 <= k < |ms| ==> Gives(rounds[j][k].out, starts[k], config, keys)
      invariant forall k :: 0 <= k < |ms| ==> SameToCome(starts[k], ms[k].Contents(), config, keys)
    {
      var es := ExecuteJobAgain(ms, config, starts, keys);
      rounds := rounds + [es];
    }
  }

  method ExecuteJobAgain(ms: seq<Metrics>, config: seq<ConfigEntry>, ghost starts: seq<View>, ghost keys: set<string>)
    returns (ghost es: seq<Execution>)
    requires Apart(ms) && |starts| == |ms|
    requires forall k :: 0 <= k < |ms| ==> SameToCome(starts[k], ms[k].Contents(), config, keys)
    modifies Jdbcs(ms), Sshs(ms), Redises(ms)
    ensures |es| == |ms| && forall k :: 0 <= k < |ms| ==> Gives(es[k].out, starts[k], config, keys)
    ensures forall k :: 0 <= k < |ms| ==> SameToCome(starts[k], ms[k].Contents(), config, keys)
    ensures Apart(ms) && Jdbcs(ms) == old(Jdbcs(ms)) && Sshs(ms) == old(Sshs(ms)) && Redises(ms) == old(Redises(ms))
  {
    es := ExecuteJob(ms, config);
    forall k | 0 <= k < |ms|
      ensures Gives(es[k].out, starts[k], config, keys)
      ensures SameToCome(starts[k], ms[k].Contents(), config, keys)
    {
      OneMoreRound(starts[k], es[k], config, keys);
    }
  }

  /** The metric still meets the side conditions and will give what it gave at the start. */
  ghost predicate SameToCome(start: View, now: View, config: seq<ConfigEntry>, keys: set<string>) {
    WellPosed(now, config, keys) && FinalView(now, config) == FinalView(start, config) && OwnMap(now, config) == OwnMap(start, config)
  }

  lemma OneMoreRound(start: View, e: Execution, config: seq<ConfigEntry>, keys: set<string>)
    requires Outcomes(config)(e) && SameToCome(start, e.before, config, keys)
    ensures Gives(e.out, start, config, keys)
    ensures SameToCome(start, AfterExecution(e.before, e.out), config, keys)
  {
    ExecutionUnique(e.before, config, e.mid, e.out, keys);
    NextExecutionSame(e.before, config, keys);
  }
}
