/**
 * The REST datasource: each persistence call (query, create, read, update,
 * delete) is turned into one HTTP request (verb, URL, body, header lines)
 * handed to the HTTP client, and the client's outcome is turned into what the
 * caller gets back.
 *
 * The HTTP client is a parameter `send` from the request to its outcome (a
 * response, or an exception). Every entry point also returns `sent`, the
 * request it handed to the client, or None when the client was never called.
 */
module Datasource {
  import opened Wrappers
  import opened PhpValues
  import OrderedMap
  import PhpStrings
  import QueryString
  import Headers
  import SeqFacts

  /** DIRECTORY_SEPARATOR on a Unix host, which `read` uses as the path separator. */
  const DS: char := '/'

  datatype Verb = Get | Post | Put | Delete

  /** A request to the client; `body` is Null when the verb is called without data. */
  datatype Request = Request(verb: Verb, url: string, body: Value, headers: seq<string>)

  /** The client's response object; only its decoded body is observable here. */
  datatype Response = Response(body: Value)

  /** What calling the client gives: a response, or an exception. */
  datatype Outcome = Returned(response: Response) | Threw

  /** What query, create, update and delete return: the client's response, or `array()` once an exception was caught. */
  datatype Reply = ResponseObject(response: Response) | EmptyReply

  /** The exceptions the datasource itself throws. */
  datatype Error =
    | MissingRequestInformation  // 'Missing information about the HTTP request'
    | MissingActionKey           // 'Missing action key'
    | NoApiToken                 // 'No API token provided'

  /** The keys of `$queryData` that `read` looks at; a missing key is Null, missing conditions are the empty array. */
  datatype QueryData = QueryData(
    action: Value,
    conditions: seq<(string, Value)>,
    limit: Value,
    offset: Value,
    order: Value,
    page: Value)

  /**
   * `applyConfiguration`: succeeds, handing the header lines to the client
   * unchanged, exactly when one of them is named `X-Authorization`.
   */
  function ApplyConfiguration(headers: seq<string>): (r: Result<seq<string>, Error>)
    ensures r.Success? <==> exists i :: 0 <= i < |headers| && Headers.Names(headers[i], Headers.Authorization)
    ensures r.Success? ==> r.value == headers
    ensures r.Failure? ==> r.error == NoApiToken
  {
    Headers.HasApiTokenIff(headers);
    if Headers.HasApiToken(headers) then Success(headers) else Failure(NoApiToken)
  }

  /** The `try { return <client call>; } catch (Exception $e) { return array(); }` of query, create, update and delete. */
  function Caught(o: Outcome): (r: Reply)
    ensures r.EmptyReply? <==> o.Threw?
    ensures r.ResponseObject? ==> o == Returned(r.response)
  {
    match o
    case Returned(resp) => ResponseObject(resp)
    case Threw => EmptyReply
  }

  /**
   * What `read` returns for a client outcome: the envelope's `data` when its
   * `success` is not empty, and `array()` when `success` is empty or the
   * client threw. A non-empty result therefore always comes from a successful
   * envelope.
   */
  function ReadReply(o: Outcome): (r: Value)
    ensures o.Threw? ==> r == EmptyArray
    ensures o.Returned? && IsEmpty(Index(o.response.body, "success")) ==> r == EmptyArray
    ensures o.Returned? && !IsEmpty(Index(o.response.body, "success")) ==> r == Index(o.response.body, "data")
    ensures r != EmptyArray ==> o.Returned? && !IsEmpty(Index(o.response.body, "success"))
  {
    match o
    case Threw => EmptyArray
    case Returned(resp) =>
      if IsEmpty(Index(resp.body, "success")) then EmptyArray else Index(resp.body, "data")
  }

  // ---------------------------------------------------------------------------
  // query

  /** The action of a custom query: `pass[0]` itself, or its `action` entry when it is an array. */
  function QueryAction(first: Value): (action: Value)
    ensures action == Index(if first.Arr? then first else Arr([("action", first)]), "action")
  {
    assert OrderedMap.IndexOf([("action", first)], "action") == 0;
    if first.Arr? then Index(first, "action") else first
  }

  // ---------------------------------------------------------------------------
  // create

  /**
   * The verb and URL of `create` for a payload `data`: PUT to
   * `/<resource>/<id>` when `data['id']` is not empty, POST to `/<resource>`
   * otherwise.
   */
  function CreateTarget(host: string, resource: string, data: Value): (t: (Verb, string))
    ensures t.0 == Put <==> !IsEmpty(Index(data, "id"))
    ensures t.0 == Put ==> t.1 == host + "/" + resource + "/" + ToStr(Index(data, "id"))
    ensures t.0 == Post ==> t.1 == host + "/" + resource
    ensures IsEmpty(Index(data, "id")) ==> t == (Post, host + "/" + resource)
  {
    if !IsEmpty(Index(data, "id")) then (Put, host + "/" + resource + "/" + ToStr(Index(data, "id")))
    else (Post, host + "/" + resource)
  }

  /** The body of `create`: the fields paired with the values when both lists are non-empty, `array()` otherwise. */
  function CreateBody(fields: seq<string>, values: seq<Value>): (data: seq<(string, Value)>)
    requires fields != [] && values != [] ==> |fields| == |values|
    ensures OrderedMap.DistinctKeys(data)
    ensures data == [] <==> fields == [] || values == []
    ensures fields != [] && values != [] ==> forall k :: k in OrderedMap.Keys(data) <==> k in fields
    ensures fields != [] && values != [] ==>
      forall i :: 0 <= i < |fields| && OrderedMap.LastOccurrence(fields, i) ==>
        OrderedMap.Get(data, fields[i]) == Some(values[i])
  {
    if fields != [] && values != [] then
      assert fields[0] in OrderedMap.Keys(OrderedMap.Combine(fields, values));
      OrderedMap.CombineAllLastWins(fields, values);
      OrderedMap.Combine(fields, values)
    else []
  }

  /**
   * The `id` test of `create` runs before `$data` is assigned, so it reads
   * null and always picks POST to `/<resource>`. A payload that does carry
   * an id, such as `['id' => '7']`, would have been PUT to `/<resource>/7`
   * had the payload been built first.
   */
  lemma CreateIdBranchUnreachable(host: string, resource: string)
    ensures CreateTarget(host, resource, Null) == (Post, host + "/" + resource)
    ensures var data := Arr(CreateBody(["id"], [Str("7")]));
      CreateTarget(host, resource, data) == (Put, host + "/" + resource + "/7")
  {
    var data := Arr(CreateBody(["id"], [Str("7")]));
    assert data.entries == [("id", Str("7"))] by {
      OrderedMap.CombineDistinct(["id"], [Str("7")]);
    }
    assert Index(data, "id") == Str("7") by {
      OrderedMap.GetEntry(data.entries, 0);
    }
    assert !IsEmpty(Str("7")) && ToStr(Str("7")) == "7";
    assert host + "/" + resource + "/" + "7" == host + "/" + resource + "/7";
  }

  // ---------------------------------------------------------------------------
  // read

  /** `read`'s path: host, resource, then `/action` when action is set, then `/id` when `conditions.id` is not empty. */
  function ReadPath(host: string, resource: string, q: QueryData): string
  {
    var id := Lookup(q.conditions, "id");
    host + [DS] + resource
      + (if q.action != Null then [DS] + ToStr(q.action) else "")
      + (if !IsEmpty(id) then [DS] + ToStr(id) else "")
  }

  /** The conditions once a non-empty `id` has been moved into the path. */
  function WithoutId(conditions: seq<(string, Value)>): seq<(string, Value)>
  {
    if !IsEmpty(Lookup(conditions, "id")) then OrderedMap.Unset(conditions, "id") else conditions
  }

  /** The top-level paging keys `read` moves into the conditions, in the order it does so. */
  function Paging(q: QueryData): seq<(string, Value)>
  {
    [("limit", q.limit), ("offset", q.offset), ("order", q.order), ("page", q.page)]
  }

  /**
   * `if (!empty($v)) { $m[k] = $v; }`: the key gets the value when it is not
   * empty, and every other key keeps its value; existing entries keep their
   * order in front, and the result is empty only if `m` was and nothing was
   * assigned.
   */
  function AssignNonEmpty(m: seq<(string, Value)>, k: string, v: Value): (r: seq<(string, Value)>)
    ensures !IsEmpty(v) ==> OrderedMap.Get(r, k) == Some(v)
    ensures IsEmpty(v) ==> r == m
    ensures forall k' :: k' != k ==> OrderedMap.Get(r, k') == OrderedMap.Get(m, k')
    ensures OrderedMap.Keys(m) <= OrderedMap.Keys(r)
    ensures r == [] <==> m == [] && IsEmpty(v)
    ensures OrderedMap.DistinctKeys(m) ==> OrderedMap.DistinctKeys(r)
  {
    if IsEmpty(v) then m
    else
      var r := OrderedMap.Set(m, k, v);
      assert k in OrderedMap.Keys(r);
      r
  }

  /** Assign each non-empty entry of `ps` into `m`, in order. */
  function CopyNonEmpty(m: seq<(string, Value)>, ps: seq<(string, Value)>): seq<(string, Value)>
    decreases |ps|
  {
    if ps == [] then m
    else CopyNonEmpty(AssignNonEmpty(m, ps[0].0, ps[0].1), ps[1..])
  }

  lemma CopyNonEmptyStep(m: seq<(string, Value)>, ps: seq<(string, Value)>, k: nat)
    requires k < |ps|
    ensures CopyNonEmpty(m, ps[k..])
      == CopyNonEmpty(AssignNonEmpty(m, ps[k].0, ps[k].1), ps[k + 1..])
  {
    assert ps[k..][0] == ps[k] && ps[k..][1..] == ps[k + 1..];
  }

  /** CopyNonEmpty over the four paging keys, written out as `read` does it. */
  lemma PagingSteps(m: seq<(string, Value)>, q: QueryData)
    ensures
      var m1 := AssignNonEmpty(m, "limit", q.limit);
      var m2 := AssignNonEmpty(m1, "offset", q.offset);
      var m3 := AssignNonEmpty(m2, "order", q.order);
      CopyNonEmpty(m, Paging(q)) == AssignNonEmpty(m3, "page", q.page)
  {
    var ps := Paging(q);
    assert ps[0] == ("limit", q.limit) && ps[1] == ("offset", q.offset);
    assert ps[2] == ("order", q.order) && ps[3] == ("page", q.page);
    assert ps[0..] == ps;
    CopyNonEmptyStep(m, ps, 0);
    var m1 := AssignNonEmpty(m, "limit", q.limit);
    CopyNonEmptyStep(m1, ps, 1);
    var m2 := AssignNonEmpty(m1, "offset", q.offset);
    CopyNonEmptyStep(m2, ps, 2);
    var m3 := AssignNonEmpty(m2, "order", q.order);
    CopyNonEmptyStep(m3, ps, 3);
    assert ps[4..] == [];
  }

  /** The conditions `read` serialises into its query string. */
  function ReadConditions(q: QueryData): seq<(string, Value)>
  {
    CopyNonEmpty(WithoutId(q.conditions), Paging(q))
  }

  /** `read`'s URL before the query string: the path, trimmed and suffixed with `.format` when a format is configured. */
  function ReadBase(host: string, format: string, resource: string, q: QueryData): string
  {
    var path := ReadPath(host, resource, q);
    if IsEmpty(Str(format)) then path else PhpStrings.Trim(path, DS) + "." + format
  }

  /** `read`'s URL: the base, then `?` and the query string when conditions remain. */
  function ReadUrl(host: string, format: string, resource: string, q: QueryData): string
  {
    var c := ReadConditions(q);
    if c == [] then ReadBase(host, format, resource, q)
    else ReadBase(host, format, resource, q) + ("?" + QueryString.BuildQuery(c))
  }

  /** The paging keys `read` moves into the conditions. */
  predicate IsPagingKey(k: string)
  {
    k == "limit" || k == "offset" || k == "order" || k == "page"
  }

  /** The last non-empty entry of `ps` for a key decides that key's value. */
  lemma {:induction false} CopyNonEmptyLast(m: seq<(string, Value)>, ps: seq<(string, Value)>, j: nat)
    requires j < |ps| && !IsEmpty(ps[j].1)
    requires forall i :: j < i < |ps| ==> ps[i].0 != ps[j].0
    ensures OrderedMap.Get(CopyNonEmpty(m, ps), ps[j].0) == Some(ps[j].1)
    decreases |ps|
  {
    var m' := AssignNonEmpty(m, ps[0].0, ps[0].1);
    if j == 0 {
      CopyNonEmptyOther(m', ps[1..], ps[0].0);
    } else {
      CopyNonEmptyLast(m', ps[1..], j - 1);
    }
  }

  /** A key that no entry of `ps` names keeps its value. */
  lemma {:induction false} CopyNonEmptyOther(m: seq<(string, Value)>, ps: seq<(string, Value)>, k: string)
    requires forall i :: 0 <= i < |ps| ==> ps[i].0 != k
    ensures OrderedMap.Get(CopyNonEmpty(m, ps), k) == OrderedMap.Get(m, k)
    decreases |ps|
  {
    if ps != [] {
      CopyNonEmptyOther(AssignNonEmpty(m, ps[0].0, ps[0].1), ps[1..], k);
    }
  }

  /**
   * Copying keeps keys distinct and the existing entries in front, and the
   * result is empty exactly when `m` is and every entry of `ps` is empty.
   */
  lemma {:induction false} CopyNonEmptyShape(m: seq<(string, Value)>, ps: seq<(string, Value)>)
    ensures OrderedMap.DistinctKeys(m) ==> OrderedMap.DistinctKeys(CopyNonEmpty(m, ps))
    ensures OrderedMap.Keys(m) <= OrderedMap.Keys(CopyNonEmpty(m, ps))
    ensures CopyNonEmpty(m, ps) == [] <==> m == [] && forall i :: 0 <= i < |ps| ==> IsEmpty(ps[i].1)
    decreases |ps|
  {
    if ps != [] {
      var m' := AssignNonEmpty(m, ps[0].0, ps[0].1);
      CopyNonEmptyShape(m', ps[1..]);
      assert forall i :: 1 <= i < |ps| ==> ps[1..][i - 1] == ps[i];
    }
  }

  /**
   * `read` moves a non-empty `conditions.id` into the path, so it is no
   * longer among the conditions; an empty `id` stays where it was.
   */
  lemma ReadConditionsId(q: QueryData)
    requires OrderedMap.DistinctKeys(q.conditions)
    ensures !IsEmpty(Lookup(q.conditions, "id")) ==> OrderedMap.Get(ReadConditions(q), "id") == None
    ensures IsEmpty(Lookup(q.conditions, "id")) ==>
      OrderedMap.Get(ReadConditions(q), "id") == OrderedMap.Get(q.conditions, "id")
  {
    WithoutIdFacts(q.conditions);
    CopyNonEmptyOther(WithoutId(q.conditions), Paging(q), "id");
  }

  /**
   * The conditions `read` serialises keep their keys distinct and the
   * caller's remaining entries in front, and they are empty exactly when
   * nothing was left after the id and no paging value was copied.
   */
  lemma ReadConditionsShape(q: QueryData)
    requires OrderedMap.DistinctKeys(q.conditions)
    ensures var c := ReadConditions(q);
      && OrderedMap.DistinctKeys(c)
      && OrderedMap.Keys(WithoutId(q.conditions)) <= OrderedMap.Keys(c)
      && (c == [] <==> WithoutId(q.conditions) == [] && IsEmpty(q.limit) && IsEmpty(q.offset)
                       && IsEmpty(q.order) && IsEmpty(q.page))
  {
    var ps := Paging(q);
    WithoutIdFacts(q.conditions);
    CopyNonEmptyShape(WithoutId(q.conditions), ps);
    assert ps[0].1 == q.limit && ps[1].1 == q.offset && ps[2].1 == q.order && ps[3].1 == q.page;
    assert (forall i :: 0 <= i < |ps| ==> IsEmpty(ps[i].1))
      <==> IsEmpty(q.limit) && IsEmpty(q.offset) && IsEmpty(q.order) && IsEmpty(q.page);
  }

  /** Every non-empty top-level paging value is found in the conditions under its own key. */
  lemma ReadConditionsPaging(q: QueryData)
    ensures var c := ReadConditions(q);
      && (!IsEmpty(q.limit) ==> OrderedMap.Get(c, "limit") == Some(q.limit))
      && (!IsEmpty(q.offset) ==> OrderedMap.Get(c, "offset") == Some(q.offset))
      && (!IsEmpty(q.order) ==> OrderedMap.Get(c, "order") == Some(q.order))
      && (!IsEmpty(q.page) ==> OrderedMap.Get(c, "page") == Some(q.page))
  {
    var m := WithoutId(q.conditions);
    var ps := Paging(q);
    if !IsEmpty(q.limit) { CopyNonEmptyLast(m, ps, 0); }
    if !IsEmpty(q.offset) { CopyNonEmptyLast(m, ps, 1); }
    if !IsEmpty(q.order) { CopyNonEmptyLast(m, ps, 2); }
    if !IsEmpty(q.page) { CopyNonEmptyLast(m, ps, 3); }
  }

  /** Any key other than `id` and the paging keys keeps the value the caller gave it. */
  lemma ReadConditionsOthers(q: QueryData, k: string)
    requires OrderedMap.DistinctKeys(q.conditions)
    requires k != "id" && !IsPagingKey(k)
    ensures OrderedMap.Get(ReadConditions(q), k) == OrderedMap.Get(q.conditions, k)
  {
    WithoutIdFacts(q.conditions);
    CopyNonEmptyOther(WithoutId(q.conditions), Paging(q), k);
  }

  /** Moving a non-empty `id` into the path removes that key and nothing else. */
  lemma WithoutIdFacts(conditions: seq<(string, Value)>)
    requires OrderedMap.DistinctKeys(conditions)
    ensures var m := WithoutId(conditions);
      && OrderedMap.DistinctKeys(m)
      && (!IsEmpty(Lookup(conditions, "id")) ==> OrderedMap.Get(m, "id") == None)
      && (IsEmpty(Lookup(conditions, "id")) ==> m == conditions)
      && forall k :: k != "id" ==> OrderedMap.Get(m, k) == OrderedMap.Get(conditions, k)
  {
  }

  /**
   * The URL of `read` splits at its first `?`: what comes before is the
   * path (with its format suffix), and a `?` followed by the query string
   * is there exactly when conditions remain. This holds whenever the path
   * itself has no `?`; the query string never has one.
   */
  lemma ReadUrlSplit(host: string, format: string, resource: string, q: QueryData)
    requires '?' !in ReadBase(host, format, resource, q)
    ensures var url := ReadUrl(host, format, resource, q);
      var base := ReadBase(host, format, resource, q);
      var c := ReadConditions(q);
      && PhpStrings.BeforeFirst(url, '?') == base
      && ('?' in url <==> c != [])
      && (c != [] ==> url[|base| + 1..] == QueryString.BuildQuery(c))
  {
    var url := ReadUrl(host, format, resource, q);
    var base := ReadBase(host, format, resource, q);
    var c := ReadConditions(q);
    BeforeFirstPrefix(base, url);
    if c != [] {
      QueryString.QueryStringChars(c);
      assert url == base + "?" + QueryString.BuildQuery(c);
      assert url[|base|] == '?';
      assert url[|base| + 1..] == QueryString.BuildQuery(c);
    } else {
      assert url == base;
    }
  }

  /** A prefix without `c` followed by `c` (or by nothing) is what BeforeFirst cuts off. */
  lemma {:induction false} BeforeFirstPrefix(p: string, s: string)
    requires p <= s && '?' !in p
    requires |s| == |p| || s[|p|] == '?'
    ensures PhpStrings.BeforeFirst(s, '?') == p
  {
    if p != [] {
      BeforeFirstPrefix(p[1..], s[1..]);
    }
  }

  /**
   * The path of `read`: host, `/resource`, then `/action` when an action is
   * set, and, when `conditions.id` is not empty, `/<id>` as the last
   * segment.
   */
  lemma ReadIdLastSegment(host: string, resource: string, q: QueryData)
    ensures var p := ReadPath(host, resource, q);
      var id := Lookup(q.conditions, "id");
      var prefix := host + [DS] + resource + (if q.action == Null then "" else [DS] + ToStr(q.action));
      && prefix <= p
      && (IsEmpty(id) ==> p == prefix)
      && (!IsEmpty(id) ==> p[|prefix|..] == [DS] + ToStr(id))
  {
    var p := ReadPath(host, resource, q);
    var id := Lookup(q.conditions, "id");
    var prefix := host + [DS] + resource + (if q.action == Null then "" else [DS] + ToStr(q.action));
    var idSeg := if IsEmpty(id) then "" else [DS] + ToStr(id);
    assert p == prefix + idSeg;
    assert p[..|prefix|] == prefix && p[|prefix|..] == idSeg;
  }

  /**
   * With a format configured, the path (already carrying the id segment)
   * loses its leading and trailing runs of separators and `.<format>`
   * follows it; without one the path is left as it is.
   */
  lemma ReadFormatSuffix(host: string, format: string, resource: string, q: QueryData)
    ensures var b := ReadBase(host, format, resource, q);
      var p := ReadPath(host, resource, q);
      if IsEmpty(Str(format)) then b == p
      else
        var t := b[..|b| - |format| - 1];
        b == t + "." + format && PhpStrings.Trimmed(p, DS, t)
  {
    if !IsEmpty(Str(format)) {
      FormatAfterTrim(ReadPath(host, resource, q), format, ReadBase(host, format, resource, q));
    }
  }

  /** A trimmed path followed by `.<format>`: cutting the suffix off gives the trimmed path back. */
  lemma FormatAfterTrim(p: string, format: string, b: string)
    requires b == PhpStrings.Trim(p, DS) + "." + format
    ensures var t := b[..|b| - |format| - 1];
      b == t + "." + format && PhpStrings.Trimmed(p, DS, t)
  {
    assert b[..|b| - |format| - 1] == PhpStrings.Trim(p, DS);
  }

  /** The keys of the non-empty entries of `ps`, in order. */
  function CopiedKeys(ps: seq<(string, Value)>): seq<string>
  {
    if ps == [] then [] else (if IsEmpty(ps[0].1) then [] else [ps[0].0]) + CopiedKeys(ps[1..])
  }

  /** Copying entries under fresh, distinct keys appends those keys after the existing ones, in order. */
  lemma {:induction false} CopyNonEmptyKeys(m: seq<(string, Value)>, ps: seq<(string, Value)>)
    requires forall i :: 0 <= i < |ps| ==> ps[i].0 !in OrderedMap.Keys(m)
    requires forall i, j :: 0 <= i < j < |ps| ==> ps[i].0 != ps[j].0
    ensures OrderedMap.Keys(CopyNonEmpty(m, ps)) == OrderedMap.Keys(m) + CopiedKeys(ps)
    decreases |ps|
  {
    if ps != [] {
      var m' := AssignNonEmpty(m, ps[0].0, ps[0].1);
      assert OrderedMap.Keys(m') == OrderedMap.Keys(m) + (if IsEmpty(ps[0].1) then [] else [ps[0].0]);
      forall i | 0 <= i < |ps[1..]| ensures ps[1..][i].0 !in OrderedMap.Keys(m') {
        assert ps[1..][i] == ps[i + 1];
      }
      CopyNonEmptyKeys(m', ps[1..]);
      var x := if IsEmpty(ps[0].1) then [] else [ps[0].0];
      assert CopyNonEmpty(m, ps) == CopyNonEmpty(m', ps[1..]);
      assert CopiedKeys(ps) == x + CopiedKeys(ps[1..]);
      SeqFacts.AppendAssoc(OrderedMap.Keys(m), x, CopiedKeys(ps[1..]));
    }
  }

  /**
   * When the caller's conditions hold none of the paging keys, `read`
   * serialises the remaining conditions first, in their order, then the
   * non-empty paging values in the order limit, offset, order, page. The
   * keys are not sorted.
   */
  lemma ReadConditionsOrder(q: QueryData)
    requires OrderedMap.DistinctKeys(q.conditions)
    requires forall k :: IsPagingKey(k) ==> k !in OrderedMap.Keys(q.conditions)
    ensures OrderedMap.Keys(ReadConditions(q)) ==
      OrderedMap.Keys(WithoutId(q.conditions))
        + (if IsEmpty(q.limit) then [] else ["limit"])
        + (if IsEmpty(q.offset) then [] else ["offset"])
        + (if IsEmpty(q.order) then [] else ["order"])
        + (if IsEmpty(q.page) then [] else ["page"])
  {
    var m := WithoutId(q.conditions);
    var ps := Paging(q);
    WithoutIdFacts(q.conditions);
    forall i | 0 <= i < |ps| ensures ps[i].0 !in OrderedMap.Keys(m) {
      assert IsPagingKey(ps[i].0);
      assert OrderedMap.Get(m, ps[i].0) == OrderedMap.Get(q.conditions, ps[i].0);
    }
    CopyNonEmptyKeys(m, ps);
    var l := if IsEmpty(q.limit) then [] else ["limit"];
    var o := if IsEmpty(q.offset) then [] else ["offset"];
    var r := if IsEmpty(q.order) then [] else ["order"];
    var g := if IsEmpty(q.page) then [] else ["page"];
    assert ps[3..][1..] == [];
    assert CopiedKeys(ps[3..]) == g;
    assert ps[2..][1..] == ps[3..];
    assert CopiedKeys(ps[2..]) == r + g;
    assert ps[1..][1..] == ps[2..];
    assert CopiedKeys(ps[1..]) == o + (r + g);
    assert CopiedKeys(ps) == l + (o + (r + g));
    assert ReadConditions(q) == CopyNonEmpty(m, ps);
    var km := OrderedMap.Keys(m);
    SeqFacts.AppendAssoc(km, l, o + (r + g));
    SeqFacts.AppendAssoc(km + l, o, r + g);
    SeqFacts.AppendAssoc(km + l + o, r, g);
  }

  // ---------------------------------------------------------------------------

  class RestSource {
    /** `config['host']`, the base URL. */
    const host: string
    /** `config['format']`, the optional response-format suffix. */
    const format: string
    /** The raw header lines sent with every request; callers set them. */
    var headers: seq<string>

    constructor (host: string, format: string)
      ensures this.host == host && this.format == format && headers == []
    {
      this.host := host;
      this.format := format;
      headers := [];
    }

    /**
     * A custom query: `$verb` on `/<resource>/<action>`. Throws when `pass`
     * is empty or the action is empty, then when the header guard fails;
     * the client gets `pass[1]` as body for put and post when it is set, and
     * null otherwise.
     */
    method Query(verb: Verb, pass: seq<Value>, resource: string, send: Request -> Outcome)
      returns (r: Result<Reply, Error>, sent: Option<Request>)
      ensures pass == [] ==> r == Failure(MissingRequestInformation) && sent == None
      ensures pass != [] && IsEmpty(QueryAction(pass[0])) ==> r == Failure(MissingActionKey) && sent == None
      ensures pass != [] && !IsEmpty(QueryAction(pass[0])) && !Headers.HasApiToken(headers) ==>
        r == Failure(NoApiToken) && sent == None
      ensures pass != [] && !IsEmpty(QueryAction(pass[0])) && Headers.HasApiToken(headers) ==>
        && sent.Some?
        && sent.value.verb == verb
        && sent.value.url == host + ("/" + resource + "/" + ToStr(QueryAction(pass[0])))
        && sent.value.body == (if (verb == Put || verb == Post) && |pass| > 1 then pass[1] else Null)
        && sent.value.headers == headers
        && r == Success(Caught(send(sent.value)))
    {
      if pass == [] {
        return Failure(MissingRequestInformation), None;
      }
      var config := pass[0];
      if !config.Arr? {
        config := Arr([("action", config)]);
      }
      var action := Index(config, "action");
      if IsEmpty(action) {
        return Failure(MissingActionKey), None;
      }
      var url := "/" + resource + "/" + ToStr(action);
      var applied := ApplyConfiguration(headers);
      if applied.Failure? {
        return Failure(applied.error), None;
      }
      var data := Null;
      if (verb == Put || verb == Post) && |pass| > 1 && pass[1] != Null {
        data := pass[1];
      }
      var request := Request(verb, host + url, data, applied.value);
      sent := Some(request);
      r := Success(Caught(send(request)));
    }

    /**
     * `create` as written: the id test reads `$data` before it is assigned,
     * so it always sees null and the request is always a POST to
     * `/<resource>`, whatever the payload holds.
     */
    method Create(resource: string, fields: seq<string>, values: seq<Value>, send: Request -> Outcome)
      returns (r: Result<Reply, Error>, sent: Option<Request>)
      requires fields != [] && values != [] ==> |fields| == |values|
      ensures !Headers.HasApiToken(headers) ==> r == Failure(NoApiToken) && sent == None
      ensures Headers.HasApiToken(headers) ==>
        && sent == Some(Request(Post, host + "/" + resource, Arr(CreateBody(fields, values)), headers))
        && r == Success(Caught(send(sent.value)))
    {
      var unassigned := Null;
      var (verb, url) := CreateTarget(host, resource, unassigned);
      var data := [];
      if fields != [] && values != [] {
        data := OrderedMap.Combine(fields, values);
      }
      var applied := ApplyConfiguration(headers);
      if applied.Failure? {
        return Failure(applied.error), None;
      }
      var request := Request(verb, url, Arr(data), applied.value);
      sent := Some(request);
      r := Success(Caught(send(request)));
    }

    /**
     * `create` with its statements in the intended order: the payload is
     * built first, and a payload with a non-empty `id` is PUT to
     * `/<resource>/<id>`.
     */
    method CreateCorrected(resource: string, fields: seq<string>, values: seq<Value>, send: Request -> Outcome)
      returns (r: Result<Reply, Error>, sent: Option<Request>)
      requires fields != [] && values != [] ==> |fields| == |values|
      ensures !Headers.HasApiToken(headers) ==> r == Failure(NoApiToken) && sent == None
      ensures Headers.HasApiToken(headers) ==>
        var data := Arr(CreateBody(fields, values));
        && sent.Some?
        && (sent.value.verb, sent.value.url) == CreateTarget(host, resource, data)
        && sent.value.body == data
        && sent.value.headers == headers
        && r == Success(Caught(send(sent.value)))
    {
      var data := [];
      if fields != [] && values != [] {
        data := OrderedMap.Combine(fields, values);
      }
      var (verb, url) := CreateTarget(host, resource, Arr(data));
      var applied := ApplyConfiguration(headers);
      if applied.Failure? {
        return Failure(applied.error), None;
      }
      var request := Request(verb, url, Arr(data), applied.value);
      sent := Some(request);
      r := Success(Caught(send(request)));
    }

    /**
     * `read` as far as the URL: `.=` appends of the path segments, the id
     * moved out of the conditions, the format suffix, the paging keys copied
     * into the conditions, and the query string when conditions remain.
     */
    method ReadTarget(resource: string, q: QueryData) returns (url: string)
      ensures url == ReadUrl(host, format, resource, q)
    {
      url := host + [DS] + resource;
      if q.action != Null {
        url := url + ([DS] + ToStr(q.action));
      }
      var conditions := q.conditions;
      var id := Lookup(conditions, "id");
      if !IsEmpty(id) {
        url := url + ([DS] + ToStr(id));
        conditions := OrderedMap.Unset(conditions, "id");
      }
      assert url == ReadPath(host, resource, q);
      assert conditions == WithoutId(q.conditions);
      if !IsEmpty(Str(format)) {
        url := PhpStrings.Trim(url, DS) + "." + format;
      }
      assert url == ReadBase(host, format, resource, q);
      ghost var base := url;
      ghost var withoutId := conditions;
      if !IsEmpty(q.limit) {
        conditions := OrderedMap.Set(conditions, "limit", q.limit);
      }
      if !IsEmpty(q.offset) {
        conditions := OrderedMap.Set(conditions, "offset", q.offset);
      }
      if !IsEmpty(q.order) {
        conditions := OrderedMap.Set(conditions, "order", q.order);
      }
      if !IsEmpty(q.page) {
        conditions := OrderedMap.Set(conditions, "page", q.page);
      }
      PagingSteps(withoutId, q);
      assert conditions == ReadConditions(q);
      if conditions != [] {
        url := url + ("?" + QueryString.BuildQuery(conditions));
      }
    }

    /**
     * `read`: a GET of ReadUrl, answered with the envelope's data. The header
     * guard runs inside the `try`, so a missing `X-Authorization` header gives
     * `array()` without calling the client rather than an exception.
     */
    method Read(resource: string, q: QueryData, send: Request -> Outcome)
      returns (r: Value, sent: Option<Request>)
      ensures !Headers.HasApiToken(headers) ==> r == EmptyArray && sent == None
      ensures Headers.HasApiToken(headers) ==>
        && sent == Some(Request(Get, ReadUrl(host, format, resource, q), Null, headers))
        && r == ReadReply(send(sent.value))
    {
      var url := ReadTarget(resource, q);
      var applied := ApplyConfiguration(headers);
      if applied.Failure? {
        return EmptyArray, None;
      }
      var request := Request(Get, url, Null, applied.value);
      sent := Some(request);
      r := ReadReply(send(request));
    }

    /** `update`: always a PUT of the fields paired with the values to `/<resource>`; the conditions are not used. */
    method Update(resource: string, fields: seq<string>, values: seq<Value>, conditions: Value, send: Request -> Outcome)
      returns (r: Result<Reply, Error>, sent: Option<Request>)
      requires |fields| == |values|
      ensures !Headers.HasApiToken(headers) ==> r == Failure(NoApiToken) && sent == None
      ensures Headers.HasApiToken(headers) ==>
        && sent == Some(Request(Put, host + ("/" + resource), Arr(OrderedMap.Combine(fields, values)), headers))
        && r == Success(Caught(send(sent.value)))
    {
      var data := OrderedMap.Combine(fields, values);
      var url := "/" + resource;
      var applied := ApplyConfiguration(headers);
      if applied.Failure? {
        return Failure(applied.error), None;
      }
      var request := Request(Put, host + url, Arr(data), applied.value);
      sent := Some(request);
      r := Success(Caught(send(request)));
    }

    /** `delete`: always a DELETE of `/<resource>/<id>`, so a null id gives `/<resource>/`. */
    method Delete(resource: string, id: Value, send: Request -> Outcome)
      returns (r: Result<Reply, Error>, sent: Option<Request>)
      ensures !Headers.HasApiToken(headers) ==> r == Failure(NoApiToken) && sent == None
      ensures Headers.HasApiToken(headers) ==>
        && sent == Some(Request(Verb.Delete, host + ("/" + resource + "/" + ToStr(id)), Null, headers))
        && r == Success(Caught(send(sent.value)))
      ensures Headers.HasApiToken(headers) && id == Null ==> sent.value.url == host + "/" + resource + "/"
    {
      var url := "/" + resource + "/" + ToStr(id);
      assert id == Null ==> host + url == host + "/" + resource + "/";
      var applied := ApplyConfiguration(headers);
      if applied.Failure? {
        return Failure(applied.error), None;
      }
      var request := Request(Verb.Delete, host + url, Null, applied.value);
      sent := Some(request);
      r := Success(Caught(send(request)));
    }
  }
}
