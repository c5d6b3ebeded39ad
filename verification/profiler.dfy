/**
 * The Debugbar profiler for Guzzle: turns one request/response exchange into
 * a single timeline measure whose parameters are a configurable selection of
 * descriptive fields.
 */
module Profiler {
  import opened Wrappers
  import Php
  import Decimal

  /** Every field name the profiler knows how to fill in, in declaration order. */
  const AvailableParameters: seq<string> :=
    ["method", "url", "resource", "request_version", "response_version", "host", "hostname", "status_code", "phrase"]

  /** The field names a profiler selects unless it is configured otherwise. */
  const DefaultContext: seq<string> := ["host", "method", "url", "status_code", "phrase"]

  /** The category tag of every measure the profiler emits. */
  const Category: string := "guzzle"

  /** The parts of a PSR-7 request the profiler reads. */
  datatype Request = Request(httpMethod: string, uri: string, protocolVersion: string, host: string)

  /** The parts of a PSR-7 response the profiler reads. */
  datatype Response = Response(statusCode: int, reasonPhrase: string, protocolVersion: string)

  /**
   * Everything a parameter may be computed from: the request, the response if
   * there is one, and what `gethostname()` returned (`None` for its `false`).
   */
  datatype Exchange = Exchange(request: Request, response: Option<Response>, hostname: Option<string>)

  /**
   * A profiler is its field selection and its vocabulary; both are instance
   * properties that a subclass may override.
   */
  datatype Profiler = Profiler(context: seq<string>, availableParameters: seq<string>)

  /** A profiler as constructed, with the default selection and vocabulary. */
  const Default: Profiler := Profiler(DefaultContext, AvailableParameters)

  /** One entry handed to the timeline collector's `addMeasure`. */
  datatype Measure = Measure(description: string, start: real, end: real, params: Php.Array, category: string)

  /** The state carried across iterations: the parameters so far and the last `$result`. */
  datatype LoopState = LoopState(params: Php.Array, result: Php.Value)

  /**
   * The value the `switch` assigns for `key`, or `None` when no `case`
   * matches and `$result` keeps the value of the previous iteration.
   */
  function CaseValue(key: string, x: Exchange): (r: Option<Php.Value>)
    ensures key == "method" ==> r == Some(Php.Str(x.request.httpMethod))
    ensures key == "url" ==> r == Some(Php.Str(x.request.uri))
    ensures key == "request_version" ==> r == Some(Php.Str(x.request.protocolVersion))
    ensures key == "host" ==> r == Some(Php.Str(x.request.host))
    ensures key == "hostname" ==> r.Some? && (r.value.False? <==> x.hostname.None?)
    ensures key == "hostname" && x.hostname.Some? ==> r == Some(Php.Str(x.hostname.value))
    ensures x.response.None? && (key == "response_version" || key == "status_code" || key == "phrase") ==>
      r == Some(Php.Str("NULL"))
    ensures x.response.Some? && key == "response_version" ==> r == Some(Php.Str(x.response.value.protocolVersion))
    ensures x.response.Some? && key == "status_code" ==> r == Some(Php.Int(x.response.value.statusCode))
    ensures x.response.Some? && key == "phrase" ==> r == Some(Php.Str(x.response.value.reasonPhrase))
  {
    if key == "method" then Some(Php.Str(x.request.httpMethod))
    else if key == "url" then Some(Php.Str(x.request.uri))
    else if key == "request_version" then Some(Php.Str(x.request.protocolVersion))
    else if key == "response_version" then
      Some(if x.response.Some? then Php.Str(x.response.value.protocolVersion) else Php.Str("NULL"))
    else if key == "host" then Some(Php.Str(x.request.host))
    else if key == "hostname" then
      Some(if x.hostname.Some? then Php.Str(x.hostname.value) else Php.False)
    else if key == "status_code" then
      Some(if x.response.Some? then Php.Int(x.response.value.statusCode) else Php.Str("NULL"))
    else if key == "phrase" then
      Some(if x.response.Some? then Php.Str(x.response.value.reasonPhrase) else Php.Str("NULL"))
    else None
  }

  /** Every entry of `vocabulary` other than 'resource' has a `case`. */
  predicate CasesCover(vocabulary: seq<string>, x: Exchange) {
    forall k :: k in vocabulary && k != "resource" ==> CaseValue(k, x).Some?
  }

  /**
   * Exactly the known fields other than 'resource' have a `case`: the
   * vocabulary is covered, 'resource' falls through, and so does every name
   * outside the vocabulary.
   */
  lemma CasesExactlyVocabulary(x: Exchange, key: string)
    ensures CasesCover(AvailableParameters, x)
    ensures CaseValue("resource", x).None?
    ensures key !in AvailableParameters ==> CaseValue(key, x).None?
  {
  }

  /** Every stored parameter value is either "" or a truthy string. */
  predicate NormalisedValues(a: Php.Array) {
    forall k :: k in a.entries ==> a.entries[k] == "" || !Php.Falsy(a.entries[k])
  }

  /**
   * The body of the loop's `switch`: the value assigned to `$result` for a
   * key, or `None` when no `case` matches.
   */
  type Switch = string -> Option<Php.Value>

  /** The profiler's own `switch` for one exchange. */
  function Cases(x: Exchange): Switch {
    key => CaseValue(key, x)
  }

  /**
   * The `foreach` loop of `getParameters` as a left fold over `keys`, starting
   * from no parameters and `$result = ''`; a key whose `case` is missing
   * stores the `$result` left by the previous iteration.
   */
  function Fold(keys: seq<string>, cases: Switch): (r: LoopState)
    ensures |keys| == 0 ==> r.params == Php.Empty && r.result == Php.Str("")
    ensures |r.params.order| <= |keys|
    decreases |keys|
  {
    if |keys| == 0 then LoopState(Php.Empty, Php.Str(""))
    else
      var prev := Fold(keys[..|keys| - 1], cases);
      var key := keys[|keys| - 1];
      var result := cases(key).GetOr(prev.result);
      LoopState(Php.Put(prev.params, key, Php.CastOrEmpty(result)), result)
  }

  /** The keys the loop visits: the configured context filtered by the vocabulary. */
  function SelectedKeys(p: Profiler): seq<string> {
    Php.ArrayIntersect(p.context, p.availableParameters)
  }

  /** The profiler reports field `k`: it is configured and in the vocabulary. */
  predicate Selects(p: Profiler, k: string) {
    k in p.context && k in p.availableParameters
  }

  // ---------------------------------------------------------------------------
  // An index-based description of the loop: `Carried` follows the loop's
  // recursion, and `CarriedNearest` and `CarriedNone` characterise it by
  // position.

  /**
   * The `$result` in force after the iterations over `prefix`: the value of
   * the nearest key that has a `case`, or '' when there is none.
   */
  function Carried(prefix: seq<string>, cases: Switch): Php.Value
    decreases |prefix|
  {
    if |prefix| == 0 then Php.Str("")
    else
      match cases(prefix[|prefix| - 1])
      case Some(v) => v
      case None => Carried(prefix[..|prefix| - 1], cases)
  }

  /** The raw `$result` of the iteration at index `i`. */
  function ResultAt(keys: seq<string>, i: nat, cases: Switch): Php.Value
    requires i < |keys|
  {
    cases(keys[i]).GetOr(Carried(keys[..i], cases))
  }

  /** `Carried` is the value of the last key in `prefix` that has a `case`. */
  lemma {:induction false} CarriedNearest(prefix: seq<string>, cases: Switch, j: nat)
    requires j < |prefix| && cases(prefix[j]).Some?
    requires forall l :: j < l < |prefix| ==> cases(prefix[l]).None?
    ensures Carried(prefix, cases) == cases(prefix[j]).value
    decreases |prefix|
  {
    var n := |prefix| - 1;
    if j < n {
      var q := prefix[..n];
      assert forall l :: j <= l < |q| ==> q[l] == prefix[l];
      CarriedNearest(q, cases, j);
    }
  }

  /** `Carried` is '' when no key in `prefix` has a `case`. */
  lemma {:induction false} CarriedNone(prefix: seq<string>, cases: Switch)
    requires forall l :: 0 <= l < |prefix| ==> cases(prefix[l]).None?
    ensures Carried(prefix, cases) == Php.Str("")
    decreases |prefix|
  {
    if |prefix| > 0 {
      var q := prefix[..|prefix| - 1];
      assert forall l :: 0 <= l < |q| ==> q[l] == prefix[l];
      CarriedNone(q, cases);
    }
  }

  /** `i` is the last position at which `keys[i]` occurs. */
  predicate IsLastOccurrence(keys: seq<string>, i: nat)
    requires i < |keys|
  {
    forall j :: i < j < |keys| ==> keys[j] != keys[i]
  }

  /** The last position of `k` in `s`. */
  function LastIndexOf(s: seq<string>, k: string): (i: nat)
    requires k in s
    ensures i < |s| && s[i] == k
    ensures IsLastOccurrence(s, i)
    decreases |s|
  {
    if s[|s| - 1] == k then |s| - 1
    else
      assert k in s[..|s| - 1] by {
        var j :| 0 <= j < |s| && s[j] == k;
        assert s[..|s| - 1][j] == k;
      }
      LastIndexOf(s[..|s| - 1], k)
  }

  /** The loop builds a well-formed array. */
  lemma {:induction false} FoldValid(keys: seq<string>, cases: Switch)
    ensures Php.Valid(Fold(keys, cases).params)
    decreases |keys|
  {
    if |keys| > 0 {
      var prev := Fold(keys[..|keys| - 1], cases);
      FoldValid(keys[..|keys| - 1], cases);
      Php.PutValid(prev.params, keys[|keys| - 1], Php.CastOrEmpty(cases(keys[|keys| - 1]).GetOr(prev.result)));
    }
  }

  /** Every value the loop stores is "" or a truthy string. */
  lemma {:induction false} FoldNormalised(keys: seq<string>, cases: Switch)
    ensures NormalisedValues(Fold(keys, cases).params)
    decreases |keys|
  {
    if |keys| > 0 {
      var prev := Fold(keys[..|keys| - 1], cases);
      FoldNormalised(keys[..|keys| - 1], cases);
      var r := Fold(keys, cases).params;
      forall k | k in r.entries ensures r.entries[k] == "" || !Php.Falsy(r.entries[k]) {
        assert Php.Get(r, k) == Some(r.entries[k]);
        if k != keys[|keys| - 1] {
          assert Php.Get(prev.params, k) == Some(r.entries[k]);
        }
      }
    }
  }

  /**
   * A key without a `case` repeats the `$result` of the key before it, or
   * stores the initial '' when it comes first.
   */
  lemma CarryRule(keys: seq<string>, cases: Switch, i: nat)
    requires i < |keys| && cases(keys[i]).None?
    ensures i == 0 ==> ResultAt(keys, i, cases) == Php.Str("")
    ensures i > 0 ==> ResultAt(keys, i, cases) == ResultAt(keys, i - 1, cases)
  {
    if i > 0 {
      assert keys[..i][i - 1] == keys[i - 1];
      assert keys[..i][..i - 1] == keys[..i - 1];
    }
  }

  /**
   * In a list without repetitions, a key without a `case` stores what the
   * key before it stored, or "" when it comes first.
   */
  lemma CaselessKeyRepeats(keys: seq<string>, cases: Switch, i: nat)
    requires Php.Distinct(keys)
    requires i < |keys| && cases(keys[i]).None?
    ensures i == 0 ==> Php.Get(Fold(keys, cases).params, keys[i]) == Some("")
    ensures i > 0 ==> Php.Get(Fold(keys, cases).params, keys[i]) == Php.Get(Fold(keys, cases).params, keys[i - 1])
  {
    FoldValueAt(keys, cases, i);
    if i > 0 {
      FoldValueAt(keys, cases, i - 1);
    }
    CarryRule(keys, cases, i);
  }

  /** The parameter keys come out in order of first occurrence. */
  lemma {:induction false} FoldOrder(keys: seq<string>, cases: Switch)
    ensures Fold(keys, cases).params.order == Php.Dedup(keys)
    decreases |keys|
  {
    if |keys| > 0 {
      FoldOrder(keys[..|keys| - 1], cases);
    }
  }

  /** The `$result` carried out of the loop is the one `Carried` predicts. */
  lemma {:induction false} FoldCarried(keys: seq<string>, cases: Switch)
    ensures Fold(keys, cases).result == Carried(keys, cases)
    decreases |keys|
  {
    if |keys| > 0 {
      FoldCarried(keys[..|keys| - 1], cases);
    }
  }

  /**
   * The `$result` carried out of the loop is the value of the last visited key
   * that has a `case`, or the initial '' when no visited key has one.
   */
  lemma FoldResult(keys: seq<string>, cases: Switch)
    ensures (forall l :: 0 <= l < |keys| ==> cases(keys[l]).None?) ==> Fold(keys, cases).result == Php.Str("")
    ensures forall j ::
              0 <= j < |keys| && cases(keys[j]).Some? && (forall l :: j < l < |keys| ==> cases(keys[l]).None?)
              ==> Fold(keys, cases).result == cases(keys[j]).value
  {
    FoldCarried(keys, cases);
    if forall l :: 0 <= l < |keys| ==> cases(keys[l]).None? {
      CarriedNone(keys, cases);
    }
    forall j | 0 <= j < |keys| && cases(keys[j]).Some? && (forall l :: j < l < |keys| ==> cases(keys[l]).None?) {
      CarriedNearest(keys, cases, j);
    }
  }

  /**
   * The `$result` the loop leaves behind is the initial '' or the value some
   * visited key's `case` assigned.
   */
  lemma {:induction false} FoldResultOrigin(keys: seq<string>, cases: Switch)
    ensures var v := Fold(keys, cases).result;
      v == Php.Str("") || exists i :: 0 <= i < |keys| && cases(keys[i]) == Some(v)
    decreases |keys|
  {
    if |keys| > 0 {
      var n := |keys| - 1;
      var v := Fold(keys[..n], cases).result;
      assert Fold(keys, cases).result == cases(keys[n]).GetOr(v);
      if cases(keys[n]).Some? {
        assert cases(keys[n]) == Some(Fold(keys, cases).result);
      } else if v != Php.Str("") {
        FoldResultOrigin(keys[..n], cases);
        var i :| 0 <= i < n && cases(keys[..n][i]) == Some(v);
        assert keys[..n][i] == keys[i];
        assert cases(keys[i]) == Some(Fold(keys, cases).result);
      }
    }
  }

  /** The last iteration stores the cast of its own `$result`. */
  lemma FoldLast(keys: seq<string>, cases: Switch)
    requires |keys| > 0
    ensures Php.Get(Fold(keys, cases).params, keys[|keys| - 1])
         == Some(Php.CastOrEmpty(ResultAt(keys, |keys| - 1, cases)))
  {
    var n := |keys| - 1;
    FoldCarried(keys[..n], cases);
  }

  /** The last iteration leaves every other key as it was. */
  lemma FoldFrame(keys: seq<string>, cases: Switch, k: string)
    requires |keys| > 0 && k != keys[|keys| - 1]
    ensures Php.Get(Fold(keys, cases).params, k) == Php.Get(Fold(keys[..|keys| - 1], cases).params, k)
  {
  }

  /**
   * The fold agrees with the index-based description: the key at position `i`,
   * if it does not occur again later, holds the cast of the `$result` computed
   * at position `i`.
   */
  lemma FoldValueAt(keys: seq<string>, cases: Switch, i: nat)
    requires i < |keys| && IsLastOccurrence(keys, i)
    ensures Php.Get(Fold(keys, cases).params, keys[i]) == Some(Php.CastOrEmpty(ResultAt(keys, i, cases)))
  {
    FoldValueFrom(keys, cases, i, |keys|);
    assert keys[..|keys|] == keys;
  }

  /**
   * The induction behind `FoldValueAt`: once the loop has passed position `i`,
   * the key there keeps the cast of the `$result` computed at `i` for as long
   * as it does not come up again.
   */
  lemma {:induction false} FoldValueFrom(keys: seq<string>, cases: Switch, i: nat, m: nat)
    requires i < m <= |keys|
    requires forall j :: i < j < m ==> keys[j] != keys[i]
    ensures Php.Get(Fold(keys[..m], cases).params, keys[i]) == Some(Php.CastOrEmpty(ResultAt(keys, i, cases)))
    decreases m
  {
    if m == i + 1 {
      FoldValueStored(keys, cases, i);
    } else {
      FoldValueFrom(keys, cases, i, m - 1);
      FoldValueKept(keys, cases, i, m);
    }
  }

  /** The iteration at `i` stores the cast of its own `$result`. */
  lemma FoldValueStored(keys: seq<string>, cases: Switch, i: nat)
    requires i < |keys|
    ensures Php.Get(Fold(keys[..i + 1], cases).params, keys[i]) == Some(Php.CastOrEmpty(ResultAt(keys, i, cases)))
  {
    var pre := keys[..i + 1];
    assert pre[..i] == keys[..i] && pre[i] == keys[i];
    FoldCarried(keys[..i], cases);
  }

  /** An iteration for another key keeps the value stored under `keys[i]`. */
  lemma FoldValueKept(keys: seq<string>, cases: Switch, i: nat, m: nat)
    requires i < m - 1 && m <= |keys| && keys[m - 1] != keys[i]
    ensures Php.Get(Fold(keys[..m], cases).params, keys[i]) == Php.Get(Fold(keys[..m - 1], cases).params, keys[i])
  {
    var pre := keys[..m];
    assert pre[..m - 1] == keys[..m - 1] && pre[m - 1] == keys[m - 1];
    FoldFrame(pre, cases, keys[i]);
  }

  /** A configuration without repetitions selects keys without repetitions. */
  lemma DistinctSelection(p: Profiler)
    ensures Php.Distinct(p.context) ==> Php.Dedup(SelectedKeys(p)) == SelectedKeys(p)
  {
    if Php.Distinct(p.context) {
      Php.ArrayIntersectDistinct(p.context, p.availableParameters);
      Php.DedupDistinct(SelectedKeys(p));
    }
  }

  /**
   * `getParameters`: the parameters for one exchange. Exactly the configured
   * fields the profiler knows appear, in the order they are configured, and no
   * value is a falsy string other than "".
   */
  function GetParameters(p: Profiler, x: Exchange): (r: Php.Array)
    ensures forall k :: k in r.order <==> k in p.context && k in p.availableParameters
    ensures forall i, j :: 0 <= i < j < |r.order| ==>
      Php.FirstIndex(p.context, r.order[i]) < Php.FirstIndex(p.context, r.order[j])
    ensures r.order == Php.Dedup(SelectedKeys(p))
    ensures Php.Distinct(p.context) ==> r.order == SelectedKeys(p)
    ensures NormalisedValues(r)
    ensures Php.Valid(r)
  {
    var keys := SelectedKeys(p);
    FoldValid(keys, Cases(x));
    FoldOrder(keys, Cases(x));
    FoldNormalised(keys, Cases(x));
    DistinctSelection(p);
    SelectionOrder(p);
    Fold(keys, Cases(x)).params
  }

  /**
   * The selected fields, each once, follow the order in which the context
   * first names them.
   */
  lemma SelectionOrder(p: Profiler)
    ensures forall i, j :: 0 <= i < j < |Php.Dedup(SelectedKeys(p))| ==>
      var d := Php.Dedup(SelectedKeys(p));
      d[i] in p.context && d[j] in p.context &&
      Php.FirstIndex(p.context, d[i]) < Php.FirstIndex(p.context, d[j])
  {
    var keys := SelectedKeys(p);
    var d := Php.Dedup(keys);
    forall i, j | 0 <= i < j < |d|
      ensures d[i] in p.context && d[j] in p.context
      ensures Php.FirstIndex(p.context, d[i]) < Php.FirstIndex(p.context, d[j])
    {
      assert d[i] in keys && d[j] in keys;
      Php.ArrayIntersectFirstOrder(p.context, p.availableParameters, d[i], d[j]);
    }
  }

  /** Each selected field holds the cast of the value its `case` computes. */
  lemma SelectedFieldValue(p: Profiler, x: Exchange, k: string, v: Php.Value)
    requires Selects(p, k)
    requires CaseValue(k, x) == Some(v)
    ensures Php.Get(GetParameters(p, x), k) == Some(Php.CastOrEmpty(v))
  {
    var keys := SelectedKeys(p);
    var i := LastIndexOf(keys, k);
    FoldValueAt(keys, Cases(x), i);
  }

  /** The vocabulary holds each field name the `switch` and the defaults use. */
  lemma Vocabulary()
    ensures "method" in AvailableParameters && "url" in AvailableParameters
    ensures "resource" in AvailableParameters && "request_version" in AvailableParameters
    ensures "response_version" in AvailableParameters && "host" in AvailableParameters
    ensures "hostname" in AvailableParameters && "status_code" in AvailableParameters
    ensures "phrase" in AvailableParameters
  {
    assert AvailableParameters[0] == "method" && AvailableParameters[1] == "url";
    assert AvailableParameters[2] == "resource" && AvailableParameters[3] == "request_version";
    assert AvailableParameters[4] == "response_version" && AvailableParameters[5] == "host";
    assert AvailableParameters[6] == "hostname" && AvailableParameters[7] == "status_code";
    assert AvailableParameters[8] == "phrase";
  }

  /**
   * With the default selection the parameters are exactly host, method, url,
   * status_code and phrase, in that order.
   */
  lemma DefaultKeys(x: Exchange)
    ensures GetParameters(Default, x).order == ["host", "method", "url", "status_code", "phrase"]
  {
    DefaultSelection();
  }

  /** The default selection lists known fields, each once. */
  lemma DefaultSelection()
    ensures Php.Distinct(DefaultContext)
    ensures SelectedKeys(Default) == DefaultContext
  {
    Vocabulary();
    Php.ArrayIntersectAll(DefaultContext, AvailableParameters);
    DefaultContextDistinct();
  }

  /** The default selection names no field twice. */
  lemma DefaultContextDistinct()
    ensures Php.Distinct(DefaultContext)
  {
    forall i, j | 0 <= i < j < |DefaultContext| ensures DefaultContext[i] != DefaultContext[j] {
      assert DefaultContext[i][0] != DefaultContext[j][0];
    }
  }

  /** The vocabulary names no field twice. */
  lemma VocabularyDistinct()
    ensures Php.Distinct(AvailableParameters)
  {
    forall i, j | 0 <= i < j < |AvailableParameters| ensures AvailableParameters[i] != AvailableParameters[j] {
      assert |AvailableParameters[i]| != |AvailableParameters[j]| || AvailableParameters[i][0] != AvailableParameters[j][0];
    }
  }

  /**
   * Without a response, response_version, status_code and phrase are each
   * "NULL" whenever they are selected.
   */
  lemma AbsentResponseIsNull(p: Profiler, x: Exchange)
    requires x.response.None?
    ensures Selects(p, "response_version") ==> Php.Get(GetParameters(p, x), "response_version") == Some("NULL")
    ensures Selects(p, "status_code") ==> Php.Get(GetParameters(p, x), "status_code") == Some("NULL")
    ensures Selects(p, "phrase") ==> Php.Get(GetParameters(p, x), "phrase") == Some("NULL")
  {
    NullField(p, x, "response_version");
    NullField(p, x, "status_code");
    NullField(p, x, "phrase");
  }

  lemma NullField(p: Profiler, x: Exchange, k: string)
    requires CaseValue(k, x) == Some(Php.Str("NULL"))
    ensures Selects(p, k) ==> Php.Get(GetParameters(p, x), k) == Some("NULL")
  {
    if Selects(p, k) {
      assert "NULL"[0] != '0';
      SelectedFieldValue(p, x, k, Php.Str("NULL"));
    }
  }

  /** method, url and host are read from the request. */
  lemma RequestFields(p: Profiler, x: Exchange)
    ensures Selects(p, "method") ==>
      Php.Get(GetParameters(p, x), "method") == Some(Php.CastOrEmpty(Php.Str(x.request.httpMethod)))
    ensures Selects(p, "url") ==>
      Php.Get(GetParameters(p, x), "url") == Some(Php.CastOrEmpty(Php.Str(x.request.uri)))
    ensures Selects(p, "host") ==>
      Php.Get(GetParameters(p, x), "host") == Some(Php.CastOrEmpty(Php.Str(x.request.host)))
  {
    if Selects(p, "method") { SelectedFieldValue(p, x, "method", Php.Str(x.request.httpMethod)); }
    if Selects(p, "url") { SelectedFieldValue(p, x, "url", Php.Str(x.request.uri)); }
    if Selects(p, "host") { SelectedFieldValue(p, x, "host", Php.Str(x.request.host)); }
  }

  /**
   * status_code is the decimal form of the response's code; a code of 0
   * prints as the falsy "0" and is therefore stored as "".
   */
  lemma StatusCodeField(p: Profiler, x: Exchange)
    requires Selects(p, "status_code") && x.response.Some?
    ensures var code := x.response.value.statusCode;
      Php.Get(GetParameters(p, x), "status_code") == Some(if code == 0 then "" else Decimal.IntToDecimal(code))
  {
    var code := x.response.value.statusCode;
    SelectedFieldValue(p, x, "status_code", Php.Int(code));
    Decimal.IntToDecimalZero(code);
  }

  /** hostname is what `gethostname()` returned, and "" when it returned `false`. */
  lemma HostnameField(p: Profiler, x: Exchange)
    requires Selects(p, "hostname")
    ensures x.hostname.None? ==> Php.Get(GetParameters(p, x), "hostname") == Some("")
    ensures x.hostname.Some? ==>
      Php.Get(GetParameters(p, x), "hostname") == Some(Php.CastOrEmpty(Php.Str(x.hostname.value)))
  {
    if x.hostname.None? {
      SelectedFieldValue(p, x, "hostname", Php.False);
    } else {
      SelectedFieldValue(p, x, "hostname", Php.Str(x.hostname.value));
    }
  }

  /**
   * 'resource' has no `case`, so with a configuration free of repetitions it
   * holds the value of the field selected just before it, or "" when it is
   * the first selected field.
   */
  lemma ResourceRepeatsPrevious(p: Profiler, x: Exchange, i: nat)
    requires Php.Distinct(p.context)
    requires i < |SelectedKeys(p)| && SelectedKeys(p)[i] == "resource"
    ensures i == 0 ==> Php.Get(GetParameters(p, x), "resource") == Some("")
    ensures i > 0 ==>
      Php.Get(GetParameters(p, x), "resource") == Php.Get(GetParameters(p, x), SelectedKeys(p)[i - 1])
  {
    var keys := SelectedKeys(p);
    Php.ArrayIntersectDistinct(p.context, p.availableParameters);
    CaselessKeyRepeats(keys, Cases(x), i);
  }

  /**
   * `add`: appends exactly one measure to the timeline, carrying the given
   * bounds, the label `describe` produces, the exchange's parameters and the
   * category 'guzzle'; earlier measures are untouched.
   */
  function Add(timeline: seq<Measure>, p: Profiler, describe: (Request, Option<Response>) -> string,
               start: real, end: real, x: Exchange): (t: seq<Measure>)
    ensures |t| == |timeline| + 1
    ensures t[..|timeline|] == timeline
    ensures t[|timeline|].category == "guzzle"
    ensures t[|timeline|].description == describe(x.request, x.response)
    ensures t[|timeline|].start == start && t[|timeline|].end == end
    ensures t[|timeline|].params == GetParameters(p, x)
    ensures forall k :: k in t[|timeline|].params.order <==> Selects(p, k)
  {
    timeline + [Measure(describe(x.request, x.response), start, end, GetParameters(p, x), Category)]
  }
}
