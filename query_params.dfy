/**
 * `buildParams` (api-client.js and its identical copy in app.js): turns a
 * parameter object into a query string through a `URLSearchParams`, one
 * `append` per array element and one `set` per present scalar.
 */
module QueryParams {
  import opened Wrappers
  import opened JsText
  import FormUrlEncoded

  /** A JavaScript scalar as it can stand in a parameter object. */
  datatype Scalar = Undefined | Null | Text(s: string) | Number(n: int) | Boolean(b: bool)

  /** `String(x)`. */
  function JsString(x: Scalar): string {
    match x
    case Undefined => "undefined"
    case Null => "null"
    case Text(s) => s
    case Number(n) => IntToString(n)
    case Boolean(b) => if b then "true" else "false"
  }

  /** A property value: an array (`Array.isArray`) or anything else. */
  datatype ParamValue = Single(v: Scalar) | Array(items: seq<Scalar>)

  /** One property of the parameter object; a `Params` lists them in `Object.entries` order. */
  type Entry = (string, ParamValue)
  type Params = seq<Entry>

  /** A name/value list as `URLSearchParams` holds it. */
  type Pairs = seq<(string, string)>

  /** The scalars `buildParams` skips: `undefined`, `null` and `""`. */
  predicate IsOmitted(x: Scalar) {
    x == Undefined || x == Null || x == Text("")
  }

  predicate KeysUnique(params: Params) {
    forall i, j :: 0 <= i < j < |params| ==> params[i].0 != params[j].0
  }

  // ---------------------------------------------------------------------
  // URLSearchParams

  function IndexOfName(list: Pairs, name: string): (r: Option<nat>)
    ensures r.Some? ==> r.value < |list| && list[r.value].0 == name
    ensures r.Some? ==> forall j :: 0 <= j < r.value ==> list[j].0 != name
    ensures r.None? ==> forall j :: 0 <= j < |list| ==> list[j].0 != name
  {
    if list == [] then None
    else if list[0].0 == name then Some(0)
    else match IndexOfName(list[1..], name)
      case None => None
      case Some(i) => Some(i + 1)
  }

  function RemoveName(list: Pairs, name: string): (r: Pairs)
    ensures forall j :: 0 <= j < |r| ==> r[j].0 != name
  {
    if list == [] then []
    else (if list[0].0 == name then [] else [list[0]]) + RemoveName(list[1..], name)
  }

  /**
   * `URLSearchParams.prototype.set`: the first pair with this name takes the
   * value and the others are removed; without one the pair is appended.
   */
  function SetPair(list: Pairs, name: string, value: string): (r: Pairs)
    ensures r != []
  {
    match IndexOfName(list, name)
    case None => list + [(name, value)]
    case Some(i) => list[..i] + [(name, value)] + RemoveName(list[i + 1..], name)
  }

  /** What `append` adds for an array value: one pair per element. */
  function ArrayPairs(name: string, items: seq<Scalar>): Pairs {
    if items == [] then [] else [(name, JsString(items[0]))] + ArrayPairs(name, items[1..])
  }

  /** One iteration of the `forEach` over `Object.entries(params)`. */
  function Step(list: Pairs, e: Entry): Pairs {
    match e.1
    case Array(items) => list + ArrayPairs(e.0, items)
    case Single(x) => if IsOmitted(x) then list else SetPair(list, e.0, JsString(x))
  }

  function StepAll(list: Pairs, params: Params): Pairs {
    if params == [] then list else Step(StepAll(list, params[..|params| - 1]), params[|params| - 1])
  }

  /** The name/value list `buildParams` leaves in its `URLSearchParams`. */
  function SearchParams(params: Params): Pairs {
    StepAll([], params)
  }

  /** `buildParams(params)`. */
  function QueryString(params: Params): string {
    FormUrlEncoded.Serialize(SearchParams(params))
  }

  // ---------------------------------------------------------------------
  // The independent description: each entry contributes its own pairs

  /** The pairs one property contributes. */
  function EntryPairs(e: Entry): Pairs {
    match e.1
    case Array(items) => ArrayPairs(e.0, items)
    case Single(x) => if IsOmitted(x) then [] else [(e.0, JsString(x))]
  }

  function Contributions(params: Params): Pairs {
    if params == [] then [] else EntryPairs(params[0]) + Contributions(params[1..])
  }

  // ---------------------------------------------------------------------
  // The method that builds the query string

  method BuildParams(params: Params) returns (query: string)
    ensures query == FormUrlEncoded.Serialize(SearchParams(params))
    ensures KeysUnique(params) ==> query == FormUrlEncoded.Serialize(Contributions(params))
  {
    var list: Pairs := [];
    for i := 0 to |params|
      invariant list == StepAll([], params[..i])
    {
      var (key, value) := params[i];
      assert params[..i + 1][..i] == params[..i];
      match value {
        case Array(items) =>
          for j := 0 to |items|
            invariant list == StepAll([], params[..i]) + ArrayPairs(key, items[..j])
          {
            ArrayPairsSnoc(key, items[..j], items[j]);
            assert items[..j + 1] == items[..j] + [items[j]];
            list := list + [(key, JsString(items[j]))];
          }
          assert items[..|items|] == items;
        case Single(x) =>
          if x != Undefined && x != Null && x != Text("") {
            list := SetPair(list, key, JsString(x));
          }
      }
    }
    assert params[..|params|] == params;
    query := FormUrlEncoded.Serialize(list);
    if KeysUnique(params) {
      UniqueKeysSetIsAppend(params);
    }
  }

  lemma {:induction false} ArrayPairsSnoc(name: string, items: seq<Scalar>, x: Scalar)
    ensures ArrayPairs(name, items + [x]) == ArrayPairs(name, items) + [(name, JsString(x))]
  {
    if items == [] {
      assert items + [x] == [x];
    } else {
      assert (items + [x])[1..] == items[1..] + [x];
      ArrayPairsSnoc(name, items[1..], x);
    }
  }

  // ---------------------------------------------------------------------
  // Properties

  /** An array value: one pair per element, the key repeated, in element order. */
  lemma {:induction false} ArrayValuePairs(name: string, items: seq<Scalar>)
    ensures |EntryPairs((name, Array(items)))| == |items|
    ensures forall j :: 0 <= j < |items| ==> EntryPairs((name, Array(items)))[j] == (name, JsString(items[j]))
  {
    if items != [] {
      ArrayValuePairs(name, items[1..]);
    }
  }

  /** A scalar value: no pair for `undefined`, `null` or `""`, exactly one pair otherwise. */
  lemma ScalarValuePairs(name: string, x: Scalar)
    ensures EntryPairs((name, Single(x))) == [] <==> (x == Undefined || x == Null || x == Text(""))
    ensures !IsOmitted(x) ==> EntryPairs((name, Single(x))) == [(name, JsString(x))]
  {
  }

  /** Pairs come in the order of the keys: the pairs of a concatenation are the concatenated pairs. */
  lemma {:induction false} ContributionsConcat(p: Params, q: Params)
    ensures Contributions(p + q) == Contributions(p) + Contributions(q)
  {
    if p == [] {
      assert p + q == q;
    } else {
      assert (p + q)[0] == p[0] && (p + q)[1..] == p[1..] + q;
      ContributionsConcat(p[1..], q);
    }
  }

  lemma ContributionsSnoc(params: Params, e: Entry)
    ensures Contributions(params + [e]) == Contributions(params) + EntryPairs(e)
  {
    ContributionsConcat(params, [e]);
    assert Contributions([e]) == EntryPairs(e) + Contributions([]);
  }

  lemma {:induction false} StepAllConcat(list: Pairs, p: Params, q: Params)
    ensures StepAll(list, p + q) == StepAll(StepAll(list, p), q)
  {
    if q == [] {
      assert p + q == p;
    } else {
      assert (p + q)[..|p + q| - 1] == p + q[..|q| - 1];
      StepAllConcat(list, p, q[..|q| - 1]);
    }
  }

  /** An empty array contributes nothing: it yields the query of the object without that key. */
  lemma EmptyArrayLikeAbsent(p: Params, key: string, q: Params)
    ensures QueryString(p + [(key, Array([]))] + q) == QueryString(p + q)
  {
    StepAllConcat([], p + [(key, Array([]))], q);
    StepAllConcat([], p, [(key, Array([]))]);
    StepAllConcat([], p, q);
    assert StepAll(SearchParams(p), [(key, Array([]))]) == SearchParams(p) by {
      assert [(key, Array([]))][..0] == [];
    }
  }

  lemma {:induction false} StepAllEmptyIff(list: Pairs, params: Params)
    ensures StepAll(list, params) == [] <==> list == [] && Contributions(params) == []
  {
    if params != [] {
      var init := params[..|params| - 1];
      StepAllEmptyIff(list, init);
      ContributionsSnoc(init, params[|params| - 1]);
      assert init + [params[|params| - 1]] == params;
    }
  }

  /** The query string is empty exactly when no property contributes a pair. */
  lemma EmptyQueryIff(params: Params)
    ensures QueryString(params) == "" <==> Contributions(params) == []
  {
    FormUrlEncoded.SerializeEmptyIff(SearchParams(params));
    StepAllEmptyIff([], params);
  }

  function Names(list: Pairs): set<string> {
    set j | 0 <= j < |list| :: list[j].0
  }

  lemma {:induction false} StepAllNames(params: Params)
    ensures forall n :: n in Names(SearchParams(params)) ==> exists i :: 0 <= i < |params| && params[i].0 == n
  {
    if params != [] {
      var init := params[..|params| - 1];
      StepAllNames(init);
      var before := SearchParams(init);
      var e := params[|params| - 1];
      forall n | n in Names(SearchParams(params))
        ensures exists i :: 0 <= i < |params| && params[i].0 == n
      {
        var j :| 0 <= j < |SearchParams(params)| && SearchParams(params)[j].0 == n;
        if n == e.0 {
          assert params[|params| - 1].0 == n;
        } else {
          NamesOfStep(before, e, n);
          var i :| 0 <= i < |init| && init[i].0 == n;
          assert params[i].0 == n;
        }
      }
    }
  }

  lemma NamesOfStep(list: Pairs, e: Entry, n: string)
    requires n in Names(Step(list, e)) && n != e.0
    ensures n in Names(list)
  {
    var r := Step(list, e);
    var j :| 0 <= j < |r| && r[j].0 == n;
    match e.1
    case Array(items) =>
      ArrayValuePairs(e.0, items);
      assert j < |list|;
      assert list[j].0 == n;
    case Single(x) =>
      if !IsOmitted(x) {
        match IndexOfName(list, e.0)
        case None =>
          assert list[j].0 == n;
        case Some(i) =>
          var i := IndexOfName(list, e.0).value;
          var tail := RemoveName(list[i + 1..], e.0);
          if j < i {
            assert list[j].0 == n;
          } else {
            assert j > i;
            RemoveNameSubset(list[i + 1..], e.0, j - i - 1);
          }
      }
  }

  lemma {:induction false} RemoveNameSubset(list: Pairs, name: string, j: nat)
    requires j < |RemoveName(list, name)|
    ensures RemoveName(list, name)[j].0 in Names(list)
  {
    if list[0].0 == name {
      RemoveNameSubset(list[1..], name, j);
      var n := RemoveName(list, name)[j].0;
      var k :| 0 <= k < |list[1..]| && list[1..][k].0 == n;
      assert list[k + 1].0 == n;
    } else if j > 0 {
      RemoveNameSubset(list[1..], name, j - 1);
      var n := RemoveName(list, name)[j].0;
      var k :| 0 <= k < |list[1..]| && list[1..][k].0 == n;
      assert list[k + 1].0 == n;
    } else {
      assert list[0].0 in Names(list);
    }
  }

  /**
   * In an object every key is distinct, so each `set` meets no earlier pair
   * of its name and only appends: the list is the entries' contributions in key order.
   */
  lemma {:induction false} UniqueKeysSetIsAppend(params: Params)
    requires KeysUnique(params)
    ensures SearchParams(params) == Contributions(params)
  {
    if params != [] {
      var init := params[..|params| - 1];
      var e := params[|params| - 1];
      UniqueKeysSetIsAppend(init);
      ContributionsSnoc(init, e);
      assert init + [e] == params;
      StepAllNames(init);
      var before := SearchParams(init);
      if e.1.Single? && !IsOmitted(e.1.v) {
        forall j | 0 <= j < |before| ensures before[j].0 != e.0 {
          assert before[j].0 in Names(before);
          var i :| 0 <= i < |init| && init[i].0 == before[j].0;
          assert params[i] == init[i];
        }
      }
    }
  }

  /**
   * What the server reads back from `buildParams(params)`: for an object,
   * exactly the entries' contributions, in key order.
   */
  lemma QueryStringParses(params: Params)
    requires KeysUnique(params)
    ensures FormUrlEncoded.Parse(QueryString(params)) == Some(Contributions(params))
  {
    UniqueKeysSetIsAppend(params);
    FormUrlEncoded.SerializeRoundTrip(SearchParams(params));
  }
}
