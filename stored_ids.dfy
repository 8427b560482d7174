/**
 * The persisted selections of app.js: `readStoredIds`, `writeStoredIds`
 * and the default state of the sport pills. `localStorage` is a map from
 * keys to strings and `JSON.parse` a parameter.
 */
module StoredIds {
  import opened Wrappers
  import opened JsText
  import opened JsValues

  type Storage = map<string, string>

  const SportsKey := "simplifiedSports"
  const CountriesKey := "simplifiedCountries"
  const CompetitionsKey := "simplifiedCompetitions"
  const BroadcastersKey := "simplifiedBroadcasters"

  /** `parsed.filter(value => Number.isFinite(value))`, as the numbers it keeps. */
  function FiniteNumbers(elems: seq<Json>): seq<int> {
    if elems == [] then []
    else (if elems[0].JNumber? && elems[0].n.Finite? then [elems[0].n.value] else []) + FiniteNumbers(elems[1..])
  }

  /** `readStoredIds(key)`; `parse` is `JSON.parse`, with `None` where it throws. */
  function ReadStoredIds(storage: Storage, key: string, parse: string -> Option<Json>): seq<int> {
    if key !in storage || storage[key] == "" then []
    else match parse(storage[key])
      case Some(JArray(elems)) => FiniteNumbers(elems)
      case _ => []
  }

  /** A missing or empty entry, unparsable text and a parsed value that is no array all read as no selection. */
  lemma ReadStoredIdsFallsBack(storage: Storage, key: string, parse: string -> Option<Json>)
    ensures key !in storage ==> ReadStoredIds(storage, key, parse) == []
    ensures key in storage && (storage[key] == "" || parse(storage[key]).None?) ==> ReadStoredIds(storage, key, parse) == []
    ensures key in storage && parse(storage[key]).Some? && !parse(storage[key]).value.JArray?
            ==> ReadStoredIds(storage, key, parse) == []
  {
  }

  /**
   * From a parsed array, exactly the finite numbers in their order: the
   * filter distributes over concatenation and keeps a one-element array
   * exactly when its element is a finite number.
   */
  lemma {:induction false} FiniteNumbersKeepsOrder(a: seq<Json>, b: seq<Json>)
    ensures FiniteNumbers(a + b) == FiniteNumbers(a) + FiniteNumbers(b)
  {
    if a == [] {
      assert a + b == b;
    } else {
      assert (a + b)[0] == a[0] && (a + b)[1..] == a[1..] + b;
      FiniteNumbersKeepsOrder(a[1..], b);
    }
  }

  lemma FiniteNumbersOfOne(v: Json)
    ensures FiniteNumbers([v]) == if v.JNumber? && v.n.Finite? then [v.n.value] else []
  {
    assert [v][1..] == [];
  }

  /** `JSON.stringify(values)` for an array of integers. */
  function StringifyIds(values: seq<int>): string {
    "[" + Join(Numerals(values), ',') + "]"
  }

  function Numerals(values: seq<int>): (r: seq<string>)
    ensures |r| == |values|
  {
    if values == [] then [] else [IntToString(values[0])] + Numerals(values[1..])
  }

  /** `writeStoredIds(key, values)`: an empty list removes the entry, any other is stored as JSON. */
  function WriteStoredIds(storage: Storage, key: string, values: seq<int>): (r: Storage)
    ensures values == [] ==> key !in r
    ensures values != [] ==> key in r && r[key] == StringifyIds(values)
    ensures forall k :: k != key ==> (k in r <==> k in storage) && (k in r ==> r[k] == storage[k])
  {
    if values == [] then storage - {key} else storage[key := StringifyIds(values)]
  }

  /** The JSON array `JSON.parse` makes of `JSON.stringify(values)`. */
  function JsonNumbers(values: seq<int>): seq<Json> {
    if values == [] then [] else [JNumber(Finite(values[0]))] + JsonNumbers(values[1..])
  }

  lemma {:induction false} FiniteNumbersOfJsonNumbers(values: seq<int>)
    ensures FiniteNumbers(JsonNumbers(values)) == values
  {
    if values != [] {
      FiniteNumbersOfJsonNumbers(values[1..]);
    }
  }

  /**
   * What is written is read back: for any `JSON.parse` that inverts
   * `JSON.stringify` on integer arrays, reading a key after writing a list
   * gives the list again (an empty list by the removed entry).
   */
  lemma WriteThenRead(storage: Storage, key: string, values: seq<int>, parse: string -> Option<Json>)
    requires parse(StringifyIds(values)) == Some(JArray(JsonNumbers(values)))
    ensures ReadStoredIds(WriteStoredIds(storage, key, values), key, parse) == values
  {
    FiniteNumbersOfJsonNumbers(values);
  }

  // ---------------------------------------------------------------------
  // The sport pills

  /** `input.checked` when the pill of a sport with this id is rendered. */
  function SportInitiallyChecked(stored: seq<int>, id: Num): (checked: bool)
    ensures stored == [] ==> checked
    ensures stored != [] ==> (checked <==> id.Finite? && id.value in stored)
  {
    |stored| == 0 || (id.Finite? && id.value in stored)
  }

  /**
   * `getCheckedSportIds()` right after `renderSportPills(sports)`: the finite
   * ids of the pills rendered checked, in the order of the sports.
   */
  function CheckedSportIds(sportIds: seq<Num>, stored: seq<int>): seq<int> {
    if sportIds == [] then []
    else
      var id := sportIds[0];
      (if SportInitiallyChecked(stored, id) && id.Finite? then [id.value] else []) + CheckedSportIds(sportIds[1..], stored)
  }

  function FiniteIds(sportIds: seq<Num>): seq<int> {
    if sportIds == [] then []
    else (if sportIds[0].Finite? then [sportIds[0].value] else []) + FiniteIds(sportIds[1..])
  }

  /** With nothing stored every sport starts checked; otherwise exactly the stored ones, in sport order. */
  lemma {:induction false} CheckedSportIdsDefault(sportIds: seq<Num>, stored: seq<int>)
    ensures stored == [] ==> CheckedSportIds(sportIds, stored) == FiniteIds(sportIds)
    ensures stored != [] ==> CheckedSportIds(sportIds, stored) == Filter(FiniteIds(sportIds), id => id in stored)
  {
    if sportIds != [] {
      CheckedSportIdsDefault(sportIds[1..], stored);
      var head := if sportIds[0].Finite? then [sportIds[0].value] else [];
      assert FiniteIds(sportIds) == head + FiniteIds(sportIds[1..]);
      FilterConcat(head, FiniteIds(sportIds[1..]), id => id in stored);
    }
  }
}
