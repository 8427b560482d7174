/**
 * The requests app.js makes: the parameter objects `loadCompetitions` and
 * `loadMatches` build (an id list becomes a key only when it is not empty),
 * and the date the page is showing, which `shiftDay` moves.
 */
module AppRequests {
  import opened Wrappers
  import opened JsText
  import opened QueryParams
  import FormUrlEncoded
  import opened CivilDate

  const SportIdsKey := "sport_ids"
  const CountryIdsKey := "country_ids"
  const CompetitionIdsKey := "competition_ids"
  const BroadcasterIdsKey := "broadcaster_ids"
  const StartDateKey := "start_date"
  const EndDateKey := "end_date"

  /** An array of ids as a property value. */
  function IdArray(ids: seq<int>): (v: ParamValue)
    ensures v.Array? && |v.items| == |ids|
    ensures forall k :: 0 <= k < |ids| ==> v.items[k] == Number(ids[k])
  {
    Array(seq(|ids|, k requires 0 <= k < |ids| => Number(ids[k])))
  }

  /** The pairs a server reads for an id list: the key once per id, with its decimal numeral. */
  function IdPairs(key: string, ids: seq<int>): (r: Pairs)
    ensures |r| == |ids|
  {
    seq(|ids|, k requires 0 <= k < |ids| => (key, IntToString(ids[k])))
  }

  /** `params[key]`. */
  function Lookup(params: Params, key: string): (r: Option<ParamValue>)
    ensures r.None? <==> forall i :: 0 <= i < |params| ==> params[i].0 != key
    ensures r.Some? ==> exists i :: 0 <= i < |params| && params[i] == (key, r.value)
  {
    if params == [] then None
    else if params[0].0 == key then Some(params[0].1)
    else Lookup(params[1..], key)
  }

  lemma {:induction false} LookupSnoc(params: Params, e: Entry, key: string)
    ensures Lookup(params + [e], key) ==
      if Lookup(params, key).Some? then Lookup(params, key) else if e.0 == key then Some(e.1) else None
  {
    if params == [] {
      assert params + [e] == [e];
    } else {
      assert (params + [e])[1..] == params[1..] + [e];
      LookupSnoc(params[1..], e, key);
    }
  }

  lemma IdArrayPairs(key: string, ids: seq<int>)
    ensures EntryPairs((key, IdArray(ids))) == IdPairs(key, ids)
  {
    ArrayValuePairs(key, IdArray(ids).items);
  }

  /** Adding an id list: its pairs follow the earlier ones, and an empty list adds none. */
  lemma ContributionsOfIds(params: Params, key: string, ids: seq<int>)
    ensures Contributions(params + [(key, IdArray(ids))]) == Contributions(params) + IdPairs(key, ids)
    ensures ids == [] ==> IdPairs(key, ids) == []
  {
    ContributionsSnoc(params, (key, IdArray(ids)));
    IdArrayPairs(key, ids);
  }

  /** `params[key] = ids` on an object without that key. */
  lemma AddIds(params: Params, key: string, ids: seq<int>)
    requires KeysUnique(params) && Lookup(params, key).None?
    ensures KeysUnique(params + [(key, IdArray(ids))])
    ensures Lookup(params + [(key, IdArray(ids))], key) == Some(IdArray(ids))
    ensures forall k :: k != key ==> Lookup(params + [(key, IdArray(ids))], k) == Lookup(params, k)
    ensures Contributions(params + [(key, IdArray(ids))]) == Contributions(params) + IdPairs(key, ids)
  {
    forall k {
      LookupSnoc(params, (key, IdArray(ids)), k);
    }
    ContributionsOfIds(params, key, ids);
  }

  /**
   * `if (ids.length) params[key] = ids`: the key is added, after the
   * others, exactly when the list is not empty, and nothing else changes.
   */
  method SetIdsIfAny(params: Params, key: string, ids: seq<int>) returns (r: Params)
    requires KeysUnique(params) && Lookup(params, key).None?
    ensures KeysUnique(r)
    ensures |r| == |params| + (if |ids| > 0 then 1 else 0)
    ensures forall i :: 0 <= i < |params| ==> r[i] == params[i]
    ensures Lookup(r, key) == if |ids| > 0 then Some(IdArray(ids)) else None
    ensures forall k :: k != key ==> Lookup(r, k) == Lookup(params, k)
    ensures Contributions(r) == Contributions(params) + IdPairs(key, ids)
  {
    r := params;
    if |ids| > 0 {
      AddIds(params, key, ids);
      r := params + [(key, IdArray(ids))];
    } else {
      assert IdPairs(key, ids) == [];
    }
  }

  /**
   * `loadCompetitions`: `sport_ids` and `country_ids` are set only when their
   * lists are not empty, and the server reads back exactly the ids, sports first.
   */
  method CompetitionParams(sportIds: seq<int>, countryIds: seq<int>) returns (params: Params)
    ensures KeysUnique(params)
    ensures |params| == (if |sportIds| > 0 then 1 else 0) + (if |countryIds| > 0 then 1 else 0)
    ensures Lookup(params, SportIdsKey) == if |sportIds| > 0 then Some(IdArray(sportIds)) else None
    ensures Lookup(params, CountryIdsKey) == if |countryIds| > 0 then Some(IdArray(countryIds)) else None
    ensures QueryString(params) == FormUrlEncoded.Serialize(IdPairs(SportIdsKey, sportIds) + IdPairs(CountryIdsKey, countryIds))
    ensures FormUrlEncoded.Parse(QueryString(params)) ==
      Some(IdPairs(SportIdsKey, sportIds) + IdPairs(CountryIdsKey, countryIds))
  {
    ghost var expected := IdPairs(SportIdsKey, sportIds) + IdPairs(CountryIdsKey, countryIds);
    params := [];
    assert Contributions(params) == [];
    params := SetIdsIfAny(params, SportIdsKey, sportIds);
    assert Contributions(params) == IdPairs(SportIdsKey, sportIds);
    params := SetIdsIfAny(params, CountryIdsKey, countryIds);
    assert Contributions(params) == expected;
    UniqueKeysSetIsAppend(params);
    assert QueryString(params) == FormUrlEncoded.Serialize(expected);
    QueryStringParses(params);
  }

  /** The date range every `/matches` request starts with. */
  function DateRange(date: string): Params {
    [(StartDateKey, Single(Text(date))), (EndDateKey, Single(Text(date)))]
  }

  lemma DateRangeFacts(date: string)
    ensures KeysUnique(DateRange(date))
    ensures Lookup(DateRange(date), SportIdsKey).None? && Lookup(DateRange(date), CountryIdsKey).None?
    ensures Lookup(DateRange(date), CompetitionIdsKey).None? && Lookup(DateRange(date), BroadcasterIdsKey).None?
    ensures Contributions(DateRange(date)) == if date == "" then [] else [(StartDateKey, date), (EndDateKey, date)]
  {
    var first := [(StartDateKey, Single(Text(date)))];
    ContributionsSnoc([], first[0]);
    assert [] + first == first;
    ContributionsSnoc(first, (EndDateKey, Single(Text(date))));
    assert first + [(EndDateKey, Single(Text(date)))] == DateRange(date);
  }

  /**
   * `loadMatches`: `start_date` and `end_date` both hold the date, then each
   * of the four id lists is set only when it is not empty; the server reads
   * back the date range and then exactly the ids, in that order.
   */
  method MatchParams(date: string, sportIds: seq<int>, countryIds: seq<int>,
                     competitionIds: seq<int>, broadcasterIds: seq<int>) returns (params: Params)
    ensures KeysUnique(params)
    ensures |params| >= 2 && params[0] == (StartDateKey, Single(Text(date))) && params[1] == (EndDateKey, Single(Text(date)))
    ensures |params| == 2 + (if |sportIds| > 0 then 1 else 0) + (if |countryIds| > 0 then 1 else 0)
                          + (if |competitionIds| > 0 then 1 else 0) + (if |broadcasterIds| > 0 then 1 else 0)
    ensures Lookup(params, SportIdsKey) == if |sportIds| > 0 then Some(IdArray(sportIds)) else None
    ensures Lookup(params, CountryIdsKey) == if |countryIds| > 0 then Some(IdArray(countryIds)) else None
    ensures Lookup(params, CompetitionIdsKey) == if |competitionIds| > 0 then Some(IdArray(competitionIds)) else None
    ensures Lookup(params, BroadcasterIdsKey) == if |broadcasterIds| > 0 then Some(IdArray(broadcasterIds)) else None
    ensures date != "" ==> (FormUrlEncoded.Parse(QueryString(params)) ==
      Some([(StartDateKey, date), (EndDateKey, date)] + IdPairs(SportIdsKey, sportIds) + IdPairs(CountryIdsKey, countryIds)
           + IdPairs(CompetitionIdsKey, competitionIds) + IdPairs(BroadcasterIdsKey, broadcasterIds)))
  {
    params := DateRange(date);
    DateRangeFacts(date);
    ghost var pairs := Contributions(params);
    params := SetIdsIfAny(params, SportIdsKey, sportIds);
    pairs := pairs + IdPairs(SportIdsKey, sportIds);
    assert params[0] == (StartDateKey, Single(Text(date))) && params[1] == (EndDateKey, Single(Text(date)));
    assert Lookup(params, SportIdsKey) == (if |sportIds| > 0 then Some(IdArray(sportIds)) else None);
    assert Lookup(params, CountryIdsKey) == None;
    assert Lookup(params, CompetitionIdsKey) == None;
    assert Lookup(params, BroadcasterIdsKey) == None;
    params := SetIdsIfAny(params, CountryIdsKey, countryIds);
    pairs := pairs + IdPairs(CountryIdsKey, countryIds);
    assert params[0] == (StartDateKey, Single(Text(date))) && params[1] == (EndDateKey, Single(Text(date)));
    assert Lookup(params, SportIdsKey) == (if |sportIds| > 0 then Some(IdArray(sportIds)) else None);
    assert Lookup(params, CountryIdsKey) == (if |countryIds| > 0 then Some(IdArray(countryIds)) else None);
    assert Lookup(params, CompetitionIdsKey) == None;
    assert Lookup(params, BroadcasterIdsKey) == None;
    params := SetIdsIfAny(params, CompetitionIdsKey, competitionIds);
    pairs := pairs + IdPairs(CompetitionIdsKey, competitionIds);
    assert params[0] == (StartDateKey, Single(Text(date))) && params[1] == (EndDateKey, Single(Text(date)));
    assert Lookup(params, SportIdsKey) == (if |sportIds| > 0 then Some(IdArray(sportIds)) else None);
    assert Lookup(params, CountryIdsKey) == (if |countryIds| > 0 then Some(IdArray(countryIds)) else None);
    assert Lookup(params, CompetitionIdsKey) == (if |competitionIds| > 0 then Some(IdArray(competitionIds)) else None);
    assert Lookup(params, BroadcasterIdsKey) == None;
    params := SetIdsIfAny(params, BroadcasterIdsKey, broadcasterIds);
    pairs := pairs + IdPairs(BroadcasterIdsKey, broadcasterIds);
    assert params[0] == (StartDateKey, Single(Text(date))) && params[1] == (EndDateKey, Single(Text(date)));
    assert Lookup(params, SportIdsKey) == (if |sportIds| > 0 then Some(IdArray(sportIds)) else None);
    assert Lookup(params, CountryIdsKey) == (if |countryIds| > 0 then Some(IdArray(countryIds)) else None);
    assert Lookup(params, CompetitionIdsKey) == (if |competitionIds| > 0 then Some(IdArray(competitionIds)) else None);
    assert Lookup(params, BroadcasterIdsKey) == (if |broadcasterIds| > 0 then Some(IdArray(broadcasterIds)) else None);
    assert Contributions(params) == pairs;
    QueryStringParses(params);
  }

  // ---------------------------------------------------------------------
  // The date on show

  /** `todayIso()` of app.js: `new Date().toISOString().split("T")[0]`. */
  function AppTodayIso(today: Date): (s: string)
    requires Valid(today)
    ensures s == FormatIso(today)
  {
    IsoDatePart(today);
    Split(ToIsoString(today), 'T')[0]
  }

  /** The date `loadMatches` and `shiftDay` start from: `currentDate || todayIso()`; never empty. */
  function MatchDate(currentDate: string, today: Date): (date: string)
    requires Valid(today)
    ensures date != ""
    ensures currentDate != "" ==> date == currentDate
    ensures currentDate == "" ==> date == FormatIso(today)
  {
    if currentDate != "" then currentDate
    else
      var s := AppTodayIso(today);
      assert s[|IsoYear(today.year)|] == '-';
      s
  }

  /** The page's `currentDate`. */
  class DateView {
    var currentDate: string

    /** `handleInit`: the date the URL carries (already checked by `readDateFromUrl`), else today. */
    constructor (urlDate: Option<string>, today: Date)
      requires Valid(today)
      ensures currentDate == if urlDate.Some? && urlDate.value != "" then urlDate.value else FormatIso(today)
    {
      if urlDate.Some? && urlDate.value != "" {
        currentDate := urlDate.value;
      } else {
        currentDate := AppTodayIso(today);
      }
    }

    /**
     * `shiftDay(direction)`: the shifted date becomes `currentDate`; when the
     * shift throws, `currentDate` is left as it was.
     */
    method ShiftDay(direction: int, today: Date) returns (outcome: Result<string>)
      requires Valid(today)
      modifies this
      ensures outcome == ShiftDateText(MatchDate(old(currentDate), today), direction)
      ensures outcome.Ok? ==> currentDate == outcome.value
      ensures outcome.Err? ==> currentDate == old(currentDate)
    {
      outcome := ShiftDateText(MatchDate(currentDate, today), direction);
      if outcome.Ok? {
        currentDate := outcome.value;
      }
    }
  }

  /**
   * After a successful `shiftDay` the page shows a valid date, the given
   * number of days from where it was, and the next `loadMatches` asks for it.
   */
  lemma ShiftDayLandsOnDate(currentDate: string, today: Date, direction: int)
    requires Valid(today)
    requires ShiftDateText(MatchDate(currentDate, today), direction).Ok?
    ensures var next := ShiftDateText(MatchDate(currentDate, today), direction).value;
      && ParseDateValue(MatchDate(currentDate, today)).Some?
      && ParseDateValue(next) == Some(Shift(ParseDateValue(MatchDate(currentDate, today)).value, direction))
      && MatchDate(next, today) == next
  {
    ShiftDateTextSpec(MatchDate(currentDate, today), direction);
  }
}
