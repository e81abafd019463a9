/** The updates the menu applies to its two in-memory lists: adding an
    airline, finding the flight whose date is to change, and changing that
    date. The prompts that supply the names, IDs and dates are parameters. */
module Flights {
  import opened Strings
  import opened ScheduleDisplay
  import opened Validation

  const InitialAirlines: seq<string> := ["Qantas", "Jetstar", "Virgin"]

  // ---------------------------------------------------------------------------
  // Airlines
  // ---------------------------------------------------------------------------

  /** Some airline in the list has this name, ignoring case. */
  predicate Known(airlines: seq<string>, name: string) {
    exists i :: 0 <= i < |airlines| && EqualsIgnoringCase(airlines[i], name)
  }

  /** `addAirline`: a blank name, or one already in the list ignoring case,
      leaves the list as it is; any other name is appended as typed. */
  function AddAirline(name: string, airlines: seq<string>): seq<string> {
    if Trim(name) == "" then airlines
    else if Known(airlines, name) then airlines
    else airlines + [name]
  }

  /** The name is one `addAirline` takes: not blank and not known. */
  predicate Accepts(airlines: seq<string>, name: string) {
    !IsBlank(name) && !Known(airlines, name)
  }

  /** The list the menu keeps: no blank names and no two names equal
      ignoring case. */
  predicate GoodAirlines(airlines: seq<string>) {
    && (forall i :: 0 <= i < |airlines| ==> !IsBlank(airlines[i]))
    && (forall i, j :: 0 <= i < j < |airlines| ==> !EqualsIgnoringCase(airlines[i], airlines[j]))
  }

  /** The list grows exactly when the name is neither blank nor known, and
      then by that name at the end; otherwise it is unchanged. */
  lemma AddAirlineSpec(name: string, airlines: seq<string>)
    ensures |AddAirline(name, airlines)| > |airlines| <==> Accepts(airlines, name)
    ensures Accepts(airlines, name) ==> AddAirline(name, airlines) == airlines + [name]
    ensures !Accepts(airlines, name) ==> AddAirline(name, airlines) == airlines
  {
    TrimEmptyIffBlank(name);
  }

  /** Whatever happens, every airline already listed keeps its place, and a
      non-blank name is known afterwards. */
  lemma AddAirlineKeeps(name: string, airlines: seq<string>)
    ensures var r := AddAirline(name, airlines);
      && |airlines| <= |r| <= |airlines| + 1
      && r[..|airlines|] == airlines
      && (!IsBlank(name) ==> Known(r, name))
  {
    TrimEmptyIffBlank(name);
    var r := AddAirline(name, airlines);
    if !IsBlank(name) && !Known(airlines, name) {
      assert r[|airlines|] == name;
    }
  }

  /** Adding keeps the list free of blanks and of duplicates ignoring case. */
  lemma AddAirlinePreservesGood(name: string, airlines: seq<string>)
    requires GoodAirlines(airlines)
    ensures GoodAirlines(AddAirline(name, airlines))
  {
    AddAirlineSpec(name, airlines);
    var r := AddAirline(name, airlines);
    if r != airlines {
      forall i, j | 0 <= i < j < |r|
        ensures !EqualsIgnoringCase(r[i], r[j])
      {
        if j == |airlines| {
          assert r[j] == name;
          assert !EqualsIgnoringCase(airlines[i], name);
        }
      }
    }
  }

  /** Adding the same name twice is adding it once. */
  lemma AddAirlineIdempotent(name: string, airlines: seq<string>)
    ensures AddAirline(name, AddAirline(name, airlines)) == AddAirline(name, airlines)
  {
    AddAirlineKeeps(name, airlines);
    AddAirlineSpec(name, AddAirline(name, airlines));
  }

  lemma InitialAirlinesGood()
    ensures GoodAirlines(InitialAirlines)
  {
    var q, j, v := "Qantas", "Jetstar", "Virgin";
    assert LowerCase(q)[0] == 'q' && LowerCase(j)[0] == 'j' && LowerCase(v)[0] == 'v';
    assert InitialAirlines == [q, j, v];
    forall i | 0 <= i < 3
      ensures !IsBlank(InitialAirlines[i])
    {
      assert !IsWhitespace(InitialAirlines[i][0]);
    }
  }

  /** The menu's "Add New Airline" loop: it offers the typed names to
      `addAirline` one after another and stops at the first one that makes
      the list longer. `accepted` says whether one did; `tried` counts the
      names offered. */
  method AddUntilAccepted(names: seq<string>, airlines: seq<string>)
    returns (r: seq<string>, tried: nat, accepted: bool)
    ensures tried <= |names|
    ensures accepted <==> exists k :: 0 <= k < |names| && Accepts(airlines, names[k])
    ensures accepted ==> 0 < tried && Accepts(airlines, names[tried - 1]) && r == airlines + [names[tried - 1]]
    ensures accepted ==> forall k :: 0 <= k < tried - 1 ==> !Accepts(airlines, names[k])
    ensures !accepted ==> r == airlines && tried == |names|
  {
    r, tried, accepted := airlines, 0, false;
    while !accepted && tried < |names|
      invariant tried <= |names|
      invariant !accepted ==> r == airlines
      invariant !accepted ==> forall k :: 0 <= k < tried ==> !Accepts(airlines, names[k])
      invariant accepted ==> 0 < tried && Accepts(airlines, names[tried - 1]) && r == airlines + [names[tried - 1]]
      invariant accepted ==> forall k :: 0 <= k < tried - 1 ==> !Accepts(airlines, names[k])
    {
      r, accepted := OfferAirline(names[tried], airlines);
      tried := tried + 1;
    }
    if accepted {
      assert Accepts(airlines, names[tried - 1]);
    } else {
      assert forall k :: 0 <= k < |names| ==> !Accepts(airlines, names[k]);
    }
  }

  /** One attempt of the prompt loop: `addAirline`, then the caller's check
      that the list grew. */
  method OfferAirline(name: string, airlines: seq<string>) returns (next: seq<string>, grew: bool)
    ensures grew <==> Accepts(airlines, name)
    ensures grew ==> next == airlines + [name]
    ensures !grew ==> next == airlines
  {
    next := AddAirline(name, airlines);
    AddAirlineSpec(name, airlines);
    grew := |next| > |airlines|;
  }

  /** A name of one visible letter is accepted when it is new, yet no
      flight ID can be generated from it. */
  lemma OneLetterAirline(c: char, airlines: seq<string>, rest: string)
    requires !IsWhitespace(c) && !Known(airlines, [c])
    ensures |AddAirline([c], airlines)| > |airlines|
    ensures GenerateFlightId([c], rest).None?
  {
    var name := [c];
    assert name[0] == c && name[1..] == [];
    assert !IsBlank(name);
    AddAirlineSpec(name, airlines);
    assert NonBlank(name) == [c] + NonBlank([]);
  }

  // ---------------------------------------------------------------------------
  // Flights
  // ---------------------------------------------------------------------------

  /** The flight entered matches this one's ID, ignoring case. */
  predicate HasId(f: Flight, id: string) {
    EqualsIgnoringCase(f.id, id)
  }

  /** The index of the first flight at or after `from` with this ID
      ignoring case, or -1. */
  function FlightIndexFrom(flights: seq<Flight>, id: string, from: nat): int
    requires from <= |flights|
    decreases |flights| - from
  {
    if from == |flights| then -1
    else if HasId(flights[from], id) then from
    else FlightIndexFrom(flights, id, from + 1)
  }

  function FlightIndex(flights: seq<Flight>, id: string): int {
    FlightIndexFrom(flights, id, 0)
  }

  /** `FlightIndex` is the first match, or -1 when nothing matches. */
  lemma {:induction false} FlightIndexFromSpec(flights: seq<Flight>, id: string, from: nat)
    requires from <= |flights|
    ensures var r := FlightIndexFrom(flights, id, from);
      && (r == -1 || from <= r < |flights|)
      && (r == -1 <==> forall k :: from <= k < |flights| ==> !HasId(flights[k], id))
      && (r != -1 ==> HasId(flights[r], id) && forall k :: from <= k < r ==> !HasId(flights[k], id))
    decreases |flights| - from
  {
    if from < |flights| && !HasId(flights[from], id) {
      FlightIndexFromSpec(flights, id, from + 1);
    }
  }

  /** The lookup loop: scan the flights in order and stop at the first
      whose ID matches the entered one ignoring case; -1 when none does. */
  method FindFlight(flights: seq<Flight>, id: string) returns (index: int)
    ensures -1 <= index < |flights|
    ensures index == -1 <==> forall k :: 0 <= k < |flights| ==> !HasId(flights[k], id)
    ensures index != -1 ==> HasId(flights[index], id)
    ensures forall k :: 0 <= k < index ==> !HasId(flights[k], id)
    ensures index == FlightIndex(flights, id)
  {
    index := -1;
    var i := 0;
    while i < |flights|
      invariant 0 <= i <= |flights|
      invariant forall k :: 0 <= k < i ==> !HasId(flights[k], id)
      invariant FlightIndexFrom(flights, id, i) == FlightIndex(flights, id)
    {
      if HasId(flights[i], id) {
        index := i;
        return;
      }
      i := i + 1;
    }
  }

  /** The lookup does not depend on the case of the entered ID. */
  lemma {:induction false} FlightIndexIgnoresCase(flights: seq<Flight>, a: string, b: string, from: nat)
    requires from <= |flights| && EqualsIgnoringCase(a, b)
    ensures FlightIndexFrom(flights, a, from) == FlightIndexFrom(flights, b, from)
    decreases |flights| - from
  {
    if from < |flights| {
      FlightIndexIgnoresCase(flights, a, b, from + 1);
    }
  }

  /** The date update: the selected flight gets the new date. */
  function ChangeDate(flights: seq<Flight>, index: nat, date: string): seq<Flight>
    requires index < |flights|
  {
    flights[index := flights[index].(date := date)]
  }

  /** Only the selected flight's date changes: its other fields and every
      other flight stay as they were. */
  lemma ChangeDateOnly(flights: seq<Flight>, index: nat, date: string)
    requires index < |flights|
    ensures var r := ChangeDate(flights, index, date);
      && |r| == |flights|
      && r[index].date == date
      && r[index].id == flights[index].id && r[index].airline == flights[index].airline
      && r[index].origin == flights[index].origin && r[index].destination == flights[index].destination
      && forall k :: 0 <= k < |r| && k != index ==> r[k] == flights[k]
  {
  }

  /** IDs survive a date change, so the same ID still finds the same
      flight. */
  lemma {:induction false} ChangeDateKeepsLookup(flights: seq<Flight>, index: nat, date: string, id: string, from: nat)
    requires index < |flights| && from <= |flights|
    ensures FlightIndexFrom(ChangeDate(flights, index, date), id, from) == FlightIndexFrom(flights, id, from)
    decreases |flights| - from
  {
    if from < |flights| {
      assert ChangeDate(flights, index, date)[from].id == flights[from].id;
      ChangeDateKeepsLookup(flights, index, date, id, from + 1);
    }
  }

  /** Every flight has a date `isValidDateString` accepts. */
  predicate DatesValid(flights: seq<Flight>) {
    forall k :: 0 <= k < |flights| ==> IsValidDateString(flights[k].date)
  }

  /** The new date comes from a prompt that repeats until the date is
      valid, so all dates stay valid. */
  lemma ChangeDateKeepsDatesValid(flights: seq<Flight>, index: nat, date: string)
    requires index < |flights| && DatesValid(flights) && IsValidDateString(date)
    ensures DatesValid(ChangeDate(flights, index, date))
  {
  }
}
