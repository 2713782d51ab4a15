/**
 * The navigation controller of the tour (Core/GameManager.cs): a current
 * location index, the list of indices already left behind, and the
 * notifications raised to subscribers when the location changes or the
 * tour is complete.
 *
 * The pure functions below specify one navigation step on a value of the
 * state; the class GameManager is the stateful controller, and each of its
 * methods is proved to change its fields exactly as those functions say.
 */
module TourNavigation {
  import opened Wrappers
  import opened Locations

  /** The part of the controller's state that navigation changes. */
  datatype TourState = TourState(current: int, visited: seq<int>)

  /** The two notifications of the controller (OnLocationChanged, OnTourCompleted). */
  datatype TourEvent = LocationChanged(location: LocationData) | TourCompleted

  /** The state after a navigation request and the notifications it raised, in order. */
  datatype NavResult = NavResult(state: TourState, events: seq<TourEvent>)

  /** TotalLocations: the number of locations, 0 when no database is assigned. */
  function LocationCount(db: Option<LocationDatabase>): (n: nat)
    ensures db.None? ==> n == 0
    ensures db.Some? ==> n == |db.value.locations|
  {
    if db.None? then 0 else |db.value.locations|
  }

  /** GetLocation: the record at an index, None for a missing database or an index out of range. */
  function GetLocation(db: Option<LocationDatabase>, index: int): (r: Option<LocationData>)
    ensures r.Some? <==> db.Some? && 0 <= index < |db.value.locations|
    ensures r.Some? ==> r.value == db.value.locations[index]
    ensures r.None? <==> !(0 <= index < LocationCount(db))
  {
    if db.None? || index < 0 || index >= |db.value.locations| then None
    else Some(db.value.locations[index])
  }

  predicate NoDuplicates(s: seq<int>)
  {
    forall i, j :: 0 <= i < j < |s| ==> s[i] != s[j]
  }

  /** Appending an index to the visited list unless it is already there. */
  function MarkVisited(visited: seq<int>, index: int): (r: seq<int>)
    ensures index in r
    ensures visited <= r
    ensures |r| <= |visited| + 1
    ensures NoDuplicates(visited) ==> NoDuplicates(r)
  {
    if index in visited then visited else visited + [index]
  }

  /** The visited list after marking holds exactly the old entries and the marked index. */
  lemma MarkVisitedMembers(visited: seq<int>, index: int, x: int)
    ensures x in MarkVisited(visited, index) <==> x in visited || x == index
  {
  }

  /**
   * The well-formed states: the current index names a location, the
   * visited list holds locations only and none of them twice.
   */
  ghost predicate TourInvariant(db: Option<LocationDatabase>, s: TourState)
  {
    && 0 <= s.current < LocationCount(db)
    && NoDuplicates(s.visited)
    && forall v :: v in s.visited ==> 0 <= v < LocationCount(db)
  }

  /** NavigateToLocation on a value of the state. */
  function Navigate(db: Option<LocationDatabase>, s: TourState, index: int): (r: NavResult)
    // an out-of-range request changes nothing and raises nothing
    ensures !(0 <= index < LocationCount(db)) ==> r == NavResult(s, [])
    // a valid request moves to the index and marks the location left behind
    ensures 0 <= index < LocationCount(db) ==>
      && r.state.current == index
      && r.state.visited == MarkVisited(s.visited, s.current)
      && |r.events| == (if |r.state.visited| >= LocationCount(db) then 2 else 1)
      && r.events[0] == LocationChanged(db.value.locations[index])
      && (|r.events| == 2 ==> r.events[1] == TourCompleted)
  {
    if index < 0 || index >= LocationCount(db) then NavResult(s, [])
    else
      var visited := MarkVisited(s.visited, s.current);
      var changed := [LocationChanged(GetLocation(db, index).value)];
      NavResult(TourState(index, visited),
                if |visited| >= LocationCount(db) then changed + [TourCompleted] else changed)
  }

  /**
   * Navigation keeps the visited list as a prefix of the new one, adds no
   * duplicate and preserves the well-formedness of the state.
   */
  lemma NavigatePreserves(db: Option<LocationDatabase>, s: TourState, index: int)
    ensures var r := Navigate(db, s, index);
      && s.visited <= r.state.visited
      && (NoDuplicates(s.visited) ==> NoDuplicates(r.state.visited))
      && (TourInvariant(db, s) ==> TourInvariant(db, r.state))
  {
  }

  /** A sequence of navigation requests, applied in order; the notifications are concatenated. */
  function NavigateAll(db: Option<LocationDatabase>, s: TourState, requests: seq<int>): NavResult
    decreases |requests|
  {
    if requests == [] then NavResult(s, [])
    else
      var first := Navigate(db, s, requests[0]);
      var rest := NavigateAll(db, first.state, requests[1..]);
      NavResult(rest.state, first.events + rest.events)
  }

  /**
   * Navigation never removes anything from the visited list and never
   * introduces a duplicate, however many requests are made: only
   * InitializeGame empties it.
   */
  lemma {:induction false} VisitedOnlyGrows(db: Option<LocationDatabase>, s: TourState, requests: seq<int>)
    ensures s.visited <= NavigateAll(db, s, requests).state.visited
    ensures NoDuplicates(s.visited) ==> NoDuplicates(NavigateAll(db, s, requests).state.visited)
    ensures TourInvariant(db, s) ==> TourInvariant(db, NavigateAll(db, s, requests).state)
    decreases |requests|
  {
    if requests != [] {
      NavigatePreserves(db, s, requests[0]);
      VisitedOnlyGrows(db, Navigate(db, s, requests[0]).state, requests[1..]);
    }
  }

  /** The destination of a navigation is not marked visited unless it was the location left or already visited. */
  lemma DestinationNotMarked(db: Option<LocationDatabase>, s: TourState, index: int)
    requires 0 <= index < LocationCount(db)
    ensures index in Navigate(db, s, index).state.visited <==> index in s.visited || index == s.current
  {
  }

  function Elements(s: seq<int>): set<int>
  {
    set x | x in s
  }

  /** The indices {0, ..., n-1} of a tour of n locations. */
  function Indices(n: nat): (r: set<int>)
    ensures forall x :: x in r ==> 0 <= x < n
    ensures |r| == n
  {
    if n == 0 then {} else Indices(n - 1) + {n - 1}
  }

  lemma {:induction false} IndicesMembers(n: nat, x: int)
    ensures x in Indices(n) <==> 0 <= x < n
  {
    if n > 0 {
      IndicesMembers(n - 1, x);
    }
  }

  /** The set of indices in a list without duplicates has as many elements as the list. */
  lemma {:induction false} DistinctCardinality(s: seq<int>)
    requires NoDuplicates(s)
    ensures |Elements(s)| == |s|
  {
    if s != [] {
      var last := s[|s| - 1];
      var init := s[..|s| - 1];
      assert NoDuplicates(init);
      DistinctCardinality(init);
      assert Elements(s) == Elements(init) + {last};
      assert last !in Elements(init);
    }
  }

  lemma SubsetCardinality(a: set<int>, b: set<int>)
    requires a <= b
    ensures |a| <= |b|
    ensures |a| == |b| ==> a == b
  {
    assert b == a + (b - a);
    assert a * (b - a) == {};
    if |a| == |b| {
      assert |b - a| == 0;
    }
  }

  /**
   * In a well-formed state the completion test of NavigateToLocation,
   * "visited count >= TotalLocations", holds exactly when every location
   * of the tour is in the visited list.
   */
  lemma {:induction false} CompleteIffAllVisited(db: Option<LocationDatabase>, s: TourState)
    requires TourInvariant(db, s)
    ensures |s.visited| >= LocationCount(db) <==> forall j :: 0 <= j < LocationCount(db) ==> j in s.visited
  {
    var n := LocationCount(db);
    DistinctCardinality(s.visited);
    forall v | v in Elements(s.visited) ensures v in Indices(n) {
      IndicesMembers(n, v);
    }
    SubsetCardinality(Elements(s.visited), Indices(n));
    if |s.visited| >= n {
      forall j | 0 <= j < n ensures j in s.visited {
        IndicesMembers(n, j);
      }
    }
    if forall j :: 0 <= j < n ==> j in s.visited {
      forall j | j in Indices(n) ensures j in Elements(s.visited) {
        IndicesMembers(n, j);
      }
      SubsetCardinality(Indices(n), Elements(s.visited));
    }
  }

  /**
   * From a well-formed state, a valid navigation raises TourCompleted
   * exactly when, afterwards, every location has been marked visited;
   * and once that holds it is raised again on every later valid navigation.
   */
  lemma TourCompletedIffAllVisited(db: Option<LocationDatabase>, s: TourState, index: int)
    requires TourInvariant(db, s)
    requires 0 <= index < LocationCount(db)
    ensures var r := Navigate(db, s, index);
      TourCompleted in r.events <==> forall j :: 0 <= j < LocationCount(db) ==> j in r.state.visited
    ensures |s.visited| >= LocationCount(db) ==> TourCompleted in Navigate(db, s, index).events
  {
    NavigatePreserves(db, s, index);
    CompleteIffAllVisited(db, Navigate(db, s, index).state);
  }

  /**
   * Three locations, starting at 0: navigating to 2, then 1, then 0 leaves
   * visited = [0, 2, 1], and only the last step raises TourCompleted.
   */
  lemma ThreeLocationTour(db: Option<LocationDatabase>)
    requires LocationCount(db) == 3
    ensures var locs := db.value.locations;
      var r := NavigateAll(db, TourState(0, []), [2, 1, 0]);
      && r.state == TourState(0, [0, 2, 1])
      && r.events == [LocationChanged(locs[2]), LocationChanged(locs[1]), LocationChanged(locs[0]), TourCompleted]
  {
  }

  /** GameManager: the tour controller, whose fields its methods update in place. */
  class GameManager {
    /** The serialized configuration: the location database and the starting index. */
    const locationDatabase: Option<LocationDatabase>
    const startingLocationIndex: int

    var currentLocationIndex: int
    var visitedLocations: seq<int>
    /** Every notification raised so far, in order: what the subscribers of OnLocationChanged and OnTourCompleted receive. */
    var notifications: seq<TourEvent>

    function State(): TourState
      reads this
    {
      TourState(currentLocationIndex, visitedLocations)
    }

    function TotalLocations(): (n: nat)
      ensures n == LocationCount(locationDatabase)
    {
      LocationCount(locationDatabase)
    }

    /** The field initialisers: index 0, nothing visited, nothing raised. */
    constructor (locationDatabase: Option<LocationDatabase>, startingLocationIndex: int)
      ensures this.locationDatabase == locationDatabase
      ensures this.startingLocationIndex == startingLocationIndex
      ensures State() == TourState(0, []) && notifications == []
    {
      this.locationDatabase := locationDatabase;
      this.startingLocationIndex := startingLocationIndex;
      currentLocationIndex := 0;
      visitedLocations := [];
      notifications := [];
    }

    /** Start of the session: back to the starting index with an empty visited list. */
    method InitializeGame()
      modifies this
      ensures State() == TourState(startingLocationIndex, [])
      ensures notifications == old(notifications)
      ensures 0 <= startingLocationIndex < TotalLocations() ==> TourInvariant(locationDatabase, State())
    {
      currentLocationIndex := startingLocationIndex;
      visitedLocations := [];
    }

    method NavigateToLocation(locationIndex: int)
      modifies this
      ensures var r := Navigate(locationDatabase, old(State()), locationIndex);
        State() == r.state && notifications == old(notifications) + r.events
    {
      if locationIndex < 0 || locationIndex >= TotalLocations() {
        return;
      }
      if currentLocationIndex !in visitedLocations {
        visitedLocations := visitedLocations + [currentLocationIndex];
      }
      currentLocationIndex := locationIndex;
      var newLocation := GetLocation(locationDatabase, locationIndex);
      notifications := notifications + [LocationChanged(newLocation.value)];
      if |visitedLocations| >= TotalLocations() {
        notifications := notifications + [TourCompleted];
      }
    }

    method NavigateToNextLocation()
      modifies this
      ensures var next := old(currentLocationIndex) + 1;
        if next < TotalLocations() then
          var r := Navigate(locationDatabase, old(State()), next);
          State() == r.state && notifications == old(notifications) + r.events
        else
          State() == old(State()) && notifications == old(notifications)
    {
      var nextIndex := currentLocationIndex + 1;
      if nextIndex < TotalLocations() {
        NavigateToLocation(nextIndex);
      }
    }

    method NavigateToPreviousLocation()
      modifies this
      ensures var prev := old(currentLocationIndex) - 1;
        if prev >= 0 then
          var r := Navigate(locationDatabase, old(State()), prev);
          State() == r.state && notifications == old(notifications) + r.events
        else
          State() == old(State()) && notifications == old(notifications)
    {
      var prevIndex := currentLocationIndex - 1;
      if prevIndex >= 0 {
        NavigateToLocation(prevIndex);
      }
    }

    function HasVisitedLocation(index: int): (r: bool)
      reads this
      ensures r <==> exists k :: 0 <= k < |visitedLocations| && visitedLocations[k] == index
    {
      index in visitedLocations
    }

    function IsFirstLocation(): (r: bool)
      reads this
      ensures r <==> currentLocationIndex == 0
    {
      currentLocationIndex == 0
    }

    function IsLastLocation(): (r: bool)
      reads this
      ensures r <==> currentLocationIndex == TotalLocations() - 1
    {
      currentLocationIndex == TotalLocations() - 1
    }
  }

  /**
   * In a well-formed state the ends of the tour are exactly where the
   * guarded wrappers refuse to move: next is refused at the last location,
   * previous at the first.
   */
  lemma EndsAreWhereWrappersRefuse(g: GameManager)
    requires TourInvariant(g.locationDatabase, g.State())
    ensures g.IsLastLocation() <==> g.currentLocationIndex + 1 >= g.TotalLocations()
    ensures g.IsFirstLocation() <==> g.currentLocationIndex - 1 < 0
  {
  }
}
